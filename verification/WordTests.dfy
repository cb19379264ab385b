/**
 What `could_be_arith` and `could_be_interest` decide about the words of two buffers, told on their
 bytes: which of the smaller changes would make the one buffer from the other.
 */
module WordTests {
  import opened Bytes
  import opened DupTests
  import opened DetStages
  import opened DetWords

  /** The buffers differ at most in byte k, which becomes v. */
  predicate ByteSet(buf: seq<byte>, t: seq<byte>, k: nat, v: nat)
    requires k < |buf| == |t|
  {
    AgreeOutside(t, buf, k, 1) && t[k] as nat == v
  }

  /** The buffers differ at most in the two bytes at k, which read v in this order. */
  predicate PairSet(order: Order, buf: seq<byte>, t: seq<byte>, k: nat, v: nat)
    requires k + 2 <= |buf| == |t|
  {
    AgreeOutside(t, buf, k, 2) && Read(order, t, k, 2) == v
  }

  predicate ByteMoves(buf: seq<byte>, t: seq<byte>, k: nat, j: int)
    requires k < |buf| == |t|
  {
    -35 <= j <= 35 && ByteSet(buf, t, k, (buf[k] as int + j) % 0x100)
  }

  predicate PairMoves(order: Order, buf: seq<byte>, t: seq<byte>, k: nat, j: int)
    requires k + 2 <= |buf| == |t|
  {
    -35 <= j <= 35 && PairSet(order, buf, t, k, (Read(order, buf, k, 2) + j) % 0x1_0000)
  }

  predicate WordMoves(order: Order, buf: seq<byte>, t: seq<byte>, i: nat, j: int)
    requires i + 4 <= |buf| == |t|
  {
    -35 <= j <= 35 && Read(order, t, i, 4) == (Read(order, buf, i, 4) + j) % 0x1_0000_0000
  }

  /** One byte, one aligned pair of bytes or all four bytes of the word are moved by at most 35. */
  ghost predicate ArithMakes(buf: seq<byte>, t: seq<byte>, i: nat, w: nat)
    requires (w == 2 || w == 4) && i + w <= |buf| == |t|
  {
    || (exists k, j :: i <= k < i + w && ByteMoves(buf, t, k, j))
    || (exists order, k, j :: (k == i || (w == 4 && k == i + 2)) && PairMoves(order, buf, t, k, j))
    || (w == 4 && exists order, j :: WordMoves(order, buf, t, i, j))
  }

  /** An interesting value in two bytes; big endian only in a word of four. */
  predicate SetsPair(order: Order, buf: seq<byte>, t: seq<byte>, w: nat, k: nat, l: nat)
    requires k + 2 <= |buf| == |t|
  {
    && l < |INTERESTING_16| && (w == 2 ==> order.LittleEndian?)
    && PairSet(order, buf, t, k, INTERESTING_16[l] % 0x1_0000)
  }

  /** Nothing changes; or an interesting value stands in one byte, in two neighbouring bytes or in all
      four bytes of the word.  What the stage itself has tried counts with checkLe only. */
  ghost predicate InterestMakes(buf: seq<byte>, t: seq<byte>, i: nat, w: nat, checkLe: bool)
    requires (w == 2 || w == 4) && i + w <= |buf| == |t|
  {
    || t == buf
    || (exists k, l :: i <= k < i + w && 0 <= l < |INTERESTING_8| && ByteSet(buf, t, k, INTERESTING_8[l] % 0x100))
    || ((w == 4 || checkLe) && exists order, k, l :: i <= k < i + w - 1 && SetsPair(order, buf, t, w, k, l))
    || (w == 4 && checkLe && IsInteresting(LittleEndian, t, i, 4))
  }

  // ----- four digits -----

  /** The bytes of a word, padded by zeros. */
  type Digits4 = s: seq<int> | |s| == 4 && forall k :: 0 <= k < 4 ==> 0 <= s[k] < 256 witness [0, 0, 0, 0]

  function Number(s: Digits4): U32 {
    OfBytes(s[0], s[1], s[2], s[3])
  }

  lemma NumberByte(s: Digits4, k: nat)
    requires k < 4
    ensures Byte(Number(s), k) == s[k]
  {
    hide Byte;
    OfBytesByte(s[0], s[1], s[2], s[3]);
  }

  lemma SameNumber(s: Digits4, u: Digits4)
    ensures Number(s) == Number(u) <==> s == u
  {
    hide OfBytes;
    SameDigits(s[0], s[1], s[2], s[3], u[0], u[1], u[2], u[3]);
  }

  lemma WithByteIs(s: Digits4, k: nat, b: int)
    requires k < 4 && 0 <= b < 256
    ensures WithByte(Number(s), k, b) == Number(s[k := b])
  {
    NumberByte(s, k);
    hide Byte;
  }

  lemma NumberHalf(s: Digits4, k: nat)
    requires k < 3
    ensures Half(Number(s), k) == s[k] + 0x100 * s[k + 1]
  {
    var x := Number(s);
    if k == 0 {
      LowHalf(s[0] + 0x100 * s[1], s[2] + 0x100 * s[3]);
    } else if k == 1 {
      Quotient(s[0], s[1] + 0x100 * s[2] + 0x1_0000 * s[3], 0x100);
      LowHalf(s[1] + 0x100 * s[2], s[3]);
    } else {
      Quotient(s[0] + 0x100 * s[1], s[2] + 0x100 * s[3], 0x1_0000);
      LowHalf(s[2] + 0x100 * s[3], 0);
    }
  }

  lemma LowHalf(lo: U16, hi: nat)
    ensures (lo + 0x1_0000 * hi) % 0x1_0000 == lo
  {
  }

  lemma Quotient(lo: nat, hi: nat, m: nat)
    requires lo < m && (m == 0x100 || m == 0x1_0000)
    ensures (lo + m * hi) / m == hi
  {
  }

  lemma WithHalfIs(s: Digits4, k: nat, h: U16)
    requires k < 3
    ensures WithHalf(Number(s), k, h) == Number(s[k := h % 0x100][k + 1 := h / 0x100])
  {
    NumberHalf(s, k);
    hide Half;
  }

  function Padded(buf: seq<byte>, i: nat, w: nat): (s: Digits4)
    requires (w == 2 || w == 4) && i + w <= |buf|
    ensures Number(s) == Read(LittleEndian, buf, i, w)
  {
    [buf[i] as int, buf[i + 1] as int,
     if w == 2 then 0 else buf[i + 2] as int, if w == 2 then 0 else buf[i + 3] as int]
  }

  lemma PaddedAt(buf: seq<byte>, i: nat, w: nat, k: nat)
    requires (w == 2 || w == 4) && i + w <= |buf| && k < w
    ensures Padded(buf, i, w)[k] == buf[i + k] as int
  {
  }

  lemma ByteStep(buf: seq<byte>, t: seq<byte>, i: nat, w: nat, k: nat, v: nat)
    requires (w == 2 || w == 4) && i + w <= |buf| == |t| && AgreeOutside(t, buf, i, w) && k < w && v < 0x100
    ensures Read(LittleEndian, t, i, w) == WithByte(Read(LittleEndian, buf, i, w), k, v) <==> ByteSet(buf, t, i + k, v)
  {
    hide Read, Number;
    var s, u := Padded(buf, i, w), Padded(t, i, w);
    WithByteIs(s, k, v);
    SameNumber(u, s[k := v]);
    forall l | 0 <= l < w
      ensures s[l] == buf[i + l] as int && u[l] == t[i + l] as int
    {
      PaddedAt(buf, i, w, l);
      PaddedAt(t, i, w, l);
    }
    assert w == 2 ==> s[2..] == u[2..] == [0, 0];
    if ByteSet(buf, t, i + k, v) {
      forall l | 0 <= l < 4
        ensures u[l] == s[k := v][l]
      {
        assert l < w && l != k ==> t[i + l] == buf[i + l];
      }
    }
    if u == s[k := v] {
      forall l | 0 <= l < |t| && l != i + k
        ensures t[l] == buf[l]
      {
        assert i <= l < i + w ==> u[l - i] == s[l - i];
      }
      assert u[k] == v;
    }
  }

  /** The two bytes that read v in this order, as a little-endian pair. */
  function Pair(order: Order, v: U16): U16 {
    if order.LittleEndian? then v else Swap16(v)
  }

  lemma PairReads(order: Order, t: seq<byte>, k: nat, v: U16)
    requires k + 2 <= |t|
    ensures Read(order, t, k, 2) == v <==>
              t[k] as int == Pair(order, v) % 0x100 && t[k + 1] as int == Pair(order, v) / 0x100
  {
    if order.LittleEndian? {
      Digits(t[k + 1] as int, t[k] as int);
    } else {
      Digits(v % 0x100, v / 0x100);
      Digits(t[k] as int, t[k + 1] as int);
    }
  }

  lemma PairStep(order: Order, buf: seq<byte>, t: seq<byte>, i: nat, w: nat, k: nat, v: U16)
    requires (w == 2 || w == 4) && i + w <= |buf| == |t| && AgreeOutside(t, buf, i, w) && k < w - 1
    ensures Read(LittleEndian, t, i, w) == WithHalf(Read(LittleEndian, buf, i, w), k, Pair(order, v))
       <==> PairSet(order, buf, t, i + k, v)
  {
    hide Read, Number, Pair, WithHalf;
    var s, u := Padded(buf, i, w), Padded(t, i, w);
    var p := Pair(order, v);
    WithHalfIs(s, k, p);
    PairReads(order, t, i + k, v);
    var r: Digits4 := s[k := p % 0x100][k + 1 := p / 0x100];
    SameNumber(u, r);
    forall l | 0 <= l < w
      ensures s[l] == buf[i + l] as int && u[l] == t[i + l] as int
    {
      PaddedAt(buf, i, w, l);
      PaddedAt(t, i, w, l);
    }
    assert w == 2 ==> s[2..] == u[2..] == [0, 0];
    if PairSet(order, buf, t, i + k, v) {
      forall l | 0 <= l < 4
        ensures u[l] == r[l]
      {
        assert l < w && l != k && l != k + 1 ==> t[i + l] == buf[i + l];
      }
    }
    if u == r {
      forall l | 0 <= l < |t| && l != i + k && l != i + k + 1
        ensures t[l] == buf[l]
      {
        assert i <= l < i + w ==> u[l - i] == s[l - i];
      }
      assert u[k] == p % 0x100 && u[k + 1] == p / 0x100;
    }
  }

  // ----- could_be_arith -----

  lemma BytesMove(buf: seq<byte>, t: seq<byte>, i: nat, w: nat)
    requires (w == 2 || w == 4) && i + w <= |buf| == |t| && AgreeOutside(t, buf, i, w)
    ensures ByteArith(Read(LittleEndian, buf, i, w), Read(LittleEndian, t, i, w), w)
       <==> exists k, j :: i <= k < i + w && ByteMoves(buf, t, k, j)
  {
    hide Read, WithByte, ByteSet, AgreeOutside, Byte;
    var was, now := Read(LittleEndian, buf, i, w), Read(LittleEndian, t, i, w);
    forall k, j | 0 <= k < w && Step(j)
      ensures now == WithByte(was, k, Moved(Byte(was, k), j, 0x100)) <==> ByteMoves(buf, t, i + k, j)
    {
      ReadByte(buf, i, w, k);
      ByteStep(buf, t, i, w, k, Moved(Byte(was, k), j, 0x100));
    }
    if k, j :| i <= k < i + w && ByteMoves(buf, t, k, j) {
      var l := k - i;
      assert i + l == k && Step(j);
      assert now == WithByte(was, l, Moved(Byte(was, l), j, 0x100));
    }
  }

  lemma ReadByte(buf: seq<byte>, i: nat, w: nat, k: nat)
    requires (w == 2 || w == 4) && i + w <= |buf| && k < w
    ensures Byte(Read(LittleEndian, buf, i, w), k) == buf[i + k] as int
  {
    hide Read, Number, Byte;
    NumberByte(Padded(buf, i, w), k);
    PaddedAt(buf, i, w, k);
  }

  lemma ReadHalf(buf: seq<byte>, i: nat, w: nat, k: nat)
    requires (w == 2 || w == 4) && i + w <= |buf| && k < w - 1
    ensures Half(Read(LittleEndian, buf, i, w), k) == Read(LittleEndian, buf, i + k, 2) < 0x1_0000
    ensures Swap16(Half(Read(LittleEndian, buf, i, w), k)) == Read(BigEndian, buf, i + k, 2)
  {
    hide Number, Half, Peek, Swap16, Padded;
    NumberHalf(Padded(buf, i, w), k);
    PaddedAt(buf, i, w, k);
    PaddedAt(buf, i, w, k + 1);
    ReadLittle(buf, i + k, 2);
    ReadBig2(buf, i + k);
  }

  /** Adding j to the aligned half at byte k, in either byte order. */
  predicate HalfMovesTo(was: U32, now: U32, k: nat, j: int) {
    || now == WithHalf(was, k, Moved(Half(was, k), j, 0x1_0000))
    || now == WithHalf(was, k, Swap16(Moved(Swap16(Half(was, k)), j, 0x1_0000)))
  }

  lemma HalfMoves(buf: seq<byte>, t: seq<byte>, i: nat, w: nat, k: nat, j: int)
    requires (w == 2 || w == 4) && i + w <= |buf| == |t| && AgreeOutside(t, buf, i, w) && k < w - 1 && Step(j)
    ensures 0 <= Read(LittleEndian, buf, i, w) < 0x1_0000_0000 && 0 <= Read(LittleEndian, t, i, w) < 0x1_0000_0000
    ensures HalfMovesTo(Read(LittleEndian, buf, i, w), Read(LittleEndian, t, i, w), k, j)
       <==> PairMoves(LittleEndian, buf, t, i + k, j) || PairMoves(BigEndian, buf, t, i + k, j)
  {
    hide Read, WithHalf, Half, PairSet, Swap16, AgreeOutside;
    ReadLittle(buf, i, w);
    ReadLittle(t, i, w);
    ReadHalf(buf, i, w, k);
    PairStep(LittleEndian, buf, t, i, w, k, (Read(LittleEndian, buf, i + k, 2) + j) % 0x1_0000);
    PairStep(BigEndian, buf, t, i, w, k, (Read(BigEndian, buf, i + k, 2) + j) % 0x1_0000);
  }

  lemma HalfArithIs(was: U32, now: U32, w: nat)
    ensures HalfArith(was, now, w) <==> exists h: nat, j :: h < w / 2 && Step(j) && HalfMovesTo(was, now, 2 * h, j)
  {
    hide WithHalf, Half, Swap16;
    if HalfArith(was, now, w) {
      var h: nat, j :| h < w / 2 && Step(j) &&
        (|| now == WithHalf(was, 2 * h, Moved(Half(was, 2 * h), j, 0x1_0000))
         || now == WithHalf(was, 2 * h, Swap16(Moved(Swap16(Half(was, 2 * h)), j, 0x1_0000))));
      assert HalfMovesTo(was, now, 2 * h, j);
    }
  }

  ghost predicate SomePairMoves(buf: seq<byte>, t: seq<byte>, i: nat, w: nat)
    requires (w == 2 || w == 4) && i + w <= |buf| == |t|
  {
    exists order, k, j :: (k == i || (w == 4 && k == i + 2)) && PairMoves(order, buf, t, k, j)
  }

  lemma HalfGivesPair(buf: seq<byte>, t: seq<byte>, i: nat, w: nat, h: nat, j: int)
    requires (w == 2 || w == 4) && i + w <= |buf| == |t| && AgreeOutside(t, buf, i, w) && h < w / 2 && Step(j)
    requires Read(LittleEndian, buf, i, w) < 0x1_0000_0000 && Read(LittleEndian, t, i, w) < 0x1_0000_0000
    requires HalfMovesTo(Read(LittleEndian, buf, i, w), Read(LittleEndian, t, i, w), 2 * h, j)
    ensures SomePairMoves(buf, t, i, w)
  {
    hide Read, HalfMovesTo, PairMoves, AgreeOutside;
    HalfMoves(buf, t, i, w, 2 * h, j);
    assert i + 2 * h == i || (w == 4 && i + 2 * h == i + 2);
  }

  lemma PairGivesHalf(order: Order, buf: seq<byte>, t: seq<byte>, i: nat, w: nat, k: nat, j: int)
    requires (w == 2 || w == 4) && i + w <= |buf| == |t| && AgreeOutside(t, buf, i, w)
    requires Read(LittleEndian, buf, i, w) < 0x1_0000_0000 && Read(LittleEndian, t, i, w) < 0x1_0000_0000
    requires (k == i || (w == 4 && k == i + 2)) && PairMoves(order, buf, t, k, j)
    ensures Step(j) && (k - i) / 2 < w / 2
    ensures HalfMovesTo(Read(LittleEndian, buf, i, w), Read(LittleEndian, t, i, w), 2 * ((k - i) / 2), j)
  {
    assert Step(j);
    hide Read, HalfMovesTo, PairMoves, AgreeOutside;
    HalfMoves(buf, t, i, w, k - i, j);
    match order {
      case LittleEndian => assert PairMoves(LittleEndian, buf, t, k, j);
      case BigEndian => assert PairMoves(BigEndian, buf, t, k, j);
    }
  }

  lemma HalvesMove(buf: seq<byte>, t: seq<byte>, i: nat, w: nat)
    requires (w == 2 || w == 4) && i + w <= |buf| == |t| && AgreeOutside(t, buf, i, w)
    ensures HalfArith(Read(LittleEndian, buf, i, w), Read(LittleEndian, t, i, w), w) <==> SomePairMoves(buf, t, i, w)
  {
    hide Read, HalfArith, HalfMovesTo, PairMoves, AgreeOutside;
    Words(buf, i, w);
    Words(t, i, w);
    var was, now := Read(LittleEndian, buf, i, w), Read(LittleEndian, t, i, w);
    HalfArithIs(was, now, w);
    if h: nat, j :| h < w / 2 && Step(j) && HalfMovesTo(was, now, 2 * h, j) {
      HalfGivesPair(buf, t, i, w, h, j);
    }
    if order, k, j :| (k == i || (w == 4 && k == i + 2)) && PairMoves(order, buf, t, k, j) {
      PairGivesHalf(order, buf, t, i, w, k, j);
    }
  }

  lemma WholeMoves(buf: seq<byte>, t: seq<byte>, i: nat)
    requires i + 4 <= |buf| == |t|
    ensures 0 <= Read(LittleEndian, buf, i, 4) < 0x1_0000_0000 && 0 <= Read(LittleEndian, t, i, 4) < 0x1_0000_0000
    ensures WordArith(Read(LittleEndian, buf, i, 4), Read(LittleEndian, t, i, 4))
       <==> exists order, j :: WordMoves(order, buf, t, i, j)
  {
    hide Read, Swap32;
    Words(buf, i, 4);
    Words(t, i, 4);
    var was, now := Read(LittleEndian, buf, i, 4), Read(LittleEndian, t, i, 4);
    forall j | Step(j)
      ensures now == Swap32(Moved(Swap32(was), j, 0x1_0000_0000)) <==> WordMoves(BigEndian, buf, t, i, j)
      ensures now == Moved(was, j, 0x1_0000_0000) <==> WordMoves(LittleEndian, buf, t, i, j)
    {
      SwapsTo32(now, Moved(Swap32(was), j, 0x1_0000_0000));
    }
    if order, j :| WordMoves(order, buf, t, i, j) {
      match order {
        case LittleEndian => assert WordMoves(LittleEndian, buf, t, i, j);
        case BigEndian => assert WordMoves(BigEndian, buf, t, i, j);
      }
      assert Step(j);
    }
  }

  /** The test for arithmetics, on buffers that differ in one word only. */
  lemma ArithTest(buf: seq<byte>, t: seq<byte>, i: nat, w: nat)
    requires (w == 2 || w == 4) && i + w <= |buf| == |t| && AgreeOutside(t, buf, i, w)
    ensures Read(LittleEndian, buf, i, w) < 0x1_0000_0000 && Read(LittleEndian, t, i, w) < 0x1_0000_0000
    ensures IsArith(Read(LittleEndian, buf, i, w), Read(LittleEndian, t, i, w), w) <==> ArithMakes(buf, t, i, w)
  {
    hide Read, ByteArith, HalfArith, WordArith, ByteMoves, PairMoves, WordMoves, AgreeOutside;
    Words(buf, i, w);
    Words(t, i, w);
    BytesMove(buf, t, i, w);
    HalvesMove(buf, t, i, w);
    if w == 4 {
      WholeMoves(buf, t, i);
    }
  }

  // ----- could_be_interest -----

  lemma BytesSet(buf: seq<byte>, t: seq<byte>, i: nat, w: nat)
    requires (w == 2 || w == 4) && i + w <= |buf| == |t| && AgreeOutside(t, buf, i, w)
    ensures ByteInterest(Read(LittleEndian, buf, i, w), Read(LittleEndian, t, i, w), w)
       <==> exists k, l :: i <= k < i + w && 0 <= l < |INTERESTING_8| && ByteSet(buf, t, k, INTERESTING_8[l] % 0x100)
  {
    hide Read, WithByte, ByteSet, AgreeOutside, Byte, INTERESTING_8;
    var was, now := Read(LittleEndian, buf, i, w), Read(LittleEndian, t, i, w);
    forall k: nat, l | k < w && 0 <= l < |INTERESTING_8|
      ensures now == WithByte(was, k, INTERESTING_8[l] % 0x100) <==> ByteSet(buf, t, i + k, INTERESTING_8[l] % 0x100)
    {
      ByteStep(buf, t, i, w, k, INTERESTING_8[l] % 0x100);
    }
    if k, l :| i <= k < i + w && 0 <= l < |INTERESTING_8| && ByteSet(buf, t, k, INTERESTING_8[l] % 0x100) {
      var m := k - i;
      assert i + m == k;
      assert now == WithByte(was, m, INTERESTING_8[l] % 0x100);
    }
  }

  lemma HalfSets(buf: seq<byte>, t: seq<byte>, i: nat, w: nat, k: nat, v: int)
    requires (w == 2 || w == 4) && i + w <= |buf| == |t| && AgreeOutside(t, buf, i, w) && k < w - 1
    ensures HalfStored(Read(LittleEndian, buf, i, w), Read(LittleEndian, t, i, w), w, k, v)
       <==> PairSet(LittleEndian, buf, t, i + k, v % 0x1_0000)
            || (w == 4 && PairSet(BigEndian, buf, t, i + k, v % 0x1_0000))
  {
    hide Read, WithHalf, Half, PairSet, Swap16, AgreeOutside;
    PairStep(LittleEndian, buf, t, i, w, k, v % 0x1_0000);
    PairStep(BigEndian, buf, t, i, w, k, v % 0x1_0000);
  }

  lemma HalvesSet(buf: seq<byte>, t: seq<byte>, i: nat, w: nat)
    requires (w == 2 || w == 4) && i + w <= |buf| == |t| && AgreeOutside(t, buf, i, w)
    ensures HalfInterest(Read(LittleEndian, buf, i, w), Read(LittleEndian, t, i, w), w)
       <==> exists order, k, l :: i <= k < i + w - 1 && SetsPair(order, buf, t, w, k, l)
  {
    hide Read, WithHalf, Half, PairSet, HalfStored, AgreeOutside, INTERESTING_16;
    var was, now := Read(LittleEndian, buf, i, w), Read(LittleEndian, t, i, w);
    forall k: nat, l: nat | k < w - 1 && l < |INTERESTING_16|
      ensures HalfStored(was, now, w, k, INTERESTING_16[l]) <==>
              SetsPair(LittleEndian, buf, t, w, i + k, l) || SetsPair(BigEndian, buf, t, w, i + k, l)
    {
      HalfSets(buf, t, i, w, k, INTERESTING_16[l]);
    }
    if order, k, l :| i <= k < i + w - 1 && SetsPair(order, buf, t, w, k, l) {
      var m := k - i;
      assert i + m == k;
      match order {
        case LittleEndian => assert SetsPair(LittleEndian, buf, t, w, k, l);
        case BigEndian => assert SetsPair(BigEndian, buf, t, w, k, l);
      }
      assert HalfStored(was, now, w, m, INTERESTING_16[l]);
    }
  }

  lemma SameWord(buf: seq<byte>, t: seq<byte>, i: nat, w: nat)
    requires (w == 2 || w == 4) && i + w <= |buf| == |t| && AgreeOutside(t, buf, i, w)
    ensures Read(LittleEndian, buf, i, w) == Read(LittleEndian, t, i, w) <==> t == buf
  {
    hide Read, Poke, Peek, AgreeOutside;
    Words(buf, i, w);
    Words(t, i, w);
    RangeOfSpan(if w == 2 then Flip16 else Flip32);
    StoredIff(buf, t, i, w, Peek(buf, i, w));
    PokePeek(buf, i, w);
  }

  lemma WholeSet(t: seq<byte>, i: nat)
    requires i + 4 <= |t|
    ensures 0 <= Read(LittleEndian, t, i, 4) && (WordInterest(Read(LittleEndian, t, i, 4)) <==> IsInteresting(LittleEndian, t, i, 4))
  {
    hide Read, INTERESTING_32;
    var now := Read(LittleEndian, t, i, 4);
    assert Values(4) == INTERESTING_32 && Size(4) == 0x1_0000_0000;
    if j: nat :| j < |INTERESTING_32| && now == INTERESTING_32[j] % 0x1_0000_0000 {
      assert now == Values(4)[j] % Size(4);
    }
  }

  /** The test for interesting values, on buffers that differ in one word only. */
  lemma InterestTest(buf: seq<byte>, t: seq<byte>, i: nat, w: nat, checkLe: bool)
    requires (w == 2 || w == 4) && i + w <= |buf| == |t| && AgreeOutside(t, buf, i, w)
    ensures Read(LittleEndian, buf, i, w) < 0x1_0000_0000 && Read(LittleEndian, t, i, w) < 0x1_0000_0000
    ensures IsInterest(Read(LittleEndian, buf, i, w), Read(LittleEndian, t, i, w), w, checkLe)
       <==> InterestMakes(buf, t, i, w, checkLe)
  {
    hide Read, ByteInterest, HalfInterest, WordInterest, IsInteresting, ByteSet, SetsPair, AgreeOutside;
    hide INTERESTING_8, INTERESTING_16, Swap16, Swap32, Peek;
    Words(buf, i, w);
    Words(t, i, w);
    SameWord(buf, t, i, w);
    BytesSet(buf, t, i, w);
    HalvesSet(buf, t, i, w);
    if w == 4 {
      WholeSet(t, i);
    }
  }

  /** What interest 16/8 and interest 32/8 run for the word at i, all told on bytes but the test for flips. */
  lemma InterestRuns(stage: Stage, buf: seq<byte>, i: nat, t: seq<byte>)
    requires IsWide(stage) && i + Span(stage) <= |buf|
    ensures var w := Span(stage);
            t in WordLog(stage, buf, i) <==>
              && AgreeOutside(t, buf, i, w) && !IsFlip(buf, t, i, w) && !ArithMakes(buf, t, i, w)
              && (|| (IsInteresting(LittleEndian, t, i, w) && !InterestMakes(buf, t, i, w, false))
                  || (IsInteresting(BigEndian, t, i, w) && Read(LittleEndian, t, i, w) != Read(BigEndian, t, i, w)
                      && !InterestMakes(buf, t, i, w, true)))
  {
    hide WordLog, Read, IsInteresting, InterestMakes, ArithMakes, IsArith, IsInterest, IsBitflip, AgreeOutside;
    var w := Span(stage);
    InterestWords(stage, buf, i, t);
    if AgreeOutside(t, buf, i, w) {
      SameLength(t, buf, i, w);
      ArithTest(buf, t, i, w);
      InterestTest(buf, t, i, w, false);
      InterestTest(buf, t, i, w, true);
    }
  }
}
