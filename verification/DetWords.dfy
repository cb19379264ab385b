/**
 What the 16- and 32-bit deterministic stages do to the bytes of the buffer: a test case is run for a
 word exactly if it differs from the input in that word only, and the word, read in one of the two byte
 orders, is moved by a small step or replaced by an interesting value, unless the stage leaves it to
 another one.
 */
module DetWords {
  import opened Bytes
  import opened DupTests
  import opened DetStages
  import DetCoverage

  datatype Order = LittleEndian | BigEndian

  /** Two or four bytes at i, as a number. */
  function Read(order: Order, buf: seq<byte>, i: nat, w: nat): (v: nat)
    requires (w == 2 || w == 4) && i + w <= |buf|
  {
    var b0, b1 := buf[i] as nat, buf[i + 1] as nat;
    match order
    case LittleEndian =>
      b0 + 0x100 * b1 + if w == 2 then 0 else 0x1_0000 * buf[i + 2] as nat + 0x100_0000 * buf[i + 3] as nat
    case BigEndian =>
      if w == 2 then 0x100 * b0 + b1
      else 0x100_0000 * b0 + 0x1_0000 * b1 + 0x100 * buf[i + 2] as nat + buf[i + 3] as nat
  }

  /** How many values w bytes have. */
  function Size(w: nat): (n: nat)
    ensures n > 0
  {
    if w == 2 then 0x1_0000 else 0x1_0000_0000
  }

  /** How many values the lower half of w bytes has. */
  function HalfSize(w: nat): (n: nat)
    ensures n > 0
  {
    if w == 2 then 0x100 else 0x1_0000
  }

  /** Adding j moves the upper half of a word with value v. */
  predicate Carries(v: nat, j: int, w: nat) {
    !(0 <= v % HalfSize(w) + j < HalfSize(w))
  }

  /** The word moves by j, across its halves. */
  predicate MovesBy(order: Order, buf: seq<byte>, t: seq<byte>, i: nat, w: nat, j: int)
    requires (w == 2 || w == 4) && i + w <= |buf| == |t|
  {
    && 1 <= (if j < 0 then -j else j) <= 35
    && Read(order, t, i, w) == (Read(order, buf, i, w) + j) % Size(w)
    && Carries(Read(order, buf, i, w), j, w)
  }

  predicate MovesSome(buf: seq<byte>, t: seq<byte>, i: nat, w: nat)
    requires (w == 2 || w == 4) && i + w <= |buf| == |t|
  {
    exists order, j :: -35 <= j <= 35 && MovesBy(order, buf, t, i, w, j)
  }

  /** The difference of the words is one that the walking flips make. */
  ghost predicate IsFlip(buf: seq<byte>, t: seq<byte>, i: nat, w: nat)
    requires (w == 2 || w == 4) && i + w <= |buf| == |t|
  {
    IsBitflip(Xor(Read(LittleEndian, buf, i, w), Read(LittleEndian, t, i, w)))
  }

  // ----- bytes and words -----

  lemma ReadLittle(buf: seq<byte>, i: nat, w: nat)
    requires (w == 2 || w == 4) && i + w <= |buf|
    ensures Read(LittleEndian, buf, i, w) == Peek(buf, i, w) < Size(w)
  {
    assert Peek(buf, i + w, 0) == 0 && Peek(buf, i + w - 1, 1) == buf[i + w - 1] as int;
    assert Peek(buf, i + w - 2, 2) == buf[i + w - 2] as int + 0x100 * buf[i + w - 1] as int;
  }

  lemma ReadBig2(buf: seq<byte>, i: nat)
    requires i + 2 <= |buf|
    ensures Peek(buf, i, 2) < 0x1_0000 && Read(BigEndian, buf, i, 2) == Swap16(Peek(buf, i, 2))
    ensures Peek(buf, i, 2) / 0x100 == Read(BigEndian, buf, i, 2) % 0x100
  {
    ReadLittle(buf, i, 2);
    Digits(buf[i + 1] as int, buf[i] as int);
  }

  lemma ReadBig4(buf: seq<byte>, i: nat)
    requires i + 4 <= |buf|
    ensures Peek(buf, i, 4) < 0x1_0000_0000 && Read(BigEndian, buf, i, 4) == Swap32(Peek(buf, i, 4))
  {
    hide Byte, Peek;
    ReadLittle(buf, i, 4);
    OfBytesByte(buf[i] as int, buf[i + 1] as int, buf[i + 2] as int, buf[i + 3] as int);
  }

  /** A buffer is the result of a store exactly if nothing else differs and the value is read back. */
  lemma StoredIff(buf: seq<byte>, t: seq<byte>, i: nat, w: nat, v: nat)
    requires i + w <= |buf| && v < Range(w)
    ensures t == Poke(buf, i, w, v) <==> AgreeOutside(t, buf, i, w) && Peek(t, i, w) == v
  {
    PeekPoke(buf, i, w, v);
    PokeAgrees(buf, buf, i, w, v);
    if AgreeOutside(t, buf, i, w) {
      PokeAgrees(t, buf, i, w, v);
      PokePeek(t, i, w);
    }
  }

  ghost predicate PutsIn(ts: seq<Try>, v: nat) {
    Put(v) in ts
  }

  lemma {:induction false} PosLogHas(buf: seq<byte>, i: nat, w: nat, ts: seq<Try>, t: seq<byte>)
    requires i + w <= |buf| && forall k :: 0 <= k < |ts| && ts[k].Put? ==> ts[k].value < Range(w)
    ensures t in PosLog(buf, i, w, ts) <==> AgreeOutside(t, buf, i, w) && PutsIn(ts, Peek(t, i, w))
  {
    hide Range, Poke, Peek, AgreeOutside;
    if ts != [] {
      var n := |ts| - 1;
      PosLogHas(buf, i, w, ts[..n], t);
      assert ts == ts[..n] + [ts[n]];
      if ts[n].Put? {
        StoredIff(buf, t, i, w, ts[n].value);
      }
    }
  }

  // ----- arithmetics -----

  /** Both directions of offset j, in both byte orders, for the stage of this width. */
  ghost function ArithStep(stage: Stage, orig: U32, j: int): seq<Try>
    requires (stage.Arith16? || stage.Arith32?) && orig < Range(Span(stage))
  {
    RangeOfSpan(stage);
    if stage.Arith16? then Arith16Step(orig, j) else Arith32Step(orig, j)
  }

  ghost predicate StepPuts(stage: Stage, orig: U32, j: int, v: nat)
    requires (stage.Arith16? || stage.Arith32?) && orig < Range(Span(stage))
  {
    PutsIn(ArithStep(stage, orig, j), v)
  }

  lemma {:induction false} ArithTriesPut(stage: Stage, orig: U32, n: nat, v: nat)
    requires (stage.Arith16? || stage.Arith32?) && orig < Range(Span(stage))
    ensures PutsIn(ArithTries(stage, orig, n), v) <==> exists j :: 1 <= j <= n && StepPuts(stage, orig, j, v)
  {
    hide Range, Arith16Step, Arith32Step;
    RangeOfSpan(stage);
    if n > 0 {
      ArithTriesPut(stage, orig, n - 1, v);
      assert ArithTries(stage, orig, n) == ArithTries(stage, orig, n - 1) + ArithStep(stage, orig, n);
      hide ArithTries, ArithStep;
      assert StepPuts(stage, orig, n, v) <==> PutsIn(ArithStep(stage, orig, n), v);
    }
  }

  lemma {:induction false} ArithTriesFit(stage: Stage, orig: U32, n: nat)
    requires (stage.Arith16? || stage.Arith32?) && orig < Range(Span(stage))
    ensures forall k :: 0 <= k < |ArithTries(stage, orig, n)| && ArithTries(stage, orig, n)[k].Put? ==>
              ArithTries(stage, orig, n)[k].value < Range(Span(stage))
  {
    hide Range, Fresh, Swap16, Swap32;
    RangeOfSpan(stage);
    if n > 0 {
      ArithTriesFit(stage, orig, n - 1);
    }
  }

  /** What offset j puts, with the word read in either byte order. */
  lemma Step16Puts(was: U16, now: U16, j: int)
    requires 1 <= j <= 35
    ensures PutsIn(Arith16Step(was, j), now) <==>
              Fresh(was, now) &&
              (|| (now == (was + j) % 0x1_0000 && Carries(was, j, 2))
               || (now == (was - j) % 0x1_0000 && Carries(was, -j, 2))
               || (Swap16(now) == (Swap16(was) + j) % 0x1_0000 && Carries(Swap16(was), j, 2))
               || (Swap16(now) == (Swap16(was) - j) % 0x1_0000 && Carries(Swap16(was), -j, 2)))
  {
    hide Fresh;
    Digits(was % 0x100, was / 0x100);
    assert Swap16(was) % 0x100 == was / 0x100;
    SwapsTo16(now, Moved(Swap16(was), j, 0x1_0000));
    SwapsTo16(now, Moved(Swap16(was), -j, 0x1_0000));
    hide Swap16;
  }

  lemma SwapsTo16(x: U16, y: U16)
    ensures x == Swap16(y) <==> Swap16(x) == y
  {
    Swap16Undoes(x);
    Swap16Undoes(y);
  }

  lemma Step32Puts(was: U32, now: U32, j: int)
    requires 1 <= j <= 35
    ensures PutsIn(Arith32Step(was, j), now) <==>
              Fresh(was, now) &&
              (|| (now == (was + j) % 0x1_0000_0000 && Carries(was, j, 4))
               || (now == (was - j) % 0x1_0000_0000 && Carries(was, -j, 4))
               || (Swap32(now) == (Swap32(was) + j) % 0x1_0000_0000 && Carries(Swap32(was), j, 4))
               || (Swap32(now) == (Swap32(was) - j) % 0x1_0000_0000 && Carries(Swap32(was), -j, 4)))
  {
    hide Fresh, Swap32;
    SwapsTo32(now, Moved(Swap32(was), j, 0x1_0000_0000));
    SwapsTo32(now, Moved(Swap32(was), -j, 0x1_0000_0000));
  }

  lemma SwapsTo32(x: U32, y: U32)
    ensures x == Swap32(y) <==> Swap32(x) == y
  {
    Swap32Undoes(x);
    Swap32Undoes(y);
  }

  /** The words of a test case, read in both orders. */
  lemma Words(buf: seq<byte>, i: nat, w: nat)
    requires (w == 2 || w == 4) && i + w <= |buf|
    ensures Read(LittleEndian, buf, i, w) == Peek(buf, i, w) < Size(w)
    ensures Read(BigEndian, buf, i, w) == if w == 2 then Swap16(Peek(buf, i, 2)) else Swap32(Peek(buf, i, 4))
  {
    ReadLittle(buf, i, w);
    if w == 2 {
      ReadBig2(buf, i);
    } else {
      ReadBig4(buf, i);
    }
  }

  predicate MovesEitherWay(buf: seq<byte>, t: seq<byte>, i: nat, w: nat, j: int)
    requires (w == 2 || w == 4) && i + w <= |buf| == |t|
  {
    || MovesBy(LittleEndian, buf, t, i, w, j) || MovesBy(LittleEndian, buf, t, i, w, -j)
    || MovesBy(BigEndian, buf, t, i, w, j) || MovesBy(BigEndian, buf, t, i, w, -j)
  }

  lemma StepMoves(stage: Stage, buf: seq<byte>, t: seq<byte>, i: nat, j: int)
    requires (stage.Arith16? || stage.Arith32?) && i + Span(stage) <= |buf| == |t| && 1 <= j <= 35
    requires Peek(buf, i, Span(stage)) < Range(Span(stage)) <= 0x1_0000_0000
    ensures var w := Span(stage);
            StepPuts(stage, Peek(buf, i, w), j, Peek(t, i, w)) <==>
              !IsFlip(buf, t, i, w) && MovesEitherWay(buf, t, i, w, j)
  {
    hide Read, Peek, Swap16, Swap32, Arith16Step, Arith32Step, Carries, Range, IsBitflip;
    var w := Span(stage);
    Words(buf, i, w);
    Words(t, i, w);
    if stage.Arith16? {
      Step16Puts(Peek(buf, i, w), Peek(t, i, w), j);
    } else {
      Step32Puts(Peek(buf, i, w), Peek(t, i, w), j);
    }
  }

  /** The test cases that arith 16/8 and arith 32/8 run for the word at i: the input with this word moved,
      in one of the byte orders, by 1 to 35 up or down with a carry into its upper half, except for those
      that the walking flips make. */
  lemma ArithWords(stage: Stage, buf: seq<byte>, i: nat, t: seq<byte>)
    requires (stage.Arith16? || stage.Arith32?) && i + Span(stage) <= |buf|
    ensures t in WordLog(stage, buf, i) <==>
              AgreeOutside(t, buf, i, Span(stage))
              && MovesSome(buf, t, i, Span(stage)) && !IsFlip(buf, t, i, Span(stage))
  {
    hide Range, Peek, Tries, StepPuts, AgreeOutside, MovesBy, PutsIn, IsFlip;
    RangeOfSpan(stage);
    var w := Span(stage);
    var orig := Peek(buf, i, w);
    var ts := ArithTries(stage, orig, ARITH_MAX);
    TriesAre(stage, orig);
    ArithTriesFit(stage, orig, ARITH_MAX);
    PosLogHas(buf, i, w, ts, t);
    if AgreeOutside(t, buf, i, w) {
      SameLength(t, buf, i, w);
      ArithTriesPut(stage, orig, ARITH_MAX, Peek(t, i, w));
      SomeMoves(stage, buf, t, i);
    }
  }

  lemma SameLength(t: seq<byte>, buf: seq<byte>, i: nat, w: nat)
    requires AgreeOutside(t, buf, i, w)
    ensures |t| == |buf|
  {
  }

  lemma TriesAre(stage: Stage, orig: U32)
    requires (stage.Arith16? || stage.Arith32?) && orig < Range(Span(stage))
    ensures Tries(stage, orig) == ArithTries(stage, orig, ARITH_MAX)
  {
  }

  lemma SomeMoves(stage: Stage, buf: seq<byte>, t: seq<byte>, i: nat)
    requires (stage.Arith16? || stage.Arith32?) && i + Span(stage) <= |buf| == |t|
    requires Peek(buf, i, Span(stage)) < Range(Span(stage)) <= 0x1_0000_0000
    ensures (exists j :: 1 <= j <= 35 && StepPuts(stage, Peek(buf, i, Span(stage)), j, Peek(t, i, Span(stage))))
       <==> MovesSome(buf, t, i, Span(stage)) && !IsFlip(buf, t, i, Span(stage))
  {
    hide Peek, Range, StepPuts, MovesSome, MovesEitherWay, IsFlip;
    var w := Span(stage);
    var was, now := Peek(buf, i, w), Peek(t, i, w);
    if MovesSome(buf, t, i, w) && !IsFlip(buf, t, i, w) {
      var j := MovesOneWay(buf, t, i, w);
      StepMoves(stage, buf, t, i, j);
    }
    if j :| 1 <= j <= 35 && StepPuts(stage, was, j, now) {
      StepMoves(stage, buf, t, i, j);
      MovesAnyWay(buf, t, i, w, j);
    }
  }

  lemma MovesOneWay(buf: seq<byte>, t: seq<byte>, i: nat, w: nat) returns (j: int)
    requires (w == 2 || w == 4) && i + w <= |buf| == |t| && MovesSome(buf, t, i, w)
    ensures 1 <= j <= 35 && MovesEitherWay(buf, t, i, w, j)
  {
    hide Read, Carries;
    var order, k :| -35 <= k <= 35 && MovesBy(order, buf, t, i, w, k);
    j := if k < 0 then -k else k;
    match order
    case LittleEndian => assert MovesBy(LittleEndian, buf, t, i, w, k);
    case BigEndian => assert MovesBy(BigEndian, buf, t, i, w, k);
  }

  lemma MovesAnyWay(buf: seq<byte>, t: seq<byte>, i: nat, w: nat, j: int)
    requires (w == 2 || w == 4) && i + w <= |buf| == |t| && 1 <= j <= 35 && MovesEitherWay(buf, t, i, w, j)
    ensures MovesSome(buf, t, i, w)
  {
    hide Read, Carries, MovesBy;
  }

  // ----- interesting values -----

  function Values(w: nat): seq<int> {
    if w == 2 then INTERESTING_16 else INTERESTING_32
  }

  /** The word, read in this order, is an interesting value. */
  predicate IsInteresting(order: Order, t: seq<byte>, i: nat, w: nat)
    requires (w == 2 || w == 4) && i + w <= |t|
  {
    exists k :: 0 <= k < |Values(w)| && Read(order, t, i, w) == Values(w)[k] % Size(w)
  }

  /** Not left to an earlier stage; checkLe: nor to the little-endian half of this one. */
  ghost predicate IsNew(buf: seq<byte>, t: seq<byte>, i: nat, w: nat, checkLe: bool)
    requires (w == 2 || w == 4) && i + w <= |buf| == |t|
  {
    var was, now := Read(LittleEndian, buf, i, w), Read(LittleEndian, t, i, w);
    && was < 0x1_0000_0000 && now < 0x1_0000_0000
    && !IsBitflip(Xor(was, now)) && !IsArith(was, now, w) && !IsInterest(was, now, w, checkLe)
  }

  predicate IsWide(stage: Stage) {
    stage.Interest16? || stage.Interest32?
  }

  /** One interesting value in both byte orders, for the stage of this width. */
  ghost function InterestStep(stage: Stage, orig: U32, v: int): seq<Try>
    requires IsWide(stage) && orig < Range(Span(stage))
  {
    RangeOfSpan(stage);
    if stage.Interest16? then Interest16Step(orig, v) else Interest32Step(orig, v)
  }

  ghost predicate ValuePuts(stage: Stage, orig: U32, v: int, now: nat)
    requires IsWide(stage) && orig < Range(Span(stage))
  {
    PutsIn(InterestStep(stage, orig, v), now)
  }

  lemma {:induction false} InterestTriesPut(stage: Stage, orig: U32, values: seq<int>, n: nat, now: nat)
    requires IsWide(stage) && orig < Range(Span(stage)) && n <= |values|
    ensures PutsIn(InterestTries(stage, orig, values, n), now) <==>
              exists k :: 0 <= k < n && ValuePuts(stage, orig, values[k], now)
  {
    hide Range, Interest16Step, Interest32Step;
    RangeOfSpan(stage);
    if n > 0 {
      InterestTriesPut(stage, orig, values, n - 1, now);
      var v := values[n - 1];
      assert InterestTries(stage, orig, values, n) == InterestTries(stage, orig, values, n - 1) + InterestStep(stage, orig, v);
      hide InterestTries, InterestStep;
      assert ValuePuts(stage, orig, v, now) <==> PutsIn(InterestStep(stage, orig, v), now);
    }
  }

  lemma {:induction false} InterestTriesFit(stage: Stage, orig: U32, values: seq<int>, n: nat)
    requires IsWide(stage) && orig < Range(Span(stage)) && n <= |values|
    ensures forall k :: 0 <= k < |InterestTries(stage, orig, values, n)| && InterestTries(stage, orig, values, n)[k].Put? ==>
              InterestTries(stage, orig, values, n)[k].value < Range(Span(stage))
  {
    hide Range, Fresh, Swap16, Swap32, IsArith, IsInterest;
    RangeOfSpan(stage);
    if n > 0 {
      InterestTriesFit(stage, orig, values, n - 1);
    }
  }

  /** What one value puts, with the word read in either byte order. */
  ghost predicate ValueFits(was: U32, little: U32, big: U32, v: int, w: nat)
    requires w == 2 || w == 4
  {
    && !IsBitflip(Xor(was, little)) && !IsArith(was, little, w)
    && (|| (little == v % Size(w) && !IsInterest(was, little, w, false))
        || (big == v % Size(w) && little != big && !IsInterest(was, little, w, true)))
  }

  lemma Value16Puts(was: U16, now: U16, v: int)
    ensures PutsIn(Interest16Step(was, v), now) <==> ValueFits(was, now, Swap16(now), v, 2)
  {
    hide IsBitflip, IsArith, IsInterest, Swap16;
    SwapsTo16(now, v % 0x1_0000);
  }

  lemma Value32Puts(was: U32, now: U32, v: int)
    ensures PutsIn(Interest32Step(was, v), now) <==> ValueFits(was, now, Swap32(now), v, 4)
  {
    hide IsBitflip, IsArith, IsInterest, Swap32;
    SwapsTo32(now, v % 0x1_0000_0000);
  }

  lemma ValueStored(stage: Stage, buf: seq<byte>, t: seq<byte>, i: nat, v: int)
    requires IsWide(stage) && i + Span(stage) <= |buf| == |t|
    requires Peek(buf, i, Span(stage)) < Range(Span(stage)) <= 0x1_0000_0000
    ensures var w := Span(stage);
            ValuePuts(stage, Peek(buf, i, w), v, Peek(t, i, w)) <==>
              || (Read(LittleEndian, t, i, w) == v % Size(w) && IsNew(buf, t, i, w, false))
              || (Read(BigEndian, t, i, w) == v % Size(w) && Read(LittleEndian, t, i, w) != Read(BigEndian, t, i, w)
                  && IsNew(buf, t, i, w, true))
  {
    hide Read, Peek, Swap16, Swap32, Interest16Step, Interest32Step, Range, IsBitflip, IsArith, IsInterest;
    var w := Span(stage);
    Words(buf, i, w);
    Words(t, i, w);
    if stage.Interest16? {
      Value16Puts(Peek(buf, i, w), Peek(t, i, w), v);
    } else {
      Value32Puts(Peek(buf, i, w), Peek(t, i, w), v);
    }
  }

  /** The test cases that interest 16/8 and interest 32/8 run for the word at i: the input with an
      interesting value in place of this word, in one of the byte orders, unless an earlier stage or the
      other byte order makes it. */
  lemma InterestWords(stage: Stage, buf: seq<byte>, i: nat, t: seq<byte>)
    requires IsWide(stage) && i + Span(stage) <= |buf|
    ensures var w := Span(stage);
            t in WordLog(stage, buf, i) <==>
              AgreeOutside(t, buf, i, w) &&
              (|| (IsInteresting(LittleEndian, t, i, w) && IsNew(buf, t, i, w, false))
               || (IsInteresting(BigEndian, t, i, w) && Read(LittleEndian, t, i, w) != Read(BigEndian, t, i, w)
                   && IsNew(buf, t, i, w, true)))
  {
    hide Range, Peek, Tries, ValuePuts, AgreeOutside, PutsIn, IsNew, Read, IsInteresting, Values;
    RangeOfSpan(stage);
    var w := Span(stage);
    var orig, values := Peek(buf, i, w), Values(w);
    var ts := InterestTries(stage, orig, values, |values|);
    ValueTriesAre(stage, orig);
    InterestTriesFit(stage, orig, values, |values|);
    PosLogHas(buf, i, w, ts, t);
    if AgreeOutside(t, buf, i, w) {
      SameLength(t, buf, i, w);
      InterestTriesPut(stage, orig, values, |values|, Peek(t, i, w));
      SomeStored(stage, buf, t, i);
    }
  }

  lemma SomeStored(stage: Stage, buf: seq<byte>, t: seq<byte>, i: nat)
    requires IsWide(stage) && i + Span(stage) <= |buf| == |t|
    requires Peek(buf, i, Span(stage)) < Range(Span(stage)) <= 0x1_0000_0000
    ensures var w := Span(stage);
            (exists k :: 0 <= k < |Values(w)| && ValuePuts(stage, Peek(buf, i, w), Values(w)[k], Peek(t, i, w))) <==>
              || (IsInteresting(LittleEndian, t, i, w) && IsNew(buf, t, i, w, false))
              || (IsInteresting(BigEndian, t, i, w) && Read(LittleEndian, t, i, w) != Read(BigEndian, t, i, w)
                  && IsNew(buf, t, i, w, true))
  {
    hide Range, Peek, ValuePuts, IsNew, Read, Values;
    var w := Span(stage);
    var values := Values(w);
    forall k | 0 <= k < |values|
      ensures ValuePuts(stage, Peek(buf, i, w), values[k], Peek(t, i, w)) <==>
            || (Read(LittleEndian, t, i, w) == values[k] % Size(w) && IsNew(buf, t, i, w, false))
            || (Read(BigEndian, t, i, w) == values[k] % Size(w)
                && Read(LittleEndian, t, i, w) != Read(BigEndian, t, i, w) && IsNew(buf, t, i, w, true))
    {
      ValueStored(stage, buf, t, i, values[k]);
    }
  }

  lemma ValueTriesAre(stage: Stage, orig: U32)
    requires IsWide(stage) && orig < Range(Span(stage))
    ensures Tries(stage, orig) == InterestTries(stage, orig, Values(Span(stage)), |Values(Span(stage))|)
  {
  }

  // ----- flips of words -----

  /** bitflip 16/8 and 32/8 run one test case for the word at i: its bytes are complemented. */
  lemma FlippedWords(stage: Stage, buf: seq<byte>, i: nat, t: seq<byte>)
    requires (stage.Flip16? || stage.Flip32?) && i + Span(stage) <= |buf|
    ensures t in WordLog(stage, buf, i) <==>
              AgreeOutside(t, buf, i, Span(stage)) && forall k :: i <= k < i + Span(stage) ==> t[k] == 255 - buf[k]
  {
    hide Range, Peek, AgreeOutside, Xor;
    RangeOfSpan(stage);
    var w := Span(stage);
    var orig := Peek(buf, i, w);
    Words(buf, i, w);
    var v := Xor(orig, if w == 2 then 0xffff else 0xffffffff);
    Complement(orig, w);
    PosLogHas(buf, i, w, [Put(v)], t);
    assert Tries(stage, orig) == [Put(v)];
    if AgreeOutside(t, buf, i, w) {
      SameLength(t, buf, i, w);
      Words(t, i, w);
      Complements(buf, t, i, w);
    }
  }

  lemma {:induction false} XorOnes(v: nat, n: nat)
    requires v < ShiftLeft(1, n)
    ensures Xor(v, ShiftLeft(1, n) - 1) == ShiftLeft(1, n) - 1 - v
    decreases n
  {
    if n > 0 {
      XorOnes(v / 2, n - 1);
    }
  }

  lemma Complement(v: nat, w: nat)
    requires (w == 2 || w == 4) && v < Size(w)
    ensures Xor(v, if w == 2 then 0xffff else 0xffffffff) == Size(w) - 1 - v
    ensures Range(w) == Size(w)
  {
    hide Xor;
    Shifts();
    XorOnes(v, if w == 2 then 16 else 32);
    RangeOfSpan(if w == 2 then Flip16 else Flip32);
  }

  lemma Shifts()
    ensures ShiftLeft(1, 16) == 0x1_0000 && ShiftLeft(1, 32) == 0x1_0000_0000
  {
    assert ShiftLeft(1, 8) == 0x100;
    assert ShiftLeft(1, 12) == 0x1000;
    assert ShiftLeft(1, 20) == 0x10_0000;
    assert ShiftLeft(1, 24) == 0x100_0000;
    assert ShiftLeft(1, 28) == 0x1000_0000;
  }

  lemma Complements(buf: seq<byte>, t: seq<byte>, i: nat, w: nat)
    requires (w == 2 || w == 4) && i + w <= |buf| == |t|
    ensures Read(LittleEndian, t, i, w) == Size(w) - 1 - Read(LittleEndian, buf, i, w)
       <==> forall k :: i <= k < i + w ==> t[k] == 255 - buf[k]
  {
    if w == 2 {
      SameDigits(t[i] as int, t[i + 1] as int, 0, 0, 255 - buf[i] as int, 255 - buf[i + 1] as int, 0, 0);
    } else {
      SameDigits(t[i] as int, t[i + 1] as int, t[i + 2] as int, t[i + 3] as int,
        255 - buf[i] as int, 255 - buf[i + 1] as int, 255 - buf[i + 2] as int, 255 - buf[i + 3] as int);
    }
    InWord(buf, t, i, w);
    hide OfBytes;
  }

  lemma InWord(buf: seq<byte>, t: seq<byte>, i: nat, w: nat)
    requires (w == 2 || w == 4) && i + w <= |buf| == |t|
    ensures (forall k :: i <= k < i + w ==> t[k] == 255 - buf[k]) <==>
              t[i] == 255 - buf[i] && t[i + 1] == 255 - buf[i + 1]
              && (w == 4 ==> t[i + 2] == 255 - buf[i + 2] && t[i + 3] == 255 - buf[i + 3])
    ensures Read(LittleEndian, buf, i, w) ==
              if w == 2 then OfBytes(buf[i] as int, buf[i + 1] as int, 0, 0)
              else OfBytes(buf[i] as int, buf[i + 1] as int, buf[i + 2] as int, buf[i + 3] as int)
  {
  }

  lemma SameDigits(a0: int, a1: int, a2: int, a3: int, b0: int, b1: int, b2: int, b3: int)
    requires 0 <= a0 < 256 && 0 <= a1 < 256 && 0 <= a2 < 256 && 0 <= a3 < 256
    requires 0 <= b0 < 256 && 0 <= b1 < 256 && 0 <= b2 < 256 && 0 <= b3 < 256
    ensures OfBytes(a0, a1, a2, a3) == OfBytes(b0, b1, b2, b3) <==> a0 == b0 && a1 == b1 && a2 == b2 && a3 == b3
  {
    hide Byte, OfBytes;
    OfBytesByte(a0, a1, a2, a3);
    OfBytesByte(b0, b1, b2, b3);
  }

  // ----- flips of bits -----

  function BitOf(x: nat, s: nat): (b: nat)
    ensures b <= 1
  {
    if s == 0 then x % 2 else BitOf(x / 2, s - 1)
  }

  /** Bit j of the buffer, which begins with the highest bit of the first byte. */
  function Bit(buf: seq<byte>, j: nat): (b: nat)
    requires j < 8 * |buf|
    ensures b <= 1
  {
    BitOf(buf[j / 8] as nat, 7 - j % 8)
  }

  lemma {:induction false} XorBit(a: nat, b: nat, s: nat)
    ensures BitOf(Xor(a, b), s) == if BitOf(a, s) == BitOf(b, s) then 0 else 1
    decreases s
  {
    hide Xor;
    XorHalves(a, b);
    if s > 0 {
      XorBit(a / 2, b / 2, s - 1);
    }
  }

  lemma {:induction false} OneBit(t: nat, s: nat)
    ensures BitOf(ShiftLeft(1, t), s) == if s == t then 1 else 0
    decreases s
  {
    if s > 0 {
      if t > 0 {
        OneBit(t - 1, s - 1);
      } else {
        NoBit(s - 1);
      }
    }
  }

  lemma {:induction false} NoBit(s: nat)
    ensures BitOf(0, s) == 0
  {
    if s > 0 {
      NoBit(s - 1);
    }
  }

  lemma BitFlipped(buf: seq<byte>, k: nat, j: nat)
    requires k < 8 * |buf| && j < 8 * |buf|
    ensures Bit(FlipBit(buf, k), j) == if j == k then 1 - Bit(buf, j) else Bit(buf, j)
  {
    hide Xor, BitMask, ShiftLeft, BitOf;
    if j / 8 == k / 8 {
      DetCoverage.BitMaskIsShift(k);
      XorBit(buf[k / 8] as nat, BitMask(k), 7 - j % 8);
      OneBit(7 - k % 8, 7 - j % 8);
    }
  }

  /** The walking flip of n bits complements the n bits from bit k on and no other. */
  lemma {:induction false} BitsFlipped(buf: seq<byte>, k: nat, n: nat, j: nat)
    requires k + n <= 8 * |buf| && j < 8 * |buf|
    ensures Bit(FlipBits(buf, k, n), j) == if k <= j < k + n then 1 - Bit(buf, j) else Bit(buf, j)
    decreases n
  {
    hide FlipBit, Bit;
    if n > 0 {
      BitsFlipped(buf, k, n - 1, j);
      BitFlipped(FlipBits(buf, k, n - 1), k + n - 1, j);
    }
  }

  // ----- whole stages -----

  lemma {:induction false} AnyEffIff(eff: seq<bool>, i: nat, w: nat)
    requires w > 0 ==> (i + w - 1) / 8 < |eff|
    ensures AnyEff(eff, i, w) <==> exists k :: i <= k < i + w && eff[k / 8]
    decreases w
  {
    if w > 0 {
      AnyEffIff(eff, i + 1, w - 1);
      InMap(eff, i, w);
    }
  }

  lemma InMap(eff: seq<bool>, i: nat, w: nat)
    requires w > 0 && (i + w - 1) / 8 < |eff|
    ensures forall k :: i <= k < i + w ==> 0 <= k / 8 < |eff|
  {
  }

  /** A word with a byte whose cell of the effector map is set. */
  predicate IsVisited(eff: seq<bool>, i: nat, w: nat) {
    exists k :: i <= k < i + w && k / 8 < |eff| && eff[k / 8]
  }

  /** A stage runs the test cases of the words that have a set cell, wherever they stand. */
  lemma {:induction false} StageRuns(stage: Stage, buf: seq<byte>, eff: seq<bool>, n: nat, t: seq<byte>)
    requires n == 0 || n - 1 + Span(stage) <= |buf|
    requires |eff| == EffAlen(|buf|)
    ensures t in StageLog(stage, buf, eff, n) <==>
              exists i :: 0 <= i < n && IsVisited(eff, i, Span(stage)) && t in WordLog(stage, buf, i)
  {
    hide WordLog, AnyEff, IsVisited;
    if n > 0 {
      StageRuns(stage, buf, eff, n - 1, t);
      VisitedIff(eff, |buf|, n - 1, Span(stage));
    }
  }

  lemma VisitedIff(eff: seq<bool>, len: nat, i: nat, w: nat)
    requires |eff| == EffAlen(len) && i + w <= len && w > 0
    ensures IsVisited(eff, i, w) <==> AnyEff(eff, i, w)
  {
    AnyEffIff(eff, i, w);
  }

  /** The stages that are run: those that fit the input; and without arithmetics, the flips and the
      interesting bytes only. */
  lemma StagesAre(noArith: bool, len: nat, stage: Stage)
    requires len > 0
    ensures stage in WordStages(noArith, len) <==>
              Span(stage) <= len && (noArith ==> stage.Flip16? || stage.Flip32? || stage.Interest8?)
  {
  }

  lemma {:induction false} StagesRun(stages: seq<Stage>, buf: seq<byte>, eff: seq<bool>, t: seq<byte>)
    requires |eff| == EffAlen(|buf|) && StagesFit(stages, |buf|)
    ensures t in StagesLog(stages, buf, eff) <==>
              exists s :: s in stages && t in StageLog(s, buf, eff, |buf| - Span(s) + 1)
  {
    hide StageLog, Span, EffAlen;
    if stages != [] {
      var n := |stages| - 1;
      StagesRun(stages[..n], buf, eff, t);
      assert stages == stages[..n] + [stages[n]];
    }
  }

  /** What the deterministic stages run besides the walking flips of bits and bytes. */
  lemma DeterministicRuns(buf: seq<byte>, target: Target, noArith: bool, t: seq<byte>)
    requires buf != []
    ensures t in DetLog(buf, target, noArith) <==>
              || t in FlipsLog(buf)
              || exists stage: Stage, i ::
                   && 0 <= i <= |buf| - Span(stage) && t in WordLog(stage, buf, i)
                   && (noArith ==> stage.Flip16? || stage.Flip32? || stage.Interest8?)
                   && IsVisited(EffMap(buf, target), i, Span(stage))
  {
    hide FlipsLog, EffMap, WordStages, StagesLog, StageLog, WordLog, IsVisited;
    var eff := EffMap(buf, target);
    var stages := WordStages(noArith, |buf|);
    StagesRun(stages, buf, eff, t);
    forall stage: Stage
      ensures stage in stages <==>
                Span(stage) <= |buf| && (noArith ==> stage.Flip16? || stage.Flip32? || stage.Interest8?)
    {
      StagesAre(noArith, |buf|, stage);
    }
    forall stage | Span(stage) <= |buf|
      ensures t in StageLog(stage, buf, eff, |buf| - Span(stage) + 1) <==>
                exists i :: 0 <= i < |buf| - Span(stage) + 1 && IsVisited(eff, i, Span(stage)) && t in WordLog(stage, buf, i)
    {
      StageRuns(stage, buf, eff, |buf| - Span(stage) + 1, t);
    }
    hide Span;
  }
}
