/**
 What the eight-bit deterministic stages cover: how often each test case that differs from the
 input in one byte is given to the target by bitflip 1/1, 2/1, 4/1 and 8/8, arith 8/8 and
 interest 8/8.  The tests for values of earlier stages lose nothing and repeat nothing.
 */
module DetCoverage {
  import opened Bytes
  import opened DupTests
  import opened DetStages

  // ----- counting -----

  function Count(log: seq<seq<byte>>, t: seq<byte>): nat {
    if log == [] then 0 else Count(log[..|log| - 1], t) + if log[|log| - 1] == t then 1 else 0
  }

  lemma {:induction false} CountAdds(a: seq<seq<byte>>, b: seq<seq<byte>>, t: seq<byte>)
    ensures Count(a + b, t) == Count(a, t) + Count(b, t)
  {
    if b == [] {
      assert a + b == a;
    } else {
      assert (a + b)[..|a + b| - 1] == a + b[..|b| - 1];
      CountAdds(a, b[..|b| - 1], t);
    }
  }

  lemma {:induction false} CountNone(log: seq<seq<byte>>, t: seq<byte>)
    requires forall k :: 0 <= k < |log| ==> log[k] != t
    ensures Count(log, t) == 0
  {
    if log != [] {
      CountNone(log[..|log| - 1], t);
    }
  }

  lemma {:induction false} CountOne(log: seq<seq<byte>>, t: seq<byte>, k: nat)
    requires k < |log| && forall l :: 0 <= l < |log| ==> (log[l] == t <==> l == k)
    ensures Count(log, t) == 1
  {
    var n := |log| - 1;
    if k < n {
      CountOne(log[..n], t, k);
    } else {
      CountNone(log[..n], t);
    }
  }

  // ----- flips -----

  function Ones(n: nat): nat {
    if n == 0 then 0 else 2 * Ones(n - 1) + 1
  }

  /** n bits of a byte, from bit b on, the highest bit being bit 0. */
  function ByteMask(n: nat, b: nat): (m: nat)
    requires b + n <= 8
  {
    ShiftLeft(Ones(n), 8 - n - b)
  }

  /** The bits of byte p among the n bits from k on. */
  function MaskIn(k: nat, n: nat, p: nat): (m: nat)
    ensures m < 0x100
  {
    if n == 0 then 0
    else
      var one := if (k + n - 1) / 8 == p then BitMask(k + n - 1) else 0;
      XorBound(MaskIn(k, n - 1, p), one, 8);
      Xor(MaskIn(k, n - 1, p), one)
  }

  lemma {:induction false} FlipBitsAt(buf: seq<byte>, k: nat, n: nat, p: nat)
    requires k + n <= 8 * |buf| && p < |buf|
    ensures FlipBits(buf, k, n)[p] == Flipped(buf[p], MaskIn(k, n, p))
    decreases n
  {
    if n == 0 {
      XorSelf(buf[p] as int);
    } else {
      var last := k + n - 1;
      FlipBitsAt(buf, k, n - 1, p);
      XorAssociates(buf[p] as int, MaskIn(k, n - 1, p), BitMask(last));
      XorSelf(MaskIn(k, n - 1, p));
    }
  }

  lemma {:induction false} XorAddsBelow(c: nat, s: nat)
    ensures Xor(ShiftLeft(c, s + 1), ShiftLeft(1, s)) == ShiftLeft(2 * c + 1, s)
  {
    hide Xor;
    XorHalves(ShiftLeft(c, s + 1), ShiftLeft(1, s));
    if s == 0 {
      XorSelf(c);
      assert ShiftLeft(c, 1) == 2 * c;
    } else {
      XorAddsBelow(c, s - 1);
    }
  }

  lemma BitMaskIsShift(k: nat)
    ensures BitMask(k) == ShiftLeft(1, 7 - k % 8)
  {
    assert ShiftLeft(1, 0) == 1 && ShiftLeft(1, 1) == 2 && ShiftLeft(1, 2) == 4 && ShiftLeft(1, 3) == 8;
    assert ShiftLeft(1, 4) == 16 && ShiftLeft(1, 5) == 32 && ShiftLeft(1, 6) == 64 && ShiftLeft(1, 7) == 128;
  }

  lemma BitPosition(q: nat, b: nat)
    requires b < 8
    ensures (8 * q + b) / 8 == q && (8 * q + b) % 8 == b
  {
  }

  lemma {:induction false} MaskInByte(q: nat, b: nat, n: nat, p: nat)
    requires b + n <= 8
    ensures MaskIn(8 * q + b, n, p) == if q == p then ByteMask(n, b) else 0
  {
    hide BitMask, ShiftLeft, Xor;
    if n == 0 {
      ShiftKeepsZero(0, 8 - b);
    } else {
      MaskInByte(q, b, n - 1, p);
      BitPosition(q, b + n - 1);
      XorSelf(MaskIn(8 * q + b, n - 1, p));
      BitMaskIsShift(8 * q + b + n - 1);
      XorAddsBelow(Ones(n - 1), 8 - n - b);
    }
  }

  /** Bits that do not lie in byte p do not matter, at either end. */
  lemma {:induction false} MaskInSplit(k: nat, n: nat, d: nat, p: nat)
    requires d <= n
    requires 8 * p >= k + d || k >= 8 * p + 8
    ensures MaskIn(k, n, p) == MaskIn(k + d, n - d, p)
    decreases n
  {
    if n > 0 {
      XorSelf(MaskIn(k, n - 1, p));
      if d < n {
        MaskInSplit(k, n - 1, d, p);
      } else {
        MaskInSplit(k, n - 1, d - 1, p);
      }
    }
  }

  lemma {:induction false} MaskInStays(k: nat, n: nat, d: nat, p: nat)
    requires d <= n
    requires 8 * p >= k + n || k + d >= 8 * p + 8
    ensures MaskIn(k, n, p) == MaskIn(k, d, p)
    decreases n
  {
    if d < n {
      XorSelf(MaskIn(k, n - 1, p));
      MaskInStays(k, n - 1, d, p);
    }
  }

  lemma ByteMaskPositive(n: nat, b: nat)
    requires b + n <= 8 && n > 0
    ensures ByteMask(n, b) > 0
  {
    ShiftKeepsZero(Ones(n), 8 - n - b);
  }

  /** A flip that crosses a byte boundary changes two bytes. */
  lemma FlipCrosses(k: nat, n: nat)
    requires n <= 8 && k % 8 + n > 8
    ensures MaskIn(k, n, k / 8) > 0 && MaskIn(k, n, k / 8 + 1) > 0
  {
    hide ByteMask, BitMask, Xor;
    var d := 8 - k % 8;
    MaskInStays(k, n, d, k / 8);
    MaskInByte(k / 8, k % 8, d, k / 8);
    ByteMaskPositive(d, k % 8);
    MaskInSplit(k, n, d, k / 8 + 1);
    MaskInByte(k / 8 + 1, 0, n - d, k / 8 + 1);
    ByteMaskPositive(n - d, 0);
  }

  lemma FlippedSolves(b: byte, m: nat, v: byte)
    requires m < 0x100
    ensures Flipped(b, m) == v <==> Xor(b as int, v as int) == m
  {
    XorSolves(b as int, m, v as int);
  }

  /** When flipping n bits from k on turns byte i, and nothing else, into v. */
  lemma FlipHits(buf: seq<byte>, k: nat, n: nat, i: nat, v: byte)
    requires 1 <= n <= 8 && k + n <= 8 * |buf| && i < |buf| && v != buf[i]
    ensures FlipBits(buf, k, n) == buf[i := v]
       <==> k / 8 == i && k % 8 + n <= 8 && Xor(buf[i] as int, v as int) == ByteMask(n, k % 8)
  {
    var f := FlipBits(buf, k, n);
    if k % 8 + n <= 8 {
      forall p: nat | p < |buf|
        ensures f[p] == if p == k / 8 then Flipped(buf[p], MaskIn(k, n, p)) else buf[p]
      {
        FlipBitsAt(buf, k, n, p);
        MaskInByte(k / 8, k % 8, n, p);
        XorSelf(buf[p] as int);
      }
      MaskInByte(k / 8, k % 8, n, k / 8);
      FlippedSolves(buf[k / 8], MaskIn(k, n, k / 8), v);
      FlippedSolves(buf[k / 8], MaskIn(k, n, k / 8), buf[k / 8]);
      XorSelf(buf[k / 8] as int);
      ByteMaskPositive(n, k % 8);
      if k / 8 == i {
        assert f[i] == v ==> f == buf[i := v];
      } else {
        assert f[k / 8] != buf[k / 8];
      }
    } else {
      var p := if k / 8 == i then i + 1 else k / 8;
      FlipCrosses(k, n);
      FlipBitsAt(buf, k, n, p);
      FlippedSolves(buf[p], MaskIn(k, n, p), buf[p]);
      XorSelf(buf[p] as int);
      assert f[p] != buf[p];
    }
  }

  // ----- which values the flips produce -----

  /** The difference x is made by the walking flip of n bits, inside one byte. */
  predicate HasMask(n: nat, x: nat) {
    exists b: nat :: b + n <= 8 && x == ByteMask(n, b)
  }

  lemma {:induction false} OnesUnique(n: nat, m: nat)
    requires Ones(n) == Ones(m)
    ensures n == m
  {
    if n > 0 && m > 0 {
      OnesUnique(n - 1, m - 1);
    }
  }

  lemma MaskUnique(n: nat, b: nat, m: nat, c: nat)
    requires n > 0 && m > 0 && b + n <= 8 && c + m <= 8
    requires ByteMask(n, b) == ByteMask(m, c)
    ensures n == m && b == c
  {
    ShiftedOnce(Ones(n), 8 - n - b, Ones(m), 8 - m - c);
    OnesUnique(n, m);
  }

  lemma {:induction false} ShiftOnesGrows(n: nat, s: nat)
    requires n > 0
    ensures ShiftLeft(Ones(n), s) >= ShiftLeft(1, n - 1 + s)
  {
    if s > 0 {
      ShiftOnesGrows(n, s - 1);
    } else if n > 1 {
      ShiftOnesGrows(n - 1, 0);
    }
  }

  lemma {:induction false} ShiftPastByte(m: nat)
    requires m >= 8
    ensures ShiftLeft(1, m) >= 0x100
  {
    if m == 8 {
      assert ShiftLeft(1, 4) == 16;
    } else {
      ShiftPastByte(m - 1);
    }
  }

  lemma OnesPatterns()
    ensures Ones(1) == 1 && Ones(2) == 3 && Ones(4) == 15 && Ones(8) == 0xff && Ones(16) == 0xffff
    ensures Ones(32) == 0xffffffff
  {
    assert Ones(12) == 0xfff;
    assert Ones(20) == 0xfffff;
    assert Ones(24) == 0xffffff;
    assert Ones(28) == 0xfffffff;
  }

  /** A pattern of n bits walked over a word stays inside the low byte exactly as a mask of the byte. */
  lemma WalkedIsMask(x: nat, n: nat)
    requires 0 < x < 0x100 && n > 0
    ensures Walked(x, Ones(n), 1) <==> HasMask(n, x)
  {
    forall s: nat | x == ShiftLeft(Ones(n), s)
      ensures s + n <= 8
    {
      ShiftOnesGrows(n, s);
      if s + n > 8 {
        ShiftPastByte(n - 1 + s);
      }
    }
    forall b: nat | b + n <= 8 && x == ByteMask(n, b)
      ensures Walked(x, Ones(n), 1)
    {
      var s: nat := 8 - n - b;
      assert x == ShiftLeft(Ones(n), s) && s % 1 == 0;
    }
    if Walked(x, Ones(n), 1) {
      var s: nat :| x == ShiftLeft(Ones(n), s) && s % 1 == 0;
      assert x == ByteMask(n, 8 - n - s);
    }
  }

  lemma WalkedByteWise(x: nat, n: nat)
    requires 0 < x < 0x100 && n >= 8
    ensures Walked(x, Ones(n), 8) <==> n == 8 && x == 0xff
  {
    OnesPatterns();
    forall s: nat | x == ShiftLeft(Ones(n), s)
      ensures s == 0 && n == 8
    {
      ShiftOnesGrows(n, s);
      if s + n > 8 {
        ShiftPastByte(n - 1 + s);
      }
    }
    if n == 8 && x == 0xff {
      assert x == ShiftLeft(Ones(n), 0) && 0 % 8 == 0;
    }
  }

  /** `could_be_bitflip` on the difference of two bytes. */
  lemma ByteBitflip(x: nat)
    requires 0 < x < 0x100
    ensures IsBitflip(x) <==> HasMask(1, x) || HasMask(2, x) || HasMask(4, x) || x == 0xff
  {
    OnesPatterns();
    WalkedIsMask(x, 1);
    WalkedIsMask(x, 2);
    WalkedIsMask(x, 4);
    WalkedByteWise(x, 8);
    WalkedByteWise(x, 16);
    WalkedByteWise(x, 32);
  }

  lemma FlipLogCount(buf: seq<byte>, n: nat, i: nat, v: byte)
    requires 1 <= n <= 8 && i < |buf| && v != buf[i]
    ensures Count(FlipLog(buf, n, 8 * |buf| - (n - 1)), buf[i := v])
         == if HasMask(n, Xor(buf[i] as int, v as int)) then 1 else 0
  {
    hide Xor, ByteMask, FlipBits, Count;
    var x := Xor(buf[i] as int, v as int);
    var log := FlipLog(buf, n, 8 * |buf| - (n - 1));
    if HasMask(n, x) {
      var b: nat :| b + n <= 8 && x == ByteMask(n, b);
      forall l: nat | l < |log|
        ensures log[l] == buf[i := v] <==> l == 8 * i + b
      {
        FlipHits(buf, l, n, i, v);
        BitPosition(i, b);
        if l / 8 == i && l % 8 + n <= 8 && x == ByteMask(n, l % 8) {
          MaskUnique(n, b, n, l % 8);
        }
      }
      CountOne(log, buf[i := v], 8 * i + b);
    } else {
      forall l: nat | l < |log|
        ensures log[l] != buf[i := v]
      {
        FlipHits(buf, l, n, i, v);
      }
      CountNone(log, buf[i := v]);
    }
  }

  lemma Flip8Hits(buf: seq<byte>, p: nat, i: nat, v: byte)
    requires p < |buf| && i < |buf| && v != buf[i]
    ensures FlipByte(buf, p) == buf[i := v] <==> p == i && Xor(buf[i] as int, v as int) == 0xff
  {
    var f := FlipByte(buf, p);
    FlippedSolves(buf[p], 0xff, buf[p]);
    XorSelf(buf[p] as int);
    FlippedSolves(buf[p], 0xff, v);
    assert p != i ==> f[i] != v;
    assert p == i && f[i] == v ==> f == buf[i := v];
  }

  lemma Flip8Count(buf: seq<byte>, i: nat, v: byte)
    requires i < |buf| && v != buf[i]
    ensures Count(Flip8Log(buf, |buf|), buf[i := v]) == if Xor(buf[i] as int, v as int) == 0xff then 1 else 0
  {
    hide Xor, FlipByte, Count;
    var log := Flip8Log(buf, |buf|);
    forall l: nat | l < |log|
      ensures log[l] == buf[i := v] <==> l == i && Xor(buf[i] as int, v as int) == 0xff
    {
      Flip8Hits(buf, l, i, v);
    }
    if Xor(buf[i] as int, v as int) == 0xff {
      CountOne(log, buf[i := v], i);
    } else {
      CountNone(log, buf[i := v]);
    }
  }

  /** Each mask belongs to one of the walking flips. */
  lemma MasksExclude(x: nat, n: nat, m: nat)
    requires n > 0 && m > 0 && HasMask(n, x) && HasMask(m, x)
    ensures n == m
  {
    var b: nat :| b + n <= 8 && x == ByteMask(n, b);
    var c: nat :| c + m <= 8 && x == ByteMask(m, c);
    MaskUnique(n, b, m, c);
  }

  function Once(b: bool): nat {
    if b then 1 else 0
  }

  lemma OneFlip(x: nat)
    requires 0 < x < 0x100
    ensures Once(HasMask(1, x)) + Once(HasMask(2, x)) + Once(HasMask(4, x)) + Once(x == 0xff) == 1
       <==> IsBitflip(x)
    ensures Once(HasMask(1, x)) + Once(HasMask(2, x)) + Once(HasMask(4, x)) + Once(x == 0xff) <= 1
  {
    ByteBitflip(x);
    OnesPatterns();
    assert ShiftLeft(0xff, 0) == 0xff;
    if x == 0xff {
      assert x == ByteMask(8, 0);
      assert HasMask(8, x);
    }
    hide HasMask, IsBitflip;
    forall n: nat, m: nat | 0 < n < m && HasMask(n, x) && HasMask(m, x)
      ensures false
    {
      MasksExclude(x, n, m);
    }
  }

  lemma ByteDifference(a: byte, b: byte)
    requires a != b
    ensures 0 < Xor(a as int, b as int) < 0x100
  {
    XorBound(a as int, b as int, 8);
    XorSolves(a as int, 0, b as int);
  }

  lemma FlipsLogCount(buf: seq<byte>, t: seq<byte>)
    requires buf != []
    ensures var n := 8 * |buf|;
            Count(FlipsLog(buf), t) == Count(FlipLog(buf, 1, n), t) + Count(FlipLog(buf, 2, n - 1), t)
                                     + Count(FlipLog(buf, 4, n - 3), t) + Count(Flip8Log(buf, |buf|), t)
  {
    hide Count, FlipLog, Flip8Log;
    var n := 8 * |buf|;
    CountAdds(FlipLog(buf, 1, n) + FlipLog(buf, 2, n - 1) + FlipLog(buf, 4, n - 3), Flip8Log(buf, |buf|), t);
    CountAdds(FlipLog(buf, 1, n) + FlipLog(buf, 2, n - 1), FlipLog(buf, 4, n - 3), t);
    CountAdds(FlipLog(buf, 1, n), FlipLog(buf, 2, n - 1), t);
  }

  /** The walking flips produce a value of one byte once if `could_be_bitflip` says so, else never. */
  lemma FlipsCount(buf: seq<byte>, i: nat, v: byte)
    requires i < |buf| && v != buf[i]
    ensures Count(FlipsLog(buf), buf[i := v]) == if IsBitflip(Xor(buf[i] as int, v as int)) then 1 else 0
  {
    hide Xor, HasMask, IsBitflip, Count, FlipLog, Flip8Log, FlipsLog;
    ByteDifference(buf[i], v);
    FlipsLogCount(buf, buf[i := v]);
    FlipLogCount(buf, 1, i, v);
    FlipLogCount(buf, 2, i, v);
    FlipLogCount(buf, 4, i, v);
    Flip8Count(buf, i, v);
    OneFlip(Xor(buf[i] as int, v as int));
  }

  // ----- stages that replace a byte -----

  /** How often the candidate v is run. */
  ghost function CountPut(ts: seq<Try>, v: nat): nat {
    if ts == [] then 0 else CountPut(ts[..|ts| - 1], v) + if ts[|ts| - 1] == Put(v) then 1 else 0
  }

  lemma {:induction false} CountPutAdds(a: seq<Try>, b: seq<Try>, v: nat)
    ensures CountPut(a + b, v) == CountPut(a, v) + CountPut(b, v)
  {
    if b == [] {
      assert a + b == a;
    } else {
      assert (a + b)[..|a + b| - 1] == a + b[..|b| - 1];
      CountPutAdds(a, b[..|b| - 1], v);
    }
  }

  /** Candidates are bytes. */
  predicate ByteTries(ts: seq<Try>) {
    forall k :: 0 <= k < |ts| ==> ts[k].Put? ==> ts[k].value < 0x100
  }

  lemma PokeByte(buf: seq<byte>, p: nat, u: nat, i: nat, v: byte)
    requires p < |buf| && i < |buf| && v != buf[i] && u < 0x100
    ensures Poke(buf, p, 1, u) == buf[i := v] <==> p == i && u == v as nat
  {
    var f := Poke(buf, p, 1, u);
    assert f == buf[p := u as byte];
    assert p != i ==> f[i] != v;
    assert p == i ==> f[i] == u as byte;
  }

  lemma {:induction false} PosCount(buf: seq<byte>, p: nat, ts: seq<Try>, i: nat, v: byte)
    requires p < |buf| && i < |buf| && v != buf[i] && ByteTries(ts)
    ensures Count(PosLog(buf, p, 1, ts), buf[i := v]) == if p == i then CountPut(ts, v as nat) else 0
  {
    if ts != [] {
      var n := |ts| - 1;
      PosCount(buf, p, ts[..n], i, v);
      var run := if ts[n].Put? then [Poke(buf, p, 1, ts[n].value)] else [];
      CountAdds(PosLog(buf, p, 1, ts[..n]), run, buf[i := v]);
      if ts[n].Put? {
        PokeByte(buf, p, ts[n].value, i, v);
        assert run[..0] == [];
        assert Count(run, buf[i := v]) == if run[0] == buf[i := v] then 1 else 0;
      }
    }
  }

  lemma PeekByte(buf: seq<byte>, i: nat)
    requires i < |buf|
    ensures Peek(buf, i, 1) == buf[i] as int && Range(1) == 0x100
  {
    assert Peek(buf, i + 1, 0) == 0;
  }

  /** An eight-bit stage runs v at byte i as often as v is among the candidates, if the cell of the
      byte is set. */
  lemma {:induction false} StageCount(stage: Stage, buf: seq<byte>, eff: seq<bool>, n: nat, i: nat, v: byte)
    requires (stage.Arith8? || stage.Interest8?) && n <= |buf| && |eff| == EffAlen(|buf|)
    requires i < |buf| && v != buf[i]
    ensures buf[i] as int < Range(Span(stage))
    ensures Count(StageLog(stage, buf, eff, n), buf[i := v])
         == if i < n && eff[i / 8] then CountPut(Tries(stage, buf[i] as nat), v as nat) else 0
    decreases n
  {
    hide Count, PosLog, Tries, Peek, Range;
    PeekByte(buf, i);
    if n > 0 {
      var p := n - 1;
      StageCount(stage, buf, eff, p, i, v);
      PeekByte(buf, p);
      TriesAreBytes(stage, buf[p] as nat);
      PosCount(buf, p, Tries(stage, buf[p] as nat), i, v);
      assert AnyEff(eff, p, 1) == eff[p / 8];
      CountAdds(StageLog(stage, buf, eff, p), if eff[p / 8] then WordLog(stage, buf, p) else [], buf[i := v]);
      CountNone([], buf[i := v]);
    } else {
      CountNone([], buf[i := v]);
    }
  }

  lemma TriesAreBytes(stage: Stage, orig: nat)
    requires (stage.Arith8? || stage.Interest8?) && orig < 0x100 == Range(Span(stage))
    ensures ByteTries(Tries(stage, orig))
  {
    if stage.Arith8? {
      ArithTriesAreBytes(orig, ARITH_MAX);
    } else {
      InterestTriesAreBytes(orig, |INTERESTING_8|);
    }
  }

  lemma {:induction false} ArithTriesAreBytes(orig: nat, j: nat)
    requires orig < 0x100 == Range(Span(Arith8))
    ensures ByteTries(ArithTries(Arith8, orig, j))
  {
    if j > 0 {
      ArithTriesAreBytes(orig, j - 1);
    }
  }

  lemma {:induction false} InterestTriesAreBytes(orig: nat, j: nat)
    requires orig < 0x100 == Range(Span(Interest8)) && j <= |INTERESTING_8|
    ensures ByteTries(InterestTries(Interest8, orig, INTERESTING_8, j))
  {
    if j > 0 {
      InterestTriesAreBytes(orig, j - 1);
    }
  }

  // ----- arith 8/8 -----

  /** v is orig plus or minus an offset of 1 to j. */
  predicate Within(orig: int, v: int, j: int) {
    1 <= (v - orig) % 0x100 <= j || 1 <= (orig - v) % 0x100 <= j
  }

  lemma WithinStep(orig: int, v: int, j: int)
    requires 0 <= orig < 0x100 && 0 <= v < 0x100 && 1 <= j <= ARITH_MAX
    ensures Once(Within(orig, v, j))
         == Once(Within(orig, v, j - 1)) + Once(Moved(orig, j, 0x100) == v) + Once(Moved(orig, -j, 0x100) == v)
  {
    WrapOnce(v - orig, 0x100);
    WrapOnce(orig - v, 0x100);
    WrapOnce(orig + j, 0x100);
    WrapOnce(orig - j, 0x100);
  }

  lemma {:induction false} ArithCount(orig: nat, v: nat, j: nat)
    requires orig < 0x100 == Range(Span(Arith8)) && v < 0x100 && j <= ARITH_MAX
    ensures CountPut(ArithTries(Arith8, orig, j), v) == if Fresh(orig, v) then Once(Within(orig, v, j)) else 0
    decreases j
  {
    hide Fresh, Moved, Within;
    if j == 0 {
      assert !Within(orig, v, 0) by { NothingWithin(orig, v); }
    } else {
      ArithCount(orig, v, j - 1);
      WithinStep(orig, v, j);
      CountPutAdds(ArithTries(Arith8, orig, j - 1), Arith8Step(orig, j), v);
      var d: int := j;
      var up, down := Moved(orig, d, 0x100), Moved(orig, -d, 0x100);
      CountPutTwo(Tried(Fresh(orig, up), up), Tried(Fresh(orig, down), down), v);
    }
  }

  lemma NothingWithin(orig: int, v: int)
    ensures !Within(orig, v, 0)
  {
  }

  lemma CountPutTwo(a: Try, b: Try, v: nat)
    ensures CountPut([a, b], v) == Once(a == Put(v)) + Once(b == Put(v))
  {
    assert [a, b][..1] == [a];
    assert [a][..0] == [];
    assert CountPut([a], v) == CountPut([a][..0], v) + Once(a == Put(v));
  }

  lemma WithinIsNear(orig: int, v: int)
    requires 0 <= orig < 0x100 && 0 <= v < 0x100 && orig != v
    ensures Within(orig, v, ARITH_MAX) <==> Near(orig, v, 0x100)
  {
    WrapOnce(v - orig, 0x100);
    WrapOnce(orig - v, 0x100);
  }

  // ----- interest 8/8 -----

  /** How often v is among the first j interesting bytes. */
  function Occurs(v: nat, j: nat): nat
    requires j <= |INTERESTING_8|
  {
    if j == 0 then 0 else Occurs(v, j - 1) + Once(INTERESTING_8[j - 1] % 0x100 == v)
  }

  predicate IsInteresting(v: nat) {
    v == 128 || v == 255 || v == 0 || v == 1 || v == 16 || v == 32 || v == 64 || v == 100 || v == 127
  }

  lemma InterestingOnce(v: nat)
    ensures Occurs(v, |INTERESTING_8|) == Once(IsInteresting(v))
  {
    assert Occurs(v, 1) == Once(v == 128);
    assert Occurs(v, 2) == Once(v == 128 || v == 255);
    assert Occurs(v, 3) == Once(v == 128 || v == 255 || v == 0);
    assert Occurs(v, 4) == Once(v == 128 || v == 255 || v == 0 || v == 1);
    assert Occurs(v, 5) == Once(v == 128 || v == 255 || v == 0 || v == 1 || v == 16);
    assert Occurs(v, 6) == Once(v == 128 || v == 255 || v == 0 || v == 1 || v == 16 || v == 32);
    assert Occurs(v, 7) == Once(v == 128 || v == 255 || v == 0 || v == 1 || v == 16 || v == 32 || v == 64);
    assert Occurs(v, 8) == Once(v == 128 || v == 255 || v == 0 || v == 1 || v == 16 || v == 32 || v == 64 || v == 100);
    assert Occurs(v, 9) == Once(IsInteresting(v));
  }

  lemma {:induction false} InterestCount(orig: nat, v: nat, j: nat)
    requires orig < 0x100 == Range(Span(Interest8)) && v < 0x100 && orig != v && j <= |INTERESTING_8|
    ensures CountPut(InterestTries(Interest8, orig, INTERESTING_8, j), v)
         == if Fresh(orig, v) && !Near(orig, v, 0x100) then Occurs(v, j) else 0
    decreases j
  {
    hide IsArith, IsBitflip, Near, Xor;
    if j > 0 {
      InterestCount(orig, v, j - 1);
      var u := INTERESTING_8[j - 1] % 0x100;
      CountPutAdds(InterestTries(Interest8, orig, INTERESTING_8, j - 1), Interest8Step(orig, INTERESTING_8[j - 1]), v);
      var t := Tried(!(IsBitflip(Xor(orig, u)) || IsArith(orig, u, 1)), u);
      assert [t][..0] == [];
      assert CountPut([t], v) == CountPut([t][..0], v) + Once(t == Put(v));
      ByteArithIsNear(orig, v);
    }
  }

  // ----- all eight-bit stages -----

  /** The test cases of the eight-bit deterministic stages. */
  ghost function ByteLog(buf: seq<byte>, t: Target, noArith: bool): seq<seq<byte>>
    requires buf != []
  {
    var eff := EffMap(buf, t);
    FlipsLog(buf)
    + (if noArith then [] else StageLog(Arith8, buf, eff, |buf|))
    + StageLog(Interest8, buf, eff, |buf|)
  }

  /** How often the eight-bit stages run the input with byte i replaced by v: values the flips produce
      once; of the others, and only if the effector cell of the byte is set, values within ARITH_MAX
      once unless arithmetics are off, and the remaining interesting values once. */
  lemma ByteValueCount(buf: seq<byte>, t: Target, noArith: bool, i: nat, v: byte)
    requires i < |buf| && v != buf[i]
    ensures Count(ByteLog(buf, t, noArith), buf[i := v])
         == if IsBitflip(Xor(buf[i] as int, v as int)) then 1
            else if !EffMap(buf, t)[i / 8] then 0
            else if Near(buf[i] as int, v as int, 0x100) then Once(!noArith)
            else Once(IsInteresting(v as nat))
  {
    hide Xor, IsBitflip, Near, Within, EffMap, Count, StageLog, FlipsLog, Tries, CountPut, IsInteresting;
    hide ArithTries, InterestTries;
    var eff, c, o, u := EffMap(buf, t), buf[i := v], buf[i] as nat, v as nat;
    var arith := if noArith then [] else StageLog(Arith8, buf, eff, |buf|);
    CountAdds(FlipsLog(buf) + arith, StageLog(Interest8, buf, eff, |buf|), c);
    CountAdds(FlipsLog(buf), arith, c);
    CountNone([], c);
    FlipsCount(buf, i, v);
    StageCount(Arith8, buf, eff, |buf|, i, v);
    StageCount(Interest8, buf, eff, |buf|, i, v);
    PeekByte(buf, i);
    StageTries(o, u);
  }

  lemma StageTries(orig: nat, v: nat)
    requires orig < 0x100 == Range(1) && v < 0x100 && orig != v
    ensures CountPut(Tries(Arith8, orig), v) == if Fresh(orig, v) then Once(Near(orig, v, 0x100)) else 0
    ensures CountPut(Tries(Interest8, orig), v)
         == if Fresh(orig, v) && !Near(orig, v, 0x100) then Once(IsInteresting(v)) else 0
  {
    hide Fresh, Near, Within, CountPut, IsInteresting;
    ArithCount(orig, v, ARITH_MAX);
    WithinIsNear(orig, v);
    InterestCount(orig, v, |INTERESTING_8|);
    InterestingOnce(v);
  }

  /** With arithmetics on, at each byte whose effector cell is set, every change by 1 to ARITH_MAX in
      either direction and every change to an interesting value is run exactly once. */
  lemma EveryByteChangeOnce(buf: seq<byte>, t: Target, i: nat, v: byte)
    requires i < |buf| && v != buf[i] && EffMap(buf, t)[i / 8]
    requires IsInteresting(v as nat) || exists j :: Step(j) && v as int == Moved(buf[i] as int, j, 0x100)
    ensures Count(ByteLog(buf, t, false), buf[i := v]) == 1
  {
    NearIsStep(buf[i] as int, v as int, 0x100);
    ByteValueCount(buf, t, false, i, v);
  }

  lemma {:induction false} StagesCount(stages: seq<Stage>, buf: seq<byte>, eff: seq<bool>, t: seq<byte>, a: nat, b: nat)
    requires |eff| == EffAlen(|buf|) && StagesFit(stages, |buf|) && a <= b < |stages|
    ensures Count(StagesLog(stages, buf, eff), t)
         >= Count(StageLog(stages[b], buf, eff, |buf| - Span(stages[b]) + 1), t)
          + if a < b then Count(StageLog(stages[a], buf, eff, |buf| - Span(stages[a]) + 1), t) else 0
  {
    hide Count, StageLog, Span, EffAlen;
    var n := |stages| - 1;
    var last := stages[n];
    CountAdds(StagesLog(stages[..n], buf, eff), StageLog(last, buf, eff, |buf| - Span(last) + 1), t);
    if b < n {
      StagesCount(stages[..n], buf, eff, t, a, b);
    } else if a < b {
      StagesCount(stages[..n], buf, eff, t, a, a);
    }
  }

  /** The deterministic stages together run everything the eight-bit ones run. */
  lemma AllStagesCoverBytes(buf: seq<byte>, t: Target, noArith: bool, c: seq<byte>)
    requires buf != []
    ensures Count(DetLog(buf, t, noArith), c) >= Count(ByteLog(buf, t, noArith), c)
  {
    hide Count, StageLog, StagesLog, EffMap, FlipsLog;
    var eff, n, stages := EffMap(buf, t), |buf|, WordStages(noArith, |buf|);
    var b := if n < 2 then 0 else if n < 4 then 1 else 2;
    CountAdds(FlipsLog(buf), StagesLog(stages, buf, eff), c);
    var arith := if noArith then [] else StageLog(Arith8, buf, eff, n);
    CountAdds(FlipsLog(buf) + arith, StageLog(Interest8, buf, eff, n), c);
    CountAdds(FlipsLog(buf), arith, c);
    CountNone([], c);
    if noArith {
      assert stages[b] == Interest8;
      StagesCount(stages, buf, eff, c, b, b);
    } else {
      var d := b + if n < 2 then 1 else if n < 4 then 2 else 3;
      assert stages[b] == Arith8 && stages[d] == Interest8;
      StagesCount(stages, buf, eff, c, b, d);
    }
  }

  /** With arithmetics off, interesting values near the original are left to a stage that does not run. */
  lemma NoArithLoses(buf: seq<byte>, t: Target, i: nat, v: byte)
    requires i < |buf| && v != buf[i] && EffMap(buf, t)[i / 8] && IsInteresting(v as nat)
    ensures Count(ByteLog(buf, t, true), buf[i := v]) == 0
       <==> Near(buf[i] as int, v as int, 0x100) && !IsBitflip(Xor(buf[i] as int, v as int))
  {
    ByteValueCount(buf, t, true, i, v);
  }
}
