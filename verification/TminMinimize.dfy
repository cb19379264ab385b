/**
 afl-tmin: `run_target` as the accept test and the four stages of `minimize`.

 The target is an arbitrary deterministic function from inputs to outcomes.  Each stage
 works in place on `in_data` and is proved equal to a function on sequences; what the
 minimiser promises is proved about those functions.
 */
module TminMinimize {
  import opened Bytes

  const ZERO: byte := 48            // '0'
  const MSAN_ERROR := 86
  const TRIM_START_STEPS := 16
  const TMIN_SET_STEPS := 128
  const TMIN_SET_MIN_SIZE := 4

  // ----- the target and run_target's verdict -----

  datatype Exit = Signaled | Exited(code: int)

  datatype Outcome = Outcome(timedOut: bool, exit: Exit, cksum: int)

  datatype Settings = Settings(exactMode: bool, exitCrash: bool)

  datatype Mode = Mode(crashMode: bool, origCksum: int)

  predicate Crashed(s: Settings, o: Outcome) {
    o.exit.Signaled? || o.exit.code == MSAN_ERROR || (o.exit.code != 0 && s.exitCrash)
  }

  datatype Oracle = Oracle(target: seq<byte> -> Outcome, settings: Settings, mode: Mode) {
    /** What `run_target` answers once the first run has fixed the mode. */
    predicate Accepts(x: seq<byte>) {
      var o := target(x);
      && !o.timedOut
      && Crashed(settings, o) == mode.crashMode
      && (o.cksum == mode.origCksum || (mode.crashMode && !settings.exactMode))
    }
  }

  // ----- what a reduced input is -----

  /** b is a with some bytes deleted and some others overwritten by '0'. */
  ghost predicate Reduces(a: seq<byte>, b: seq<byte>)
    decreases |a|
  {
    || b == []
    || (a != [] && (b[0] == a[0] || b[0] == ZERO) && Reduces(a[1..], b[1..]))
    || (a != [] && Reduces(a[1..], b))
  }

  /** b is a with some bytes overwritten by '0'. */
  ghost predicate Overwrites(a: seq<byte>, b: seq<byte>) {
    |a| == |b| && forall i :: 0 <= i < |a| ==> b[i] == a[i] || b[i] == ZERO
  }

  lemma {:induction false} ReducesPointwise(a: seq<byte>, b: seq<byte>)
    requires Overwrites(a, b)
    ensures Reduces(a, b)
    decreases |a|
  {
    if a != [] {
      ReducesPointwise(a[1..], b[1..]);
    }
  }

  lemma {:induction false} ReducesTransitive(a: seq<byte>, b: seq<byte>, c: seq<byte>)
    requires Reduces(a, b) && Reduces(b, c)
    ensures Reduces(a, c)
    decreases |a| + |b|
  {
    if c != [] && b != [] {
      if Reduces(a[1..], b) {
        ReducesTransitive(a[1..], b, c);
      } else if Reduces(b[1..], c) {
        ReducesTransitive(a[1..], b[1..], c);
      } else {
        ReducesTransitive(a[1..], b[1..], c[1..]);
      }
    }
  }

  lemma {:induction false} ReducesDrop(a: seq<byte>, n: nat)
    requires n <= |a|
    ensures Reduces(a, a[n..])
    decreases |a|
  {
    if n == 0 {
      assert a[0..] == a;
      ReducesPointwise(a, a);
    } else {
      ReducesDrop(a[1..], n - 1);
      assert a[1..][n - 1..] == a[n..];
    }
  }

  lemma {:induction false} ReducesWithout(d: seq<byte>, pos: nat, len: nat)
    requires pos < |d|
    ensures Reduces(d, Without(d, pos, len))
    decreases pos
  {
    if pos == 0 {
      ReducesDrop(d, Min(len, |d|));
      WithoutFirst(d, pos, len);
    } else {
      ReducesWithout(d[1..], pos - 1, len);
      WithoutFirst(d, pos, len);
    }
  }

  // ----- termination measure -----

  /** Length plus the number of bytes that are not '0'. */
  function Measure(d: seq<byte>): nat {
    |d| + CountOther(d, ZERO)
  }

  lemma {:induction false} CountOtherAppend(a: seq<byte>, b: seq<byte>, z: byte)
    ensures CountOther(a + b, z) == CountOther(a, z) + CountOther(b, z)
    decreases |b|
  {
    if b == [] {
      assert a + b == a;
    } else {
      assert (a + b)[..|a + b| - 1] == a + b[..|b| - 1];
      CountOtherAppend(a, b[..|b| - 1], z);
    }
  }

  lemma WithoutFalls(d: seq<byte>, pos: nat, len: nat)
    requires pos < |d| && len > 0
    ensures |Without(d, pos, len)| < |d| && Measure(Without(d, pos, len)) < Measure(d)
  {
    var e := Min(pos + len, |d|);
    assert d == d[..pos] + d[pos..e] + d[e..];
    CountOtherAppend(d[..pos] + d[pos..e], d[e..], ZERO);
    CountOtherAppend(d[..pos], d[pos..e], ZERO);
    CountOtherAppend(d[..pos], d[e..], ZERO);
    assert Without(d, pos, len) == d[..pos] + d[e..];
  }

  /** Overwriting bytes by '0' never raises the measure and lowers it if anything changes. */
  lemma {:induction false} OverwriteFalls(d: seq<byte>, e: seq<byte>)
    requires Overwrites(d, e)
    ensures Measure(e) <= Measure(d)
    ensures d != e ==> Measure(e) < Measure(d)
    decreases |d|
  {
    if d != [] {
      var n := |d| - 1;
      OverwriteFalls(d[..n], e[..n]);
      assert d == d[..n] + [d[n]] && e == e[..n] + [e[n]];
    }
  }

  // ----- stage 0: block normalisation -----

  function Fill(d: seq<byte>, pos: nat, len: nat): (r: seq<byte>)
    requires pos + len <= |d|
    ensures |r| == |d|
  {
    d[..pos] + Repeat(ZERO, len) + d[pos + len..]
  }

  function SetLen(n: nat): (r: nat)
    ensures r >= TMIN_SET_MIN_SIZE
  {
    Max(NextP2(n / TMIN_SET_STEPS), TMIN_SET_MIN_SIZE)
  }

  predicate AllZero(d: seq<byte>, pos: nat, len: nat)
    requires pos + len <= |d|
  {
    forall i :: pos <= i < pos + len ==> d[i] == ZERO
  }

  function NormalizedBlock(o: Oracle, d: seq<byte>, pos: nat, len: nat): (r: seq<byte>)
    requires pos + len <= |d|
    ensures |r| == |d|
  {
    if !AllZero(d, pos, len) && o.Accepts(Fill(d, pos, len)) then Fill(d, pos, len) else d
  }

  function Normalized(o: Oracle, d: seq<byte>, pos: nat, len: nat): seq<byte>
    requires len > 0
    decreases |d| - pos
  {
    if pos >= |d| then d
    else
      Normalized(o, NormalizedBlock(o, d, pos, Min(len, |d| - pos)), pos + len, len)
  }

  lemma NormalizedUnfold(o: Oracle, d: seq<byte>, pos: nat, len: nat)
    requires len > 0 && pos < |d|
    ensures Normalized(o, d, pos, len) == Normalized(o, NormalizedBlock(o, d, pos, Min(len, |d| - pos)), pos + len, len)
  {
  }

  lemma {:induction false} NormalizedKeeps(o: Oracle, d: seq<byte>, pos: nat, len: nat)
    requires len > 0
    ensures Overwrites(d, Normalized(o, d, pos, len))
    ensures o.Accepts(d) ==> o.Accepts(Normalized(o, d, pos, len))
    decreases |d| - pos
  {
    if pos < |d| {
      NormalizedKeeps(o, NormalizedBlock(o, d, pos, Min(len, |d| - pos)), pos + len, len);
    }
  }

  // ----- stage 1: block deletion -----

  /** The walk for one block length; `prevDel` as in the source. */
  function DeleteWalk(o: Oracle, d: seq<byte>, pos: nat, len: nat, prevDel: bool): seq<byte>
    requires len > 0 && (!prevDel ==> len <= pos)
    decreases |d| - pos
  {
    if pos >= |d| then d
    else if !prevDel && pos + len < |d| && d[pos - len..pos] == d[pos..pos + len] then
      DeleteWalk(o, d, pos + len, len, false)
    else
      var cand := Without(d, pos, len);
      if o.Accepts(cand) then DeleteWalk(o, cand, pos, len, true)
      else DeleteWalk(o, d, pos + len, len, false)
  }

  /** All block lengths from len down to 1. */
  function DeleteSizes(o: Oracle, d: seq<byte>, len: nat): seq<byte>
    requires len > 0
    decreases len
  {
    var e := DeleteWalk(o, d, 0, len, true);
    if len > 1 && |e| >= 1 then DeleteSizes(o, e, len / 2) else e
  }

  /** A deletion step changes nothing or strictly shrinks, and keeps acceptance. */
  ghost predicate Shrinks(o: Oracle, d: seq<byte>, r: seq<byte>) {
    && (r == d || (|r| <= |d| && Measure(r) < Measure(d)))
    && (o.Accepts(d) ==> o.Accepts(r))
    && Reduces(d, r)
  }

  lemma ShrinksTransitive(o: Oracle, d: seq<byte>, e: seq<byte>, f: seq<byte>)
    requires Shrinks(o, d, e) && Shrinks(o, e, f)
    ensures Shrinks(o, d, f)
  {
    ReducesTransitive(d, e, f);
  }

  lemma WithoutShrinks(o: Oracle, d: seq<byte>, pos: nat, len: nat)
    requires pos < |d| && len > 0 && o.Accepts(Without(d, pos, len))
    ensures Shrinks(o, d, Without(d, pos, len)) && |Without(d, pos, len)| < |d|
  {
    WithoutFalls(d, pos, len);
    ReducesWithout(d, pos, len);
  }

  lemma {:induction false} DeleteWalkKeeps(o: Oracle, d: seq<byte>, pos: nat, len: nat, prevDel: bool)
    requires len > 0 && (!prevDel ==> len <= pos)
    ensures Shrinks(o, d, DeleteWalk(o, d, pos, len, prevDel))
    ensures DeleteWalk(o, d, pos, len, prevDel) == d || |DeleteWalk(o, d, pos, len, prevDel)| < |d|
    decreases |d| - pos
  {
    if pos >= |d| {
      ReducesPointwise(d, d);
    } else if !prevDel && pos + len < |d| && d[pos - len..pos] == d[pos..pos + len] {
      DeleteWalkKeeps(o, d, pos + len, len, false);
    } else {
      var cand := Without(d, pos, len);
      if o.Accepts(cand) {
        WithoutShrinks(o, d, pos, len);
        DeleteWalkKeeps(o, cand, pos, len, true);
        ShrinksTransitive(o, d, cand, DeleteWalk(o, cand, pos, len, true));
      } else {
        DeleteWalkKeeps(o, d, pos + len, len, false);
      }
    }
  }

  lemma {:induction false} DeleteSizesKeeps(o: Oracle, d: seq<byte>, len: nat)
    requires len > 0
    ensures Shrinks(o, d, DeleteSizes(o, d, len))
    decreases len
  {
    var e := DeleteWalk(o, d, 0, len, true);
    DeleteWalkKeeps(o, d, 0, len, true);
    if len > 1 && |e| >= 1 {
      DeleteSizesKeeps(o, e, len / 2);
      ShrinksTransitive(o, d, e, DeleteSizes(o, e, len / 2));
    }
  }

  /** A block skipped for being equal to its predecessor would have given the very candidate
      the predecessor gave. */
  lemma SkippedBlockIsSameCandidate(d: seq<byte>, pos: nat, len: nat)
    requires 0 < len <= pos && pos + len < |d| && d[pos - len..pos] == d[pos..pos + len]
    ensures Without(d, pos, len) == Without(d, pos - len, len)
  {
    assert d[..pos] == d[..pos - len] + d[pos - len..pos];
    assert d[pos..] == d[pos..pos + len] + d[pos + len..];
  }

  /** No block of length len at a multiple of len, counted from pos, can be deleted. */
  ghost predicate RejectedFrom(o: Oracle, d: seq<byte>, pos: nat, len: nat)
    requires len > 0
    decreases |d| - pos
  {
    pos >= |d| || (!o.Accepts(Without(d, pos, len)) && RejectedFrom(o, d, pos + len, len))
  }

  lemma {:induction false} UnchangedWalkRejects(o: Oracle, d: seq<byte>, pos: nat, len: nat, prevDel: bool)
    requires len > 0
    requires !prevDel ==> len <= pos <= |d| + len && (pos <= |d| ==> !o.Accepts(Without(d, pos - len, len)))
    requires DeleteWalk(o, d, pos, len, prevDel) == d
    ensures RejectedFrom(o, d, pos, len)
    decreases |d| - pos
  {
    if pos < |d| {
      if !prevDel && pos + len < |d| && d[pos - len..pos] == d[pos..pos + len] {
        SkippedBlockIsSameCandidate(d, pos, len);
      } else {
        var cand := Without(d, pos, len);
        WithoutFalls(d, pos, len);
        DeleteWalkKeeps(o, cand, pos, len, true);
      }
      UnchangedWalkRejects(o, d, pos + len, len, false);
    }
  }

  ghost predicate RejectedSizes(o: Oracle, d: seq<byte>, len: nat)
    requires len > 0
    decreases len
  {
    RejectedFrom(o, d, 0, len) && (len > 1 ==> RejectedSizes(o, d, len / 2))
  }

  lemma {:induction false} EmptyRejects(o: Oracle, len: nat)
    requires len > 0
    ensures RejectedSizes(o, [], len)
    decreases len
  {
    if len > 1 {
      EmptyRejects(o, len / 2);
    }
  }

  lemma {:induction false} UnchangedSizesReject(o: Oracle, d: seq<byte>, len: nat)
    requires len > 0 && DeleteSizes(o, d, len) == d
    ensures RejectedSizes(o, d, len)
    decreases len
  {
    DeleteWalkKeeps(o, d, 0, len, true);
    if len > 1 && |DeleteWalk(o, d, 0, len, true)| >= 1 {
      DeleteSizesKeeps(o, DeleteWalk(o, d, 0, len, true), len / 2);
    }
    UnchangedWalkRejects(o, d, 0, len, true);
    if len > 1 {
      if |d| >= 1 {
        UnchangedSizesReject(o, d, len / 2);
      } else {
        EmptyRejects(o, len / 2);
      }
    }
  }

  lemma {:induction false} RejectedSizesAt(o: Oracle, d: seq<byte>, len: nat, p: nat)
    requires IsPow2(len) && IsPow2(p) && p <= len && RejectedSizes(o, d, len)
    ensures RejectedFrom(o, d, 0, p)
    decreases len
  {
    if p < len {
      Pow2Halves(p, len);
      RejectedSizesAt(o, d, len / 2, p);
    }
  }

  /** Where the k-th block of length len starts. */
  function BlockStart(k: nat, len: nat): nat {
    k * len
  }

  lemma {:induction false} RejectedFromAt(o: Oracle, d: seq<byte>, pos: nat, len: nat, k: nat)
    requires len > 0 && RejectedFrom(o, d, pos, len) && pos + BlockStart(k, len) < |d|
    ensures !o.Accepts(Without(d, pos + BlockStart(k, len), len))
    decreases k
  {
    if k > 0 {
      assert BlockStart(k, len) == len + BlockStart(k - 1, len);
      RejectedFromAt(o, d, pos + len, len, k - 1);
    } else {
      assert BlockStart(0, len) == 0;
    }
  }

  // ----- stage 2: alphabet minimisation -----

  function Replace(d: seq<byte>, b: byte): (r: seq<byte>)
    ensures |r| == |d| && forall i :: 0 <= i < |d| ==> r[i] == if d[i] == b then ZERO else d[i]
  {
    if d == [] then [] else Replace(d[..|d| - 1], b) + [if d[|d| - 1] == b then ZERO else d[|d| - 1]]
  }

  lemma ReplaceFalls(d: seq<byte>, b: byte)
    requires b in d && b != ZERO
    ensures Replace(d, b) != d && Measure(Replace(d, b)) < Measure(d)
  {
    var k :| 0 <= k < |d| && d[k] == b;
    assert Replace(d, b)[k] != d[k];
    OverwriteFalls(d, Replace(d, b));
  }

  function AlphabetStep(o: Oracle, d: seq<byte>, b: byte): (r: seq<byte>)
    ensures |r| == |d|
  {
    if b != ZERO && b in d && o.Accepts(Replace(d, b)) then Replace(d, b) else d
  }

  function AlphabetWalk(o: Oracle, d: seq<byte>, i: nat): seq<byte>
    decreases 256 - i
  {
    if i >= 256 then d
    else AlphabetWalk(o, AlphabetStep(o, d, i as byte), i + 1)
  }

  lemma {:induction false} AlphabetWalkKeeps(o: Oracle, d: seq<byte>, i: nat)
    ensures Overwrites(d, AlphabetWalk(o, d, i))
    ensures o.Accepts(d) ==> o.Accepts(AlphabetWalk(o, d, i))
    decreases 256 - i
  {
    if i < 256 {
      AlphabetWalkKeeps(o, AlphabetStep(o, d, i as byte), i + 1);
    }
  }

  /** The counts in m tell which symbols from i on, '0' apart, occur in d. */
  ghost predicate Present(m: seq<nat>, d: seq<byte>, i: nat) {
    |m| == 256 && forall s: byte :: i <= s as int && s != ZERO ==> (m[s as int] > 0 <==> s in d)
  }

  /** `alpha_map` is computed once but stays right about the symbols still to come. */
  lemma PresentStays(o: Oracle, m: seq<nat>, d: seq<byte>, b: byte)
    requires Present(m, d, b as int)
    ensures Present(m, AlphabetStep(o, d, b), b as int + 1)
  {
    var e := AlphabetStep(o, d, b);
    forall s: byte | s != b && s != ZERO
      ensures s in e <==> s in d
    {
      if s in d {
        var k :| 0 <= k < |d| && d[k] == s;
        assert e[k] == s;
      }
    }
  }

  // ----- stage 3: character minimisation -----

  function CharacterStep(o: Oracle, d: seq<byte>, i: nat): (r: seq<byte>)
    requires i < |d|
    ensures |r| == |d|
  {
    if d[i] != ZERO && o.Accepts(d[i := ZERO]) then d[i := ZERO] else d
  }

  function CharacterWalk(o: Oracle, d: seq<byte>, i: nat): seq<byte>
    decreases |d| - i
  {
    if i >= |d| then d
    else CharacterWalk(o, CharacterStep(o, d, i), i + 1)
  }

  lemma {:induction false} CharacterWalkKeeps(o: Oracle, d: seq<byte>, i: nat)
    ensures Overwrites(d, CharacterWalk(o, d, i))
    ensures o.Accepts(d) ==> o.Accepts(CharacterWalk(o, d, i))
    decreases |d| - i
  {
    if i < |d| {
      CharacterWalkKeeps(o, CharacterStep(o, d, i), i + 1);
    }
  }

  // ----- the pass loop -----

  function Replaced(o: Oracle, d: seq<byte>): (r: seq<byte>)
    ensures Shrinks(o, d, r)
  {
    var e := AlphabetWalk(o, d, 0);
    var r := CharacterWalk(o, e, 0);
    AlphabetWalkKeeps(o, d, 0);
    CharacterWalkKeeps(o, e, 0);
    OverwriteFalls(d, r);
    ReducesPointwise(d, r);
    r
  }

  function Deleted(o: Oracle, d: seq<byte>): (r: seq<byte>)
    ensures Shrinks(o, d, r)
  {
    var len := NextP2(|d| / TRIM_START_STEPS);
    DeleteSizesKeeps(o, d, len);
    DeleteSizes(o, d, len)
  }

  /** Passes until one changes nothing, which after the first pass is known already after its
      deletion stage. */
  function Passes(o: Oracle, d: seq<byte>, curPass: nat): seq<byte>
    decreases Measure(d)
  {
    var e := Deleted(o, d);
    if curPass > 1 && e == d then d
    else
      var f := Replaced(o, e);
      if f != d then Passes(o, f, curPass + 1) else f
  }

  lemma {:induction false} PassesKeep(o: Oracle, d: seq<byte>, curPass: nat)
    ensures Shrinks(o, d, Passes(o, d, curPass))
    ensures Deleted(o, Passes(o, d, curPass)) == Passes(o, d, curPass)
    decreases Measure(d)
  {
    ReducesPointwise(d, d);
    var e := Deleted(o, d);
    var f := Replaced(o, e);
    ShrinksTransitive(o, d, e, f);
    if !(curPass > 1 && e == d) && f != d {
      PassesKeep(o, f, curPass + 1);
      ShrinksTransitive(o, d, f, Passes(o, f, curPass + 1));
    }
  }

  function Minimized(o: Oracle, d: seq<byte>): seq<byte> {
    Passes(o, Normalized(o, d, 0, SetLen(|d|)), 1)
  }

  // ----- what the minimiser promises -----

  /** If the original input is accepted so is the result, and the result is the original with
      bytes deleted or overwritten by '0' and nothing else. */
  lemma MinimizedIsAcceptedReduction(o: Oracle, d: seq<byte>)
    ensures o.Accepts(d) ==> o.Accepts(Minimized(o, d))
    ensures Reduces(d, Minimized(o, d))
  {
    var n := Normalized(o, d, 0, SetLen(|d|));
    NormalizedKeeps(o, d, 0, SetLen(|d|));
    PassesKeep(o, n, 1);
    ReducesPointwise(d, n);
    ReducesTransitive(d, n, Minimized(o, d));
  }

  /** No aligned block of any length the minimiser uses on data of the final size can be
      deleted from the result: the lengths are the powers of two up to next_p2(len / 16). */
  lemma MinimizedIsBlockMinimal(o: Oracle, d: seq<byte>, len: nat, k: nat)
    requires IsPow2(len) && len <= NextP2(|Minimized(o, d)| / TRIM_START_STEPS)
    requires BlockStart(k, len) < |Minimized(o, d)|
    ensures !o.Accepts(Without(Minimized(o, d), BlockStart(k, len), len))
  {
    var r := Minimized(o, d);
    var top := NextP2(|r| / TRIM_START_STEPS);
    PassesKeep(o, Normalized(o, d, 0, SetLen(|d|)), 1);
    UnchangedSizesReject(o, r, top);
    RejectedSizesAt(o, r, top, len);
    RejectedFromAt(o, r, 0, len, k);
  }

  /** 1-minimality: no single byte of the result can be deleted. */
  lemma MinimizedIsOneMinimal(o: Oracle, d: seq<byte>, i: nat)
    requires i < |Minimized(o, d)|
    ensures !o.Accepts(Minimized(o, d)[..i] + Minimized(o, d)[i + 1..])
  {
    assert BlockStart(i, 1) == i;
    MinimizedIsBlockMinimal(o, d, 1, i);
  }

  /** No symbol from i on can be overwritten throughout. */
  ghost predicate SymbolsRejected(o: Oracle, d: seq<byte>, i: nat) {
    forall b: byte :: i <= b as int && b != ZERO && b in d ==> !o.Accepts(Replace(d, b))
  }

  lemma {:induction false} AlphabetFixpoint(o: Oracle, d: seq<byte>, i: nat)
    ensures AlphabetWalk(o, d, i) == d <==> SymbolsRejected(o, d, i)
    decreases 256 - i
  {
    if i < 256 {
      var b := i as byte;
      var e := AlphabetStep(o, d, b);
      if e == d {
        if b != ZERO && b in d {
          ReplaceFalls(d, b);
        }
        AlphabetFixpoint(o, d, i + 1);
      } else {
        ReplaceFalls(d, b);
        AlphabetWalkKeeps(o, e, i + 1);
        OverwriteFalls(e, AlphabetWalk(o, e, i + 1));
      }
    }
  }

  lemma {:induction false} CharacterFixpoint(o: Oracle, d: seq<byte>, i: nat)
    ensures CharacterWalk(o, d, i) == d <==>
              forall k :: i <= k < |d| && d[k] != ZERO ==> !o.Accepts(d[k := ZERO])
    decreases |d| - i
  {
    if i < |d| {
      var e := CharacterStep(o, d, i);
      if e == d {
        assert d[i] != ZERO ==> d[i := ZERO][i] != d[i];
        CharacterFixpoint(o, d, i + 1);
      } else {
        OverwriteFalls(d, e);
        CharacterWalkKeeps(o, e, i + 1);
        OverwriteFalls(e, CharacterWalk(o, e, i + 1));
      }
    }
  }

  /** The replacement stages leave the data alone exactly when no symbol can be overwritten
      throughout and no single byte can be overwritten. */
  lemma ReplacementFixpoint(o: Oracle, d: seq<byte>)
    ensures Replaced(o, d) == d <==>
              && SymbolsRejected(o, d, 0)
              && (forall k :: 0 <= k < |d| && d[k] != ZERO ==> !o.Accepts(d[k := ZERO]))
  {
    var e := AlphabetWalk(o, d, 0);
    AlphabetFixpoint(o, d, 0);
    CharacterFixpoint(o, d, 0);
    AlphabetWalkKeeps(o, d, 0);
    CharacterWalkKeeps(o, e, 0);
    OverwriteFalls(d, e);
    OverwriteFalls(e, CharacterWalk(o, e, 0));
  }

  // ----- the program -----

  method ComputeSetLen(inLen: nat) returns (setLen: nat)
    ensures setLen == SetLen(inLen)
  {
    setLen := ComputeNextP2(inLen / TMIN_SET_STEPS);
    if setLen < TMIN_SET_MIN_SIZE {
      setLen := TMIN_SET_MIN_SIZE;
    }
  }

  class Tmin {
    var oracle: Oracle
    var inData: array<byte>
    var inLen: nat
    var tmpBuf: array<byte>
    var changedAny: bool

    ghost predicate Valid()
      reads this
    {
      inLen <= inData.Length && inData.Length <= tmpBuf.Length && inData != tmpBuf
    }

    ghost function Data(): seq<byte>
      requires Valid()
      reads this, inData
    {
      inData[..inLen]
    }

    constructor (target: seq<byte> -> Outcome, settings: Settings, file: array<byte>)
      ensures Valid() && fresh(tmpBuf) && inData == file && Data() == file[..]
      ensures oracle == Oracle(target, settings, Mode(false, 0))
    {
      oracle := Oracle(target, settings, Mode(false, 0));
      inData := file;
      inLen := file.Length;
      tmpBuf := new byte[file.Length];
      changedAny := false;
    }

    /** `run_target`; the first run also chooses the mode all later runs are judged in. */
    method RunTarget(mem: seq<byte>, firstRun: bool) returns (keep: bool, timedOut: bool, mode: Mode)
      ensures timedOut == oracle.target(mem).timedOut
      ensures !firstRun ==> mode == oracle.mode && keep == oracle.Accepts(mem)
      ensures firstRun && oracle.mode == Mode(false, 0) ==> keep == !timedOut
      ensures firstRun && oracle.mode == Mode(false, 0) && keep ==>
                && oracle.(mode := mode).Accepts(mem)
                && mode.crashMode == Crashed(oracle.settings, oracle.target(mem))
    {
      var o := oracle.target(mem);
      timedOut, mode := o.timedOut, oracle.mode;
      if timedOut {
        return false, timedOut, mode;
      }
      if Crashed(oracle.settings, o) {
        if firstRun {
          mode := mode.(crashMode := true);
        }
        if mode.crashMode {
          if !oracle.settings.exactMode {
            return true, timedOut, mode;
          }
        } else {
          return false, timedOut, mode;
        }
      } else if mode.crashMode {
        return false, timedOut, mode;
      }
      if firstRun {
        mode := mode.(origCksum := o.cksum);
      }
      keep := mode.origCksum == o.cksum;
    }

    /** The whole of `in_data` copied to `tmp_buf`. */
    method LoadTmp()
      requires Valid()
      modifies tmpBuf
      ensures tmpBuf[..inLen] == Data()
    {
      MemCopy(tmpBuf, 0, inData, 0, inLen);
    }

    /** Run the first n bytes of `tmp_buf`; if they are kept they become the data. */
    method TryTmp(n: nat) returns (res: bool)
      requires Valid() && n <= inLen
      modifies inData, `inLen, `changedAny
      ensures Valid() && res == oracle.Accepts(tmpBuf[..n])
      ensures Data() == if res then tmpBuf[..n] else old(Data())
      ensures changedAny <==> old(changedAny) || res
    {
      var keep, _, _ := RunTarget(tmpBuf[..n], false);
      res := keep;
      if res {
        MemCopy(inData, 0, tmpBuf, 0, n);
        inLen := n;
        changedAny := true;
        assert Data() == tmpBuf[..n];
      }
    }

    /** Stage 0, one block. */
    method NormalizeBlock(setPos: nat, useLen: nat)
      requires Valid() && setPos + useLen <= inLen
      modifies inData, tmpBuf, `changedAny
      ensures Valid() && Data() == NormalizedBlock(oracle, old(Data()), setPos, useLen)
    {
      ghost var d := Data();
      ghost var cand := Fill(d, setPos, useLen);
      var i := 0;
      while i < useLen && inData[setPos + i] == ZERO
        invariant 0 <= i <= useLen
        invariant forall k :: setPos <= k < setPos + i ==> d[k] == ZERO
      {
        i := i + 1;
      }
      if i == useLen {
        return;
      }
      assert d[setPos + i] != ZERO;
      LoadTmp();
      MemSet(tmpBuf, setPos, ZERO, useLen);
      assert tmpBuf[..inLen] == cand;
      var res, _, _ := RunTarget(tmpBuf[..inLen], false);
      if res {
        MemSet(inData, setPos, ZERO, useLen);
        changedAny := true;
        assert Data() == cand;
      }
    }

    /** Stage 0, one turn of the loop. */
    method NormalizeOne(setPos: nat, setLen: nat)
      requires Valid() && setPos < inLen && setLen > 0
      modifies inData, tmpBuf, `changedAny
      ensures Valid() && |Data()| == |old(Data())|
      ensures Normalized(oracle, old(Data()), setPos, setLen) == Normalized(oracle, Data(), setPos + setLen, setLen)
    {
      ghost var d := Data();
      ghost var o := oracle;
      var useLen := Min(setLen, inLen - setPos);
      NormalizeBlock(setPos, useLen);
      NormalizedUnfold(o, d, setPos, setLen);
    }

    /** Stage 0. */
    method NormalizeBlocks()
      requires Valid()
      modifies inData, tmpBuf, `changedAny
      ensures Valid()
      ensures Data() == Normalized(oracle, old(Data()), 0, SetLen(inLen))
    {
      hide NormalizedBlock;
      var setLen := ComputeSetLen(inLen);
      var setPos: nat := 0;
      ghost var goal := Normalized(oracle, Data(), 0, setLen);
      while setPos < inLen
        invariant Valid()
        invariant goal == Normalized(oracle, Data(), setPos, setLen)
        decreases inLen - setPos
      {
        NormalizeOne(setPos, setLen);
        setPos := setPos + setLen;
      }
    }

    method SameAsPrevious(delPos: nat, delLen: nat) returns (same: bool)
      requires Valid() && delLen <= delPos && delPos + delLen <= inLen
      ensures same <==> Data()[delPos - delLen..delPos] == Data()[delPos..delPos + delLen]
    {
      same := inData[delPos - delLen..delPos] == inData[delPos..delPos + delLen];
      assert Data()[..delPos] == inData[..delPos];
      assert Data()[..delPos + delLen] == inData[..delPos + delLen];
    }

    /** Stage 1, one candidate. */
    method TryDeletion(delPos: nat, delLen: nat) returns (res: bool)
      requires Valid() && delPos < inLen && delLen > 0
      modifies inData, tmpBuf, `inLen, `changedAny
      ensures Valid() && res == oracle.Accepts(Without(old(Data()), delPos, delLen))
      ensures Data() == if res then Without(old(Data()), delPos, delLen) else old(Data())
      ensures changedAny <==> old(changedAny) || res
    {
      ghost var d := Data();
      ghost var cand := Without(d, delPos, delLen);
      var tailLen := Max(inLen - delPos - delLen, 0);
      MemCopy(tmpBuf, 0, inData, 0, delPos);
      if tailLen > 0 {
        MemCopy(tmpBuf, delPos, inData, delPos + delLen, tailLen);
      }
      assert tmpBuf[..delPos + tailLen] == cand;
      res := TryTmp(delPos + tailLen);
    }

    /** One turn of the deletion loop: skip the block or try it. */
    method DeleteOne(delPos: nat, delLen: nat, prevDel: bool) returns (pos: nat, deleted: bool)
      requires Valid() && delPos < inLen && delLen > 0 && (!prevDel ==> delLen <= delPos)
      modifies inData, tmpBuf, `inLen, `changedAny
      ensures Valid() && (!deleted ==> delLen <= pos)
      ensures DeleteWalk(oracle, Data(), pos, delLen, deleted)
           == DeleteWalk(oracle, old(Data()), delPos, delLen, prevDel)
      ensures deleted ==> pos == delPos && inLen < old(inLen)
      ensures !deleted ==> pos == delPos + delLen && Data() == old(Data())
      ensures changedAny <==> old(changedAny) || deleted
    {
      ghost var d := Data();
      var tailLen := Max(inLen - delPos - delLen, 0);
      if !prevDel && tailLen != 0 {
        var same := SameAsPrevious(delPos, delLen);
        if same {
          return delPos + delLen, false;
        }
      }
      WithoutFalls(d, delPos, delLen);
      deleted := TryDeletion(delPos, delLen);
      pos := if deleted then delPos else delPos + delLen;
    }

    /** One block length of stage 1. */
    method DeleteBlocks(delLen: nat)
      requires Valid() && delLen > 0
      modifies inData, tmpBuf, `inLen, `changedAny
      ensures Valid()
      ensures Data() == DeleteWalk(oracle, old(Data()), 0, delLen, true)
      ensures changedAny <==> old(changedAny) || Data() != old(Data())
    {
      ghost var d0 := Data();
      var delPos: nat, prevDel := 0, true;
      while delPos < inLen
        invariant Valid() && (!prevDel ==> delLen <= delPos)
        invariant DeleteWalk(oracle, Data(), delPos, delLen, prevDel) == DeleteWalk(oracle, d0, 0, delLen, true)
        invariant inLen <= |d0| && (inLen == |d0| ==> Data() == d0)
        invariant changedAny <==> old(changedAny) || inLen < |d0|
        decreases inLen - delPos
      {
        delPos, prevDel := DeleteOne(delPos, delLen, prevDel);
      }
    }

    /** Stage 1. */
    method DeletionStage()
      requires Valid()
      modifies inData, tmpBuf, `inLen, `changedAny
      ensures Valid()
      ensures Data() == Deleted(oracle, old(Data()))
      ensures changedAny <==> old(changedAny) || Data() != old(Data())
    {
      var delLen := ComputeNextP2(inLen / TRIM_START_STEPS);
      ghost var top := delLen;
      ghost var before := Data();
      DeleteWalkKeeps(oracle, before, 0, delLen, true);
      DeleteBlocks(delLen);
      while delLen > 1 && inLen >= 1
        invariant Valid() && delLen > 0
        invariant DeleteSizes(oracle, before, top) == if delLen > 1 && inLen >= 1
                  then DeleteSizes(oracle, Data(), delLen / 2) else Data()
        invariant Data() == before || Measure(Data()) < Measure(before)
        invariant changedAny <==> old(changedAny) || Data() != before
        decreases delLen
      {
        delLen := delLen / 2;
        DeleteWalkKeeps(oracle, Data(), 0, delLen, true);
        DeleteBlocks(delLen);
      }
    }

    method ReplaceInTmp(b: byte)
      requires Valid() && tmpBuf[..inLen] == Data()
      modifies tmpBuf
      ensures tmpBuf[..inLen] == Replace(Data(), b)
    {
      ghost var d := Data();
      ghost var cand := Replace(d, b);
      assert forall k :: 0 <= k < inLen ==> tmpBuf[k] == tmpBuf[..inLen][k];
      var r := 0;
      while r < inLen
        invariant 0 <= r <= inLen
        invariant forall k :: 0 <= k < r ==> tmpBuf[k] == cand[k]
        invariant forall k :: r <= k < inLen ==> tmpBuf[k] == d[k]
      {
        if tmpBuf[r] == b {
          tmpBuf[r] := ZERO;
        }
        r := r + 1;
      }
    }

    /** Stage 2, one symbol. */
    method TrySymbol(b: byte)
      requires Valid() && b != ZERO && b in Data()
      modifies inData, tmpBuf, `inLen, `changedAny
      ensures Valid() && Data() == AlphabetStep(oracle, old(Data()), b)
      ensures Data() == old(Data()) || Measure(Data()) < Measure(old(Data()))
      ensures changedAny <==> old(changedAny) || Data() != old(Data())
    {
      ghost var d := Data();
      ghost var cand := Replace(d, b);
      ReplaceFalls(d, b);
      LoadTmp();
      ReplaceInTmp(b);
      var res := TryTmp(inLen);
    }

    /** Stage 2, one turn of the loop. */
    method AlphabetOne(i: nat, alphaMap: seq<nat>)
      requires Valid() && i < 256 && Present(alphaMap, Data(), i)
      modifies inData, tmpBuf, `inLen, `changedAny
      ensures Valid() && Data() == AlphabetStep(oracle, old(Data()), i as byte)
      ensures Present(alphaMap, Data(), i + 1)
      ensures Data() == old(Data()) || Measure(Data()) < Measure(old(Data()))
      ensures changedAny <==> old(changedAny) || Data() != old(Data())
    {
      var b := i as byte;
      PresentStays(oracle, alphaMap, Data(), b);
      if b != ZERO && alphaMap[i] != 0 {
        TrySymbol(b);
      }
    }

    /** Stage 2. */
    method AlphabetStage()
      requires Valid()
      modifies inData, tmpBuf, `inLen, `changedAny
      ensures Valid()
      ensures Data() == AlphabetWalk(oracle, old(Data()), 0)
      ensures changedAny <==> old(changedAny) || Data() != old(Data())
    {
      hide AlphabetStep, Present;
      ghost var d0 := Data();
      var alphaMap := CountSymbols();
      var i: nat := 0;
      while i < 256
        invariant Valid() && i <= 256
        invariant Present(alphaMap, Data(), i)
        invariant AlphabetWalk(oracle, Data(), i) == AlphabetWalk(oracle, d0, 0)
        invariant Data() == d0 || Measure(Data()) < Measure(d0)
        invariant changedAny <==> old(changedAny) || Data() != d0
      {
        AlphabetOne(i, alphaMap);
        i := i + 1;
      }
    }

    /** `alpha_map`: how often each symbol occurs. */
    method CountSymbols() returns (counts: seq<nat>)
      requires Valid()
      ensures Present(counts, Data(), 0)
    {
      var alphaMap := new nat[256](_ => 0);
      var i := 0;
      while i < inLen
        invariant 0 <= i <= inLen && fresh(alphaMap)
        invariant Present(alphaMap[..], inData[..i], 0)
      {
        assert inData[..i + 1] == inData[..i] + [inData[i]];
        var s := inData[i] as int;
        ghost var m := alphaMap[..];
        alphaMap[s] := alphaMap[s] + 1;
        assert alphaMap[..] == m[s := m[s] + 1];
        i := i + 1;
      }
      counts := alphaMap[..];
    }

    /** Stage 3, one byte; `tmp_buf` keeps step with `in_data`. */
    method TryCharacter(i: nat)
      requires Valid() && i < inLen && tmpBuf[..inLen] == Data()
      modifies inData, tmpBuf, `changedAny
      ensures Valid() && tmpBuf[..inLen] == Data()
      ensures Data() == CharacterStep(oracle, old(Data()), i)
      ensures Data() == old(Data()) || Measure(Data()) < Measure(old(Data()))
      ensures changedAny <==> old(changedAny) || Data() != old(Data())
    {
      ghost var d := Data();
      OverwriteFalls(d, CharacterStep(oracle, d, i));
      var orig := tmpBuf[i];
      assert orig == tmpBuf[..inLen][i] == d[i];
      if orig == ZERO {
        return;
      }
      tmpBuf[i] := ZERO;
      assert tmpBuf[..inLen] == d[i := ZERO];
      var res, _, _ := RunTarget(tmpBuf[..inLen], false);
      if res {
        inData[i] := ZERO;
        changedAny := true;
        assert Data() == d[i := ZERO] && Data()[i] != d[i];
      } else {
        tmpBuf[i] := orig;
        assert tmpBuf[..inLen] == d;
      }
    }

    /** Stage 3. */
    method CharacterStage()
      requires Valid()
      modifies inData, tmpBuf, `changedAny
      ensures Valid()
      ensures Data() == CharacterWalk(oracle, old(Data()), 0)
      ensures changedAny <==> old(changedAny) || Data() != old(Data())
    {
      ghost var d0 := Data();
      LoadTmp();
      var i := 0;
      while i < inLen
        invariant Valid() && 0 <= i <= inLen
        invariant tmpBuf[..inLen] == Data()
        invariant CharacterWalk(oracle, Data(), i) == CharacterWalk(oracle, d0, 0)
        invariant Data() == d0 || Measure(Data()) < Measure(d0)
        invariant changedAny <==> old(changedAny) || Data() != d0
      {
        TryCharacter(i);
        i := i + 1;
      }
    }

    /** `minimize`. */
    method Minimize()
      requires Valid()
      modifies inData, tmpBuf, `inLen, `changedAny
      ensures Valid()
      ensures Data() == Minimized(oracle, old(Data()))
    {
      NormalizeBlocks();
      ghost var normal := Data();
      var curPass := 1;
      while true
        invariant Valid()
        invariant Passes(oracle, Data(), curPass) == Passes(oracle, normal, 1)
        decreases Measure(Data())
      {
        ghost var d := Data();
        changedAny := false;
        DeletionStage();
        ghost var e := Data();
        if curPass > 1 && !changedAny {
          return;
        }
        AlphabetStage();
        ghost var a := Data();
        CharacterStage();
        AlphabetWalkKeeps(oracle, e, 0);
        CharacterWalkKeeps(oracle, a, 0);
        OverwriteFalls(e, a);
        OverwriteFalls(a, Data());
        if !changedAny {
          return;
        }
        curPass := curPass + 1;
      }
    }

    /** `main`: a dry run, then the minimiser; a target that times out is refused. */
    method MinimizeFile() returns (ok: bool)
      requires Valid() && oracle.mode == Mode(false, 0)
      modifies this, inData, tmpBuf
      ensures Valid() && inData == old(inData)
      ensures ok == !old(oracle).target(old(Data())).timedOut
      ensures !ok ==> Data() == old(Data())
      ensures oracle == old(oracle).(mode := oracle.mode)
      ensures ok ==> Data() == Minimized(oracle, old(Data()))
      ensures ok ==> oracle.Accepts(Data()) && Reduces(old(Data()), Data())
      ensures ok ==> oracle.mode.crashMode == Crashed(oracle.settings, oracle.target(old(Data())))
    {
      var keep, timedOut, mode := RunTarget(inData[..inLen], true);
      if timedOut {
        return false;
      }
      oracle := oracle.(mode := mode);
      ghost var d := Data();
      Minimize();
      MinimizedIsAcceptedReduction(oracle, d);
      ok := true;
    }
  }
}
