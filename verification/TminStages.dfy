/**
 What each stage of the minimiser makes of any data, whether or not it changes something: every block,
 symbol or byte is tried once, in order, on the data as it is by then, and is kept exactly if the
 candidate without it is rejected.
 */
module TminStages {
  import opened Bytes
  import opened TminMinimize

  /** What the minimiser accepts when the dry run on orig has not timed out: if orig crashed, whatever
      crashes too, in exact mode only along the same path; otherwise whatever runs to an end along the same
      path without a crash. */
  lemma AcceptsLikeOriginal(target: seq<byte> -> Outcome, s: Settings, orig: seq<byte>, x: seq<byte>)
    ensures var was, now := target(orig), target(x);
            Oracle(target, s, Mode(Crashed(s, was), was.cksum)).Accepts(x) <==>
              && !now.timedOut && Dies(s, now) == Dies(s, was)
              && (!Dies(s, was) || s.exactMode ==> now.cksum == was.cksum)
  {
  }

  /** Killed by a signal, ended with the exit code of MSAN, or with another exit code but 0 if that counts
      as a crash. */
  predicate Dies(s: Settings, o: Outcome) {
    match o.exit
    case Signaled => true
    case Exited(code) => code == 86 || (s.exitCrash && code != 0)
  }

  // ----- stage 0 -----

  /** The end of the block at pos. */
  function BlockEnd(d: seq<byte>, pos: nat, len: nat): (end: nat)
    requires pos <= |d|
    ensures pos <= end <= |d|
  {
    Min(pos + len, |d|)
  }

  /** d behind end, r before pos, and '0' in between. */
  function ZeroBetween(r: seq<byte>, d: seq<byte>, pos: nat, end: nat): seq<byte>
    requires pos <= end <= |d| == |r|
  {
    r[..pos] + Repeat(ZERO, end - pos) + d[end..]
  }

  lemma {:induction false} HeadStays(o: Oracle, d: seq<byte>, pos: nat, len: nat)
    requires len > 0
    ensures |Normalized(o, d, pos, len)| == |d|
    ensures pos <= |d| ==> Normalized(o, d, pos, len)[..pos] == d[..pos]
    ensures pos >= |d| ==> Normalized(o, d, pos, len) == d
    decreases |d| - pos
  {
    if pos < |d| {
      var e := NormalizedBlock(o, d, pos, Min(len, |d| - pos));
      HeadStays(o, e, pos + len, len);
      var r := Normalized(o, d, pos, len);
      if pos + len <= |d| {
        assert r[..pos] == r[..pos + len][..pos] == e[..pos];
      }
      assert e[..pos] == d[..pos];
    }
  }

  /** The block from p to end is '0' exactly if that is accepted, with the blocks before as they became. */
  ghost predicate BlockIs(o: Oracle, d: seq<byte>, r: seq<byte>, p: nat, end: nat) {
    && |r| == |d| && p <= end <= |d|
    && r[p..end] == if o.Accepts(ZeroBetween(r, d, p, end)) then Repeat(ZERO, end - p) else d[p..end]
  }

  /** The first block is done with at once. */
  lemma AfterFirst(o: Oracle, d: seq<byte>, pos: nat, len: nat)
    requires len > 0 && pos < |d|
    ensures var r, end := Normalized(o, d, pos, len), BlockEnd(d, pos, len);
            |r| == |d| && r[..end] == NormalizedBlock(o, d, pos, end - pos)[..end]
  {
    hide Normalized, NormalizedBlock;
    var e := NormalizedBlock(o, d, pos, BlockEnd(d, pos, len) - pos);
    HeadStays(o, e, pos + len, len);
    NormalizedUnfold(o, d, pos, len);
  }

  lemma SameHead(r: seq<byte>, e: seq<byte>, pos: nat, end: nat)
    requires pos <= end <= |e| == |r| && r[..end] == e[..end]
    ensures r[pos..end] == e[pos..end] && r[..pos] == e[..pos]
  {
    assert r[..end][pos..] == r[pos..end] && e[..end][pos..] == e[pos..end];
    assert r[..end][..pos] == r[..pos] && e[..end][..pos] == e[..pos];
  }

  lemma FirstBlock(o: Oracle, d: seq<byte>, pos: nat, len: nat)
    requires len > 0 && pos < |d|
    ensures BlockIs(o, d, Normalized(o, d, pos, len), pos, BlockEnd(d, pos, len))
  {
    hide Normalized, NormalizedBlock, Fill, BlockEnd;
    var end := BlockEnd(d, pos, len);
    AfterFirst(o, d, pos, len);
    BlockBecomes(o, d, pos, end - pos);
    SameHead(Normalized(o, d, pos, len), NormalizedBlock(o, d, pos, end - pos), pos, end);
  }

  lemma LaterBlock(o: Oracle, d: seq<byte>, e: seq<byte>, r: seq<byte>, from: nat, p: nat, end: nat)
    requires |d| == |e| && from <= p && BlockIs(o, e, r, p, end) && d[from..] == e[from..]
    ensures BlockIs(o, d, r, p, end)
  {
    assert e[end..] == e[from..][end - from..] == d[end..];
    assert e[p..end] == e[from..][p - from..end - from] == d[p..end];
  }

  /** Block by block, this is what stage 0 makes. */
  lemma {:induction false} NormalizedIs(o: Oracle, d: seq<byte>, pos: nat, len: nat, k: nat)
    requires len > 0 && pos + BlockStart(k, len) < |d|
    ensures var p := pos + BlockStart(k, len);
            BlockIs(o, d, Normalized(o, d, pos, len), p, BlockEnd(d, p, len))
    decreases k
  {
    hide BlockIs, Normalized, NormalizedBlock;
    if k == 0 {
      assert BlockStart(0, len) == 0;
      FirstBlock(o, d, pos, len);
    } else {
      assert BlockStart(k, len) == len + BlockStart(k - 1, len);
      var use := Min(len, |d| - pos);
      var e := NormalizedBlock(o, d, pos, use);
      NormalizedUnfold(o, d, pos, len);
      NormalizedIs(o, e, pos + len, len, k - 1);
      BlockBecomes(o, d, pos, use);
      var p := pos + BlockStart(k, len);
      LaterBlock(o, d, e, Normalized(o, d, pos, len), pos + len, p, BlockEnd(d, p, len));
    }
  }

  lemma BlockBecomes(o: Oracle, d: seq<byte>, pos: nat, len: nat)
    requires pos + len <= |d|
    ensures var e := NormalizedBlock(o, d, pos, len);
            && e[..pos] == d[..pos] && e[pos + len..] == d[pos + len..]
            && Fill(d, pos, len) == ZeroBetween(d, d, pos, pos + len)
            && e[pos..pos + len] == if o.Accepts(Fill(d, pos, len)) then Repeat(ZERO, len) else d[pos..pos + len]
  {
    if AllZero(d, pos, len) {
      assert d[pos..pos + len] == Repeat(ZERO, len);
    }
  }

  /** The block at p cannot be overwritten, or is '0' anyway. */
  ghost predicate Settled(o: Oracle, d: seq<byte>, p: nat, len: nat) {
    p < |d| ==>
      var use := BlockEnd(d, p, len) - p;
      AllZero(d, p, use) || !o.Accepts(Fill(d, p, use))
  }

  /** The stage leaves the data alone exactly when every aligned block that is not all '0' is rejected
      when it is overwritten. */
  lemma {:induction false} NormalizedIdleIff(o: Oracle, d: seq<byte>, pos: nat, len: nat)
    requires len > 0
    ensures Normalized(o, d, pos, len) == d <==> forall k: nat :: Settled(o, d, pos + BlockStart(k, len), len)
    decreases |d| - pos
  {
    hide Settled, NormalizedBlock;
    if pos >= |d| {
      NothingSettled(o, d, pos, len);
    } else {
      var use := Min(len, |d| - pos);
      var e := NormalizedBlock(o, d, pos, use);
      SettledIff(o, d, pos, len);
      assert BlockStart(0, len) == 0;
      if e == d {
        NormalizedIdleIff(o, d, pos + len, len);
        ShiftBlocks(o, d, pos, len);
      } else {
        Unsettled(o, d, pos, len);
        assert !Settled(o, d, pos + BlockStart(0, len), len);
      }
    }
  }

  lemma Unsettled(o: Oracle, d: seq<byte>, pos: nat, len: nat)
    requires len > 0 && pos < |d| && NormalizedBlock(o, d, pos, BlockEnd(d, pos, len) - pos) != d
    ensures Normalized(o, d, pos, len) != d
  {
    hide Normalized, NormalizedBlock, Fill, BlockEnd;
    var end := BlockEnd(d, pos, len);
    var e := NormalizedBlock(o, d, pos, end - pos);
    AfterFirst(o, d, pos, len);
    BlockBecomes(o, d, pos, end - pos);
    assert e == e[..end] + e[end..] && d == d[..end] + d[end..];
  }

  lemma NothingSettled(o: Oracle, d: seq<byte>, pos: nat, len: nat)
    requires pos >= |d|
    ensures forall k: nat :: Settled(o, d, pos + BlockStart(k, len), len)
  {
  }

  lemma SettledIff(o: Oracle, d: seq<byte>, pos: nat, len: nat)
    requires pos < |d| && len > 0
    ensures NormalizedBlock(o, d, pos, Min(len, |d| - pos)) == d <==> Settled(o, d, pos, len)
  {
    var use := Min(len, |d| - pos);
    if !AllZero(d, pos, use) {
      var i :| pos <= i < pos + use && d[i] != ZERO;
      assert Fill(d, pos, use)[i] == ZERO;
    }
  }

  lemma ShiftBlocks(o: Oracle, d: seq<byte>, pos: nat, len: nat)
    requires len > 0
    ensures (forall k: nat :: Settled(o, d, pos + BlockStart(k, len), len))
       <==> Settled(o, d, pos + BlockStart(0, len), len)
            && forall k: nat :: Settled(o, d, pos + len + BlockStart(k, len), len)
  {
    hide Settled;
    forall k: nat
      ensures BlockStart(k + 1, len) == len + BlockStart(k, len)
    {
    }
    if (forall k: nat :: Settled(o, d, pos + BlockStart(k, len), len)) {
      forall k: nat
        ensures Settled(o, d, pos + len + BlockStart(k, len), len)
      {
        assert Settled(o, d, pos + BlockStart(k + 1, len), len);
      }
    }
    if Settled(o, d, pos + BlockStart(0, len), len) && forall k: nat :: Settled(o, d, pos + len + BlockStart(k, len), len) {
      forall k: nat
        ensures Settled(o, d, pos + BlockStart(k, len), len)
      {
        if k > 0 {
          assert Settled(o, d, pos + len + BlockStart(k - 1, len), len);
        }
      }
    }
  }

  // ----- stage 1 -----

  /** The plain way to delete blocks: each block of the input is tried once, and dropped if that is
      accepted. */
  function Greedy(o: Oracle, kept: seq<byte>, rest: seq<byte>, len: nat): seq<byte>
    requires len > 0
    decreases |rest|
  {
    if rest == [] then kept
    else
      var n := Min(len, |rest|);
      Greedy(o, if o.Accepts(kept + rest[n..]) then kept else kept + rest[..n], rest[n..], len)
  }

  /** The walk of the minimiser, which skips blocks that are like their predecessors, deletes the same
      blocks as the plain one. */
  lemma {:induction false} WalkIsGreedy(o: Oracle, d: seq<byte>, pos: nat, len: nat, prevDel: bool)
    requires len > 0 && pos <= |d|
    requires !prevDel ==> len <= pos && !o.Accepts(Without(d, pos - len, len))
    ensures DeleteWalk(o, d, pos, len, prevDel) == Greedy(o, d[..pos], d[pos..], len)
    decreases |d| - pos
  {
    if pos < |d| {
      var rest := d[pos..];
      var n := Min(len, |rest|);
      var cand := Without(d, pos, len);
      assert cand == d[..pos] + rest[n..];
      assert cand[..pos] == d[..pos] && cand[pos..] == rest[n..];
      if !prevDel && pos + len < |d| && d[pos - len..pos] == d[pos..pos + len] {
        SkippedBlockIsSameCandidate(d, pos, len);
      }
      if o.Accepts(cand) {
        WalkIsGreedy(o, cand, pos, len, true);
      } else {
        assert d[..pos] + rest[..n] == d[..pos + n] && rest[n..] == d[pos + n..];
        if pos + len <= |d| {
          WalkIsGreedy(o, d, pos + len, len, false);
        }
      }
    }
  }

  // ----- stages 2 and 3 -----

  /** The data on which symbol b is tried: smaller symbols as they became, b overwritten. */
  function Under(d: seq<byte>, r: seq<byte>, b: byte): (u: seq<byte>)
    requires |d| == |r|
    ensures |u| == |d|
    ensures forall k :: 0 <= k < |d| ==> u[k] == if d[k] < b then r[k] else if d[k] == b then ZERO else d[k]
  {
    if d == [] then []
    else
      var n := |d| - 1;
      Under(d[..n], r[..n], b) + [if d[n] < b then r[n] else if d[n] == b then ZERO else d[n]]
  }

  lemma {:induction false} SmallerStay(o: Oracle, d: seq<byte>, i: nat, k: nat)
    requires k < |d| && d[k] as int < i
    ensures |AlphabetWalk(o, d, i)| == |d| && AlphabetWalk(o, d, i)[k] == d[k]
    decreases 256 - i
  {
    AlphabetWalkKeeps(o, d, i);
    if i < 256 {
      SmallerStay(o, AlphabetStep(o, d, i as byte), i + 1, k);
    }
  }

  lemma UnderFirst(o: Oracle, d: seq<byte>, r: seq<byte>, b: byte)
    requires |r| == |d| && forall l :: 0 <= l < |d| && d[l] < b ==> r[l] == d[l]
    ensures Under(d, r, b) == Replace(d, b)
  {
  }

  lemma UnderStep(o: Oracle, d: seq<byte>, r: seq<byte>, b: byte, s: byte)
    requires b < s && |r| == |d| && Overwrites(AlphabetStep(o, d, b), r)
    ensures Under(d, r, s) == Under(AlphabetStep(o, d, b), r, s)
  {
  }

  /** Symbol by symbol: overwritten throughout exactly if that is accepted. */
  lemma {:induction false} AlphabetIs(o: Oracle, d: seq<byte>, i: nat, k: nat)
    requires k < |d|
    ensures var r := AlphabetWalk(o, d, i);
            && |r| == |d|
            && r[k] == if i <= d[k] as int && o.Accepts(Under(d, r, d[k])) then ZERO else d[k]
    decreases 256 - i
  {
    hide Under, Replace;
    AlphabetWalkKeeps(o, d, i);
    if i < 256 {
      var b := i as byte;
      var e := AlphabetStep(o, d, b);
      var r := AlphabetWalk(o, d, i);
      AlphabetWalkKeeps(o, e, i + 1);
      AlphabetSymbol(o, d, b, k);
      if d[k] <= b {
        SmallerAll(o, d, i);
        UnderFirst(o, d, r, b);
        if e[k] <= b {
          SmallerStay(o, e, i + 1, k);
        }
      } else {
        AlphabetIs(o, e, i + 1, k);
        UnderStep(o, d, r, b, d[k]);
      }
      hide AlphabetWalk, AlphabetStep;
    }
  }

  lemma SmallerAll(o: Oracle, d: seq<byte>, i: nat)
    ensures |AlphabetWalk(o, d, i)| == |d|
    ensures forall l :: 0 <= l < |d| && d[l] as int < i ==> AlphabetWalk(o, d, i)[l] == d[l]
  {
    hide AlphabetWalk;
    AlphabetWalkKeeps(o, d, i);
    forall l | 0 <= l < |d| && d[l] as int < i
      ensures AlphabetWalk(o, d, i)[l] == d[l]
    {
      SmallerStay(o, d, i, l);
    }
  }

  lemma AlphabetSymbol(o: Oracle, d: seq<byte>, b: byte, k: nat)
    requires k < |d|
    ensures var e := AlphabetStep(o, d, b);
            && |e| == |d|
            && e[k] == if d[k] == b && o.Accepts(Replace(d, b)) then ZERO else d[k]
  {
  }

  /** Byte by byte: overwritten exactly if that is accepted, with the bytes before as they became. */
  lemma {:induction false} CharacterIs(o: Oracle, d: seq<byte>, i: nat, k: nat)
    requires i <= k < |d|
    ensures var r := CharacterWalk(o, d, i);
            && |r| == |d| && r[..i] == d[..i]
            && r[k] == if o.Accepts(r[..k] + [ZERO] + d[k + 1..]) then ZERO else d[k]
    decreases |d| - i
  {
    CharacterWalkKeeps(o, d, i);
    var e := CharacterStep(o, d, i);
    var r := CharacterWalk(o, d, i);
    CharacterHead(o, e, i + 1);
    assert r[..i] == r[..i + 1][..i] == d[..i];
    if k == i {
      assert d[..i] + [ZERO] + d[i + 1..] == d[i := ZERO];
      assert r[i] == r[..i + 1][i] == e[i];
    } else {
      CharacterIs(o, e, i + 1, k);
      assert e[k + 1..] == d[k + 1..] && e[k] == d[k];
    }
  }

  lemma {:induction false} CharacterHead(o: Oracle, d: seq<byte>, i: nat)
    ensures |CharacterWalk(o, d, i)| == |d| && (i <= |d| ==> CharacterWalk(o, d, i)[..i] == d[..i])
    decreases |d| - i
  {
    if i < |d| {
      var e := CharacterStep(o, d, i);
      CharacterHead(o, e, i + 1);
      assert CharacterWalk(o, d, i)[..i] == CharacterWalk(o, d, i)[..i + 1][..i] == e[..i + 1][..i] == d[..i];
    }
  }

  // ----- the passes -----

  /** What is left was left by the replacement stages, which at some point have tried all of it. */
  lemma {:induction false} PassesEndReplaced(o: Oracle, d: seq<byte>, y: seq<byte>, curPass: nat)
    returns (x: seq<byte>)
    requires curPass <= 1 || d == Replaced(o, y)
    ensures Passes(o, d, curPass) == Replaced(o, x)
    decreases Measure(d)
  {
    hide Replaced, Deleted;
    var e := Deleted(o, d);
    var f := Replaced(o, e);
    if curPass > 1 && e == d {
      x := y;
    } else if f != d {
      ShrinksTransitive(o, d, e, f);
      x := PassesEndReplaced(o, f, e, curPass + 1);
    } else {
      x := e;
    }
  }

  /** Every byte of the result that is not '0' was tried alone and rejected, with the bytes before it as
      they are and the bytes behind it as they then were; and before that its symbol was tried throughout
      and rejected. */
  lemma LeftWereTried(o: Oracle, d: seq<byte>) returns (x: seq<byte>, e: seq<byte>)
    ensures var r := Minimized(o, d);
            && Overwrites(x, e) && Overwrites(e, r)
            && (forall k :: 0 <= k < |x| ==> e[k] == if o.Accepts(Under(x, e, x[k])) then ZERO else x[k])
            && (forall k :: 0 <= k < |e| ==> r[k] == if o.Accepts(r[..k] + [ZERO] + e[k + 1..]) then ZERO else e[k])
  {
    hide AlphabetWalk, CharacterWalk, Under;
    var n := Normalized(o, d, 0, SetLen(|d|));
    x := PassesEndReplaced(o, n, [], 1);
    e := AlphabetWalk(o, x, 0);
    AlphabetWalkKeeps(o, x, 0);
    CharacterWalkKeeps(o, e, 0);
    var r := Minimized(o, d);
    forall k | 0 <= k < |x|
      ensures e[k] == if o.Accepts(Under(x, e, x[k])) then ZERO else x[k]
    {
      AlphabetIs(o, x, 0, k);
    }
    forall k | 0 <= k < |e|
      ensures r[k] == if o.Accepts(r[..k] + [ZERO] + e[k + 1..]) then ZERO else e[k]
    {
      CharacterIs(o, e, 0, k);
    }
  }
}
