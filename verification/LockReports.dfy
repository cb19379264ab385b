/**
 What the lock checker reports.  The locks held and the breaches of the discipline are read off the path
 alone; the error table holds exactly the first breach at each location, and the locks left at the end.
 */
module LockReports {
  import opened Wrappers
  import opened LockPairs

  /** An unlock answers to the k-th of the held locks: those above it are trylocks that do not pair with
      the unlock and count as failed; the k-th pairs with it or is no trylock. */
  predicate Answers(path: Path, held: seq<nat>, unlock: Effect, k: nat)
    requires OnPath(path, held)
  {
    && k < |held|
    && (Paired(path[held[k]], unlock) || !IsTry(path[held[k]]))
    && forall j :: k < j < |held| ==> IsTry(path[held[j]]) && !Paired(path[held[j]], unlock)
  }

  predicate IsAnswered(path: Path, held: seq<nat>, unlock: Effect)
    requires OnPath(path, held)
  {
    exists k :: 0 <= k < |held| && Answers(path, held, unlock, k)
  }

  /** The locks held before effect n, the most recent one last, whether or not the path keeps the
      discipline: a lock is held also if it is held twice, and an unlock gives back the lock that it
      answers to also if they do not pair.  None after an unlock that finds nothing but failed trylocks. */
  ghost function HeldAt(path: Path, n: nat): (held: Option<seq<nat>>)
    requires n <= |path|
    ensures held.Some? ==> OnPath(path, held.value)
  {
    if n == 0 then Some([])
    else
      var held, e := HeldAt(path, n - 1), path[n - 1];
      if held.None? then None
      else if IsLock(e) then Some(held.value + [n - 1])
      else if !IsUnlock(e) || held.value == [] then held
      else if IsAnswered(path, held.value, e) then
        var k :| 0 <= k < |held.value| && Answers(path, held.value, e, k);
        Some(held.value[..k])
      else None
  }

  /** How effect n breaks the discipline. */
  ghost predicate Breaks(path: Path, n: nat, kind: Kind)
    requires n < |path|
  {
    && HeldAt(path, n).Some?
    && var held, e := HeldAt(path, n).value, path[n];
       match kind
       case DoubleLocking => IsLock(e) && exists k :: 0 <= k < |held| && SameCall(e, path[held[k]])
       case Uncoordinated => IsUnlock(e) && held == []
       case NotPaired => IsUnlock(e) && exists k :: 0 <= k < |held| && Answers(path, held, e, k) && !Paired(path[held[k]], e)
       case FoundUnlocked => false
       case NotResolved => false
  }

  ghost predicate BreaksAt(path: Path, n: nat, loc: nat, kind: Kind)
    requires n < |path|
  {
    Loc(path[n]) == loc && Breaks(path, n, kind)
  }

  /** Some effect at the location, among the first n, breaks the discipline. */
  ghost predicate IsBroken(path: Path, n: nat, loc: nat)
    requires n <= |path|
  {
    exists e, kind :: 0 <= e < n && BreaksAt(path, e, loc, kind)
  }

  /** The first breach at the location, among the first n effects, is of this kind. */
  ghost predicate BreaksFirst(path: Path, n: nat, loc: nat, kind: Kind)
    requires n <= |path|
  {
    exists e :: 0 <= e < n && BreaksAt(path, e, loc, kind) && !IsBroken(path, e, loc)
  }

  predicate Holds(errs: map<nat, Kind>, loc: nat, kind: Kind) {
    loc in errs && errs[loc] == kind
  }

  lemma {:induction false} AnswerIs(path: Path, held: seq<nat>, unlock: Effect, k: nat)
    requires OnPath(path, held)
    ensures Answers(path, held, unlock, k)
       <==> Survivors(path, held, unlock) != [] && k == |Survivors(path, held, unlock)| - 1
  {
    hide IsTry, Paired;
    if held != [] {
      var n := |held| - 1;
      AnswerIs(path, held[..n], unlock, k);
      if !Paired(path[held[n]], unlock) && IsTry(path[held[n]]) {
        assert Answers(path, held, unlock, k) <==> Answers(path, held[..n], unlock, k);
      }
    }
  }

  /** What the next effect holds, in terms of the checker's own search. */
  lemma NextHeld(path: Path, n: nat)
    requires n < |path| && HeldAt(path, n).Some?
    ensures var held, e, next := HeldAt(path, n).value, path[n], HeldAt(path, n + 1);
            var left := Survivors(path, held, e);
            next == if IsLock(e) then Some(held + [n])
                    else if !IsUnlock(e) || held == [] then Some(held)
                    else if left != [] then Some(left[..|left| - 1]) else None
  {
    var held, e := HeldAt(path, n).value, path[n];
    var left := Survivors(path, held, e);
    forall k
      ensures Answers(path, held, e, k) <==> left != [] && k == |left| - 1
    {
      AnswerIs(path, held, e, k);
    }
    hide IsLock, IsUnlock, Survivors, Answers;
    assert left != [] ==> held[..|left| - 1] == left[..|left| - 1];
    assert left != [] ==> Answers(path, held, e, |left| - 1);
  }

  /** The breaches of effect n, in terms of the checker's own search. */
  lemma BreaksAre(path: Path, n: nat, kind: Kind)
    requires n < |path| && HeldAt(path, n).Some?
    ensures var held, e := HeldAt(path, n).value, path[n];
            var left := Survivors(path, held, e);
            Breaks(path, n, kind) <==>
              match kind
              case DoubleLocking => IsLock(e) && Double(path, held, e)
              case Uncoordinated => IsUnlock(e) && held == []
              case NotPaired => IsUnlock(e) && left != [] && !Paired(path[left[|left| - 1]], e)
              case _ => false
  {
    var held, e := HeldAt(path, n).value, path[n];
    var left := Survivors(path, held, e);
    forall k
      ensures Answers(path, held, e, k) <==> left != [] && k == |left| - 1
    {
      AnswerIs(path, held, e, k);
    }
    hide IsLock, IsUnlock, Survivors, Answers, Paired, HeldAt;
    assert left != [] ==> Answers(path, held, e, |left| - 1) && held[|left| - 1] == left[|left| - 1];
    match kind
    case NotPaired =>
    case DoubleLocking =>
    case _ =>
  }

  /** What one effect adds to the table. */
  ghost predicate Adds(path: Path, n: nat, before: map<nat, Kind>, after: map<nat, Kind>)
    requires n < |path|
  {
    forall loc, kind :: Holds(after, loc, kind) <==>
      Holds(before, loc, kind) || (loc !in before && BreaksAt(path, n, loc, kind))
  }

  lemma AddsOne(path: Path, n: nat, errs: map<nat, Kind>, kind: Kind)
    requires n < |path| && forall k :: Breaks(path, n, k) <==> k == kind
    ensures Adds(path, n, errs, Err(errs, kind, Loc(path[n])))
  {
    hide Breaks;
  }

  lemma AddsNothing(path: Path, n: nat, errs: map<nat, Kind>)
    requires n < |path| && forall k :: !Breaks(path, n, k)
    ensures Adds(path, n, errs, errs)
  {
    hide Breaks;
  }

  /** Exploring goes from s to o by effect n as the path says. */
  ghost predicate Follows(path: Path, s: State, n: nat, o: Outcome)
    requires n < |path| && OnPath(path, s.locks)
  {
    && (o.Running? <==> HeldAt(path, n + 1).Some?)
    && (o.Running? ==> HeldAt(path, n + 1) == Some(o.s.locks) && Adds(path, n, s.errs, o.s.errs))
  }

  lemma LockHolds(path: Path, s: State, n: nat)
    requires OnPath(path, s.locks) && OnPath(path, s.entries) && n < |path| && Inv(path, s, n)
    requires HeldAt(path, n) == Some(s.locks) && IsLock(path[n])
    ensures Follows(path, s, n, Step(path, s, n))
  {
    LocksAreNotUnlocks(path[n]);
    NextHeld(path, n);
    forall kind
      ensures Breaks(path, n, kind) <==> kind == DoubleLocking && Double(path, s.locks, path[n])
    {
      BreaksAre(path, n, kind);
    }
    if Double(path, s.locks, path[n]) {
      AddsOne(path, n, s.errs, DoubleLocking);
    } else {
      AddsNothing(path, n, s.errs);
    }
    hide IsLock, IsUnlock, Double, Breaks, Adds, Inv, Err, HeldAt;
  }

  lemma UnlockHolds(path: Path, s: State, n: nat)
    requires OnPath(path, s.locks) && OnPath(path, s.entries) && n < |path| && Inv(path, s, n)
    requires HeldAt(path, n) == Some(s.locks) && IsUnlock(path[n]) && !IsLock(path[n])
    ensures Follows(path, s, n, Step(path, s, n))
  {
    hide IsLock, IsUnlock, Double, Breaks, Adds, Inv, Err, HeldAt, Survivors, Paired, AnyFirm, Reclaimed, Below, Ordered, LockEntries;
    var left := Survivors(path, s.locks, path[n]);
    NextHeld(path, n);
    HeldMeansEntered(path, s, n);
    BreachOfUnlock(path, s.locks, n);
    if s.locks == [] {
      AddsOne(path, n, s.errs, Uncoordinated);
    } else if left != [] {
      UnlockStacks(path, s, path[n], n);
      assert Added(s, n).entries[..|s.entries|] == s.entries;
      if Paired(path[left[|left| - 1]], path[n]) {
        AddsNothing(path, n, s.errs);
      } else {
        AddsOne(path, n, s.errs, NotPaired);
      }
    }
  }

  lemma BreachOfUnlock(path: Path, locks: seq<nat>, n: nat)
    requires n < |path| && HeldAt(path, n) == Some(locks) && IsUnlock(path[n]) && !IsLock(path[n])
    ensures OnPath(path, locks)
    ensures var left := Survivors(path, locks, path[n]);
            forall kind :: Breaks(path, n, kind) <==>
              || (kind == Uncoordinated && locks == [])
              || (kind == NotPaired && left != [] && !Paired(path[left[|left| - 1]], path[n]))
  {
    var left := Survivors(path, locks, path[n]);
    forall kind
      ensures Breaks(path, n, kind) <==>
              || (kind == Uncoordinated && locks == [])
              || (kind == NotPaired && left != [] && !Paired(path[left[|left| - 1]], path[n]))
    {
      BreaksAre(path, n, kind);
    }
  }

  lemma OtherHolds(path: Path, s: State, n: nat)
    requires OnPath(path, s.locks) && OnPath(path, s.entries) && n < |path| && Inv(path, s, n)
    requires HeldAt(path, n) == Some(s.locks) && !IsUnlock(path[n]) && !IsLock(path[n])
    ensures Follows(path, s, n, Step(path, s, n))
  {
    NextHeld(path, n);
    forall kind
      ensures !Breaks(path, n, kind)
    {
      BreaksAre(path, n, kind);
    }
    AddsNothing(path, n, s.errs);
    hide IsLock, IsUnlock, Double, Breaks, Adds, Inv, HeldAt;
  }

  lemma StepHolds(path: Path, s: State, n: nat)
    requires OnPath(path, s.locks) && OnPath(path, s.entries) && n < |path| && Inv(path, s, n)
    requires HeldAt(path, n) == Some(s.locks)
    ensures Follows(path, s, n, Step(path, s, n))
  {
    hide Follows, Step, Inv, HeldAt, IsLock, IsUnlock;
    if IsLock(path[n]) {
      LockHolds(path, s, n);
    } else if IsUnlock(path[n]) {
      UnlockHolds(path, s, n);
    } else {
      OtherHolds(path, s, n);
    }
  }

  lemma BrokenNext(path: Path, n: nat, loc: nat)
    requires n < |path|
    ensures IsBroken(path, n + 1, loc) <==> IsBroken(path, n, loc) || exists kind :: BreaksAt(path, n, loc, kind)
  {
    hide BreaksAt;
  }

  lemma FirstNext(path: Path, n: nat, loc: nat, kind: Kind)
    requires n < |path|
    ensures BreaksFirst(path, n + 1, loc, kind)
       <==> BreaksFirst(path, n, loc, kind) || (BreaksAt(path, n, loc, kind) && !IsBroken(path, n, loc))
  {
    hide BreaksAt, IsBroken;
  }

  /** Along every path: exploring goes on exactly while every unlock with something held answers to a
      lock, the locks are those held, and the table holds the first breach at each location. */
  lemma {:induction false} RunReports(path: Path, n: nat)
    requires n <= |path|
    ensures Run(path, n).Running? <==> HeldAt(path, n).Some?
    ensures Run(path, n).Running? ==> HeldAt(path, n) == Some(Run(path, n).s.locks)
    ensures Run(path, n).Running? ==>
              forall loc, kind :: Holds(Run(path, n).s.errs, loc, kind) <==> BreaksFirst(path, n, loc, kind)
    ensures Run(path, n).Running? ==> forall loc :: loc in Run(path, n).s.errs <==> IsBroken(path, n, loc)
  {
    hide Step, Inv, BreaksFirst, IsBroken, Adds, Holds;
    if n == 0 {
      NothingBroken(path);
    } else {
      RunReports(path, n - 1);
      var o := Run(path, n - 1);
      if o.Running? {
        RunInv(path, n - 1);
        StepHolds(path, o.s, n - 1);
        if Run(path, n).Running? {
          TableGrows(path, n - 1, o.s.errs, Run(path, n).s.errs);
        }
      }
    }
  }

  lemma NothingBroken(path: Path)
    ensures forall loc, kind :: Holds(START.errs, loc, kind) <==> BreaksFirst(path, 0, loc, kind)
    ensures forall loc :: loc in START.errs <==> IsBroken(path, 0, loc)
  {
  }

  lemma TableGrows(path: Path, n: nat, before: map<nat, Kind>, after: map<nat, Kind>)
    requires n < |path| && Adds(path, n, before, after)
    requires forall loc, kind :: Holds(before, loc, kind) <==> BreaksFirst(path, n, loc, kind)
    requires forall loc :: loc in before <==> IsBroken(path, n, loc)
    ensures forall loc, kind :: Holds(after, loc, kind) <==> BreaksFirst(path, n + 1, loc, kind)
    ensures forall loc :: loc in after <==> IsBroken(path, n + 1, loc)
  {
    hide BreaksAt, BreaksFirst, IsBroken;
    forall loc, kind
      ensures Holds(after, loc, kind) <==> BreaksFirst(path, n + 1, loc, kind)
    {
      FirstNext(path, n, loc, kind);
    }
    forall loc
      ensures loc in after <==> IsBroken(path, n + 1, loc)
    {
      BrokenNext(path, n, loc);
      assert loc in after ==> Holds(after, loc, after[loc]);
      assert loc in before ==> Holds(before, loc, before[loc]);
    }
  }

  predicate IsLeftAt(path: Path, locks: seq<nat>, loc: nat)
    requires OnPath(path, locks)
  {
    exists k :: 0 <= k < |locks| && Loc(path[locks[k]]) == loc && !IsTry(path[locks[k]])
  }

  lemma {:induction false} UnresolvedHolds(path: Path, locks: seq<nat>, errs: map<nat, Kind>, loc: nat, kind: Kind)
    requires OnPath(path, locks)
    ensures Holds(Unresolved(path, locks, errs), loc, kind)
       <==> Holds(errs, loc, kind) || (kind == NotResolved && loc !in errs && IsLeftAt(path, locks, loc))
    ensures loc in Unresolved(path, locks, errs) <==> loc in errs || IsLeftAt(path, locks, loc)
  {
    hide IsTry;
    if locks != [] {
      var n := |locks| - 1;
      UnresolvedHolds(path, locks[..n], errs, loc, kind);
      assert IsLeftAt(path, locks, loc) <==>
             IsLeftAt(path, locks[..n], loc) || (Loc(path[locks[n]]) == loc && !IsTry(path[locks[n]]));
    }
  }

  /** What exploring a path reports, for every path: the kind of the first breach at each location; and
      where nothing is broken, each lock that is left and no trylock, if two or more are left. */
  lemma ExploredReports(path: Path, loc: nat, kind: Kind)
    ensures Explored(path).Running? <==> HeldAt(path, |path|).Some?
    ensures Explored(path).Running? ==>
              var held := HeldAt(path, |path|).value;
              Holds(Explored(path).s.errs, loc, kind) <==>
                || BreaksFirst(path, |path|, loc, kind)
                || (kind == NotResolved && |held| >= 2 && IsLeftAt(path, held, loc) && !IsBroken(path, |path|, loc))
  {
    RunReports(path, |path|);
    hide Run, HeldAt, BreaksFirst, IsBroken, IsLeftAt;
    var o := Run(path, |path|);
    if o.Running? {
      UnresolvedHolds(path, o.s.locks, o.s.errs, loc, kind);
    }
  }

  /** Without trylocks an unlock answers to the most recent lock, so that exploring never crashes. */
  lemma {:induction false} TryFreeHeld(path: Path, n: nat)
    requires n <= |path| && TryFree(path)
    ensures HeldAt(path, n).Some?
    ensures var held := HeldAt(path, n).value;
            forall k :: 0 <= k < |held| ==> held[k] < |path| && !IsTry(path[held[k]])
  {
    hide IsLock, IsUnlock, IsTry, Paired;
    if n > 0 {
      TryFreeHeld(path, n - 1);
      var held := HeldAt(path, n - 1).value;
      assert held != [] ==> Answers(path, held, path[n - 1], |held| - 1);
    }
  }

  /** Without trylocks: an unlock takes the most recent lock off, and breaks the discipline when it does
      not pair with it. */
  lemma TryFreeUnlocks(path: Path, n: nat)
    requires n < |path| && TryFree(path) && IsUnlock(path[n])
    requires HeldAt(path, n).Some? && HeldAt(path, n).value != []
    ensures var held := HeldAt(path, n).value;
            && HeldAt(path, n + 1) == Some(held[..|held| - 1])
            && (Breaks(path, n, NotPaired) <==> !Paired(path[held[|held| - 1]], path[n]))
  {
    var held := HeldAt(path, n).value;
    TryFreeHeld(path, n);
    if IsLock(path[n]) {
      LocksAreNotUnlocks(path[n]);
    }
    hide IsLock, IsUnlock, IsTry, Paired, HeldAt, Breaks;
    assert !IsTry(path[held[|held| - 1]]) && Survivors(path, held, path[n]) == held;
    NextHeld(path, n);
    BreaksAre(path, n, NotPaired);
  }
}
