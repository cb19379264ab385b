/**
 The lock checker: `LockState` with its two stacks, and `explore_path`.

 The effects of a path are distinct objects without an equality of their own, so an effect is
 identified by its position on the path.
 */
module LockPairs {
  import opened Wrappers

  /** A call with its location, or any other effect. */
  datatype Effect = Call(func: string, args: seq<string>, loc: nat) | Other

  const LOCKS: map<string, string> := map[
    "spin_lock" := "spin_unlock",
    "spin_trylock" := "spin_unlock",
    "mutex_lock" := "mutex_unlock",
    "mutex_trylock" := "mutex_unlock",
    "lock_page" := "unlock_page",
    "reiserfs_write_lock" := "reiserfs_write_unlock"]

  predicate IsLock(e: Effect) {
    e.Call? && e.func in LOCKS
  }

  predicate IsUnlock(e: Effect) {
    e.Call? && e.func in LOCKS.Values
  }

  /** `"try" in func` */
  predicate IsTry(e: Effect) {
    e.Call? && Contains(e.func, "try")
  }

  /** `_cmp_args`: "0" stands for anything. */
  predicate SameArgs(a: seq<string>, b: seq<string>) {
    |a| == |b| && forall k :: 0 <= k < |a| ==> a[k] == "0" || b[k] == "0" || a[k] == b[k]
  }

  /** `check_if_paired` */
  predicate Paired(lock: Effect, unlock: Effect) {
    IsLock(lock) && unlock.Call? && LOCKS[lock.func] == unlock.func && SameArgs(unlock.args, lock.args)
  }

  /** `_cmp_func` */
  predicate SameCall(f: Effect, g: Effect) {
    f.Call? && g.Call? && f.func == g.func && f.args == g.args
  }

  // ----- states -----

  type Path = seq<Effect>

  datatype Kind = DoubleLocking | Uncoordinated | NotPaired | FoundUnlocked | NotResolved

  datatype State = State(everLocked: bool, locks: seq<nat>, entries: seq<nat>, errs: map<nat, Kind>)

  /** How exploring a path goes on, or ends: the assertion in `unlock`, or pop from an empty list. */
  datatype Outcome = Running(s: State) | AssertionFailed | PopFromEmpty

  predicate OnPath(path: Path, es: seq<nat>) {
    forall k :: 0 <= k < |es| ==> es[k] < |path|
  }

  function Loc(e: Effect): nat {
    if e.Call? then e.loc else 0
  }

  /** `err`: the first error at a location stays. */
  function Err(errs: map<nat, Kind>, kind: Kind, loc: nat): (r: map<nat, Kind>)
    ensures r != map[]
  {
    var r := if loc in errs then errs else errs[loc := kind];
    assert loc in r;
    r
  }

  predicate Double(path: Path, locks: seq<nat>, e: Effect)
    requires OnPath(path, locks)
  {
    exists k :: 0 <= k < |locks| && SameCall(e, path[locks[k]])
  }

  function LockStep(path: Path, s: State, e: nat): (r: State)
    requires OnPath(path, s.locks) && OnPath(path, s.entries) && e < |path|
    ensures OnPath(path, r.locks) && OnPath(path, r.entries)
  {
    State(true, s.locks + [e], if s.locks == [] then s.entries + [e] else s.entries,
          if Double(path, s.locks, path[e]) then Err(s.errs, DoubleLocking, Loc(path[e])) else s.errs)
  }

  /** The locks left when unpaired trylocks are taken for failed ones and popped. */
  function Survivors(path: Path, locks: seq<nat>, unlock: Effect): (r: seq<nat>)
    requires OnPath(path, locks)
    ensures r <= locks
  {
    if locks == [] then []
    else
      var top := path[locks[|locks| - 1]];
      if !Paired(top, unlock) && IsTry(top) then Survivors(path, locks[..|locks| - 1], unlock) else locks
  }

  /** The entries below the topmost occurrence of lock; all of them are popped if there is none. */
  function Below(entries: seq<nat>, lock: nat): (r: seq<nat>)
    ensures r <= entries
  {
    if entries == [] then []
    else if entries[|entries| - 1] == lock then entries[..|entries| - 1]
    else Below(entries[..|entries| - 1], lock)
  }

  /** The entries popped above lock, in the order of popping. */
  function Reclaimed(entries: seq<nat>, lock: nat): seq<nat> {
    if entries == [] || entries[|entries| - 1] == lock then []
    else [entries[|entries| - 1]] + Reclaimed(entries[..|entries| - 1], lock)
  }

  /** A lock, and no trylock. */
  predicate IsFirm(e: Effect) {
    IsLock(e) && !IsTry(e)
  }

  predicate AnyFirm(path: Path, es: seq<nat>)
    requires OnPath(path, es)
  {
    exists k :: 0 <= k < |es| && IsFirm(path[es[k]])
  }

  lemma AnyFirmMore(path: Path, es: seq<nat>, e: nat)
    requires OnPath(path, es) && e < |path|
    ensures OnPath(path, es + [e]) && (AnyFirm(path, es + [e]) <==> AnyFirm(path, es) || IsFirm(path[e]))
  {
    hide IsFirm;
    if AnyFirm(path, es) {
      var k :| 0 <= k < |es| && IsFirm(path[es[k]]);
      assert (es + [e])[k] == es[k];
    }
    assert (es + [e])[|es|] == e;
  }

  lemma NoneFirm(path: Path)
    ensures !AnyFirm(path, [])
  {
  }

  lemma {:induction false} ReclaimedOnPath(path: Path, entries: seq<nat>, lock: nat)
    requires OnPath(path, entries)
    ensures OnPath(path, Reclaimed(entries, lock))
  {
    if entries != [] && entries[|entries| - 1] != lock {
      ReclaimedOnPath(path, entries[..|entries| - 1], lock);
    }
  }

  predicate Good(path: Path, o: Outcome) {
    o.Running? ==> OnPath(path, o.s.locks) && OnPath(path, o.s.entries)
  }

  function UnlockStep(path: Path, s: State, e: nat): (o: Outcome)
    requires OnPath(path, s.locks) && OnPath(path, s.entries) && e < |path|
    ensures Good(path, o)
  {
    if s.locks == [] || s.entries == [] then
      Running(s.(errs := Err(s.errs, Uncoordinated, Loc(path[e]))))
    else if s.entries[|s.entries| - 1] != e then AssertionFailed
    else
      var left := Survivors(path, s.locks, path[e]);
      if left == [] then PopFromEmpty
      else
        var lock := left[|left| - 1];
        var entries := s.entries[..|s.entries| - 1];
        var errs := if Paired(path[lock], path[e]) then s.errs else Err(s.errs, NotPaired, Loc(path[e]));
        ReclaimedOnPath(path, entries, lock);
        var found := AnyFirm(path, Reclaimed(entries, lock));
        Running(State(s.everLocked, left[..|left| - 1], Below(entries, lock),
                      if found then Err(errs, FoundUnlocked, Loc(path[lock])) else errs))
  }

  /** `add`, if something is locked. */
  function Added(s: State, e: nat): State {
    if s.locks != [] then s.(entries := s.entries + [e]) else s
  }

  /** One effect of `explore_path`. */
  function Step(path: Path, s: State, e: nat): (o: Outcome)
    requires OnPath(path, s.locks) && OnPath(path, s.entries) && e < |path|
    ensures Good(path, o)
  {
    if IsLock(path[e]) then Running(LockStep(path, Added(s, e), e))
    else if IsUnlock(path[e]) then UnlockStep(path, Added(s, e), e)
    else Running(Added(s, e))
  }

  const START := State(false, [], [], map[])

  /** The first n effects. */
  function Run(path: Path, n: nat): (o: Outcome)
    requires n <= |path|
    ensures Good(path, o)
  {
    if n == 0 then Running(START)
    else
      var o := Run(path, n - 1);
      if o.Running? then Step(path, o.s, n - 1) else o
  }

  /** The errors for the locks that are left, if there are several. */
  function Unresolved(path: Path, locks: seq<nat>, errs: map<nat, Kind>): (r: map<nat, Kind>)
    requires OnPath(path, locks)
    ensures r == map[] <==> errs == map[] && forall k :: 0 <= k < |locks| ==> IsTry(path[locks[k]])
  {
    if locks == [] then errs
    else
      var rest := Unresolved(path, locks[..|locks| - 1], errs);
      var last := path[locks[|locks| - 1]];
      if IsTry(last) then rest else Err(rest, NotResolved, Loc(last))
  }

  function Explored(path: Path): Outcome {
    var o := Run(path, |path|);
    if o.Running? && |o.s.locks| > 1 then Running(o.s.(errs := Unresolved(path, o.s.locks, o.s.errs))) else o
  }

  // ----- the two stacks -----

  /** The lock calls among the entries. */
  function LockEntries(path: Path, entries: seq<nat>): seq<nat>
    requires OnPath(path, entries)
  {
    if entries == [] then []
    else
      var front := LockEntries(path, entries[..|entries| - 1]);
      if IsLock(path[entries[|entries| - 1]]) then front + [entries[|entries| - 1]] else front
  }

  predicate Increasing(es: seq<nat>) {
    forall i, j :: 0 <= i < j < |es| ==> es[i] < es[j]
  }

  /** The entries are in the order of the path, and begin with a lock. */
  predicate Ordered(path: Path, entries: seq<nat>, n: nat)
    requires OnPath(path, entries)
  {
    && (entries != [] ==> IsLock(path[entries[0]]))
    && Increasing(entries) && forall k :: 0 <= k < |entries| ==> entries[k] < n
  }

  predicate NoneFound(errs: map<nat, Kind>) {
    forall l :: l in errs ==> errs[l] != FoundUnlocked
  }

  /** After n effects: the locks are exactly the lock calls among the entries, in order. */
  predicate Inv(path: Path, s: State, n: nat)
    requires OnPath(path, s.locks) && OnPath(path, s.entries)
  {
    s.locks == LockEntries(path, s.entries) && Ordered(path, s.entries, n) && NoneFound(s.errs)
  }

  lemma OrderedMore(path: Path, entries: seq<nat>, n: nat)
    requires OnPath(path, entries) && Ordered(path, entries, n) && n < |path|
    requires entries == [] ==> IsLock(path[n])
    ensures OnPath(path, entries + [n]) && Ordered(path, entries + [n], n + 1)
  {
  }

  lemma ErrNoneFound(errs: map<nat, Kind>, kind: Kind, loc: nat)
    requires NoneFound(errs) && kind != FoundUnlocked
    ensures NoneFound(Err(errs, kind, loc))
  {
  }

  lemma LockEntriesOnPath(path: Path, entries: seq<nat>)
    requires OnPath(path, entries)
    ensures forall x :: x in LockEntries(path, entries) ==> x in entries && x < |path| && IsLock(path[x])
    ensures OnPath(path, LockEntries(path, entries))
    ensures entries != [] && IsLock(path[entries[0]]) ==> LockEntries(path, entries) != []
  {
    hide IsLock;
    if entries != [] {
      LockEntriesOnPath(path, entries[..|entries| - 1]);
    }
  }

  lemma LockEntriesMore(path: Path, entries: seq<nat>, e: nat)
    requires OnPath(path, entries) && e < |path|
    ensures LockEntries(path, entries + [e])
         == if IsLock(path[e]) then LockEntries(path, entries) + [e] else LockEntries(path, entries)
  {
    assert (entries + [e])[..|entries|] == entries;
  }

  /** Popping entries down to a lock leaves the lock calls below it, and meets only those of the locks
      above it. */
  lemma {:induction false} BelowKeepsLocks(path: Path, entries: seq<nat>, locks: seq<nat>, k: nat)
    requires OnPath(path, entries) && Increasing(entries) && locks == LockEntries(path, entries)
    requires k < |locks| && OnPath(path, locks)
    requires forall j :: k < j < |locks| ==> !IsFirm(path[locks[j]])
    ensures LockEntries(path, Below(entries, locks[k])) == locks[..k]
    ensures OnPath(path, Reclaimed(entries, locks[k])) && !AnyFirm(path, Reclaimed(entries, locks[k]))
    decreases |entries|
  {
    hide IsLock, IsTry, AnyFirm, IsFirm;
    var n := |entries| - 1;
    var front, last := entries[..n], entries[n];
    LockEntriesOnPath(path, front);
    if last == locks[k] {
      assert locks[k] !in front;
      assert k == |locks| - 1 && locks[..k] == LockEntries(path, front);
      NoneFirm(path);
    } else {
      var before := LockEntries(path, front);
      assert before <= locks && k < |before|;
      BelowKeepsLocks(path, front, before, k);
      assert before[..k] == locks[..k];
      FirmAbove(path, locks, k, last);
      AnyFirmFirst(path, last, Reclaimed(front, locks[k]));
    }
  }

  /** The last entry is no lock, or one of the locks above lock k. */
  lemma FirmAbove(path: Path, locks: seq<nat>, k: nat, last: nat)
    requires OnPath(path, locks) && last < |path| && k < |locks| && last != locks[k]
    requires forall j :: k < j < |locks| ==> !IsFirm(path[locks[j]])
    requires IsLock(path[last]) ==> locks[|locks| - 1] == last
    ensures !IsFirm(path[last])
  {
  }

  lemma AnyFirmFirst(path: Path, e: nat, es: seq<nat>)
    requires OnPath(path, es) && e < |path| && !IsFirm(path[e]) && !AnyFirm(path, es)
    ensures OnPath(path, [e] + es) && !AnyFirm(path, [e] + es)
  {
    hide IsFirm;
  }

  lemma {:induction false} DroppedAreTries(path: Path, locks: seq<nat>, unlock: Effect)
    requires OnPath(path, locks)
    ensures forall j :: |Survivors(path, locks, unlock)| <= j < |locks| ==>
              IsTry(path[locks[j]]) && !Paired(path[locks[j]], unlock)
  {
    hide IsTry, Paired;
    if locks != [] && |Survivors(path, locks, unlock)| < |locks| {
      DroppedAreTries(path, locks[..|locks| - 1], unlock);
    }
  }

  /** What the invariant needs of the effects: no name locks and unlocks. */
  lemma LocksAreNotUnlocks(e: Effect)
    requires IsLock(e)
    ensures !IsUnlock(e)
  {
  }

  lemma HeldMeansEntered(path: Path, s: State, n: nat)
    requires OnPath(path, s.locks) && OnPath(path, s.entries) && Inv(path, s, n)
    ensures s.locks != [] <==> s.entries != []
  {
    LockEntriesOnPath(path, s.entries);
  }

  lemma PrefixOrdered(path: Path, pre: seq<nat>, entries: seq<nat>, n: nat)
    requires pre <= entries && OnPath(path, entries) && Ordered(path, entries, n)
    ensures OnPath(path, pre) && Ordered(path, pre, n + 1)
  {
  }

  /** What `unlock` does to the stacks when a lock is left. */
  lemma UnlockStacks(path: Path, s: State, unlock: Effect, n: nat)
    requires OnPath(path, s.locks) && OnPath(path, s.entries) && Inv(path, s, n)
    requires Survivors(path, s.locks, unlock) != []
    ensures var left := Survivors(path, s.locks, unlock);
            var lock := left[|left| - 1];
            && OnPath(path, Below(s.entries, lock)) && Ordered(path, Below(s.entries, lock), n + 1)
            && LockEntries(path, Below(s.entries, lock)) == left[..|left| - 1]
            && OnPath(path, Reclaimed(s.entries, lock)) && !AnyFirm(path, Reclaimed(s.entries, lock))
  {
    hide IsLock, IsTry, Paired, AnyFirm, Reclaimed, LockEntries;
    var left := Survivors(path, s.locks, unlock);
    var k := |left| - 1;
    assert left[k] == s.locks[k] && left[..k] == s.locks[..k];
    DroppedAreTries(path, s.locks, unlock);
    BelowKeepsLocks(path, s.entries, s.locks, k);
    PrefixOrdered(path, Below(s.entries, left[k]), s.entries, n);
  }

  /** `unlock` with a lock held: the assertion holds, and no lock is found unlocked. */
  lemma UnlockInv(path: Path, s: State, n: nat)
    requires OnPath(path, s.locks) && OnPath(path, s.entries) && n < |path| && Inv(path, s, n)
    ensures UnlockStep(path, Added(s, n), n) != AssertionFailed
    ensures Good(path, UnlockStep(path, Added(s, n), n))
    ensures UnlockStep(path, Added(s, n), n).Running? ==> Inv(path, UnlockStep(path, Added(s, n), n).s, n + 1)
  {
    hide IsLock, IsTry, Paired, AnyFirm, Reclaimed, LockEntries, Survivors, Below, Ordered, NoneFound, Err;
    HeldMeansEntered(path, s, n);
    PrefixOrdered(path, s.entries, s.entries, n);
    if s.locks == [] {
      ErrNoneFound(s.errs, Uncoordinated, Loc(path[n]));
    } else if Survivors(path, s.locks, path[n]) != [] {
      UnlockStacks(path, s, path[n], n);
      ErrNoneFound(s.errs, NotPaired, Loc(path[n]));
      assert Added(s, n).entries[..|s.entries|] == s.entries;
      assert Added(s, n).entries[|s.entries|] == n;
    }
  }

  lemma LockInv(path: Path, s: State, n: nat)
    requires OnPath(path, s.locks) && OnPath(path, s.entries) && n < |path| && Inv(path, s, n) && IsLock(path[n])
    ensures Good(path, Running(LockStep(path, Added(s, n), n))) && Inv(path, LockStep(path, Added(s, n), n), n + 1)
  {
    hide IsLock, Double, LockEntries, Ordered, NoneFound, Err;
    HeldMeansEntered(path, s, n);
    LockEntriesMore(path, s.entries, n);
    OrderedMore(path, s.entries, n);
    ErrNoneFound(s.errs, DoubleLocking, Loc(path[n]));
  }

  lemma OtherInv(path: Path, s: State, n: nat)
    requires OnPath(path, s.locks) && OnPath(path, s.entries) && n < |path| && Inv(path, s, n) && !IsLock(path[n])
    ensures Good(path, Running(Added(s, n))) && Inv(path, Added(s, n), n + 1)
  {
    HeldMeansEntered(path, s, n);
    LockEntriesMore(path, s.entries, n);
    PrefixOrdered(path, s.entries, s.entries, n);
    if s.entries != [] {
      OrderedMore(path, s.entries, n);
    }
    hide IsLock, LockEntries, Ordered, NoneFound;
  }

  /** Every effect keeps the invariant, and the assertion in `unlock` holds. */
  lemma StepInv(path: Path, s: State, n: nat)
    requires OnPath(path, s.locks) && OnPath(path, s.entries) && n < |path| && Inv(path, s, n)
    ensures Step(path, s, n) != AssertionFailed && Good(path, Step(path, s, n))
    ensures Step(path, s, n).Running? ==> Inv(path, Step(path, s, n).s, n + 1)
  {
    hide IsLock, IsUnlock, LockStep, UnlockStep, Inv, Added;
    if IsLock(path[n]) {
      LockInv(path, s, n);
    } else if IsUnlock(path[n]) {
      UnlockInv(path, s, n);
    } else {
      OtherInv(path, s, n);
    }
  }

  lemma {:induction false} RunInv(path: Path, n: nat)
    requires n <= |path|
    ensures Run(path, n) != AssertionFailed
    ensures Run(path, n).Running? ==> Inv(path, Run(path, n).s, n)
  {
    hide Step, Inv;
    if n == 0 {
      StartInv(path);
    } else {
      RunInv(path, n - 1);
      var o := Run(path, n - 1);
      if o.Running? {
        StepInv(path, o.s, n - 1);
      }
    }
  }

  lemma StartInv(path: Path)
    ensures Inv(path, START, 0)
  {
  }

  // ----- what an empty error table means -----

  /** All of the locks are trylocks that do not pair with the unlock. */
  predicate AllFailed(path: Path, locks: seq<nat>, unlock: Effect)
    requires OnPath(path, locks)
  {
    forall k :: 0 <= k < |locks| ==> IsTry(path[locks[k]]) && !Paired(path[locks[k]], unlock)
  }

  /** Exploring crashes at an unlock exactly when something is held, and all of it is trylocks that do
      not pair with the unlock. */
  lemma CrashIff(path: Path, n: nat)
    requires n < |path| && Run(path, n).Running?
    ensures Run(path, n + 1).Running? || Run(path, n + 1) == PopFromEmpty
    ensures Run(path, n + 1) == PopFromEmpty
       <==> IsUnlock(path[n]) && Run(path, n).s.locks != [] && AllFailed(path, Run(path, n).s.locks, path[n])
  {
    var s := Run(path, n).s;
    RunInv(path, n);
    RunInv(path, n + 1);
    HeldMeansEntered(path, s, n);
    if IsLock(path[n]) {
      LocksAreNotUnlocks(path[n]);
    }
    NoSurvivors(path, s.locks, path[n]);
    hide IsLock, IsTry, Paired, Survivors, Inv, IsUnlock;
  }

  lemma {:induction false} NoSurvivors(path: Path, locks: seq<nat>, unlock: Effect)
    requires OnPath(path, locks)
    ensures Survivors(path, locks, unlock) == [] <==> AllFailed(path, locks, unlock)
  {
    hide IsTry, Paired;
    if locks != [] {
      NoSurvivors(path, locks[..|locks| - 1], unlock);
    }
  }

  /** The locks held after following the discipline, or the breach of it. */
  datatype Verdict = Held(locks: seq<nat>) | Breach

  /** The discipline on one effect: no identical lock while held; and an unlock, unpaired trylocks
      aside, pairs with the most recent lock. */
  function Allowed(path: Path, locks: seq<nat>, n: nat): (v: Verdict)
    requires OnPath(path, locks) && n < |path|
    ensures v.Held? ==> OnPath(path, v.locks)
  {
    var e := path[n];
    if IsLock(e) then
      if Double(path, locks, e) then Breach else Held(locks + [n])
    else if IsUnlock(e) then
      var left := Survivors(path, locks, e);
      if left == [] || !Paired(path[left[|left| - 1]], e) then Breach else Held(left[..|left| - 1])
    else Held(locks)
  }

  function Disciplined(path: Path, n: nat): (v: Verdict)
    requires n <= |path|
    ensures v.Held? ==> OnPath(path, v.locks)
  {
    if n == 0 then Held([])
    else
      var v := Disciplined(path, n - 1);
      if v.Held? then Allowed(path, v.locks, n - 1) else Breach
  }

  /** The path keeps the discipline, and of several locks left at the end all are trylocks. */
  predicate Accepted(path: Path) {
    var v := Disciplined(path, |path|);
    v.Held? && (|v.locks| <= 1 || forall k :: 0 <= k < |v.locks| ==> IsTry(path[v.locks[k]]))
  }

  predicate Clean(o: Outcome) {
    o.Running? && o.s.errs == map[]
  }

  /** One step keeps the table empty exactly when the discipline allows it. */
  lemma StepClean(path: Path, n: nat)
    requires n < |path| && Run(path, n).Running?
    requires Run(path, n).s.errs == map[] && Disciplined(path, n) == Held(Run(path, n).s.locks)
    ensures Clean(Run(path, n + 1)) <==> Disciplined(path, n + 1).Held?
    ensures Clean(Run(path, n + 1)) ==> Disciplined(path, n + 1).locks == Run(path, n + 1).s.locks
  {
    var s := Run(path, n).s;
    RunInv(path, n);
    HeldMeansEntered(path, s, n);
    hide Run, Disciplined;
    NextRun(path, n);
    NextDisciplined(path, n);
    if IsUnlock(path[n]) && !IsLock(path[n]) {
      UnlockInv(path, s, n);
      StepUnlockClean(path, s, n);
    }
    hide IsLock, IsUnlock, UnlockStep, Survivors, Paired, Double, Err;
  }

  lemma NextRun(path: Path, n: nat)
    requires n < |path| && Run(path, n).Running?
    ensures Run(path, n + 1) == Step(path, Run(path, n).s, n)
  {
    hide Step;
  }

  lemma NextDisciplined(path: Path, n: nat)
    requires n < |path| && Disciplined(path, n).Held?
    ensures Disciplined(path, n + 1) == Allowed(path, Disciplined(path, n).locks, n)
  {
    hide Allowed;
  }

  lemma StepUnlockClean(path: Path, s: State, n: nat)
    requires OnPath(path, s.locks) && OnPath(path, s.entries) && n < |path| && Inv(path, s, n) && s.errs == map[]
    requires IsUnlock(path[n]) && !IsLock(path[n])
    ensures var o, v := UnlockStep(path, Added(s, n), n), Allowed(path, s.locks, n);
            (Clean(o) <==> v.Held?) && (Clean(o) ==> o.s.locks == v.locks)
  {
    hide IsLock, IsUnlock, IsTry, Paired, AnyFirm, Reclaimed, LockEntries, Survivors, Below, Ordered, NoneFound;
    HeldMeansEntered(path, s, n);
    if s.locks != [] && Survivors(path, s.locks, path[n]) != [] {
      UnlockStacks(path, s, path[n], n);
      assert Added(s, n).entries[..|s.entries|] == s.entries;
      assert Added(s, n).entries[|s.entries|] == n;
    }
  }

  /** An error is never taken back. */
  lemma ErrorsStay(path: Path, s: State, n: nat)
    requires OnPath(path, s.locks) && OnPath(path, s.entries) && n < |path| && s.errs != map[]
    ensures !Clean(Step(path, s, n))
  {
    hide IsLock, IsUnlock, Survivors, Paired, Double, Below, AnyFirm;
  }

  lemma {:induction false} RunClean(path: Path, n: nat)
    requires n <= |path|
    ensures Clean(Run(path, n)) <==> Disciplined(path, n).Held?
    ensures Clean(Run(path, n)) ==> Disciplined(path, n).locks == Run(path, n).s.locks
  {
    hide Step, Allowed;
    if n > 0 {
      RunClean(path, n - 1);
      var o := Run(path, n - 1);
      if o.Running? {
        if o.s.errs == map[] {
          StepClean(path, n - 1);
        } else {
          ErrorsStay(path, o.s, n - 1);
        }
      }
    }
  }

  /** Exploring a path ends without a crash and with an empty error table if and only if the path is
      accepted. */
  lemma ExploredClean(path: Path)
    ensures Clean(Explored(path)) <==> Accepted(path)
  {
    hide Run, Disciplined, IsTry;
    RunClean(path, |path|);
  }

  predicate TryFree(path: Path) {
    forall k :: 0 <= k < |path| ==> IsLock(path[k]) ==> !IsTry(path[k])
  }

  /** Plain nesting: an unlock pairs with the most recent lock. */
  function Nested(path: Path, n: nat): (v: Verdict)
    requires n <= |path|
    ensures v.Held? ==> forall k :: 0 <= k < |v.locks| ==> v.locks[k] < |path| && IsLock(path[v.locks[k]])
  {
    if n == 0 then Held([])
    else
      var v, e := Nested(path, n - 1), path[n - 1];
      if v.Breach? then Breach
      else if IsLock(e) then
        if Double(path, v.locks, e) then Breach else Held(v.locks + [n - 1])
      else if IsUnlock(e) then
        if v.locks == [] || !Paired(path[v.locks[|v.locks| - 1]], e) then Breach else Held(v.locks[..|v.locks| - 1])
      else v
  }

  lemma {:induction false} TryFreeNested(path: Path, n: nat)
    requires n <= |path| && TryFree(path)
    ensures Disciplined(path, n) == Nested(path, n)
  {
    hide IsLock, IsUnlock, IsTry, Double, Paired;
    if n > 0 {
      TryFreeNested(path, n - 1);
    }
  }

  lemma {:induction false} TryFreeRuns(path: Path, n: nat)
    requires n <= |path| && TryFree(path)
    ensures Run(path, n).Running?
    decreases n
  {
    hide IsLock, IsUnlock, IsTry, Paired, Step, Inv;
    if n > 0 {
      TryFreeRuns(path, n - 1);
      CrashIff(path, n - 1);
      RunInv(path, n - 1);
      var locks := Run(path, n - 1).s.locks;
      LocksAreLocks(path, Run(path, n - 1).s, n - 1);
      assert locks != [] ==> !IsTry(path[locks[0]]);
    }
  }

  lemma LocksAreLocks(path: Path, s: State, n: nat)
    requires OnPath(path, s.locks) && OnPath(path, s.entries) && Inv(path, s, n)
    ensures forall k :: 0 <= k < |s.locks| ==> IsLock(path[s.locks[k]])
  {
    LockEntriesOnPath(path, s.entries);
  }

  /** On a path without trylocks nothing crashes, and the error table ends empty if and only if every
      unlock pairs with the most recent held lock, no identical lock is taken while held, and at most
      one lock is left held. */
  lemma TryFreeClean(path: Path)
    requires TryFree(path)
    ensures Explored(path).Running?
    ensures Explored(path).s.errs == map[]
       <==> Nested(path, |path|).Held? && |Nested(path, |path|).locks| <= 1
  {
    hide Run, Disciplined, Nested, IsTry, IsLock;
    TryFreeRuns(path, |path|);
    ExploredClean(path);
    TryFreeNested(path, |path|);
    if Nested(path, |path|).Held? {
      NestedLocks(path, |path|);
      var locks := Nested(path, |path|).locks;
      assert locks != [] ==> !IsTry(path[locks[0]]);
    }
  }

  lemma NestedLocks(path: Path, n: nat)
    requires n <= |path| && TryFree(path) && Nested(path, n).Held?
    ensures var locks := Nested(path, n).locks;
            forall k :: 0 <= k < |locks| ==> locks[k] < |path| && !IsTry(path[locks[k]])
  {
    hide IsTry, IsLock;
  }

  // ----- the checker -----

  class LockState {
    const path: Path
    var everLocked: bool
    var locks: seq<nat>
    var entries: seq<nat>
    var errs: map<nat, Kind>

    constructor (path: Path)
      ensures this.path == path && Value() == START
    {
      this.path := path;
      everLocked, locks, entries, errs := false, [], [], map[];
    }

    function Value(): State
      reads this
    {
      State(everLocked, locks, entries, errs)
    }

    predicate Valid()
      reads this
    {
      OnPath(path, locks) && OnPath(path, entries)
    }

    method ReportErr(kind: Kind, loc: nat)
      modifies `errs
      ensures errs == Err(old(errs), kind, loc)
    {
      if loc !in errs {
        errs := errs[loc := kind];
      }
    }

    method Add(entry: nat)
      modifies `entries
      ensures entries == old(entries) + [entry]
    {
      entries := entries + [entry];
    }

    method CheckDoubleLocks(lock: Effect) returns (found: bool)
      requires Valid()
      ensures found == Double(path, locks, lock)
    {
      found := false;
      var k := 0;
      while k < |locks|
        invariant 0 <= k <= |locks|
        invariant found <==> exists l :: 0 <= l < k && SameCall(lock, path[locks[l]])
      {
        found := found || SameCall(lock, path[locks[k]]);
        k := k + 1;
      }
    }

    method Lock(e: nat)
      requires Valid() && e < |path|
      modifies this
      ensures Valid() && Value() == LockStep(path, old(Value()), e)
    {
      everLocked := true;
      var double := CheckDoubleLocks(path[e]);
      if double {
        ReportErr(DoubleLocking, Loc(path[e]));
      }
      if |locks| == 0 {
        entries := entries + [e];
      }
      locks := locks + [e];
    }

    /** The loop that looks for the lock of an unlock; nothing is found if it would pop from an empty
        list. */
    method PopPaired(e: nat) returns (found: bool, lock: nat)
      requires Valid() && e < |path|
      modifies `locks, `errs
      ensures found <==> Survivors(path, old(locks), path[e]) != []
      ensures found ==> var left := Survivors(path, old(locks), path[e]);
                lock == left[|left| - 1] && locks == left[..|left| - 1] && lock < |path|
                && errs == if Paired(path[lock], path[e]) then old(errs) else Err(old(errs), NotPaired, Loc(path[e]))
    {
      found, lock := false, 0;
      while |locks| > 0
        invariant Valid() && errs == old(errs)
        invariant Survivors(path, locks, path[e]) == Survivors(path, old(locks), path[e])
      {
        lock := locks[|locks| - 1];
        if !Paired(path[lock], path[e]) {
          if IsTry(path[lock]) {
            locks := locks[..|locks| - 1];
            continue;
          }
          ReportErr(NotPaired, Loc(path[e]));
        }
        locks := locks[..|locks| - 1];
        return true, lock;
      }
    }

    /** Pop the entries down to lock. */
    method Reclaim(lock: nat) returns (reclaimed: seq<nat>)
      modifies `entries
      ensures entries == Below(old(entries), lock) && reclaimed == Reclaimed(old(entries), lock)
    {
      reclaimed := [];
      while |entries| != 0
        invariant Below(entries, lock) == Below(old(entries), lock)
        invariant reclaimed + Reclaimed(entries, lock) == Reclaimed(old(entries), lock)
        decreases |entries|
      {
        ghost var before := Reclaimed(entries, lock);
        var e := entries[|entries| - 1];
        entries := entries[..|entries| - 1];
        if e == lock {
          break;
        }
        assert reclaimed + before == reclaimed + [e] + Reclaimed(entries, lock);
        reclaimed := reclaimed + [e];
      }
    }

    /** Report a lock call among the reclaimed entries. */
    method CheckReclaimed(reclaimed: seq<nat>, lock: nat)
      requires OnPath(path, reclaimed) && lock < |path|
      modifies `errs
      ensures errs == if AnyFirm(path, reclaimed) then Err(old(errs), FoundUnlocked, Loc(path[lock])) else old(errs)
    {
      hide IsFirm, AnyFirm;
      NoneFirm(path);
      var k := 0;
      while k < |reclaimed|
        invariant 0 <= k <= |reclaimed| && OnPath(path, reclaimed[..k])
        invariant errs == if AnyFirm(path, reclaimed[..k]) then Err(old(errs), FoundUnlocked, Loc(path[lock]))
                          else old(errs)
      {
        AnyFirmMore(path, reclaimed[..k], reclaimed[k]);
        assert reclaimed[..k + 1] == reclaimed[..k] + [reclaimed[k]];
        if IsFirm(path[reclaimed[k]]) {
          ReportErr(FoundUnlocked, Loc(path[lock]));
        }
        k := k + 1;
      }
      assert reclaimed[..|reclaimed|] == reclaimed;
    }

    method Unlock(e: nat) returns (o: Outcome)
      requires Valid() && e < |path|
      modifies this
      ensures o == UnlockStep(path, old(Value()), e)
      ensures o.Running? ==> Valid() && Value() == o.s
    {
      hide Survivors, Below, Reclaimed, AnyFirm, Paired, Err;
      if |locks| == 0 || |entries| == 0 {
        ReportErr(Uncoordinated, Loc(path[e]));
        return Running(Value());
      }
      var top := entries[|entries| - 1];
      entries := entries[..|entries| - 1];
      if top != e {
        return AssertionFailed;
      }
      var found, lock := PopPaired(e);
      if !found {
        return PopFromEmpty;
      }
      ReclaimedOnPath(path, entries, lock);
      var reclaimed := Reclaim(lock);
      CheckReclaimed(reclaimed, lock);
      o := Running(Value());
    }

    /** One effect of the path. */
    method Visit(e: nat) returns (o: Outcome)
      requires Valid() && e < |path|
      modifies this
      ensures o == Step(path, old(Value()), e)
      ensures o.Running? ==> Valid() && Value() == o.s
    {
      hide IsLock, IsUnlock, LockStep, UnlockStep;
      if |locks| >= 1 {
        Add(e);
      }
      assert Value() == Added(old(Value()), e);
      if IsLock(path[e]) {
        Lock(e);
        o := Running(Value());
      } else if IsUnlock(path[e]) {
        o := Unlock(e);
      } else {
        o := Running(Value());
      }
    }

    /** The last loop of `explore_path`. */
    method ReportUnresolved()
      requires Valid()
      modifies `errs
      ensures errs == Unresolved(path, locks, old(errs))
    {
      var k := 0;
      while k < |locks|
        invariant 0 <= k <= |locks| && errs == Unresolved(path, locks[..k], old(errs))
      {
        assert locks[..k + 1][..k] == locks[..k];
        if !IsTry(path[locks[k]]) {
          ReportErr(NotResolved, Loc(path[locks[k]]));
        }
        k := k + 1;
      }
      assert locks[..|locks|] == locks;
    }
  }

  /** `explore_path` */
  method ExplorePath(path: Path) returns (o: Outcome)
    ensures o == Explored(path)
  {
    hide Step;
    var state := new LockState(path);
    o := Running(state.Value());
    var e := 0;
    while e < |path|
      invariant 0 <= e <= |path| && state.path == path && state.Valid() && fresh(state)
      invariant o == Run(path, e) == Running(state.Value())
    {
      o := state.Visit(e);
      e := e + 1;
      if !o.Running? {
        CrashStays(path, e, |path|);
        return;
      }
    }
    if |state.locks| > 1 {
      state.ReportUnresolved();
    }
    o := Running(state.Value());
  }

  lemma {:induction false} CrashStays(path: Path, n: nat, m: nat)
    requires n <= m <= |path| && !Run(path, n).Running?
    ensures Run(path, m) == Run(path, n)
    decreases m
  {
    hide Step;
    if n < m {
      CrashStays(path, n, m - 1);
    }
  }

  /** `_grep`: the effects between a lock and its unlock. */
  method Grep(beg: nat, path: Path, end: nat) returns (reclaimed: Path)
    requires beg < end < |path|
    ensures reclaimed == path[beg + 1..end]
  {
    reclaimed := [];
    var inside, k := false, 0;
    while k < |path|
      invariant 0 <= k <= end && (inside <==> k > beg)
      invariant reclaimed == if inside then path[beg + 1..k] else []
      decreases |path| - k
    {
      if k == beg {
        inside := true;
      } else if k == end {
        inside := false;
        break;
      } else if inside {
        reclaimed := reclaimed + [path[k]];
      }
      k := k + 1;
    }
  }
}
