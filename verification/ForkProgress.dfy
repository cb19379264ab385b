/**
 Progress of the fork-server protocol: fuzzer and server are never stuck, whatever the target does,
 and every round of every run ends.
 */
module ForkProgress {
  import opened ForkServer

  lemma {:induction false} FreshPid(used: set<int>) returns (pid: int)
    ensures 0 < pid && forall p :: p in used ==> p < pid
  {
    pid := 1;
    if u :| u in used {
      var below := FreshPid(used - {u});
      pid := if u < below then below else u + 1;
      forall p | p in used ensures p < pid {
        assert p == u || p in used - {u};
      }
    }
  }

  /** Unless the fuzzer has given up, something other than the target's own will can happen:
      fuzzer and server are never both blocked on a child that may hang for ever. */
  lemma NeverStuck(c: Config, s: State) returns (a: Action)
    requires Inv(c, s) && !s.fpc.Aborted?
    ensures Enabled(c, s, a) && !Voluntary(a) && !a.SForkFail?
  {
    var pid := FreshPid(s.h.started.Keys);
    match s.spc
    case Boot => a := SHello;
    case Reap => a := if s.procs[s.srvPid].phase.Zombie? then SReap else CDie(s.srvPid);
    case Resume => a := if s.srvStopped then SCont else SFork(pid);
    case WritePid => a := SWritePid;
    case WriteStatus => a := SWriteStatus;
    case WaitChild =>
      var p := s.procs[s.srvPid];
      if p.phase.Zombie? || p.phase.Halted? {
        a := SWait;
      } else if p.killPending {
        a := CDie(s.srvPid);
      } else {
        a := if s.fpc.ReadPid? then FReadPid else if s.fpc.Arm? then FArm else Alarm;
      }
    case _ =>
      if s.spc.Read? && s.ctl != [] {
        a := SRead;
      } else {
        match s.fpc {
          case Hello => a := FHello;
          case HelloDisarm => a := FHelloDisarm;
          case Start => a := FStart;
          case Write => a := FWrite;
          case ReadPid => a := FReadPid;
          case Arm => a := FArm;
          case ReadStatus => a := FReadStatus;
          case Clear => a := FClear;
          case Disarm => a := FDisarm;
          case Latch => a := FLatch;
        }
      }
  }

  const MAX_RANK := 49

  /** Steps that can still be taken before the round is over. */
  function Rank(s: State): (r: nat)
    ensures r <= MAX_RANK
  {
    FuzzerRank(s) + ServerRank(s) + ChildRank(s)
  }

  function FuzzerRank(s: State): (r: nat)
    ensures r <= 13
  {
    (if s.armed then 1 else 0) +
    match s.fpc
    case Hello => 12
    case HelloDisarm => 11
    case Start => 10
    case Write => 9
    case ReadPid => 8
    case Arm => 7
    case ReadStatus => 5
    case Clear => 4
    case Disarm => 3
    case Latch => 2
    case Aborted(_) => 0
  }

  function ServerRank(s: State): (r: nat)
    ensures r <= 31
  {
    match s.spc
    case Boot => 31
    case Read => if s.ctl != [] || s.fpc.Hello? || s.fpc.HelloDisarm? || s.fpc.Start? || s.fpc.Write? then 30 else 0
    case Reap => 25
    case Resume => 20
    case WritePid => 12
    case WaitChild => 8
    case WriteStatus => 6
    case Dead(_) => 0
  }

  function ChildRank(s: State): (r: nat)
    ensures r <= 5
  {
    if s.srvPid !in s.procs then 0
    else
      match s.procs[s.srvPid].phase
      case Fresh => 5
      case Body(_) => 4
      case After => 3
      case Halted(_, _) => 2
      case Zombie(_) => 1
  }

  ghost predicate RankFallsAt(c: Config, s: State, a: Action)
    requires Enabled(c, s, a)
  {
    var s' := Apply(c, s, a);
    if a.FLatch? then s'.h.rounds == s.h.rounds + 1
    else s'.h.rounds == s.h.rounds && Rank(s') < Rank(s)
  }

  lemma LaunchRankFalls(c: Config, s: State, a: Action)
    requires s.procs.Keys <= {s.srvPid} && Enabled(c, s, a)
    requires a.SHello? || a.SRead? || a.SReap?
    ensures RankFallsAt(c, s, a)
  {
    hide ApplyFuzzer, ApplyTarget;
    var s' := Apply(c, s, a);
    assert s'.fpc == s.fpc && s'.armed == s.armed && s'.h.rounds == s.h.rounds;
    assert FuzzerRank(s') == FuzzerRank(s);
    assert ServerRank(s') + ChildRank(s') < ServerRank(s) + ChildRank(s);
  }

  lemma ForkRankFalls(c: Config, s: State, a: Action)
    requires s.procs.Keys <= {s.srvPid} && Enabled(c, s, a)
    requires a.SFork? || a.SForkFail? || a.SCont?
    ensures RankFallsAt(c, s, a)
  {
    hide ApplyFuzzer, ApplyTarget;
    var s' := Apply(c, s, a);
    assert s'.fpc == s.fpc && s'.armed == s.armed && s'.h.rounds == s.h.rounds;
    assert FuzzerRank(s') == FuzzerRank(s);
    assert ServerRank(s') + ChildRank(s') < ServerRank(s) + ChildRank(s);
  }

  lemma RelayRankFalls(c: Config, s: State, a: Action)
    requires s.procs.Keys <= {s.srvPid} && Enabled(c, s, a)
    requires a.SWritePid? || a.SWait? || a.SWaitFail?
    ensures RankFallsAt(c, s, a)
  {
    hide ApplyFuzzer, ApplyTarget;
    var s' := Apply(c, s, a);
    assert s'.fpc == s.fpc && s'.armed == s.armed && s'.h.rounds == s.h.rounds;
    assert FuzzerRank(s') == FuzzerRank(s);
    assert ServerRank(s') + ChildRank(s') < ServerRank(s) + ChildRank(s);
  }

  lemma StatusRankFalls(c: Config, s: State, a: Action)
    requires PipeInv(s) && s.procs.Keys <= {s.srvPid} && Enabled(c, s, a)
    requires a.SWriteStatus?
    ensures RankFallsAt(c, s, a)
  {
    hide ApplyFuzzer, ApplyTarget;
    var s' := Apply(c, s, a);
    assert s'.fpc == s.fpc && s'.armed == s.armed && s'.h.rounds == s.h.rounds;
    assert FuzzerRank(s') == FuzzerRank(s);
    assert ServerRank(s') + ChildRank(s') < ServerRank(s) + ChildRank(s);
  }

  lemma LoopRankFalls(c: Config, s: State, a: Action)
    requires s.procs.Keys <= {s.srvPid} && Enabled(c, s, a) && a.CLoop?
    ensures RankFallsAt(c, s, a)
  {
    hide ApplyFuzzer, ApplyServer;
    var s' := Apply(c, s, a);
    assert a.pid == s.srvPid;
    assert s' == s.(procs := s'.procs, h := s'.h);
    assert ChildRank(s') < ChildRank(s);
  }

  lemma TargetRankFalls(c: Config, s: State, a: Action)
    requires s.procs.Keys <= {s.srvPid} && Enabled(c, s, a)
    requires a.CExit? || a.CDie?
    ensures RankFallsAt(c, s, a)
  {
    hide ApplyFuzzer, ApplyServer;
    var s' := Apply(c, s, a);
    assert a.pid == s.srvPid;
    assert s' == s.(procs := s'.procs, h := s'.h);
    assert ChildRank(s') < ChildRank(s);
  }

  lemma HandshakeRankFalls(c: Config, s: State, a: Action)
    requires Inv(c, s) && Enabled(c, s, a)
    requires a.FHello? || a.FHelloDisarm? || a.Alarm?
    ensures RankFallsAt(c, s, a)
  {
    hide ApplyServer, ApplyTarget;
    hide Tells, BegunInv, CycleInv;
    var s' := Apply(c, s, a);
    assert s'.h.rounds == s.h.rounds;
    assert ChildRank(s') == ChildRank(s);
    assert FuzzerRank(s') < FuzzerRank(s) && ServerRank(s') <= ServerRank(s);
  }

  lemma RequestRankFalls(c: Config, s: State, a: Action)
    requires PipeInv(s) && Enabled(c, s, a)
    requires a.FStart? || a.FWrite?
    ensures RankFallsAt(c, s, a)
  {
    hide ApplyServer, ApplyTarget;
    var s' := Apply(c, s, a);
    assert ChildRank(s') == ChildRank(s);
    assert FuzzerRank(s') < FuzzerRank(s) && ServerRank(s') <= ServerRank(s);
  }

  lemma PidRankFalls(c: Config, s: State, a: Action)
    requires PipeInv(s) && TimerInv(s) && Enabled(c, s, a)
    requires a.FReadPid? || a.FArm?
    ensures RankFallsAt(c, s, a)
  {
    hide ApplyServer, ApplyTarget;
    var s' := Apply(c, s, a);
    assert ChildRank(s') == ChildRank(s);
    assert FuzzerRank(s') < FuzzerRank(s) && ServerRank(s') <= ServerRank(s);
  }

  lemma ReplyRankFalls(c: Config, s: State, a: Action)
    requires Inv(c, s) && Enabled(c, s, a)
    requires a.FReadStatus? || a.FClear? || a.FDisarm? || a.FLatch?
    ensures RankFallsAt(c, s, a)
  {
    hide ApplyServer, ApplyTarget;
    hide Tells, BegunInv, CycleInv;
    var s' := Apply(c, s, a);
    assert ChildRank(s') == ChildRank(s);
    assert !a.FLatch? ==> FuzzerRank(s') < FuzzerRank(s) && ServerRank(s') <= ServerRank(s);
  }

  lemma RankFalls(c: Config, s: State, a: Action)
    requires Inv(c, s) && Enabled(c, s, a)
    ensures RankFallsAt(c, s, a)
  {
    hide Enabled, RankFallsAt, PipeInv;
    match a
    case SHello => LaunchRankFalls(c, s, a);
    case SRead => LaunchRankFalls(c, s, a);
    case SReap => LaunchRankFalls(c, s, a);
    case SFork(_) => ForkRankFalls(c, s, a);
    case SForkFail => ForkRankFalls(c, s, a);
    case SCont => ForkRankFalls(c, s, a);
    case SWritePid => RelayRankFalls(c, s, a);
    case SWait => RelayRankFalls(c, s, a);
    case SWaitFail => RelayRankFalls(c, s, a);
    case SWriteStatus => StatusRankFalls(c, s, a);
    case CLoop(_) => LoopRankFalls(c, s, a);
    case CExit(_, _) => TargetRankFalls(c, s, a);
    case CDie(_) => TargetRankFalls(c, s, a);
    case FHello => HandshakeRankFalls(c, s, a);
    case FHelloDisarm => HandshakeRankFalls(c, s, a);
    case Alarm => HandshakeRankFalls(c, s, a);
    case FStart => RequestRankFalls(c, s, a);
    case FWrite => RequestRankFalls(c, s, a);
    case FReadPid => PidRankFalls(c, s, a);
    case FArm => PidRankFalls(c, s, a);
    case _ => ReplyRankFalls(c, s, a);
  }

  /** However the parties are scheduled, n completed rounds take at most 50 n + 49 steps. */
  lemma {:induction false} RoundsAreBounded(c: Config, s: State, acts: seq<Action>)
    requires Inv(c, s) && Possible(c, s, acts)
    ensures var e := Exec(c, s, acts);
      e.h.rounds >= s.h.rounds && |acts| + Rank(e) <= Rank(s) + (MAX_RANK + 1) * (e.h.rounds - s.h.rounds)
    decreases |acts|
  {
    if acts != [] {
      InvStep(c, s, acts[0]);
      RankFalls(c, s, acts[0]);
      RoundsAreBounded(c, Apply(c, s, acts[0]), acts[1..]);
    }
  }

  /** From every reachable state the current round can be finished without the target ever
      acting of its own accord: a hanging target costs a timeout, never the session. */
  lemma {:induction false} RoundCanFinish(c: Config, s: State) returns (more: seq<Action>)
    requires Inv(c, s) && !s.fpc.Aborted?
    ensures Possible(c, s, more) && |more| <= Rank(s) + 1
    ensures forall a :: a in more ==> !Voluntary(a)
    ensures var e := Exec(c, s, more); e.h.rounds == s.h.rounds + 1 || e.fpc.Aborted?
    decreases Rank(s)
  {
    var a := NeverStuck(c, s);
    var s' := Apply(c, s, a);
    InvStep(c, s, a);
    RankFalls(c, s, a);
    if a.FLatch? || s'.fpc.Aborted? {
      more := [a];
      assert Possible(c, s', more[1..]);
    } else {
      var rest := RoundCanFinish(c, s');
      more := [a] + rest;
      assert more[1..] == rest;
    }
  }

  /** Every round of every run ends, whatever the target does or fails to do: a round still open
      is at most 50 steps from its end, and n completed rounds leave room for no more than 50 (n + 1)
      steps. */
  lemma EveryRoundEnds(c: Config, acts: seq<Action>)
    requires Possible(c, Initial(), acts)
    ensures var s := Exec(c, Initial(), acts);
      && |acts| <= 50 * (s.h.rounds + 1)
      && (s.fpc.Aborted? || exists more ::
            && Possible(c, s, more) && |more| <= 50 && (forall a :: a in more ==> !Voluntary(a))
            && (Exec(c, s, more).h.rounds == s.h.rounds + 1 || Exec(c, s, more).fpc.Aborted?))
  {
    InvInit(c);
    InvRun(c, Initial(), acts);
    RoundsAreBounded(c, Initial(), acts);
    var s := Exec(c, Initial(), acts);
    if !s.fpc.Aborted? {
      var more := RoundCanFinish(c, s);
    }
  }
}
