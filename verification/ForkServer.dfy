/**
 The fork-server protocol: `run_target` and its SIGALRM handler on the fuzzer's side,
 `__afl_start_forkserver` and `__afl_persistent_loop` on the target's side, two pipes
 and the kernel's process table between them.

 The protocol is a step system.  Every system call and every assignment that another
 party can observe is one step, SIGKILL acts some time after it was sent, and nothing
 is assumed about who moves next.
 */
module ForkServer {

  // ----- wait statuses, as the 32-bit words that travel through the status pipe -----

  datatype Wait = Exited(code: int) | Signaled(sig: int) | StoppedBy(sig: int)

  const SIGKILL := 9
  const SIGUSR2 := 12
  const SIGSTOP := 19
  const MSAN_ERROR := 86

  predicate IsWait(w: Wait) {
    match w
    case Exited(c) => 0 <= c < 256
    case Signaled(s) => 1 <= s <= 64
    case StoppedBy(s) => 1 <= s <= 64
  }

  function Encode(w: Wait): int {
    match w
    case Exited(c) => 256 * c
    case Signaled(s) => s
    case StoppedBy(s) => 256 * s + 127
  }

  predicate WIfStopped(status: int) { status % 256 == 127 }

  predicate WIfSignaled(status: int) { 1 <= status % 128 <= 126 }

  function WTermSig(status: int): int { status % 128 }

  function WExitStatus(status: int): int { status / 256 % 256 }

  /** The macros read back exactly what the kernel put in the word. */
  lemma WaitWord(w: Wait)
    requires IsWait(w)
    ensures WIfStopped(Encode(w)) <==> w.StoppedBy?
    ensures WIfSignaled(Encode(w)) <==> w.Signaled?
    ensures w.Signaled? ==> WTermSig(Encode(w)) == w.sig && WExitStatus(Encode(w)) == 0
    ensures w.Exited? ==> WExitStatus(Encode(w)) == w.code
  {
    match w
    case Exited(c) => assert (256 * c) % 128 == 0;
    case Signaled(s) =>
    case StoppedBy(s) => assert (256 * s + 127) % 128 == 127;
  }

  // ----- state -----

  datatype Fault = NoFault | Timeout | Crash

  datatype AbortCause = ServerGone | Misbehaving

  datatype FuzzerPc =
    | Hello | HelloDisarm                                      // init_forkserver
    | Start | Write | ReadPid | Arm | ReadStatus | Clear | Disarm | Latch   // run_target
    | Aborted(why: AbortCause)

  datatype DeathCause = HandshakeTimeout | ForkFailed | WaitFailed

  datatype ServerPc =
    | Boot | Read | Reap | Resume | WritePid | WaitChild | WriteStatus
    | Dead(cause: DeathCause)

  /** Where the target is with respect to `__afl_persistent_loop`. */
  datatype Phase =
    | Fresh                                // has not called the loop yet
    | Body(cnt: nat)                       // inside an iteration, `cycle_cnt` is cnt
    | Halted(cnt: nat, reported: bool)     // stopped by its own SIGSTOP
    | After                                // the loop has returned 0; `cycle_cnt` is then 0 if persistent
    | Zombie(exit: Wait)

  datatype Proc = Proc(phase: Phase, killPending: bool)

  /** What a word in the status pipe stands for.  No party reads the origin. */
  datatype Origin = HelloWord | PidOf(pid: int) | StatusOf(pid: int, wait: Wait)
  datatype Msg = Msg(word: int, origin: Origin)

  datatype Config = Config(persistent: bool, maxCnt: nat, usesAsan: bool)

  /** What happened, for the theorems only: SIGKILLs sent by the fuzzer, rounds begun by each child ever
      forked and calls it made after the loop had returned 0, how each child that died did so, what
      the server last waited for, rounds completed, origin of the status read. */
  datatype History = History(
    killed: set<int>, started: map<int, nat>, again: map<int, nat>, fates: map<int, Wait>, srvWait: Wait,
    rounds: nat, statusOrigin: Origin)

  datatype State = State(
    // fuzzer
    fpc: FuzzerPc, childPid: int, timedOut: bool, prevTimedOut: bool, status: int,
    armed: bool, fault: Fault,
    // pipes
    ctl: seq<bool>, st: seq<Msg>,
    // server
    spc: ServerPc, wasKilled: bool, srvPid: int, srvStopped: bool, srvStatus: int,
    // kernel: every process forked by the server and not reaped yet
    procs: map<int, Proc>,
    h: History)

  datatype Action =
    | FHello | FHelloDisarm | FStart | FWrite | FReadPid | FArm | FReadStatus | FClear | FDisarm | FLatch
    | Alarm
    | SHello | SRead | SReap | SFork(pid: int) | SForkFail | SCont | SWritePid | SWait | SWaitFail | SWriteStatus
    | CLoop(pid: int) | CExit(pid: int, w: Wait) | CDie(pid: int)

  /** Something the target does of its own accord; a hanging target never does it. */
  predicate Voluntary(a: Action) { a.CLoop? || a.CExit? }

  function Initial(): State {
    State(Hello, -1, false, false, 0, true, NoFault, [], [], Boot, false, 0, false, 0,
          map[], History({}, map[], map[], map[], Exited(0), 0, HelloWord))
  }

  // ----- the target -----

  /** `cycle_cnt` is a u32 and is decremented before the test. */
  function Dec32(c: nat): nat {
    if c == 0 then 0xffff_ffff else c - 1
  }

  /** One call of `__afl_persistent_loop`, up to the SIGSTOP it may raise.  Called again after it
      returned 0 it counts down from 2^32. */
  function PersistentLoop(c: Config, ph: Phase): Phase
    requires ph.Fresh? || ph.Body? || ph.After?
  {
    if ph.Fresh? then Body(c.maxCnt % 0x1_0000_0000)
    else
      var cnt := Dec32(if ph.Body? then ph.cnt else 0);
      if c.persistent && cnt != 0 then Halted(cnt, false) else After
  }

  function Again(s: State, pid: int): nat {
    if pid in s.h.again then s.h.again[pid] else 0
  }

  // ----- the outcome reported by run_target -----

  function Report(c: Config, status: int, timedOut: bool): Fault {
    if WIfSignaled(status) && timedOut && WTermSig(status) == SIGKILL then Timeout
    else if WIfSignaled(status) && WTermSig(status) == SIGUSR2 then Crash
    else if c.usesAsan && WExitStatus(status) == MSAN_ERROR then Timeout
    else NoFault
  }

  // ----- steps -----

  predicate Enabled(c: Config, s: State, a: Action) {
    match a
    case FHello => s.fpc.Hello? && (s.st != [] || s.spc.Dead?)
    case FHelloDisarm => s.fpc.HelloDisarm?
    case FStart => s.fpc.Start?
    case FWrite => s.fpc.Write?
    case FReadPid => s.fpc.ReadPid? && (s.st != [] || s.spc.Dead?)
    case FArm => s.fpc.Arm?
    case FReadStatus => s.fpc.ReadStatus? && (s.st != [] || s.spc.Dead?)
    case FClear => s.fpc.Clear?
    case FDisarm => s.fpc.Disarm?
    case FLatch => s.fpc.Latch?
    case Alarm => s.armed
    case SHello => s.spc.Boot?
    case SRead => s.spc.Read? && s.ctl != []
    case SReap => s.spc.Reap? && s.srvPid in s.procs && s.procs[s.srvPid].phase.Zombie?
    case SFork(pid) => s.spc.Resume? && !s.srvStopped && 0 < pid && pid !in s.h.started
    case SForkFail => s.spc.Resume? && !s.srvStopped
    case SCont => s.spc.Resume? && s.srvStopped
    case SWritePid => s.spc.WritePid?
    case SWait =>
      && s.spc.WaitChild? && s.srvPid in s.procs
      && var ph := s.procs[s.srvPid].phase;
         ph.Zombie? || (c.persistent && ph.Halted? && !ph.reported)
    case SWaitFail => (s.spc.Reap? || s.spc.WaitChild?) && s.srvPid !in s.procs
    case SWriteStatus => s.spc.WriteStatus?
    case CLoop(pid) =>
      && pid in s.procs
      && var ph := s.procs[pid].phase; ph.Fresh? || ph.Body? || (ph.After? && c.persistent)
    case CExit(pid, w) =>
      && pid in s.procs && !s.procs[pid].phase.Zombie? && !s.procs[pid].phase.Halted?
      && IsWait(w) && !w.StoppedBy?
    case CDie(pid) => pid in s.procs && s.procs[pid].killPending && !s.procs[pid].phase.Zombie?
  }

  function Kill(s: State, pid: int): State {
    s.(h := s.h.(killed := s.h.killed + {pid}),
       procs := if pid in s.procs then s.procs[pid := s.procs[pid].(killPending := true)] else s.procs)
  }

  /** `handle_timeout`; the interval timer is one-shot. */
  function HandleTimeout(s: State): State {
    var s := s.(armed := false);
    if s.childPid > 0 then Kill(s.(timedOut := true), s.childPid)
    else if s.childPid == -1 then
      s.(timedOut := true, spc := if s.spc.Dead? then s.spc else Dead(HandshakeTimeout))
    else s
  }

  function SetPhase(s: State, pid: int, ph: Phase): State
    requires pid in s.procs
  {
    s.(procs := s.procs[pid := s.procs[pid].(phase := ph)])
  }

  predicate FuzzerMoves(a: Action) {
    || a.FHello? || a.FHelloDisarm? || a.FStart? || a.FWrite? || a.FReadPid? || a.FArm?
    || a.FReadStatus? || a.FClear? || a.FDisarm? || a.FLatch?
  }

  predicate TargetMoves(a: Action) { a.CLoop? || a.CExit? || a.CDie? }

  function Apply(c: Config, s: State, a: Action): State
    requires Enabled(c, s, a)
  {
    if FuzzerMoves(a) then ApplyFuzzer(c, s, a)
    else if a.Alarm? then HandleTimeout(s)
    else if TargetMoves(a) then ApplyTarget(c, s, a)
    else ApplyServer(c, s, a)
  }

  function ApplyFuzzer(c: Config, s: State, a: Action): State
    requires Enabled(c, s, a) && FuzzerMoves(a)
  {
    match a
    case FHello =>
      if s.st == [] then s.(fpc := Aborted(ServerGone), armed := false)
      else s.(fpc := HelloDisarm, st := s.st[1..])
    case FHelloDisarm => s.(fpc := Start, armed := false)
    case FStart => s.(fpc := Write, timedOut := false)
    case FWrite =>
      if s.spc.Dead? then s.(fpc := Aborted(ServerGone))
      else s.(fpc := ReadPid, ctl := s.ctl + [s.prevTimedOut])
    case FReadPid =>
      if s.st == [] then s.(fpc := Aborted(ServerGone))
      else if s.st[0].word <= 0 then s.(fpc := Aborted(Misbehaving))
      else s.(fpc := Arm, childPid := s.st[0].word, st := s.st[1..])
    case FArm => s.(fpc := ReadStatus, armed := true)
    case FReadStatus =>
      if s.st == [] then s.(fpc := Aborted(ServerGone))
      else s.(fpc := Clear, status := s.st[0].word, st := s.st[1..], h := s.h.(statusOrigin := s.st[0].origin))
    case FClear => s.(fpc := Disarm, childPid := if WIfStopped(s.status) then s.childPid else 0)
    case FDisarm => s.(fpc := Latch, armed := false)
    case FLatch =>
      s.(fpc := Start, prevTimedOut := s.timedOut, fault := Report(c, s.status, s.timedOut),
         h := s.h.(rounds := s.h.rounds + 1))
  }

  function ApplyServer(c: Config, s: State, a: Action): State
    requires Enabled(c, s, a) && !FuzzerMoves(a) && !a.Alarm? && !TargetMoves(a)
  {
    match a
    case SHello => s.(spc := Read, st := s.st + [Msg(0, HelloWord)])
    case SRead =>
      var s := s.(wasKilled := s.ctl[0], ctl := s.ctl[1..]);
      if s.srvStopped && s.wasKilled then s.(spc := Reap, srvStopped := false) else s.(spc := Resume)
    case SReap => s.(spc := Resume, procs := s.procs - {s.srvPid})
    case SFork(pid) =>
      s.(spc := WritePid, srvPid := pid, procs := s.procs[pid := Proc(Fresh, false)],
         h := s.h.(started := s.h.started[pid := 1], again := s.h.again[pid := 0]))
    case SForkFail => s.(spc := Dead(ForkFailed))
    case SCont =>
      var s := s.(spc := WritePid, srvStopped := false,
                  h := if s.srvPid in s.h.started then
                         s.h.(started := s.h.started[s.srvPid := s.h.started[s.srvPid] + 1])
                       else s.h);
      if s.srvPid in s.procs && s.procs[s.srvPid].phase.Halted?
      then SetPhase(s, s.srvPid, Body(s.procs[s.srvPid].phase.cnt)) else s
    case SWritePid => s.(spc := WaitChild, st := s.st + [Msg(s.srvPid, PidOf(s.srvPid))])
    case SWait =>
      var ph := s.procs[s.srvPid].phase;
      if ph.Zombie? then
        s.(spc := WriteStatus, srvStatus := Encode(ph.exit), h := s.h.(srvWait := ph.exit), procs := s.procs - {s.srvPid},
           srvStopped := if WIfStopped(Encode(ph.exit)) then true else s.srvStopped)
      else
        SetPhase(s.(spc := WriteStatus, srvStatus := Encode(StoppedBy(SIGSTOP)), h := s.h.(srvWait := StoppedBy(SIGSTOP)),
                    srvStopped := true),
                 s.srvPid, ph.(reported := true))
    case SWaitFail => s.(spc := Dead(WaitFailed))
    case SWriteStatus => s.(spc := Read, st := s.st + [Msg(s.srvStatus, StatusOf(s.srvPid, s.h.srvWait))])
  }

  function ApplyTarget(c: Config, s: State, a: Action): State
    requires Enabled(c, s, a) && TargetMoves(a)
  {
    match a
    case CLoop(pid) =>
      var ph := s.procs[pid].phase;
      SetPhase(if ph.After? then s.(h := s.h.(again := s.h.again[pid := Again(s, pid) + 1])) else s, pid, PersistentLoop(c, ph))
    case CExit(pid, w) => SetPhase(s.(h := s.h.(fates := s.h.fates[pid := w])), pid, Zombie(w))
    case CDie(pid) => SetPhase(s.(h := s.h.(fates := s.h.fates[pid := Signaled(SIGKILL)])), pid, Zombie(Signaled(SIGKILL)))
  }

  // ----- runs -----

  /** The actions can be taken one after the other from s. */
  predicate Possible(c: Config, s: State, acts: seq<Action>)
    decreases |acts|
  {
    acts == [] || (Enabled(c, s, acts[0]) && Possible(c, Apply(c, s, acts[0]), acts[1..]))
  }

  function Exec(c: Config, s: State, acts: seq<Action>): State
    requires Possible(c, s, acts)
    decreases |acts|
  {
    if acts == [] then s else Exec(c, Apply(c, s, acts[0]), acts[1..])
  }

  // ----- the invariant -----

  /** Rounds a child can begin before `cycle_cnt` runs out: max_cnt, and 2^32 for max_cnt 0; and after
      it has called the loop again that many times: each time gives it 2^32 - 1 rounds more. */
  function RoundLimit(c: Config): nat {
    Remaining(c.maxCnt % 0x1_0000_0000)
  }

  function LimitAfter(c: Config, again: nat): nat {
    RoundLimit(c) + again * 0xffff_ffff
  }

  function Remaining(cnt: nat): nat {
    if cnt == 0 then 0x1_0000_0000 else cnt
  }

  ghost predicate CycleInv(c: Config, ph: Phase, begun: nat, again: nat) {
    match ph
    case Fresh => begun == 1 && again == 0
    case Body(cnt) => begun + Remaining(cnt) == LimitAfter(c, again) + 1 && (again > 0 ==> 0 < cnt <= 0xffff_ffff)
    case Halted(cnt, _) => c.persistent && 0 < cnt <= 0xffff_ffff && begun + cnt == LimitAfter(c, again)
    case After => 1 <= begun <= LimitAfter(c, again) && (c.persistent ==> begun == LimitAfter(c, again))
    case Zombie(w) => IsWait(w) && !w.StoppedBy?
  }

  /** The rounds a child has begun, and the calls it made after a 0. */
  ghost predicate BegunInv(c: Config, begun: nat, again: nat) {
    1 <= begun <= LimitAfter(c, again) && (again > 0 ==> LimitAfter(c, again - 1) <= begun)
  }

  /** The word says how a child ended, or that it stopped itself. */
  ghost predicate Tells(status: int, w: Wait) {
    IsWait(w) && status == Encode(w) && (w.StoppedBy? ==> w.sig == SIGSTOP)
  }

  /** What is in flight in the two pipes, for each place the two programs can be. */
  ghost predicate PipeInv(s: State) {
    var pidMsg := Msg(s.srvPid, PidOf(s.srvPid));
    match s.fpc
    case Hello =>
      && s.ctl == []
      && (s.spc.Boot? ==> s.st == []) && (s.spc.Read? ==> s.st == [Msg(0, HelloWord)])
      && (s.st == [] || s.st == [Msg(0, HelloWord)])
      && (s.spc.Boot? || s.spc.Read? || s.spc == Dead(HandshakeTimeout))
    case HelloDisarm => s.ctl == [] && s.st == [] && (s.spc.Read? || s.spc == Dead(HandshakeTimeout))
    case Start => s.ctl == [] && s.st == [] && (s.spc.Read? || s.spc.Dead?)
    case Write => s.ctl == [] && s.st == [] && (s.spc.Read? || s.spc.Dead?)
    case ReadPid =>
      match s.spc {
        case Boot => false
        case Read =>
          if s.ctl != [] then s.ctl == [s.prevTimedOut] && s.st == []
          else s.st == [pidMsg, Msg(s.srvStatus, StatusOf(s.srvPid, s.h.srvWait))]
        case WaitChild => s.ctl == [] && s.st == [pidMsg]
        case WriteStatus => s.ctl == [] && s.st == [pidMsg]
        case _ => s.ctl == [] && s.st == []
      }
    case Aborted(why) => s.ctl == [] && s.st == [] && s.spc.Dead? && why.ServerGone?
    case _ =>
      && s.ctl == []
      && if (s.fpc.Arm? || s.fpc.ReadStatus?) && !s.spc.Read? then
           (s.spc.WaitChild? || s.spc.WriteStatus?) && s.st == []
         else
           && s.spc.Read?
           && s.st == if s.fpc.Arm? || s.fpc.ReadStatus? then [Msg(s.srvStatus, StatusOf(s.srvPid, s.h.srvWait))] else []
  }

  /** The server's last child is known to be stopped or dead, and which. */
  ghost predicate ServerInv(c: Config, s: State) {
    && (s.spc.WriteStatus? || s.spc.Read? ==>
          (s.srvStopped <==> s.srvPid in s.procs))
    && (s.spc.Boot? || s.spc.Dead? ==> s.procs == map[] && !s.srvStopped)
    && (s.spc.Reap? ==> !s.srvStopped && s.srvPid in s.procs && s.srvPid in s.h.killed)
    && (s.spc.Resume? ==> (s.srvStopped <==> s.srvPid in s.procs))
    && (s.spc.WritePid? || s.spc.WaitChild? ==> !s.srvStopped && s.srvPid in s.procs)
    && (s.srvStopped && s.srvPid !in s.h.killed ==>
          s.procs[s.srvPid].phase.Halted? && s.procs[s.srvPid].phase.reported)
    && (s.spc.WritePid? || s.spc.WaitChild? ==>
          s.procs[s.srvPid].phase.Halted? ==> !s.procs[s.srvPid].phase.reported)
    && (s.spc.WriteStatus? || (s.spc.Read? && (s.st != [] && s.fpc != Hello)) ==>
          (WIfStopped(s.srvStatus) <==> s.srvStopped))
  }

  /** The fuzzer's timer, its idea of the child and the kills it has sent. */
  ghost predicate TimerInv(s: State) {
    && (s.armed ==> s.fpc.Hello? || s.fpc.HelloDisarm? || s.fpc.ReadStatus? || s.fpc.Clear? || s.fpc.Disarm?)
    && (s.fpc.Hello? || s.fpc.HelloDisarm? ==>
          s.childPid == -1 && s.h.started == map[] && !s.prevTimedOut && (s.armed || s.spc.Dead?))
    && (s.fpc.Arm? ==> s.childPid == s.srvPid && !s.timedOut)
    && (s.fpc.ReadStatus? || s.fpc.Clear? ==> s.childPid == s.srvPid)
    && (s.fpc.Arm? || s.fpc.ReadStatus? || s.fpc.Clear? || s.fpc.Disarm? || s.fpc.Latch? ==>
          (s.timedOut <==> s.srvPid in s.h.killed) && s.srvPid in s.h.started)
    && (s.fpc.Disarm? || s.fpc.Latch? ==>
          s.childPid == if s.srvStopped then s.srvPid else 0)
    && (s.fpc.ReadStatus? && !s.armed ==> s.timedOut)
    && (s.fpc.Clear? || s.fpc.Disarm? || s.fpc.Latch? ==>
          s.h.statusOrigin == StatusOf(s.srvPid, s.h.srvWait) && s.status == s.srvStatus
          && (WIfStopped(s.status) <==> s.srvStopped))
    && ((s.fpc.Start? || s.fpc.Write?) && s.srvStopped ==>
          (s.prevTimedOut <==> s.srvPid in s.h.killed))
    && (s.fpc.ReadPid? && s.spc.Read? && s.ctl != [] && s.srvStopped ==>
          (s.prevTimedOut <==> s.srvPid in s.h.killed))
    && (s.fpc.ReadPid? && s.spc.Resume? && s.srvStopped ==> s.srvPid !in s.h.killed)
    && (s.fpc.ReadPid? && (s.spc.WritePid? || s.spc.WaitChild? || s.spc.WriteStatus?
                           || (s.spc.Read? && s.ctl == [])) ==>
          s.srvPid !in s.h.killed && s.srvPid in s.h.started)
    && (s.fpc.Write? || s.fpc.ReadPid? ==> !s.timedOut)
  }

  ghost predicate Inv(c: Config, s: State) {
    && PipeInv(s) && ServerInv(c, s) && TimerInv(s) && KernelInv(c, s) && FateInv(s)
    && !(s.spc == Dead(WaitFailed))
    && (s.spc.Dead? ==> !(s.fpc.Arm? || s.fpc.ReadStatus? || s.fpc.Clear? || s.fpc.Disarm? || s.fpc.Latch?))
  }

  /** The one child, the rounds of all children, and status words. */
  ghost predicate KernelInv(c: Config, s: State) {
    && s.procs.Keys <= {s.srvPid}
    && s.h.killed <= s.h.started.Keys
    && (s.srvPid in s.procs ==>
          && s.srvPid in s.h.started
          && CycleInv(c, s.procs[s.srvPid].phase, s.h.started[s.srvPid], Again(s, s.srvPid))
          && (s.procs[s.srvPid].killPending <==> s.srvPid in s.h.killed))
    && (forall p :: p in s.h.started ==> 0 < p && BegunInv(c, s.h.started[p], Again(s, p)))
    && s.h.again.Keys <= s.h.started.Keys
    && Tells(s.srvStatus, s.h.srvWait)
    && (s.srvPid in s.procs && s.procs[s.srvPid].phase.Zombie? ==>
          s.srvPid in s.h.fates && s.h.fates[s.srvPid] == s.procs[s.srvPid].phase.exit)
  }

  /** The server's last wait is what became of its last child. */
  ghost predicate FateInv(s: State) {
    (s.spc.WriteStatus? || s.spc.Read?) && s.srvPid in s.h.started ==>
      && (s.h.srvWait.StoppedBy? <==> s.srvStopped)
      && (!s.srvStopped ==> s.srvPid in s.h.fates && s.h.fates[s.srvPid] == s.h.srvWait)
  }

  lemma KernelFrame(c: Config, s: State, t: State)
    requires KernelInv(c, s)
    requires t.procs == s.procs && t.srvPid == s.srvPid && t.h.killed == s.h.killed && t.h.started == s.h.started
    requires t.h.again == s.h.again && t.h.fates == s.h.fates && t.srvStatus == s.srvStatus && t.h.srvWait == s.h.srvWait
    ensures KernelInv(c, t) && s.procs.Keys <= {s.srvPid}
  {
    assert forall p :: Again(t, p) == Again(s, p);
  }

  lemma InvInit(c: Config)
    ensures Inv(c, Initial())
  {
  }

  lemma InvHandshake(c: Config, s: State, a: Action)
    requires Inv(c, s) && Enabled(c, s, a)
    requires a.FHello? || a.FHelloDisarm?
    ensures Inv(c, Apply(c, s, a))
  {
    hide ApplyServer, ApplyTarget;
    KernelFrame(c, s, Apply(c, s, a));
    hide KernelInv, WIfStopped, IsWait;
  }

  lemma InvAsk(c: Config, s: State, a: Action)
    requires Inv(c, s) && Enabled(c, s, a)
    requires a.FStart? || a.FWrite?
    ensures Inv(c, Apply(c, s, a))
  {
    hide ApplyServer, ApplyTarget;
    KernelFrame(c, s, Apply(c, s, a));
    hide KernelInv, WIfStopped, IsWait;
  }

  lemma InvRequest(c: Config, s: State, a: Action)
    requires Inv(c, s) && Enabled(c, s, a)
    requires a.SHello? || a.SRead?
    ensures Inv(c, Apply(c, s, a))
  {
    hide ApplyFuzzer, ApplyTarget;
    KernelFrame(c, s, Apply(c, s, a));
    hide KernelInv, WIfStopped, IsWait;
  }

  lemma InvLaunch(c: Config, s: State, a: Action)
    requires Inv(c, s) && Enabled(c, s, a)
    requires a.SFork? || a.SForkFail?
    ensures Inv(c, Apply(c, s, a))
  {
    hide ApplyFuzzer, ApplyTarget;
    hide Tells, WIfStopped;
  }

  lemma InvRelaunch(c: Config, s: State, a: Action)
    requires Inv(c, s) && Enabled(c, s, a)
    requires a.SReap? || a.SCont?
    ensures Inv(c, Apply(c, s, a))
  {
    hide ApplyFuzzer, ApplyTarget;
    hide Tells, WIfStopped;
  }

  lemma PidRelayKernel(c: Config, s: State, a: Action)
    requires KernelInv(c, s) && Enabled(c, s, a) && a.FReadPid?
    ensures KernelInv(c, Apply(c, s, a)) && s.procs.Keys <= {s.srvPid}
  {
    hide ApplyServer, ApplyTarget, KernelInv;
    KernelFrame(c, s, Apply(c, s, a));
  }

  lemma InvPidRelay(c: Config, s: State, a: Action)
    requires Inv(c, s) && Enabled(c, s, a) && a.FReadPid?
    ensures Inv(c, Apply(c, s, a))
  {
    hide ApplyServer, ApplyTarget;
    PidRelayKernel(c, s, a);
    KernelPids(c, s);
    hide KernelInv, IsWait, WIfStopped;
  }

  lemma InvArm(c: Config, s: State, a: Action)
    requires Inv(c, s) && Enabled(c, s, a) && a.FArm?
    ensures Inv(c, Apply(c, s, a))
  {
    hide ApplyServer, ApplyTarget;
    KernelFrame(c, s, Apply(c, s, a));
    hide KernelInv, IsWait, WIfStopped;
  }

  lemma InvStatusRead(c: Config, s: State, a: Action)
    requires Inv(c, s) && Enabled(c, s, a)
    requires a.FReadStatus?
    ensures Inv(c, Apply(c, s, a))
  {
    hide ApplyServer, ApplyTarget;
    KernelFrame(c, s, Apply(c, s, a));
    hide KernelInv, IsWait, WIfStopped;
  }

  lemma KernelPids(c: Config, s: State)
    requires KernelInv(c, s)
    ensures forall p :: p in s.h.started ==> 0 < p
  {
  }

  lemma InvStatusRelay(c: Config, s: State, a: Action)
    requires Inv(c, s) && Enabled(c, s, a)
    requires a.SWritePid? || a.SWaitFail? || a.SWriteStatus?
    ensures Inv(c, Apply(c, s, a))
  {
    hide ApplyFuzzer, ApplyTarget;
    KernelFrame(c, s, Apply(c, s, a));
    hide KernelInv, IsWait;
  }

  lemma InvWait(c: Config, s: State, a: Action)
    requires Inv(c, s) && Enabled(c, s, a) && a.SWait?
    ensures Inv(c, Apply(c, s, a))
  {
    hide Tells, BegunInv, WIfStopped, Encode, LimitAfter, ApplyFuzzer, ApplyTarget;
    var ph := s.procs[s.srvPid].phase;
    WordOf(if ph.Zombie? then ph.exit else StoppedBy(SIGSTOP));
  }

  lemma WordOf(w: Wait)
    requires IsWait(w) && (w.StoppedBy? ==> w.sig == SIGSTOP)
    ensures Tells(Encode(w), w) && (WIfStopped(Encode(w)) <==> w.StoppedBy?)
  {
    WaitWord(w);
    if w.StoppedBy? {
      assert Encode(w) == 19 * 256 + 127;
    }
  }

  lemma InvRoundEnd(c: Config, s: State, a: Action)
    requires Inv(c, s) && Enabled(c, s, a)
    requires a.FClear? || a.FDisarm? || a.FLatch?
    ensures Inv(c, Apply(c, s, a))
  {
    hide ApplyServer, ApplyTarget;
    KernelFrame(c, s, Apply(c, s, a));
    hide KernelInv, IsWait;
  }

  lemma InvAlarm(c: Config, s: State, a: Action)
    requires Inv(c, s) && Enabled(c, s, a)
    requires a.Alarm?
    ensures Inv(c, Apply(c, s, a))
  {
    hide ApplyFuzzer, ApplyServer, ApplyTarget;
    hide Tells, BegunInv, CycleInv;
    var s' := HandleTimeout(s);
    if s.childPid > 0 {
      assert s.childPid == s.srvPid && s.srvPid in s.h.started;
    }
    assert PipeInv(s');
  }

  lemma InvTarget(c: Config, s: State, a: Action)
    requires Inv(c, s) && Enabled(c, s, a)
    requires a.CExit? || a.CDie?
    ensures Inv(c, Apply(c, s, a))
  {
    hide ApplyFuzzer, ApplyServer;
    hide Tells, BegunInv;
  }

  lemma LoopKeepsKernel(c: Config, s: State, pid: int)
    requires KernelInv(c, s) && Enabled(c, s, CLoop(pid))
    ensures KernelInv(c, Apply(c, s, CLoop(pid)))
  {
    hide ApplyFuzzer, ApplyServer;
    hide Tells;
    var s', ph := Apply(c, s, CLoop(pid)), s.procs[pid].phase;
    assert pid == s.srvPid;
    LoopCounts(c, ph, s.h.started[pid], Again(s, pid));
    assert Again(s', pid) == if ph.After? then Again(s, pid) + 1 else Again(s, pid);
    assert forall p :: p in s.h.started && p != pid ==> Again(s', p) == Again(s, p);
  }

  /** One call keeps the account of rounds begun and rounds left. */
  lemma LoopCounts(c: Config, ph: Phase, begun: nat, again: nat)
    requires ph.Fresh? || ph.Body? || (ph.After? && c.persistent)
    requires CycleInv(c, ph, begun, again) && BegunInv(c, begun, again)
    ensures var now := if ph.After? then again + 1 else again;
      CycleInv(c, PersistentLoop(c, ph), begun, now) && BegunInv(c, begun, now)
  {
  }

  lemma InvLoop(c: Config, s: State, a: Action)
    requires Inv(c, s) && Enabled(c, s, a) && a.CLoop?
    ensures Inv(c, Apply(c, s, a))
  {
    hide ApplyFuzzer, ApplyServer;
    hide Tells, BegunInv, CycleInv, WIfStopped, KernelInv;
    KernelHasOne(c, s);
    LoopKeepsKernel(c, s, a.pid);
  }

  lemma KernelHasOne(c: Config, s: State)
    requires KernelInv(c, s)
    ensures s.procs.Keys <= {s.srvPid}
  {
  }

  lemma InvStep(c: Config, s: State, a: Action)
    requires Inv(c, s) && Enabled(c, s, a)
    ensures Inv(c, Apply(c, s, a))
  {
    hide Inv, Enabled, Apply;
    match a
    case FHello => InvHandshake(c, s, a);
    case FHelloDisarm => InvHandshake(c, s, a);
    case SHello => InvRequest(c, s, a);
    case FStart => InvAsk(c, s, a);
    case FWrite => InvAsk(c, s, a);
    case SRead => InvRequest(c, s, a);
    case SReap => InvRelaunch(c, s, a);
    case SFork(_) => InvLaunch(c, s, a);
    case SForkFail => InvLaunch(c, s, a);
    case SCont => InvRelaunch(c, s, a);
    case SWritePid => InvStatusRelay(c, s, a);
    case FReadPid => InvPidRelay(c, s, a);
    case FArm => InvArm(c, s, a);
    case SWait => InvWait(c, s, a);
    case SWaitFail => InvStatusRelay(c, s, a);
    case SWriteStatus => InvStatusRelay(c, s, a);
    case FReadStatus => InvStatusRead(c, s, a);
    case FClear => InvRoundEnd(c, s, a);
    case FDisarm => InvRoundEnd(c, s, a);
    case FLatch => InvRoundEnd(c, s, a);
    case Alarm => InvAlarm(c, s, a);
    case CLoop(_) => InvLoop(c, s, a);
    case CExit(_, _) => InvTarget(c, s, a);
    case CDie(_) => InvTarget(c, s, a);
  }

  /** The invariant holds after every possible run. */
  lemma {:induction false} InvRun(c: Config, s: State, acts: seq<Action>)
    requires Inv(c, s) && Possible(c, s, acts)
    ensures Inv(c, Exec(c, s, acts))
    decreases |acts|
  {
    if acts != [] {
      InvStep(c, s, acts[0]);
      InvRun(c, Apply(c, s, acts[0]), acts[1..]);
    }
  }

  ghost predicate Reachable(c: Config, s: State) {
    exists acts :: Possible(c, Initial(), acts) && Exec(c, Initial(), acts) == s
  }

  lemma ReachableInv(c: Config, s: State)
    requires Reachable(c, s)
    ensures Inv(c, s)
  {
    var acts :| Possible(c, Initial(), acts) && Exec(c, Initial(), acts) == s;
    InvInit(c);
    InvRun(c, Initial(), acts);
  }

  // ----- safety, over every run -----

  /** The control pipe never holds more than one request, and the status pipe only part of
      one round's reply in order, all of it about one child; never both at once. */
  lemma PipesHoldOneRound(c: Config, s: State)
    requires Reachable(c, s)
    ensures |s.ctl| <= 1 && (s.ctl == [] || s.st == [])
    ensures s.st != [] && !s.fpc.Hello? ==>
              exists word, wait :: var reply := [Msg(s.srvPid, PidOf(s.srvPid)), Msg(word, StatusOf(s.srvPid, wait))];
                s.st <= reply || s.st == reply[1..]
  {
    ReachableInv(c, s);
    if s.st != [] && !s.fpc.Hello? {
      var word := s.srvStatus;
      var reply := [Msg(s.srvPid, PidOf(s.srvPid)), Msg(word, StatusOf(s.srvPid, s.h.srvWait))];
      assert reply[..1] == [reply[0]] && reply[1..] == [reply[1]];
      assert s.st <= reply || s.st == reply[1..];
    }
  }

  /** The status the fuzzer reads in a round is that of the child whose pid it read in the
      round, and no word is ever taken for something else. */
  lemma StatusBelongsToPid(c: Config, s: State)
    requires Reachable(c, s)
    ensures s.fpc.Hello? && s.st != [] ==> s.st[0].origin == HelloWord
    ensures s.fpc.ReadPid? && s.st != [] ==> s.st[0] == Msg(s.srvPid, PidOf(s.srvPid)) && s.srvPid > 0
    ensures s.fpc.ReadStatus? && s.st != [] ==> s.st[0].origin == StatusOf(s.childPid, s.h.srvWait)
    ensures s.fpc.Clear? ==> s.h.statusOrigin == StatusOf(s.childPid, s.h.srvWait)
  {
    ReachableInv(c, s);
  }

  /** SIGCONT only ever goes to a child that is stopped, was reported as stopped, and has
      not been killed, however the kill, the stop and the relay interleave. */
  lemma ContOnlyToLiveStoppedChild(c: Config, s: State)
    requires Reachable(c, s) && Enabled(c, s, SCont)
    ensures s.srvPid !in s.h.killed && s.srvPid in s.procs
    ensures s.procs[s.srvPid].phase.Halted? && s.procs[s.srvPid].phase.reported
  {
    ReachableInv(c, s);
  }

  /** At most one child is ever unreaped, and none when another is forked. */
  lemma OneUnreapedChild(c: Config, s: State, pid: int)
    requires Reachable(c, s)
    ensures |s.procs| <= 1
    ensures Enabled(c, s, SFork(pid)) ==> s.procs == map[]
  {
    ReachableInv(c, s);
    var one := {s.srvPid};
    if s.srvPid in s.procs {
      assert s.procs.Keys == one;
    } else {
      assert s.procs.Keys == {};
    }
    assert |s.procs| == |s.procs.Keys|;
  }

  /** A child begins at most max_cnt rounds (2^32 if the u32 max_cnt is 0), unless it calls the loop
      again after the loop has returned 0; each such call allows 2^32 - 1 more. */
  lemma ChildServesAtMostMaxCnt(c: Config, s: State, pid: int)
    requires Reachable(c, s) && pid in s.h.started
    requires 0 <= c.maxCnt < 0x1_0000_0000
    ensures s.h.started[pid] <= (if c.maxCnt == 0 then 0x1_0000_0000 else c.maxCnt) + Again(s, pid) * 0xffff_ffff
    ensures Again(s, pid) > 0 ==> s.h.started[pid] >= if c.maxCnt == 0 then 0x1_0000_0000 else c.maxCnt
  {
    ReachableInv(c, s);
    assert c.maxCnt % 0x1_0000_0000 == c.maxCnt;
    if Again(s, pid) > 0 {
      assert RoundLimit(c) <= LimitAfter(c, Again(s, pid) - 1);
    }
  }

  /** A child that is running its target code is past its max_cnt rounds exactly if it has called the
      loop again after a 0. */
  lemma PastMaxCntIff(c: Config, s: State, pid: int)
    requires Reachable(c, s) && pid in s.procs && s.procs[pid].phase.Body?
    ensures pid in s.h.started
    ensures s.h.started[pid] > RoundLimit(c) <==> Again(s, pid) > 0
  {
    ReachableInv(c, s);
    assert pid == s.srvPid;
    var again := Again(s, pid);
    if again > 0 {
      assert LimitAfter(c, again) >= RoundLimit(c) + 0xffff_ffff;
    }
  }

  // ----- a child that calls the loop again -----

  lemma {:induction false} RunOn(c: Config, s: State, acts: seq<Action>, a: Action)
    requires Possible(c, s, acts) && Enabled(c, Exec(c, s, acts), a)
    ensures Possible(c, s, acts + [a]) && Exec(c, s, acts + [a]) == Apply(c, Exec(c, s, acts), a)
    decreases |acts|
  {
    if acts == [] {
      assert (acts + [a])[1..] == [];
    } else {
      assert (acts + [a])[1..] == acts[1..] + [a];
      RunOn(c, Apply(c, s, acts[0]), acts[1..], a);
    }
  }

  lemma NextIsReachable(c: Config, s: State, a: Action)
    requires Reachable(c, s) && Enabled(c, s, a)
    ensures Reachable(c, Apply(c, s, a))
  {
    var acts :| Possible(c, Initial(), acts) && Exec(c, Initial(), acts) == s;
    RunOn(c, Initial(), acts, a);
  }

  /** The fuzzer and the server are waiting for a child to which the loop has returned 0. */
  ghost predicate LoopReturned(s: State) {
    s.spc.WaitChild? && s.fpc.ReadStatus? && s.srvPid in s.procs && s.procs[s.srvPid] == Proc(After, false)
  }

  lemma LoopReturnedFacts(c: Config, s: State)
    requires Reachable(c, s) && c.persistent && LoopReturned(s)
    ensures !s.srvStopped && s.st == [] && s.ctl == [] && !s.timedOut && s.procs.Keys == {s.srvPid}
    ensures s.srvPid in s.h.started && s.h.started[s.srvPid] == LimitAfter(c, Again(s, s.srvPid))
  {
    ReachableInv(c, s);
  }

  /** The child stops itself and the status is relayed. */
  lemma CallAgain(c: Config, s: State) returns (t: State)
    requires Reachable(c, s) && c.persistent && LoopReturned(s) && !s.srvStopped
    requires s.procs.Keys == {s.srvPid} && s.st == [] && s.ctl == []
    ensures Reachable(c, t) && t.spc.Read? && t.fpc.ReadStatus? && t.srvStopped && t.srvPid == s.srvPid
    ensures t.h.started == s.h.started && t.procs == map[s.srvPid := Proc(Halted(0xffff_ffff, true), false)]
    ensures t.st == [Msg(t.srvStatus, StatusOf(s.srvPid, t.h.srvWait))] && t.ctl == [] && t.timedOut == s.timedOut
  {
    hide Reachable, Tells;
    t := Apply(c, s, CLoop(s.srvPid));
    NextIsReachable(c, s, CLoop(s.srvPid));
    NextIsReachable(c, t, SWait);
    t := Apply(c, t, SWait);
    NextIsReachable(c, t, SWriteStatus);
    t := Apply(c, t, SWriteStatus);
  }

  /** The fuzzer ends the round and asks for the next one. */
  lemma AskAgain(c: Config, s: State) returns (t: State)
    requires Reachable(c, s) && s.spc.Read? && s.fpc.ReadStatus? && s.st != [] && s.ctl == [] && !s.timedOut && s.srvStopped
    ensures Reachable(c, t) && t.spc.Read? && t.ctl == [false] && t.srvStopped
    ensures t.srvPid == s.srvPid && t.procs == s.procs && t.h.started == s.h.started
  {
    hide Reachable;
    NextIsReachable(c, s, FReadStatus);
    t := Apply(c, s, FReadStatus);
    NextIsReachable(c, t, FClear);
    t := Apply(c, t, FClear);
    NextIsReachable(c, t, FDisarm);
    t := Apply(c, t, FDisarm);
    NextIsReachable(c, t, FLatch);
    t := Apply(c, t, FLatch);
    NextIsReachable(c, t, FStart);
    t := Apply(c, t, FStart);
    NextIsReachable(c, t, FWrite);
    t := Apply(c, t, FWrite);
  }

  /** A child to which the loop has returned 0 and that is not killed can call it again and begin one
      round beyond its limit. */
  lemma OneRoundMore(c: Config, s: State) returns (t: State)
    requires Reachable(c, s) && c.persistent && LoopReturned(s)
    ensures Reachable(c, t) && s.srvPid in t.h.started
    ensures t.h.started[s.srvPid] == LimitAfter(c, Again(s, s.srvPid)) + 1
  {
    hide Reachable;
    LoopReturnedFacts(c, s);
    t := CallAgain(c, s);
    t := AskAgain(c, t);
    NextIsReachable(c, t, SRead);
    t := Apply(c, t, SRead);
    NextIsReachable(c, t, SCont);
    t := Apply(c, t, SCont);
  }

  /** A run with max_cnt 1 in which one child begins two rounds. */
  lemma TwoRoundsOfOne(c: Config) returns (t: State, pid: int)
    requires c == Config(true, 1, false)
    ensures Reachable(c, t) && pid in t.h.started && t.h.started[pid] == 2
  {
    hide Reachable, Initial;
    pid := 1;
    t := Greeted(c);
    t := Forked(c, t, pid);
    NextIsReachable(c, t, CLoop(pid));
    t := Apply(c, t, CLoop(pid));
    NextIsReachable(c, t, CLoop(pid));
    t := Apply(c, t, CLoop(pid));
    t := OneRoundMore(c, t);
  }

  lemma Greeted(c: Config) returns (t: State)
    ensures Reachable(c, t) && t.fpc.Write? && t.spc.Read? && t.st == [] && t.ctl == [] && !t.srvStopped
    ensures t.h.started == map[] && t.procs == map[] && t.h.again == map[] && !t.timedOut
  {
    assert Possible(c, Initial(), []) && Exec(c, Initial(), []) == Initial();
    NextIsReachable(c, Initial(), SHello);
    t := Apply(c, Initial(), SHello);
    NextIsReachable(c, t, FHello);
    t := Apply(c, t, FHello);
    NextIsReachable(c, t, FHelloDisarm);
    t := Apply(c, t, FHelloDisarm);
    NextIsReachable(c, t, FStart);
    t := Apply(c, t, FStart);
  }

  lemma Forked(c: Config, s: State, pid: int) returns (t: State)
    requires Reachable(c, s) && s.fpc.Write? && s.spc.Read? && s.st == [] && s.ctl == [] && !s.srvStopped
    requires s.h.started == map[] && s.procs == map[] && s.h.again == map[] && !s.timedOut && 0 < pid
    ensures Reachable(c, t) && t.fpc.ReadStatus? && t.spc.WaitChild? && t.srvPid == pid
    ensures t.procs == map[pid := Proc(Fresh, false)] && t.h.started == map[pid := 1] && t.h.again == map[pid := 0]
  {
    hide Reachable;
    NextIsReachable(c, s, FWrite);
    t := Apply(c, s, FWrite);
    NextIsReachable(c, t, SRead);
    t := Apply(c, t, SRead);
    NextIsReachable(c, t, SFork(pid));
    t := Apply(c, t, SFork(pid));
    NextIsReachable(c, t, SWritePid);
    t := Apply(c, t, SWritePid);
    NextIsReachable(c, t, FReadPid);
    t := Apply(c, t, FReadPid);
    NextIsReachable(c, t, FArm);
    t := Apply(c, t, FArm);
  }

  /** The server never dies of a failed waitpid and the fuzzer never reads a bad pid: it gives
      up only because the handshake timed out or a fork failed. */
  lemma AbortOnlyWhenServerDied(c: Config, s: State)
    requires Reachable(c, s)
    ensures s.spc.Dead? ==> s.spc.cause.HandshakeTimeout? || s.spc.cause.ForkFailed?
    ensures s.fpc.Aborted? ==> s.fpc.why.ServerGone? && s.spc.Dead?
  {
    ReachableInv(c, s);
  }

  /** What the round's child did is what the status word tells: how it died if it has been reaped, and
      otherwise that it stopped itself. */
  lemma StatusIsTheChilds(c: Config, s: State)
    requires Reachable(c, s) && s.fpc.Latch?
    ensures s.h.statusOrigin.StatusOf? && s.h.statusOrigin.pid == s.srvPid
    ensures Tells(s.status, s.h.statusOrigin.wait)
    ensures if s.srvPid in s.procs then s.h.statusOrigin.wait == StoppedBy(SIGSTOP)
            else s.srvPid in s.h.fates && s.h.statusOrigin.wait == s.h.fates[s.srvPid]
  {
    ReachableInv(c, s);
  }

  /** What `run_target` answers, from what the child of the round did.  A crash: SIGUSR2 ended it.  A
      timeout: this round's alarm killed it and SIGKILL is what it died of, or, for an ASAN target, it
      exited with MSAN's error code.  Everything else is no fault: it stopped itself, exited otherwise
      or died of another signal. */
  lemma ReportMeaning(c: Config, s: State)
    requires Reachable(c, s) && s.fpc.Latch?
    ensures s.h.statusOrigin.StatusOf?
    ensures var w, fault := s.h.statusOrigin.wait, Apply(c, s, FLatch).fault;
      && (fault == Crash <==> w == Signaled(SIGUSR2))
      && (fault == Timeout <==> (w == Signaled(SIGKILL) && s.srvPid in s.h.killed) || (c.usesAsan && w == Exited(MSAN_ERROR)))
      && (fault == NoFault <==>
            || w.StoppedBy?
            || (w.Exited? && !(c.usesAsan && w.code == MSAN_ERROR))
            || (w.Signaled? && w.sig != SIGUSR2 && !(w.sig == SIGKILL && s.srvPid in s.h.killed)))
  {
    StatusIsTheChilds(c, s);
    WaitWord(s.h.statusOrigin.wait);
    ReachableInv(c, s);
    hide PipeInv, ServerInv, KernelInv, Encode, IsWait;
    if s.h.statusOrigin.wait.StoppedBy? {
      StopWord();
    }
  }

  lemma StopWord()
    ensures Encode(StoppedBy(SIGSTOP)) == 4991 && WExitStatus(4991) == 19
  {
  }

  /** A round is reported as a timeout exactly when this round's alarm killed the round's child and
      SIGKILL is what it died of, or, for an ASAN target, when it exited with MSAN's error code; such
      a child has been reaped.  A child killed too late to die in the round is remembered for the
      next request. */
  lemma TimeoutIsThisRoundsKill(c: Config, s: State)
    requires Reachable(c, s) && s.fpc.Latch?
    ensures Apply(c, s, FLatch).fault == Timeout <==>
              || (s.srvPid in s.h.killed && WIfSignaled(s.status) && WTermSig(s.status) == SIGKILL)
              || (c.usesAsan && WExitStatus(s.status) == MSAN_ERROR)
    ensures Apply(c, s, FLatch).fault == Timeout ==> s.srvPid !in s.procs
    ensures s.srvPid in s.h.killed && s.srvPid in s.procs ==> Apply(c, s, FLatch).prevTimedOut
  {
    ReachableInv(c, s);
  }
}
