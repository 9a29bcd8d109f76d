/** The handshake between the trigger thread and the thread that starts and stops it, in every interleaving. */
module Ptrig {

  const RETRIES: nat := 20

  /** Where the trigger thread is. */
  datatype ThreadPc =
    | Lock          // before taking the mutex at the top of the loop
    | Test          // mutex held, before testing the requested state
    | Report        // mutex held, not to run: writing statistics
    | SetInactive   // mutex held, before reporting itself inactive and waiting
    | Wait          // waiting on the condition variable
    | Woken         // woken, possibly spuriously, before retaking the mutex
    | SetActive     // mutex held, to run, before reporting itself active
    | Unlock        // mutex held, reported active
    | Prepare       // reading the clock and the active chain
    | InTrigger     // inside the chain trigger
    | After         // the trigger has returned, before the autostop check
    | SelfLock      // autostop reached zero, before taking the mutex
    | SelfStop      // mutex held, before requesting the stop
    | SelfDone      // the stop is requested, before looping
    | Sleep         // sleeping until the next period
    | Exited        // a clock call failed

  /** Where the controlling thread is. */
  datatype ControlPc = Idle | Config | StartLock | StartSet | StopLock | StopSet | Poll(left: nat)

  datatype Owner = Nobody | Thread | Control

  /**
    * The shared fields and both program counters. The last six fields record the history: triggers begun so far, how
    * often and after which trigger the thread asked itself to stop, whether a stop was requested since the last start,
    * how many triggers began since then, and whether a stop saw the thread inactive since the last start.
    */
  datatype State = State(
    mutex: Owner,
    active: bool,          // state: what is requested
    running: bool,         // thread_state: what the thread reports
    autostop: int,
    tpc: ThreadPc,
    cpc: ControlPc,
    begun: nat,
    selfStops: nat,
    selfStopAt: nat,
    stopped: bool,
    late: nat,
    quiet: bool)

  datatype Action =
    | ThreadStep(ok: bool)
    | CallStart
    | ConfigDone(ok: bool)
    | StartTake
    | StartRelease
    | CallStop
    | StopTake
    | StopRelease
    | PollOnce

  function Initial(autostop: int): State {
    State(Nobody, false, false, autostop, Lock, Idle, 0, 0, 0, true, 0, true)
  }

  predicate Enabled(s: State, a: Action) {
    match a
    case ThreadStep(_) =>
      (s.tpc.Lock? || s.tpc.Woken? || s.tpc.SelfLock? ==> s.mutex == Nobody) && s.tpc != Exited
    case CallStart => s.cpc.Idle?
    case ConfigDone(_) => s.cpc.Config?
    case StartTake => s.cpc.StartLock? && s.mutex == Nobody
    case StartRelease => s.cpc.StartSet?
    case CallStop => s.cpc.Idle?
    case StopTake => s.cpc.StopLock? && s.mutex == Nobody
    case StopRelease => s.cpc.StopSet?
    case PollOnce => s.cpc.Poll?
  }

  function Step(s: State, a: Action): State
    requires Enabled(s, a)
  {
    match a
    case ThreadStep(ok) => StepThread(s, ok)
    case CallStart => s.(cpc := Config)
    case ConfigDone(ok) => s.(cpc := if ok then StartLock else Idle)
    case StartTake => s.(cpc := StartSet, mutex := Control)
    case StartRelease =>
      s.(cpc := Idle, mutex := Nobody, active := true, stopped := false, late := 0, quiet := false)
    case CallStop => s.(cpc := StopLock)
    case StopTake => s.(cpc := StopSet, mutex := Control)
    case StopRelease => s.(cpc := Poll(RETRIES), mutex := Nobody, active := false, stopped := true,
                           late := if s.stopped then s.late else 0)
    case PollOnce =>
      if !s.running then s.(cpc := Idle, quiet := true)
      else if s.cpc.left > 0 then s.(cpc := Poll(s.cpc.left - 1))
      else s.(cpc := Idle)
  }

  function StepThread(s: State, ok: bool): State
    requires Enabled(s, ThreadStep(ok))
  {
    match s.tpc
    case Lock => s.(tpc := Test, mutex := Thread)
    case Test => s.(tpc := if s.active then SetActive else Report)
    case Report => s.(tpc := SetInactive)
    case SetInactive => s.(tpc := Wait, running := false, mutex := Nobody)
    case Wait => s.(tpc := Woken)
    case Woken => s.(tpc := Test, mutex := Thread)
    case SetActive => s.(tpc := Unlock, running := true)
    case Unlock => s.(tpc := Prepare, mutex := Nobody)
    case Prepare =>
      if ok then s.(tpc := InTrigger, begun := s.begun + 1, late := if s.stopped then s.late + 1 else 0)
      else s.(tpc := Exited)
    case InTrigger => s.(tpc := After)
    case After =>
      if s.autostop > 0 then
        if s.autostop == 1 then s.(autostop := 0, tpc := SelfLock, selfStops := s.selfStops + 1, selfStopAt := s.begun)
        else s.(autostop := s.autostop - 1, tpc := Sleep)
      else s.(tpc := Sleep)
    case SelfLock => s.(tpc := SelfStop, mutex := Thread)
    case SelfStop => s.(tpc := SelfDone, mutex := Nobody, active := false, stopped := true,
                        late := if s.stopped then s.late else 0)
    case SelfDone => s.(tpc := Lock)
    case Sleep => s.(tpc := if ok then Lock else Exited)
    case Exited => s
  }

  predicate HoldsMutex(pc: ThreadPc) {
    pc.Test? || pc.Report? || pc.SetInactive? || pc.SetActive? || pc.Unlock? || pc.SelfStop?
  }

  predicate MidTrigger(pc: ThreadPc) {
    pc.InTrigger? || pc.After?
  }

  /** The part of the loop in which the thread triggers or may go on to trigger without asking again. */
  predicate Committed(pc: ThreadPc) {
    pc.Unlock? || pc.Prepare? || MidTrigger(pc) || pc.SelfLock? || pc.SelfStop? || pc.SelfDone? || pc.Sleep?
  }

  predicate Inv(s: State) {
    && (s.mutex == Thread <==> HoldsMutex(s.tpc))
    && (s.mutex == Control <==> s.cpc.StartSet? || s.cpc.StopSet?)
    && (Committed(s.tpc) ==> s.running)
    && (s.tpc == SetActive ==> s.active)
    && (s.tpc.Report? || s.tpc.SetInactive? ==> !s.active)
    && (s.stopped <==> !s.active)
    && (s.cpc.Poll? ==> !s.active)
    && (s.quiet ==> !s.active && !s.running)
    && (s.stopped ==> s.late + (if s.tpc.Unlock? || s.tpc.Prepare? then 1 else 0) <= 1)
  }

  /** Bookkeeping of the autostop counter, which started at k. */
  predicate AutostopInv(s: State, k: int) {
    var done := if MidTrigger(s.tpc) then s.begun - 1 else s.begun;
    && (MidTrigger(s.tpc) ==> s.begun > 0)
    && s.autostop == (if k <= 0 then k else if done < k then k - done else 0)
    && s.selfStops == (if 0 < k <= done then 1 else 0)
    && (s.selfStops > 0 ==> s.selfStopAt == k)
  }

  lemma ThreadKeepsInv(s: State, ok: bool)
    requires Inv(s) && Enabled(s, ThreadStep(ok))
    ensures Inv(StepThread(s, ok))
  {
  }

  lemma AutostopCheck(s: State, k: int)
    requires AutostopInv(s, k) && s.tpc.After?
    ensures AutostopInv(StepThread(s, true), k)
  {
  }

  /** Nothing but the check after a trigger concerns the autostop counter. */
  lemma AutostopFrame(s: State, ok: bool)
    requires Enabled(s, ThreadStep(ok)) && !s.tpc.After?
    ensures var t := StepThread(s, ok);
            t.autostop == s.autostop && t.selfStops == s.selfStops && t.selfStopAt == s.selfStopAt
  {
  }

  /** Triggers begin in one place only. */
  lemma BegunFrame(s: State, ok: bool)
    requires Enabled(s, ThreadStep(ok)) && !s.tpc.After?
    ensures var t := StepThread(s, ok);
            if s.tpc.Prepare? && ok then t.tpc.InTrigger? && t.begun == s.begun + 1
            else t.begun == s.begun && (MidTrigger(t.tpc) <==> MidTrigger(s.tpc))
  {
  }

  lemma ThreadKeepsAutostop(s: State, ok: bool, k: int)
    requires AutostopInv(s, k) && Enabled(s, ThreadStep(ok))
    ensures AutostopInv(StepThread(s, ok), k)
  {
    if s.tpc.After? {
      AutostopCheck(s, k);
      assert StepThread(s, ok) == StepThread(s, true);
    } else {
      hide StepThread;
      AutostopFrame(s, ok);
      BegunFrame(s, ok);
    }
  }

  lemma StepKeepsInv(s: State, a: Action, k: int)
    requires Inv(s) && AutostopInv(s, k) && Enabled(s, a)
    ensures Inv(Step(s, a)) && AutostopInv(Step(s, a), k)
  {
    hide StepThread;
    if a.ThreadStep? {
      ThreadKeepsInv(s, a.ok);
      ThreadKeepsAutostop(s, a.ok, k);
    }
  }

  predicate Run(s: State, acts: seq<Action>, s': State)
    decreases |acts|
  {
    if acts == [] then s == s' else Enabled(s, acts[0]) && Run(Step(s, acts[0]), acts[1..], s')
  }

  lemma {:induction false} RunKeepsInv(s: State, acts: seq<Action>, s': State, k: int)
    requires Inv(s) && AutostopInv(s, k) && Run(s, acts, s')
    ensures Inv(s') && AutostopInv(s', k)
    decreases |acts|
  {
    if acts != [] {
      StepKeepsInv(s, acts[0], k);
      RunKeepsInv(Step(s, acts[0]), acts[1..], s', k);
    }
  }

  ghost predicate Reachable(k: int, s: State) {
    exists acts :: Run(Initial(k), acts, s)
  }

  lemma ReachableInv(k: int, s: State)
    requires Reachable(k, s)
    ensures Inv(s) && AutostopInv(s, k)
  {
    var acts :| Run(Initial(k), acts, s);
    RunKeepsInv(Initial(k), acts, s, k);
  }

  /** Once quiet, the thread does not come near a trigger until the next start takes effect. */
  lemma {:induction false} QuietRun(s: State, acts: seq<Action>, s': State, k: int)
    requires Inv(s) && AutostopInv(s, k) && s.quiet && Run(s, acts, s')
    requires StartRelease !in acts
    ensures s'.quiet && s'.begun == s.begun && s'.tpc != InTrigger
    decreases |acts|
  {
    if acts != [] {
      StepKeepsInv(s, acts[0], k);
      QuietRun(Step(s, acts[0]), acts[1..], s', k);
    }
  }

  /**
    * In every interleaving: when a stop returns early, no trigger is in progress, and none begins in any continuation
    * that does not start the block again.
    */
  lemma EarlyStopIsFinal(k: int, s: State, acts: seq<Action>, s': State)
    requires Reachable(k, s)
    requires Enabled(s, PollOnce) && !s.running
    requires StartRelease !in acts && Run(Step(s, PollOnce), acts, s')
    ensures s.tpc != InTrigger && s'.tpc != InTrigger && s'.begun == s.begun
    ensures Step(s, PollOnce).cpc == Idle
  {
    ReachableInv(k, s);
    StepKeepsInv(s, PollOnce, k);
    QuietRun(Step(s, PollOnce), acts, s', k);
  }

  /** With autostop k > 0 the thread asks itself to stop exactly once, right after its k-th trigger; otherwise never. */
  lemma AutostopIsExact(k: int, s: State)
    requires Reachable(k, s)
    ensures s.selfStops == (if 0 < k <= s.begun - (if MidTrigger(s.tpc) then 1 else 0) then 1 else 0)
    ensures s.selfStops > 0 ==> s.selfStopAt == k
    ensures s.tpc == After && s.begun == k ==> Step(s, ThreadStep(true)).tpc == SelfLock
  {
    ReachableInv(k, s);
  }

  /** After a stop was requested, by either thread, at most one more trigger begins before the next start. */
  lemma StopIsPrompt(k: int, s: State)
    requires Reachable(k, s) && s.stopped
    ensures s.late <= 1
  {
    ReachableInv(k, s);
  }

  /** Where the thread works on the chains that a start reconfigures without the mutex. */
  predicate UsesChains(pc: ThreadPc) {
    pc.Report? || pc.InTrigger?
  }

  /** No start is in effect, and the thread is not between finding one and the end of a trigger. */
  predicate Calm(s: State) {
    !s.active && !s.tpc.SetActive? && !s.tpc.Unlock? && !s.tpc.Prepare? && !MidTrigger(s.tpc)
  }

  /** Both ways to stop end calm: an early return of stop, and the stop that the thread requests of itself. */
  lemma StopsAreCalm(k: int, s: State)
    requires Reachable(k, s)
    ensures s.quiet ==> Calm(s) && !Committed(s.tpc)
    ensures s.tpc == SelfStop && Enabled(s, ThreadStep(true)) ==> Calm(Step(s, ThreadStep(true)))
  {
    ReachableInv(k, s);
  }

  lemma CalmStep(s: State, a: Action)
    requires Calm(s) && Enabled(s, a) && a != StartRelease
    ensures Calm(Step(s, a)) && Step(s, a).begun == s.begun
  {
    hide StepThread;
    if a.ThreadStep? {
      CalmThread(s, a.ok);
    }
  }

  lemma CalmThread(s: State, ok: bool)
    requires Calm(s) && Enabled(s, ThreadStep(ok))
    ensures Calm(StepThread(s, ok)) && StepThread(s, ok).begun == s.begun
  {
  }

  /** From then on no trigger is in progress and none begins, until the next start takes effect. */
  lemma {:induction false} CalmLasts(s: State, acts: seq<Action>, s': State)
    requires Calm(s) && Run(s, acts, s') && StartRelease !in acts
    ensures Calm(s') && s'.begun == s.begun && s'.tpc != InTrigger
    decreases |acts|
  {
    if acts != [] {
      CalmStep(s, acts[0]);
      hide Calm, Step, Enabled;
      CalmLasts(Step(s, acts[0]), acts[1..], s');
    }
  }

  /**
    * So the next start reconfigures the chains with no trigger in progress; the one thing that the thread may do with
    * them then is to write out their statistics.
    */
  lemma OnlyReportsOverlap(s: State, acts: seq<Action>, s': State)
    requires Calm(s) && Run(s, acts, s') && StartRelease !in acts
    ensures UsesChains(s'.tpc) ==> s'.tpc == Report
  {
    CalmLasts(s, acts, s');
  }

  /** And it can: the first start may reconfigure while the thread is in its first report. */
  lemma ReportsDoOverlap(k: int)
    ensures exists s :: Reachable(k, s) && s.quiet && Calm(s) && s.cpc == Config && s.tpc == Report
  {
    var acts := [ThreadStep(true), ThreadStep(true), CallStart];
    var s0 := Initial(k);
    var s1 := Step(s0, acts[0]);
    var s2 := Step(s1, acts[1]);
    var s3 := Step(s2, acts[2]);
    assert acts[1..][1..] == acts[2..] && acts[2..][1..] == [];
    assert Run(s2, acts[2..], s3);
    assert Run(s1, acts[1..], s3);
    assert Run(s0, acts, s3);
  }

  // What a start and a stop achieve

  /** A start that goes through, from any state in which the control thread may call it, requests triggers. */
  lemma StartActivates(s: State)
    requires s.cpc == Idle && s.mutex == Nobody
    ensures exists s' :: Run(s, [CallStart, ConfigDone(true), StartTake, StartRelease], s')
                         && s'.active && s'.cpc == Idle && s'.tpc == s.tpc && s'.mutex == Nobody
  {
    var acts := [CallStart, ConfigDone(true), StartTake, StartRelease];
    var s1 := Step(s, acts[0]);
    var s2 := Step(s1, acts[1]);
    var s3 := Step(s2, acts[2]);
    var s4 := Step(s3, acts[3]);
    assert acts[1..][1..] == acts[2..] && acts[2..][1..] == acts[3..] && acts[3..][1..] == [];
    assert Run(s3, acts[3..], s4);
    assert Run(s2, acts[2..], s4);
    assert Run(s1, acts[1..], s4);
    assert Run(s, acts, s4);
  }

  /** A stop withdraws the request and then polls. */
  lemma StopDeactivates(s: State)
    requires s.cpc == Idle && s.mutex == Nobody
    ensures exists s' :: Run(s, [CallStop, StopTake, StopRelease], s')
                         && !s'.active && s'.cpc == Poll(20) && s'.tpc == s.tpc && s'.mutex == Nobody
  {
    var acts := [CallStop, StopTake, StopRelease];
    var s1 := Step(s, acts[0]);
    var s2 := Step(s1, acts[1]);
    var s3 := Step(s2, acts[2]);
    assert acts[1..][1..] == acts[2..] && acts[2..][1..] == [];
    assert Run(s2, acts[2..], s3);
    assert Run(s1, acts[1..], s3);
    assert Run(s, acts, s3);
  }

  /** It returns at the first poll that finds the thread inactive, and gives up after 21 that do not. */
  lemma {:induction false} PollsGiveUp(s: State, n: nat)
    requires s.cpc == Poll(n)
    ensures !s.running ==> Step(s, PollOnce).cpc == Idle && Step(s, PollOnce).quiet
    ensures s.running ==> Run(s, seq(n + 1, _ => PollOnce), s.(cpc := Idle))
    decreases n
  {
    var acts := seq(n + 1, _ => PollOnce);
    var t := Step(s, PollOnce);
    assert acts[0] == PollOnce && acts[1..] == seq(n, _ => PollOnce);
    if s.running {
      if n > 0 {
        PollsGiveUp(t, n - 1);
      } else {
        assert acts[1..] == [];
      }
    }
  }

  /** What each call of the control thread does to the request, whatever else is going on. */
  lemma Requests(s: State, a: Action)
    requires Enabled(s, a) && !a.ThreadStep?
    ensures Step(s, a).active == (if a.StartRelease? then true else if a.StopRelease? then false else s.active)
    ensures Step(s, a).tpc == s.tpc && Step(s, a).running == s.running
  {
  }

  ghost predicate ByThread(acts: seq<Action>) {
    forall a :: a in acts ==> a.ThreadStep?
  }

  /** The thread is on its way to stop itself. */
  predicate Stopping(s: State) {
    (MidTrigger(s.tpc) && s.autostop == 1) || s.tpc == SelfLock || s.tpc == SelfStop
  }

  function Rank(pc: ThreadPc): nat {
    match pc
    case InTrigger => 9 case After => 8 case Sleep => 7 case SelfDone => 7 case Lock => 6 case Wait => 7 case Woken => 6
    case Test => 5 case SetActive => 4 case Unlock => 3 case Prepare => 2 case _ => 0
  }

  /** One step closer to a trigger. */
  lemma Closer(s: State)
    requires Inv(s) && s.active && s.mutex != Control && s.tpc != Exited && !Stopping(s)
    ensures Enabled(s, ThreadStep(true))
    ensures var t := StepThread(s, true);
            if s.tpc == Prepare then t.tpc == InTrigger && t.begun == s.begun + 1
            else
              && Inv(t) && t.active && t.mutex != Control && t.tpc != Exited && !Stopping(t)
              && Rank(t.tpc) < Rank(s.tpc) && t.begun == s.begun
  {
    ThreadKeepsInv(s, true);
  }

  lemma {:induction false} Progress(s: State) returns (acts: seq<Action>, s': State)
    requires Inv(s) && s.active && s.mutex != Control && s.tpc != Exited && !Stopping(s)
    ensures ByThread(acts) && Run(s, acts, s') && s'.tpc == InTrigger && s'.begun == s.begun + 1
    decreases Rank(s.tpc)
  {
    hide Inv, StepThread, Stopping, Enabled;
    var a := ThreadStep(true);
    Closer(s);
    var t := Step(s, a);
    if s.tpc == Prepare {
      acts, s' := [a], t;
      assert [a][1..] == [];
    } else {
      var more;
      more, s' := Progress(t);
      acts := [a] + more;
      assert acts[1..] == more;
    }
  }

  lemma StoppingStep(s: State, ok: bool)
    requires (Stopping(s) || Calm(s)) && Enabled(s, ThreadStep(ok))
    ensures var t := StepThread(s, ok);
            (Stopping(t) || Calm(t)) && t.begun == s.begun
  {
  }

  lemma {:induction false} StoppingRun(s: State, acts: seq<Action>, s': State)
    requires (Stopping(s) || Calm(s)) && ByThread(acts) && Run(s, acts, s')
    ensures s'.begun == s.begun
    decreases |acts|
  {
    if acts != [] {
      hide Stopping, Calm, StepThread, Enabled;
      assert acts[0] in acts;
      StoppingStep(s, acts[0].ok);
      StoppingRun(Step(s, acts[0]), acts[1..], s');
    }
  }

  /**
    * While a start is in effect the thread, left to itself, begins another trigger, if and only if it is not already on
    * its way to stop itself.
    */
  lemma TriggersGoOn(k: int, s: State)
    requires Reachable(k, s) && s.active && s.mutex != Control && s.tpc != Exited
    ensures (exists acts, s' ::
               ByThread(acts) && Run(s, acts, s') && s'.tpc == InTrigger && s'.begun == s.begun + 1) <==>
            !Stopping(s)
  {
    ReachableInv(k, s);
    hide Inv, AutostopInv, Run, Stopping;
    if Stopping(s) {
      forall acts, s' | ByThread(acts) && Run(s, acts, s')
        ensures s'.begun == s.begun
      {
        StoppingRun(s, acts, s');
      }
    } else {
      var acts, s' := Progress(s);
    }
  }

  function IdleRank(pc: ThreadPc): nat {
    match pc
    case SetActive => 14 case Unlock => 13 case Prepare => 12 case InTrigger => 11 case After => 10 case SelfLock => 9
    case SelfStop => 8 case SelfDone => 7 case Sleep => 7 case Wait => 7 case Woken => 6 case Lock => 6 case Test => 5
    case Report => 4 case SetInactive => 3 case Exited => 0
  }

  lemma Quieter(s: State)
    requires Inv(s) && !s.active && s.mutex != Control && s.tpc != Exited
    ensures Enabled(s, ThreadStep(true))
    ensures var t := StepThread(s, true);
            && Inv(t) && !t.active && t.mutex != Control && t.tpc != Exited
            && (IdleRank(t.tpc) < IdleRank(s.tpc) || (s.tpc == SetInactive && !t.running))
  {
    ThreadKeepsInv(s, true);
  }

  /** A stop is served: left to itself, the thread then reports itself inactive, which ends the wait for it early. */
  lemma {:induction false} StopIsServed(s: State) returns (acts: seq<Action>, s': State)
    requires Inv(s) && !s.active && s.mutex != Control && s.tpc != Exited
    ensures ByThread(acts) && Run(s, acts, s') && !s'.running && s'.cpc == s.cpc
    decreases IdleRank(s.tpc)
  {
    var a := ThreadStep(true);
    Quieter(s);
    var t := Step(s, a);
    assert t.cpc == s.cpc;
    hide Inv, StepThread, Enabled;
    assert [a][1..] == [];
    if s.tpc == SetInactive {
      acts, s' := [a], t;
    } else {
      var more;
      more, s' := StopIsServed(t);
      acts := [a] + more;
      assert acts[1..] == more;
    }
  }
}
