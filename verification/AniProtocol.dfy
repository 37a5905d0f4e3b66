/**
 The asynchronous native interface as a state machine: one VM thread, which runs the native methods
 of all Java threads, and a pool of native threads that carry out blocking functions for them. Every
 event is one step that no other thread can observe halfway; events of different threads interleave freely.
 */
module AniProtocol {
  import opened Wrappers

  const NUM_POOL_THREADS := 16

  type JavaThread = nat
  type Function = nat

  /** Where a pool thread is: not created, started but not yet heard of, waiting to execute, or on its way back there. */
  datatype Pc = Absent | Starting | Waiting | Running(task: Option<Function>) | IdleSet | FunctionCleared

  /** `executes` counts the signals on its execute event; `starts` and `runs` record its history. */
  datatype PoolThread = PoolThread(
    initialized: bool, used: bool, idle: bool, task: Option<Function>, executes: nat, pc: Pc, starts: nat, runs: nat)

  const ZERO := PoolThread(false, false, false, None, 0, Absent, 0, 0)
  const SPAWNED := PoolThread(true, true, true, None, 0, Starting, 0, 0)

  /** What a Java thread keeps between activations of its native method. */
  datatype BlockingInfo = BlockingInfo(pt: Option<nat>, isBlocked: bool)

  /** How far the native method that the VM thread is running has come. */
  datatype Phase =
    | Entered
    | Spawning(pt: nat)
    | Refused
    | Started(configured: bool)
    | IdleCleared
    | Executing
    | Released

  datatype Vm = Free | InNative(thread: JavaThread, phase: Phase) | AwaitingFinish(forever: bool) | Scanning(next: nat)

  /** `started` and `finished` count the signals on the two events that all pool threads share. */
  datatype State = State(
    pool: seq<PoolThread>, infos: map<JavaThread, BlockingInfo>, blocked: set<JavaThread>,
    waiters: int, started: nat, finished: nat, vm: Vm)

  datatype Event =
    // the VM thread, in a native method
    | Enter(t: JavaThread)
    | Start(resources: bool)
    | HearStarted
    | GiveUp
    | Wait
    | UseFunction(task: Function)
    | BlockThread
    | SignalExecute
    | End
    | Return
    // the VM thread, waiting for a Java thread to become unblocked
    | WakeWaiters(woken: set<JavaThread>, forever: bool)
    | TimeOut
    | ConsumeFinished
    | Scan
    // a pool thread
    | ReportStarted(k: nat)
    | Execute(k: nat)
    | FinishFunction(k: nat)
    | ClearFunction(k: nat)
    | SignalFinished(k: nat)

  datatype Outcome = Disabled | AssertionFails | To(state: State)

  // ---------------------------------------------------------------- steps

  predicate Known(s: State, t: JavaThread) {
    t in s.infos && s.infos[t].pt.Some? && s.infos[t].pt.value < |s.pool|
  }

  function PtOf(s: State, t: JavaThread): nat
    requires Known(s, t)
  {
    s.infos[t].pt.value
  }

  function SetPt(s: State, t: JavaThread, p: PoolThread): State
    requires Known(s, t)
  {
    s.(pool := s.pool[PtOf(s, t) := p])
  }

  function FirstUnused(pool: seq<PoolThread>, k: nat): (r: nat)
    requires k <= |pool|
    ensures k <= r <= |pool| && (r < |pool| ==> !pool[r].used) && forall i :: k <= i < r ==> pool[i].used
    decreases |pool| - k
  {
    if k == |pool| || !pool[k].used then k else FirstUnused(pool, k + 1)
  }

  function FreeCount(pool: seq<PoolThread>): (n: nat) {
    if pool == [] then 0 else FreeCount(pool[1..]) + if pool[0].used then 0 else 1
  }

  /** The blocked Java threads that wait for a pool thread. */
  function Waiters(s: State): set<JavaThread> {
    set t <- s.blocked | t in s.infos && s.infos[t].pt.None?
  }

  /** The blocked Java threads that wait for pool thread `k` to finish. */
  function Users(s: State, k: nat): set<JavaThread> {
    set t <- s.blocked | t in s.infos && s.infos[t].pt == Some(k)
  }

  /** As many of the waiters as there are free pool threads, or all of them. */
  predicate IsBatch(woken: set<JavaThread>, waiters: set<JavaThread>, free: nat) {
    woken <= waiters && (|woken| == free || (|woken| < free && woken == waiters))
  }

  /** Gives `t` the first unused pool thread: as it is if it is initialized, else after spawning it. */
  function Allocate(s: State, t: JavaThread, resources: bool): State {
    var k := FirstUnused(s.pool, 0);
    if k == |s.pool| then
      s.(infos := s.infos[t := BlockingInfo(None, false)], vm := InNative(t, Refused))
    else if s.pool[k].initialized then
      s.(infos := s.infos[t := BlockingInfo(Some(k), false)],
         pool := s.pool[k := s.pool[k].(used := true)], vm := InNative(t, Started(false)))
    else if resources then
      s.(infos := s.infos[t := BlockingInfo(None, false)],
         pool := s.pool[k := SPAWNED], vm := InNative(t, Spawning(k)))
    else
      s.(infos := s.infos[t := BlockingInfo(None, false)], pool := s.pool[k := ZERO], vm := InNative(t, Refused))
  }

  /** A step of the native method of `t`. */
  function NativeStep(s: State, t: JavaThread, phase: Phase, e: Event): Outcome {
    match (phase, e)
    case (Entered, Start(resources)) =>
      if t in s.infos && s.infos[t].pt.Some? then
        To(s.(infos := s.infos[t := s.infos[t].(isBlocked := false)], vm := InNative(t, Started(false))))
      else
        To(Allocate(s, t, resources))
    case (Spawning(k), HearStarted) =>
      if s.started == 0 then Disabled
      else To(s.(started := s.started - 1, infos := s.infos[t := BlockingInfo(Some(k), false)], vm := InNative(t, Started(false))))
    case (Refused, GiveUp) =>
      To(s.(infos := s.infos - {t}, vm := Free))
    case (Refused, Wait) =>
      if t !in s.infos || s.infos[t].pt.Some? then AssertionFails
      else To(s.(waiters := s.waiters + 1, blocked := s.blocked + {t}, vm := Free))
    case (Started(_), UseFunction(f)) =>
      if !Known(s, t) then AssertionFails
      else To(SetPt(s, t, s.pool[PtOf(s, t)].(task := Some(f))).(vm := InNative(t, Started(true))))
    case (Started(true), BlockThread) =>
      if !Known(s, t) || !s.pool[PtOf(s, t)].idle then AssertionFails
      else
        var p := s.pool[PtOf(s, t)];
        To(SetPt(s, t, p.(idle := false, starts := p.starts + 1))
           .(infos := s.infos[t := s.infos[t].(isBlocked := true)], vm := InNative(t, IdleCleared)))
    case (IdleCleared, SignalExecute) =>
      if !Known(s, t) then AssertionFails
      else
        var p := s.pool[PtOf(s, t)];
        To(SetPt(s, t, p.(executes := p.executes + 1)).(vm := InNative(t, Executing)))
    case (Executing, End) =>
      if t !in s.infos || !s.infos[t].isBlocked then AssertionFails
      else To(s.(blocked := s.blocked + {t}, vm := Free))
    case (Started(_), End) =>
      if !Known(s, t) || s.infos[t].isBlocked || !s.pool[PtOf(s, t)].idle then AssertionFails
      else To(SetPt(s, t, s.pool[PtOf(s, t)].(used := false)).(vm := InNative(t, Released)))
    case (Released, Return) =>
      To(s.(infos := s.infos - {t}, vm := Free))
    case _ => Disabled
  }

  /** A step of the VM thread outside native methods. */
  function VmStep(s: State, e: Event): Outcome {
    match (s.vm, e)
    case (Free, Enter(t)) =>
      if t in s.blocked then Disabled else To(s.(vm := InNative(t, Entered)))
    case (Free, WakeWaiters(woken, forever)) =>
      if s.waiters > 0 && FreeCount(s.pool) > 0 then
        if s.blocked == {} then AssertionFails
        else if !IsBatch(woken, Waiters(s), FreeCount(s.pool)) then Disabled
        else To(s.(blocked := s.blocked - woken, waiters := s.waiters - |woken|, vm := AwaitingFinish(false)))
      else if woken != {} then Disabled
      else To(s.(vm := AwaitingFinish(forever)))
    case (AwaitingFinish(forever), TimeOut) =>
      if forever then Disabled else To(s.(vm := Free))
    case (AwaitingFinish(_), ConsumeFinished) =>
      if s.finished == 0 then Disabled else To(s.(finished := s.finished - 1, vm := Scanning(0)))
    case (Scanning(k), Scan) =>
      if k >= |s.pool| then To(s.(vm := Free))
      else To(s.(blocked := if s.pool[k].idle then s.blocked - Users(s, k) else s.blocked, vm := Scanning(k + 1)))
    case _ => Disabled
  }

  /** A step of a pool thread; the change that is common to all is left to `PoolEffect`. */
  function PoolStep(p: PoolThread, e: Event): Option<PoolThread> {
    match (p.pc, e)
    case (Starting, ReportStarted(_)) => Some(p.(pc := Waiting))
    case (Waiting, Execute(_)) =>
      if p.executes == 0 then None else Some(p.(executes := p.executes - 1, pc := Running(p.task)))
    case (Running(_), FinishFunction(_)) => Some(p.(idle := true, runs := p.runs + 1, pc := IdleSet))
    case (IdleSet, ClearFunction(_)) => Some(p.(task := None, pc := FunctionCleared))
    case (FunctionCleared, SignalFinished(_)) => Some(p.(pc := Waiting))
    case _ => None
  }

  predicate IsPoolEvent(e: Event) {
    e.ReportStarted? || e.Execute? || e.FinishFunction? || e.ClearFunction? || e.SignalFinished?
  }

  function PoolEffect(s: State, e: Event): Outcome
    requires IsPoolEvent(e)
  {
    if e.k >= |s.pool| then Disabled
    else match PoolStep(s.pool[e.k], e)
      case None => Disabled
      case Some(p) =>
        To(s.(pool := s.pool[e.k := p],
              started := s.started + (if e.ReportStarted? then 1 else 0),
              finished := s.finished + (if e.SignalFinished? then 1 else 0)))
  }

  function Step(s: State, e: Event): Outcome {
    if IsPoolEvent(e) then PoolEffect(s, e)
    else if s.vm.InNative? then NativeStep(s, s.vm.thread, s.vm.phase, e)
    else VmStep(s, e)
  }

  function Initial(): State {
    State(seq(NUM_POOL_THREADS, _ => ZERO), map[], {}, 0, 0, 0, Free)
  }

  /** What a sequence of events leads to; a disabled or failing event ends the run. */
  function RunFrom(s: State, events: seq<Event>): Outcome {
    if events == [] then To(s)
    else match RunFrom(s, events[..|events| - 1])
      case To(mid) => Step(mid, events[|events| - 1])
      case other => other
  }

  ghost predicate Reachable(s: State) {
    exists events :: RunFrom(Initial(), events) == To(s)
  }
}
