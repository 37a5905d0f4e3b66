/**
 A pool thread clears its `function` after it has become idle. So a native method that is resumed in
 between, and sets the function for its next execution, can have it cleared again: this module says
 exactly when.
 */
module AniFunctions {
  import opened Wrappers
  import opened AniProtocol
  import opened AniInvariants
  import opened AniTheorems

  /** The native method sets the function of a pool thread that has become idle and is about to clear it. */
  predicate Hasty(s: State, e: Event) {
    && e.UseFunction? && s.vm.InNative? && s.vm.phase.Started? && Known(s, s.vm.thread)
    && s.pool[PtOf(s, s.vm.thread)].pc == IdleSet
  }

  /** None of the events, each taken in the state it meets, is a hasty one. */
  ghost predicate Patient(s: State, events: seq<Event>) {
    forall i :: 0 <= i < |events| && RunFrom(s, events[..i]).To? ==> !Hasty(RunFrom(s, events[..i]).state, events[i])
  }

  predicate Configured(s: State, k: nat) {
    s.vm.InNative? && s.vm.phase == Started(true) && s.vm.thread in s.infos && s.infos[s.vm.thread].pt == Some(k)
  }

  // ---------------------------------------------------------------- which function is asked for

  /** The native method that is running holds pool thread `k`. */
  predicate InHolder(s: State, k: nat) {
    s.vm.InNative? && s.vm.thread in s.infos && s.infos[s.vm.thread].pt == Some(k)
  }

  /** The function set for pool thread `k` after an event, if `last` was before. */
  function NextSet(s: State, e: Event, k: nat, last: Option<Function>): Option<Function> {
    if e.UseFunction? && InHolder(s, k) then Some(e.task) else last
  }

  /** The function that pool thread `k` has been asked to call: the one set when its holder blocked. */
  function NextAsked(s: State, e: Event, k: nat, last: Option<Function>, asked: Option<Function>): Option<Function> {
    if e.BlockThread? && InHolder(s, k) then last else asked
  }

  /** The argument of the last `UseFunction` that a holder of pool thread `k` took in the run. */
  ghost function LastSet(events: seq<Event>, k: nat): Option<Function> {
    if events == [] then None
    else
      var init := events[..|events| - 1];
      var last := LastSet(init, k);
      match RunFrom(Initial(), init)
      case To(mid) => NextSet(mid, events[|events| - 1], k, last)
      case _ => last
  }

  /** What was so set when a holder of pool thread `k` took its last `BlockThread`. */
  ghost function Asked(events: seq<Event>, k: nat): Option<Function> {
    if events == [] then None
    else
      var init := events[..|events| - 1];
      match RunFrom(Initial(), init)
      case To(mid) => NextAsked(mid, events[|events| - 1], k, LastSet(init, k), Asked(init, k))
      case _ => Asked(init, k)
  }

  // ---------------------------------------------------------------- without hasty settings

  /** What is running is the function asked for, and what has been set or asked for stays. */
  predicate FunctionKept(s: State, k: nat, last: Option<Function>, asked: Option<Function>)
    requires k < |s.pool|
  {
    var p := s.pool[k];
    && (p.pc.Running? ==> p.pc.task == asked && asked.Some?)
    && (AboutToSignal(s, k) || p.executes > 0 ==> p.task == asked && asked.Some? && p.pc != IdleSet)
    && (Configured(s, k) ==> p.task == last && last.Some? && p.pc != IdleSet)
  }

  lemma PoolStepKeepsFunction(s: State, e: Event, k: nat, last: Option<Function>, asked: Option<Function>)
    requires Inv(s) && IsPoolEvent(e) && PoolEffect(s, e).To? && k < |s.pool| && FunctionKept(s, k, last, asked)
    ensures FunctionKept(PoolEffect(s, e).state, k, last, asked)
  {
    assert PoolThreadOk(s, k);
    if Configured(s, k) {
      assert JavaThreadOk(s, s.vm.thread);
    }
  }

  lemma NativeStepKeepsFunction(s: State, t: JavaThread, phase: Phase, e: Event, k: nat, last: Option<Function>, asked: Option<Function>)
    requires Inv(s) && s.vm == InNative(t, phase) && !Hasty(s, e)
    requires NativeStep(s, t, phase, e).To? && k < |s.pool| && FunctionKept(s, k, last, asked)
    ensures |NativeStep(s, t, phase, e).state.pool| == |s.pool|
    ensures FunctionKept(NativeStep(s, t, phase, e).state, k, NextSet(s, e, k, last), NextAsked(s, e, k, last, asked))
  {
    hide HeldOnce, Held, Waiters, FreeCount;
    assert PoolThreadOk(s, k);
    assert t in s.infos ==> JavaThreadOk(s, t);
  }

  lemma StepKeepsFunction(s: State, e: Event, k: nat, last: Option<Function>, asked: Option<Function>)
    requires Inv(s) && !Hasty(s, e) && Step(s, e).To? && k < |s.pool| && FunctionKept(s, k, last, asked)
    ensures |Step(s, e).state.pool| == |s.pool|
    ensures FunctionKept(Step(s, e).state, k, NextSet(s, e, k, last), NextAsked(s, e, k, last, asked))
  {
    hide Inv;
    if IsPoolEvent(e) {
      PoolStepKeepsFunction(s, e, k, last, asked);
    } else if s.vm.InNative? {
      NativeStepKeepsFunction(s, s.vm.thread, s.vm.phase, e, k, last, asked);
    }
  }

  lemma {:induction false} PatientRunKeepsFunction(events: seq<Event>, k: nat)
    requires Patient(Initial(), events) && RunFrom(Initial(), events).To? && k < NUM_POOL_THREADS
    ensures |RunFrom(Initial(), events).state.pool| == NUM_POOL_THREADS
    ensures FunctionKept(RunFrom(Initial(), events).state, k, LastSet(events, k), Asked(events, k))
  {
    if events != [] {
      var init := events[..|events| - 1];
      assert forall i :: 0 <= i < |init| ==> init[..i] == events[..i];
      PatientRunKeepsFunction(init, k);
      InitialInv();
      RunKeeps(Initial(), init);
      StepKeepsFunction(RunFrom(Initial(), init).state, events[|events| - 1], k, LastSet(init, k), Asked(init, k));
    }
  }

  /** In a run without hasty settings, a pool thread calls the function that its holder set last before it blocked. */
  lemma PatientRunsCallFunctions(events: seq<Event>, k: nat)
    requires Patient(Initial(), events) && RunFrom(Initial(), events).To?
    requires k < |RunFrom(Initial(), events).state.pool| && RunFrom(Initial(), events).state.pool[k].pc.Running?
    ensures Asked(events, k).Some? && RunFrom(Initial(), events).state.pool[k].pc == Running(Asked(events, k))
  {
    WatchfulWhenReachable(RunFrom(Initial(), events).state);
    PatientRunKeepsFunction(events, k);
  }

  // ---------------------------------------------------------------- what a hasty setting can lead to

  lemma Extend(s: State, events: seq<Event>, mid: State, e: Event)
    requires RunFrom(s, events) == To(mid)
    ensures RunFrom(s, events + [e]) == Step(mid, e)
  {
    assert (events + [e])[..|events|] == events;
  }

  lemma RunThree(s: State, a: Event, b: Event, c: Event, s1: State, s2: State)
    requires Step(s, a) == To(s1) && Step(s1, b) == To(s2)
    ensures RunFrom(s, [a, b, c]) == Step(s2, c)
  {
    Extend(s, [], s, a);
    Extend(s, [a], s1, b);
    assert [a] + [b] == [a, b];
    Extend(s, [a, b], s2, c);
    assert [a, b] + [c] == [a, b, c];
  }

  /** Set, cleared, and started all the same. */
  lemma SetThenCleared(s: State, t: JavaThread, k: nat, f: Function) returns (s': State)
    requires s.vm.InNative? && s.vm.phase.Started? && s.vm.thread == t && Known(s, t) && PtOf(s, t) == k
    requires s.pool[k].pc == IdleSet && s.pool[k].idle
    ensures RunFrom(s, [UseFunction(f), ClearFunction(k), BlockThread]) == To(s')
    ensures s'.vm == InNative(t, IdleCleared) && Known(s', t) && PtOf(s', t) == k
    ensures s'.pool[k].task == None && s'.pool[k].pc == FunctionCleared
  {
    hide RunFrom;
    var p := s.pool[k];
    var s1 := SetPt(s, t, p.(task := Some(f))).(vm := InNative(t, Started(true)));
    assert Step(s, UseFunction(f)) == To(s1);
    var cleared := p.(task := None, pc := FunctionCleared);
    var s2 := s1.(pool := s1.pool[k := cleared]);
    assert Step(s1, ClearFunction(k)) == To(s2);
    s' := SetPt(s2, t, cleared.(idle := false, starts := p.starts + 1))
          .(infos := s.infos[t := s.infos[t].(isBlocked := true)], vm := InNative(t, IdleCleared));
    assert Step(s2, BlockThread) == To(s');
    hide Step;
    RunThree(s, UseFunction(f), ClearFunction(k), BlockThread, s1, s2);
  }

  lemma ThenCalled(s: State, t: JavaThread, k: nat) returns (s': State)
    requires s.vm == InNative(t, IdleCleared) && Known(s, t) && PtOf(s, t) == k
    requires s.pool[k].task == None && s.pool[k].pc == FunctionCleared
    ensures RunFrom(s, [SignalExecute, SignalFinished(k), Execute(k)]) == To(s') && s'.pool[k].pc == Running(None)
  {
    hide RunFrom;
    var s1 := Step(s, SignalExecute).state;
    var s2 := Step(s1, SignalFinished(k)).state;
    RunThree(s, SignalExecute, SignalFinished(k), Execute(k), s1, s2);
    s' := Step(s2, Execute(k)).state;
  }

  /** After a hasty setting, the pool thread can come to call a function that is not there. */
  lemma HastyCanCallNothing(s: State, f: Function) returns (events: seq<Event>, s': State)
    requires Reachable(s) && Hasty(s, UseFunction(f))
    ensures events != [] && events[0] == UseFunction(f)
    ensures RunFrom(s, events) == To(s') && PtOf(s, s.vm.thread) < |s'.pool| && s'.pool[PtOf(s, s.vm.thread)].pc == Running(None)
  {
    ReachableInv(s);
    var t, k := s.vm.thread, PtOf(s, s.vm.thread);
    assert JavaThreadOk(s, t);
    var mid := SetThenCleared(s, t, k, f);
    s' := ThenCalled(mid, t, k);
    RunAppend(s, [UseFunction(f), ClearFunction(k), BlockThread], [SignalExecute, SignalFinished(k), Execute(k)]);
    events := [UseFunction(f), ClearFunction(k), BlockThread] + [SignalExecute, SignalFinished(k), Execute(k)];
  }

  // ---------------------------------------------------------------- a hasty setting does happen

  lemma LeadsThree(s: State, a: Event, b: Event, c: Event, s1: State, s2: State, s3: State)
    requires Step(s, a) == To(s1) && Step(s1, b) == To(s2) && Step(s2, c) == To(s3)
    ensures Leads(s, s3)
  {
    RunThree(s, a, b, c, s1, s2);
  }

  /** A Java thread gets a new pool thread. */
  lemma Acquires(s: State, t: JavaThread, k: nat) returns (s': State)
    requires s.vm == Free && t !in s.blocked && t !in s.infos && s.started == 0
    requires FirstUnused(s.pool, 0) == k < |s.pool| && !s.pool[k].initialized
    ensures Leads(s, s')
    ensures s' == s.(vm := InNative(t, Started(false)), infos := s.infos[t := BlockingInfo(Some(k), false)],
                     pool := s.pool[k := SPAWNED.(pc := Waiting)])
  {
    var s1 := s.(vm := InNative(t, Entered));
    var s2 := s.(vm := InNative(t, Spawning(k)), infos := s.infos[t := BlockingInfo(None, false)], pool := s.pool[k := SPAWNED]);
    var s3 := s2.(started := 1, pool := s2.pool[k := SPAWNED.(pc := Waiting)]);
    LeadsThree(s, Enter(t), Start(true), ReportStarted(k), s1, s2, s3);
    s' := Step(s3, HearStarted).state;
    LeadsByStep(s3, HearStarted, s');
    LeadsOn(s, s3, s');
    assert s2.pool[k := SPAWNED.(pc := Waiting)] == s.pool[k := SPAWNED.(pc := Waiting)];
    assert s3.infos[t := BlockingInfo(Some(k), false)] == s.infos[t := BlockingInfo(Some(k), false)];
  }

  /** A pool thread that has been asked, once, to execute a function. */
  const ASKED := PoolThread(true, true, false, Some(0), 1, Waiting, 1, 0)

  lemma Executes(s: State, t: JavaThread, k: nat) returns (s': State)
    requires s.vm == InNative(t, IdleCleared) && Known(s, t) && PtOf(s, t) == k && s.infos[t].isBlocked
    requires s.pool[k] == ASKED.(executes := 0)
    ensures Leads(s, s') && s' == s.(vm := Free, blocked := s.blocked + {t}, pool := s.pool[k := ASKED])
  {
    var s1 := Step(s, SignalExecute).state;
    s' := Step(s1, End).state;
    LeadsByStep(s, SignalExecute, s1);
    LeadsByStep(s1, End, s');
    LeadsOn(s, s1, s');
  }

  /** It has a function executed and waits for it. */
  lemma Blocks(s: State, t: JavaThread, k: nat) returns (s': State)
    requires s.vm == InNative(t, Started(false)) && Known(s, t) && PtOf(s, t) == k && s.pool[k] == SPAWNED.(pc := Waiting)
    ensures Leads(s, s')
    ensures s' == s.(vm := Free, blocked := s.blocked + {t}, infos := s.infos[t := BlockingInfo(Some(k), true)],
                     pool := s.pool[k := ASKED])
  {
    var s1 := Step(s, UseFunction(0)).state;
    var s2 := Step(s1, BlockThread).state;
    LeadsByStep(s, UseFunction(0), s1);
    LeadsByStep(s1, BlockThread, s2);
    LeadsOn(s, s1, s2);
    assert s2.pool == s.pool[k := ASKED.(executes := 0)] && s2.vm == InNative(t, IdleCleared);
    s' := Executes(s2, t, k);
    LeadsOn(s, s2, s');
    assert s'.pool == s.pool[k := ASKED];
  }

  lemma PoolMoves(s: State, e: Event, p: PoolThread) returns (s': State)
    requires IsPoolEvent(e) && !e.ReportStarted? && e.k < |s.pool| && PoolStep(s.pool[e.k], e) == Some(p)
    ensures Leads(s, s')
    ensures s' == s.(pool := s.pool[e.k := p], finished := s.finished + if e.SignalFinished? then 1 else 0)
  {
    s' := Step(s, e).state;
    LeadsByStep(s, e, s');
  }

  /** A scan unblocks whoever waits for an idle pool thread that it has not passed yet. */
  lemma {:induction false} ScansToEnd(s: State, t: JavaThread) returns (s': State)
    requires s.vm.Scanning? && s.vm.next <= |s.pool| && Known(s, t) && s.pool[PtOf(s, t)].idle
    requires t !in s.blocked || s.vm.next <= PtOf(s, t)
    ensures Leads(s, s') && s'.vm == Free && s'.pool == s.pool && s'.infos == s.infos && t !in s'.blocked
    decreases |s.pool| - s.vm.next
  {
    hide RunFrom, Leads, FreeCount;
    var mid := Step(s, Scan).state;
    LeadsByStep(s, Scan, mid);
    assert mid.pool == s.pool && mid.infos == s.infos;
    if s.vm.next == |s.pool| {
      s' := mid;
    } else {
      s' := ScansToEnd(mid, t);
      LeadsOn(s, mid, s');
    }
  }

  /** A resumed Java thread finds its pool thread again. */
  lemma Resumes(s: State, t: JavaThread) returns (s': State)
    requires s.vm == Free && t !in s.blocked && Known(s, t)
    ensures Leads(s, s') && s'.pool == s.pool && s'.vm == InNative(t, Started(false)) && Known(s', t) && PtOf(s', t) == PtOf(s, t)
  {
    var s1 := s.(vm := InNative(t, Entered));
    s' := Step(s1, Start(true)).state;
    LeadsByStep(s, Enter(t), s1);
    LeadsByStep(s1, Start(true), s');
    LeadsOn(s, s1, s');
  }

  /** A pool thread that was asked executes the function. */
  lemma RunsFunction(s: State, k: nat) returns (s': State)
    requires k < |s.pool| && s.pool[k] == ASKED
    ensures Leads(s, s') && s' == s.(pool := s.pool[k := ASKED.(idle := true, executes := 0, pc := IdleSet, runs := 1)])
  {
    var s1 := PoolMoves(s, Execute(k), ASKED.(executes := 0, pc := Running(Some(0))));
    s' := PoolMoves(s1, FinishFunction(k), ASKED.(idle := true, executes := 0, pc := IdleSet, runs := 1));
    LeadsOn(s, s1, s');
    assert s'.pool == s.pool[k := ASKED.(idle := true, executes := 0, pc := IdleSet, runs := 1)];
  }

  lemma Signals(s: State, k: nat) returns (s': State)
    requires k < |s.pool| && s.pool[k].pc == IdleSet
    ensures Leads(s, s') && s' == s.(pool := s.pool[k := s.pool[k].(task := None, pc := Waiting)], finished := s.finished + 1)
  {
    var s1 := PoolMoves(s, ClearFunction(k), s.pool[k].(task := None, pc := FunctionCleared));
    s' := PoolMoves(s1, SignalFinished(k), s.pool[k].(task := None, pc := Waiting));
    LeadsOn(s, s1, s');
    assert s'.pool == s.pool[k := s.pool[k].(task := None, pc := Waiting)];
  }

  /** Two Java threads wait for pool threads 0 and 1, and both functions have returned. */
  lemma TwoHaveRun() returns (s: State)
    ensures Leads(Initial(), s) && s.vm == Free && Known(s, 0) && PtOf(s, 0) == 0 && |s.pool| == NUM_POOL_THREADS
    ensures s.pool[0].pc == IdleSet && s.pool[0].idle && s.pool[1].pc == IdleSet && s.waiters == 0
  {
    var a1 := Acquires(Initial(), 0, 0);
    var a2 := Blocks(a1, 0, 0);
    var b1 := Acquires(a2, 1, 1);
    var b2 := Blocks(b1, 1, 1);
    var c1 := RunsFunction(b2, 0);
    s := RunsFunction(c1, 1);
    LeadsOn(Initial(), a1, a2);
    LeadsOn(Initial(), a2, b1);
    LeadsOn(Initial(), b1, b2);
    LeadsOn(Initial(), b2, c1);
    LeadsOn(Initial(), c1, s);
  }

  lemma LeadsIsReachable(s: State)
    requires Leads(Initial(), s)
    ensures Reachable(s)
  {
  }

  /**
   Hasty settings happen: the finish signal of one pool thread starts a scan, which finds another one
   idle before it has cleared its function, and so resumes the Java thread that uses it.
   */
  lemma HastyIsReachable(f: Function) returns (s: State)
    ensures Reachable(s) && Hasty(s, UseFunction(f))
  {
    hide RunFrom, Leads;
    var a := TwoHaveRun();
    var b := Signals(a, 1);
    var c := b.(vm := AwaitingFinish(true));
    var d := c.(vm := Scanning(0), finished := c.finished - 1);
    LeadsByStep(b, WakeWaiters({}, true), c);
    LeadsByStep(c, ConsumeFinished, d);
    var e := ScansToEnd(d, 0);
    s := Resumes(e, 0);
    LeadsOn(Initial(), a, b);
    LeadsOn(Initial(), b, c);
    LeadsOn(Initial(), c, d);
    LeadsOn(Initial(), d, e);
    LeadsOn(Initial(), e, s);
    LeadsIsReachable(s);
  }
}
