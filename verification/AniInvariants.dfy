/**
 What every reachable state of the asynchronous native interface satisfies, in every interleaving.
 */
module AniInvariants {
  import opened Wrappers
  import opened AniProtocol

  predicate At(s: State, t: JavaThread, phase: Phase) {
    s.vm == InNative(t, phase)
  }

  /** `t` has asked for execution and has not been resumed since. */
  predicate Pending(s: State, t: JavaThread) {
    t in s.blocked || At(s, t, IdleCleared) || At(s, t, Executing)
  }

  /** The VM thread has taken pool thread `k` out of idleness and not signalled it yet. */
  predicate AboutToSignal(s: State, k: nat) {
    s.vm.InNative? && s.vm.phase == IdleCleared && s.vm.thread in s.infos && s.infos[s.vm.thread].pt == Some(k)
  }

  /** Somebody is going to look at pool thread `k` and find it idle. */
  predicate CompletionKept(s: State, k: nat)
    requires k < |s.pool|
  {
    s.finished > 0 || s.pool[k].pc == IdleSet || s.pool[k].pc == FunctionCleared || (s.vm.Scanning? && s.vm.next <= k)
  }

  function One(b: bool): nat {
    if b then 1 else 0
  }

  /** A live blocking record holds pool thread `k`, or one is about to. */
  ghost predicate Held(s: State, k: nat) {
    || (exists t <- s.infos :: s.infos[t].pt == Some(k))
    || (s.vm.InNative? && s.vm.phase == Spawning(k))
  }

  /** Not being idle is a token: held by the VM thread, by a pending execute signal, or by the running function. */
  ghost predicate PoolThreadOk(s: State, k: nat)
    requires k < |s.pool|
  {
    var p := s.pool[k];
    if !p.initialized then
      p == ZERO
    else
      && One(!p.idle) == One(AboutToSignal(s, k)) + p.executes + One(p.pc.Running?)
      && p.starts == p.runs + One(!p.idle)
      && p.pc != Absent && (p.pc == Starting ==> s.vm.InNative? && s.vm.phase == Spawning(k))
      && (!p.used ==> p.idle)
      && (p.used ==> Held(s, k))
  }

  predicate JavaThreadOk(s: State, t: JavaThread)
    requires t in s.infos
  {
    s.infos[t].pt.Some? ==>
      var k := s.infos[t].pt.value;
      && k < |s.pool| && s.pool[k].initialized && s.pool[k].pc != Starting
      && (s.pool[k].used <==> !At(s, t, Released))
      && (Pending(s, t) ==> s.infos[t].isBlocked)
      && (!Pending(s, t) ==> s.pool[k].idle)
      && (Pending(s, t) && s.pool[k].idle ==> CompletionKept(s, k))
  }

  ghost predicate HeldOnce(s: State) {
    forall t, u :: t in s.infos && u in s.infos && t != u && s.infos[t].pt.Some? ==> s.infos[t].pt != s.infos[u].pt
  }

  /** A pool thread being spawned for `t`: nobody holds it, and it either has yet to report or has reported. */
  predicate SpawningOk(s: State, t: JavaThread, k: nat)
    requires t in s.infos
  {
    && s.infos[t].pt.None? && k < |s.pool| && s.pool[k].initialized && s.pool[k].used && s.pool[k].idle
    && ((s.pool[k].pc == Starting && s.started == 0) || (s.pool[k].pc == Waiting && s.started == 1))
    && forall u <- s.infos :: s.infos[u].pt != Some(k)
  }

  predicate NativeOk(s: State, t: JavaThread, phase: Phase) {
    && t !in s.blocked
    && (phase != Entered ==> t in s.infos)
    && (phase.Started? ==> s.infos[t].pt.Some? && !s.infos[t].isBlocked)
    && (phase.IdleCleared? || phase.Executing? || phase.Released? ==> s.infos[t].pt.Some?)
    && (phase.Refused? ==> s.infos[t].pt.None?)
    && (if phase.Spawning? then SpawningOk(s, t, phase.pt) else s.started == 0)
  }

  predicate VmOk(s: State) {
    if s.vm.InNative? then NativeOk(s, s.vm.thread, s.vm.phase) else s.started == 0
  }

  ghost predicate Inv(s: State) {
    && (forall k {:trigger PoolThreadOk(s, k)} :: 0 <= k < |s.pool| ==> PoolThreadOk(s, k))
    && (forall t {:trigger JavaThreadOk(s, t)} :: t in s.infos ==> JavaThreadOk(s, t))
    && HeldOnce(s) && VmOk(s)
    && s.blocked <= s.infos.Keys
    && s.waiters == |Waiters(s)|
  }

  lemma InitialInv()
    ensures Inv(Initial())
  {
    assert Waiters(Initial()) == {};
  }

  /** A step keeps the invariant, and none of the assertions that the source makes can fail. */
  ghost predicate Keeps(s: State, o: Outcome) {
    o != AssertionFails && (o.To? ==> Inv(o.state))
  }

  lemma PoolEffectKeepsPoolThread(s: State, e: Event, k: nat)
    requires Inv(s) && IsPoolEvent(e) && PoolEffect(s, e).To? && k < |s.pool|
    ensures PoolThreadOk(PoolEffect(s, e).state, k)
  {
    assert PoolThreadOk(s, k);
    hide HeldOnce, JavaThreadOk;
  }

  lemma PoolEffectKeepsJavaThread(s: State, e: Event, t: JavaThread)
    requires Inv(s) && IsPoolEvent(e) && PoolEffect(s, e).To? && t in s.infos
    ensures JavaThreadOk(PoolEffect(s, e).state, t)
  {
    assert JavaThreadOk(s, t) && PoolThreadOk(s, e.k);
    hide HeldOnce, Held;
  }

  lemma PoolEffectKeeps(s: State, e: Event)
    requires Inv(s) && IsPoolEvent(e)
    ensures Keeps(s, PoolEffect(s, e))
  {
    var o := PoolEffect(s, e);
    if o.To? {
      var s' := o.state;
      assert PoolThreadOk(s, e.k);
      hide PoolThreadOk, JavaThreadOk, Held;
      forall k | 0 <= k < |s'.pool| ensures PoolThreadOk(s', k) {
        PoolEffectKeepsPoolThread(s, e, k);
      }
      forall t | t in s'.infos ensures JavaThreadOk(s', t) {
        PoolEffectKeepsJavaThread(s, e, t);
      }
      assert Waiters(s') == Waiters(s);
    }
  }

  /** A pool thread stays held if the records other than that of `t` keep their pool threads. */
  lemma StillHeld(s: State, s': State, k: nat, t: JavaThread)
    requires Held(s, k)
    requires forall u :: u in s.infos && u != t ==> u in s'.infos && s'.infos[u].pt == s.infos[u].pt
    requires t in s.infos && s.infos[t].pt == Some(k) ==> t in s'.infos && s'.infos[t].pt == Some(k)
    requires s.vm.InNative? && s.vm.phase == Spawning(k) ==> Held(s', k)
    ensures Held(s', k)
  {
    if exists u <- s.infos :: s.infos[u].pt == Some(k) {
      var u :| u in s.infos && s.infos[u].pt == Some(k);
      assert u in s'.infos && s'.infos[u].pt == Some(k);
    }
  }

  /** A used pool thread stays held unless it is being released. */
  lemma NativeKeepsHeld(s: State, t: JavaThread, phase: Phase, e: Event, k: nat)
    requires Inv(s) && s.vm == InNative(t, phase) && !e.Start? && k < |s.pool| && NativeStep(s, t, phase, e).To?
    ensures var s' := NativeStep(s, t, phase, e).state; |s'.pool| == |s.pool| && (s'.pool[k].used ==> Held(s', k))
  {
    hide HeldOnce, Waiters, FreeCount;
    var s' := NativeStep(s, t, phase, e).state;
    assert PoolThreadOk(s, k) && JavaThreadOk(s, t);
    if s'.pool[k].used {
      assert phase == Spawning(k) ==> s'.infos[t].pt == Some(k);
      StillHeld(s, s', k, t);
    }
  }

  lemma NativeKeepsPoolThread(s: State, t: JavaThread, phase: Phase, e: Event, k: nat)
    requires Inv(s) && s.vm == InNative(t, phase) && !e.Start? && k < |s.pool| && NativeStep(s, t, phase, e).To?
    ensures PoolThreadOk(NativeStep(s, t, phase, e).state, k)
  {
    hide HeldOnce, Waiters, FreeCount, Held;
    assert PoolThreadOk(s, k) && JavaThreadOk(s, t);
    NativeKeepsHeld(s, t, phase, e, k);
  }

  lemma NativeKeepsJavaThread(s: State, t: JavaThread, phase: Phase, e: Event, u: JavaThread)
    requires Inv(s) && s.vm == InNative(t, phase) && !e.Start? && NativeStep(s, t, phase, e).To?
    requires u in NativeStep(s, t, phase, e).state.infos
    ensures JavaThreadOk(NativeStep(s, t, phase, e).state, u)
  {
    hide Waiters, FreeCount, Held;
    assert JavaThreadOk(s, t) && JavaThreadOk(s, u);
    assert s.infos[t].pt.Some? ==> PoolThreadOk(s, s.infos[t].pt.value);
  }

  /** Only `ANI_Wait` makes a Java thread wait for a pool thread. */
  lemma NativeKeepsWaiter(s: State, t: JavaThread, phase: Phase, e: Event, u: JavaThread)
    requires Inv(s) && s.vm == InNative(t, phase) && !e.Start? && NativeStep(s, t, phase, e).To?
    ensures u in Waiters(NativeStep(s, t, phase, e).state) <==> u in Waiters(s) || (e.Wait? && u == t)
  {
    hide PoolThreadOk, JavaThreadOk, HeldOnce, SpawningOk;
  }

  lemma NativeCountsWaiters(s: State, t: JavaThread, phase: Phase, e: Event)
    requires NativeStep(s, t, phase, e).To?
    ensures NativeStep(s, t, phase, e).state.waiters == s.waiters + if e.Wait? then 1 else 0
  {
  }

  /** `waiters` counts the Java threads that are blocked without a pool thread. */
  lemma NativeKeepsWaiters(s: State, t: JavaThread, phase: Phase, e: Event)
    requires Inv(s) && s.vm == InNative(t, phase) && !e.Start? && NativeStep(s, t, phase, e).To?
    ensures var s' := NativeStep(s, t, phase, e).state; s'.waiters == |Waiters(s')|
  {
    assert t !in Waiters(s) && s.waiters == |Waiters(s)|;
    hide Inv, NativeStep, Waiters;
    NativeCountsWaiters(s, t, phase, e);
    var after := Waiters(NativeStep(s, t, phase, e).state);
    forall u ensures u in after <==> u in Waiters(s) || (e.Wait? && u == t) {
      NativeKeepsWaiter(s, t, phase, e, u);
    }
    assert after == if e.Wait? then Waiters(s) + {t} else Waiters(s);
  }

  lemma NativeKeepsVm(s: State, t: JavaThread, phase: Phase, e: Event)
    requires Inv(s) && s.vm == InNative(t, phase) && !e.Start?
    ensures var o := NativeStep(s, t, phase, e);
            o != AssertionFails && (o.To? ==> HeldOnce(o.state) && VmOk(o.state) && o.state.blocked <= o.state.infos.Keys)
  {
    assert t in s.infos ==> JavaThreadOk(s, t);
    hide PoolThreadOk, JavaThreadOk, Held, Waiters;
  }

  lemma NativeStepKeeps(s: State, t: JavaThread, phase: Phase, e: Event)
    requires Inv(s) && s.vm == InNative(t, phase) && !e.Start?
    ensures Keeps(s, NativeStep(s, t, phase, e))
  {
    hide PoolThreadOk, JavaThreadOk, HeldOnce, VmOk, Waiters;
    NativeKeepsVm(s, t, phase, e);
    var o := NativeStep(s, t, phase, e);
    if o.To? {
      forall k | 0 <= k < |o.state.pool| ensures PoolThreadOk(o.state, k) {
        NativeKeepsPoolThread(s, t, phase, e, k);
      }
      forall u | u in o.state.infos ensures JavaThreadOk(o.state, u) {
        NativeKeepsJavaThread(s, t, phase, e, u);
      }
      NativeKeepsWaiters(s, t, phase, e);
    }
    hide NativeStep;
  }

  lemma VmKeepsWaiters(s: State, e: Event)
    requires Inv(s) && !s.vm.InNative?
    ensures VmStep(s, e) != AssertionFails
    ensures VmStep(s, e).To? ==> VmStep(s, e).state.waiters == |Waiters(VmStep(s, e).state)|
  {
    hide PoolThreadOk, JavaThreadOk, HeldOnce;
    assert s.blocked == {} ==> Waiters(s) == {};
    if VmStep(s, e).To? {
      assert Waiters(VmStep(s, e).state) == Waiters(s) - if e.WakeWaiters? then e.woken else {};
    }
  }

  lemma VmKeepsJavaThread(s: State, e: Event, t: JavaThread)
    requires Inv(s) && !s.vm.InNative? && t in s.infos && VmStep(s, e).To?
    ensures JavaThreadOk(VmStep(s, e).state, t)
  {
    assert JavaThreadOk(s, t);
  }

  lemma VmStepKeeps(s: State, e: Event)
    requires Inv(s) && !s.vm.InNative?
    ensures Keeps(s, VmStep(s, e))
  {
    VmKeepsWaiters(s, e);
    var o := VmStep(s, e);
    if o.To? {
      forall k | 0 <= k < |o.state.pool| ensures PoolThreadOk(o.state, k) {
        assert PoolThreadOk(s, k);
      }
      forall u | u in o.state.infos ensures JavaThreadOk(o.state, u) {
        VmKeepsJavaThread(s, e, u);
      }
    }
  }

  /** An unused pool thread has no holder unless its holder is about to return. */
  lemma NobodyHolds(s: State, k: nat)
    requires Inv(s) && k < |s.pool| && !s.pool[k].used && !(s.vm.InNative? && s.vm.phase == Released)
    ensures forall u <- s.infos :: s.infos[u].pt != Some(k)
  {
    forall u <- s.infos ensures s.infos[u].pt != Some(k) {
      assert JavaThreadOk(s, u);
    }
  }

  lemma StartKeepsPoolThread(s: State, t: JavaThread, resources: bool, k: nat)
    requires Inv(s) && s.vm == InNative(t, Entered) && k < |s.pool|
    ensures PoolThreadOk(NativeStep(s, t, Entered, Start(resources)).state, k)
  {
    hide HeldOnce, Waiters, FreeCount;
    var s' := NativeStep(s, t, Entered, Start(resources)).state;
    assert PoolThreadOk(s, k);
    assert t in s.infos ==> JavaThreadOk(s, t);
    if s.pool[k].used {
      StillHeld(s, s', k, t);
    } else if s'.pool[k].used {
      assert s'.infos[t].pt == Some(k) || s'.vm.phase == Spawning(k);
    }
  }

  lemma StartKeepsJavaThread(s: State, t: JavaThread, resources: bool, u: JavaThread)
    requires Inv(s) && s.vm == InNative(t, Entered) && u in NativeStep(s, t, Entered, Start(resources)).state.infos
    ensures JavaThreadOk(NativeStep(s, t, Entered, Start(resources)).state, u)
  {
    hide HeldOnce, Waiters, FreeCount, Held;
    assert u in s.infos ==> JavaThreadOk(s, u);
    var k := FirstUnused(s.pool, 0);
    if k < |s.pool| {
      assert PoolThreadOk(s, k);
    }
  }

  /** After `ANI_Start`, no two records hold one pool thread. */
  lemma StartKeepsHeldOnce(s: State, t: JavaThread, resources: bool)
    requires Inv(s) && s.vm == InNative(t, Entered)
    ensures HeldOnce(NativeStep(s, t, Entered, Start(resources)).state)
  {
    hide PoolThreadOk, JavaThreadOk, Held, Waiters, FreeCount;
    var k := FirstUnused(s.pool, 0);
    if k < |s.pool| {
      NobodyHolds(s, k);
    }
  }

  lemma StartKeepsVm(s: State, t: JavaThread, resources: bool)
    requires Inv(s) && s.vm == InNative(t, Entered)
    ensures var s' := NativeStep(s, t, Entered, Start(resources)).state; VmOk(s') && s'.blocked <= s'.infos.Keys
  {
    var k := FirstUnused(s.pool, 0);
    if k < |s.pool| {
      NobodyHolds(s, k);
    }
    assert t in s.infos ==> JavaThreadOk(s, t);
    hide PoolThreadOk, JavaThreadOk, Held, HeldOnce, Waiters, FreeCount;
  }

  lemma StartKeepsWaiters(s: State, t: JavaThread, resources: bool)
    requires Inv(s) && s.vm == InNative(t, Entered)
    ensures var s' := NativeStep(s, t, Entered, Start(resources)).state; s'.waiters == |Waiters(s')|
  {
    hide PoolThreadOk, JavaThreadOk, Held, HeldOnce, FreeCount;
    assert Waiters(NativeStep(s, t, Entered, Start(resources)).state) == Waiters(s);
  }

  lemma StartKeeps(s: State, t: JavaThread, resources: bool)
    requires Inv(s) && s.vm == InNative(t, Entered)
    ensures Keeps(s, NativeStep(s, t, Entered, Start(resources)))
  {
    var s' := NativeStep(s, t, Entered, Start(resources)).state;
    hide PoolThreadOk, JavaThreadOk, HeldOnce, VmOk, Waiters, Allocate;
    forall k | 0 <= k < |s'.pool| ensures PoolThreadOk(s', k) {
      StartKeepsPoolThread(s, t, resources, k);
    }
    forall u | u in s'.infos ensures JavaThreadOk(s', u) {
      StartKeepsJavaThread(s, t, resources, u);
    }
    StartKeepsHeldOnce(s, t, resources);
    StartKeepsVm(s, t, resources);
    StartKeepsWaiters(s, t, resources);
  }

  lemma StepKeeps(s: State, e: Event)
    requires Inv(s)
    ensures Keeps(s, Step(s, e))
  {
    if IsPoolEvent(e) {
      PoolEffectKeeps(s, e);
    } else if s.vm.InNative? {
      if s.vm.phase == Entered && e.Start? {
        StartKeeps(s, s.vm.thread, e.resources);
      } else if !e.Start? {
        NativeStepKeeps(s, s.vm.thread, s.vm.phase, e);
      }
    } else {
      VmStepKeeps(s, e);
    }
  }

  /** In every run the invariant holds at every moment, and no assertion of the source fails. */
  lemma {:induction false} RunKeeps(s: State, events: seq<Event>)
    requires Inv(s)
    ensures Keeps(s, RunFrom(s, events))
  {
    if events != [] {
      RunKeeps(s, events[..|events| - 1]);
      if RunFrom(s, events[..|events| - 1]).To? {
        StepKeeps(RunFrom(s, events[..|events| - 1]).state, events[|events| - 1]);
      }
    }
  }

  lemma ReachableInv(s: State)
    requires Reachable(s)
    ensures Inv(s)
  {
    var events :| RunFrom(Initial(), events) == To(s);
    InitialInv();
    RunKeeps(Initial(), events);
  }
}
