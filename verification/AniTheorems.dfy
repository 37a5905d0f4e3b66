/**
 What the asynchronous native interface promises, for every reachable state and so for every
 interleaving of the VM thread and the pool threads.
 */
module AniTheorems {
  import opened Wrappers
  import opened AniProtocol
  import opened AniInvariants
  import opened Sets

  /**
   None of these assertions of the source can fail, whatever happens next: the pool thread is idle when execution
   starts and when it is released, blocking records are there and say what they should when they are used, a
   record that waits has no pool thread, and a Java thread is blocked when waiters are woken.
   */
  lemma AssertionsHold(s: State, e: Event)
    requires Reachable(s)
    ensures Step(s, e) != AssertionFails
  {
    ReachableInv(s);
    StepKeeps(s, e);
  }

  /** A pool thread is used exactly while one blocking record holds it, or one thread is spawning it; never two records. */
  lemma Ownership(s: State, k: nat)
    requires Reachable(s) && k < |s.pool|
    ensures forall t, u :: t in s.infos && u in s.infos && s.infos[t].pt == s.infos[u].pt == Some(k) ==> t == u
    ensures !(s.vm.InNative? && s.vm.phase == Released) ==> (s.pool[k].used <==> Held(s, k))
  {
    ReachableInv(s);
    assert PoolThreadOk(s, k);
    forall t <- s.infos ensures s.infos[t].pt == Some(k) && !(s.vm.InNative? && s.vm.phase == Released) ==> s.pool[k].used {
      assert JavaThreadOk(s, t);
    }
  }

  /** Not being idle is one token, in exactly one of three places; every started execution has run or is about to, once. */
  lemma TokenConserved(s: State, k: nat)
    requires Reachable(s) && k < |s.pool| && s.pool[k].initialized
    ensures One(!s.pool[k].idle) == One(AboutToSignal(s, k)) + s.pool[k].executes + One(s.pool[k].pc.Running?)
    ensures s.pool[k].starts == s.pool[k].runs + One(!s.pool[k].idle)
  {
    ReachableInv(s);
    assert PoolThreadOk(s, k);
  }

  /** A blocked Java thread whose pool thread has become idle again will be noticed. */
  lemma NoLostCompletion(s: State, t: JavaThread)
    requires Reachable(s) && t in s.blocked && Known(s, t) && s.pool[PtOf(s, t)].idle
    ensures CompletionKept(s, PtOf(s, t))
  {
    ReachableInv(s);
    assert JavaThreadOk(s, t);
  }

  /** The event leads to `s'` and unblocks `t`. */
  predicate Unblocks(s: State, e: Event, s': State, t: JavaThread) {
    Step(s, e) == To(s') && t in s.blocked && t !in s'.blocked
  }

  /** Java threads are unblocked in two places only. */
  lemma WhoUnblocks(s: State, e: Event, s': State, t: JavaThread)
    requires Unblocks(s, e, s', t)
    ensures t in Waiters(s) ==> FreeCount(s.pool) > 0
    ensures t !in Waiters(s) ==> s.vm.Scanning? && s.vm.next < |s.pool| && s.pool[s.vm.next].idle && t in Users(s, s.vm.next)
  {
  }

  /** Idle, with every execution that was started run to its end, and none waiting. */
  predicate Finished(p: PoolThread) {
    p.idle && p.runs == p.starts && !p.pc.Running? && p.executes == 0
  }

  /**
   A Java thread is unblocked only when everything it started has run, or, if it has no pool thread,
   because there may be one for it now.
   */
  lemma NoPrematureUnblocking(s: State, e: Event, s': State, t: JavaThread)
    requires Reachable(s) && Unblocks(s, e, s', t)
    ensures t in s.infos
    ensures s.infos[t].pt.None? ==> FreeCount(s.pool) > 0
    ensures s.infos[t].pt.Some? ==> Known(s, t) && Finished(s.pool[PtOf(s, t)])
  {
    WhoUnblocks(s, e, s', t);
    ReachableInv(s);
    if s.infos[t].pt.Some? {
      assert PoolThreadOk(s, s.vm.next);
      assert JavaThreadOk(s, t);
    }
    hide Step;
  }

  /** The counter of waiters is the number of Java threads blocked without a pool thread. */
  lemma WaitersCounted(s: State)
    requires Reachable(s)
    ensures s.waiters == |Waiters(s)|
  {
    ReachableInv(s);
  }

  lemma {:induction false} FreeCountAppend(pool: seq<PoolThread>, p: PoolThread)
    ensures FreeCount(pool + [p]) == FreeCount(pool) + if p.used then 0 else 1
  {
    if pool != [] {
      FreeCountAppend(pool[1..], p);
      assert (pool + [p])[1..] == pool[1..] + [p];
    }
  }

  /** The count of free pool threads is the number of those among the first `n` that are not used. */
  lemma {:induction false} FreeCounts(pool: seq<PoolThread>, n: nat)
    requires n <= |pool|
    ensures FreeCount(pool[..n]) == |set k | 0 <= k < n && !pool[k].used|
  {
    if n > 0 {
      FreeCounts(pool, n - 1);
      assert pool[..n] == pool[..n - 1] + [pool[n - 1]];
      FreeCountAppend(pool[..n - 1], pool[n - 1]);
      var before, after := (set k | 0 <= k < n - 1 && !pool[k].used), (set k | 0 <= k < n && !pool[k].used);
      assert after == if pool[n - 1].used then before else before + {n - 1};
    }
  }

  /** Before the VM thread waits, it unblocks as many waiters as there are free pool threads, or all if they are fewer. */
  lemma WakesAsMany(s: State, woken: set<JavaThread>, forever: bool, s': State)
    requires Reachable(s) && !s.vm.InNative? && Step(s, WakeWaiters(woken, forever)) == To(s')
    ensures s'.blocked <= s.blocked && forall t <- s.blocked - s'.blocked :: t in s.infos && s.infos[t].pt.None?
    ensures var free := |set k | 0 <= k < |s.pool| && !s.pool[k].used|;
            |s.blocked - s'.blocked| == if s.waiters < free then s.waiters else free
  {
    WaitersCounted(s);
    FreeCounts(s.pool, |s.pool|);
    assert s.pool[..|s.pool|] == s.pool;
    if s.waiters > 0 && FreeCount(s.pool) > 0 {
      assert s.blocked - s'.blocked == woken;
      SubsetSize(woken, Waiters(s));
    } else {
      assert s.blocked - s'.blocked == {};
    }
  }

  // ---------------------------------------------------------------- completion can always happen

  lemma {:induction false} RunAppend(s: State, a: seq<Event>, b: seq<Event>)
    requires RunFrom(s, a).To?
    ensures RunFrom(s, a + b) == RunFrom(RunFrom(s, a).state, b)
  {
    if b == [] {
      assert a + b == a;
    } else {
      RunAppend(s, a, b[..|b| - 1]);
      assert (a + b)[..|a + b| - 1] == a + b[..|b| - 1];
    }
  }

  /** Only pool threads have moved. */
  predicate VmUntouched(s: State, s': State) {
    s'.vm == s.vm && s'.infos == s.infos && s'.blocked == s.blocked && |s'.pool| == |s.pool|
  }

  /** How many steps pool thread `p` is away from having signalled what it still has to do. */
  function Ahead(p: PoolThread): (n: nat) {
    p.executes * 4 + (match p.pc
                      case Running(_) => 3
                      case IdleSet => 2
                      case FunctionCleared => 1
                      case _ => 0)
  }

  function NextOf(k: nat, p: PoolThread): Event {
    match p.pc
    case Running(_) => FinishFunction(k)
    case IdleSet => ClearFunction(k)
    case FunctionCleared => SignalFinished(k)
    case _ => Execute(k)
  }

  /** Left alone, a pool thread that has something to do gets to the point where it is idle and its signal is given. */
  lemma {:induction false} PoolThreadFinishes(s: State, k: nat) returns (events: seq<Event>, s': State)
    requires Inv(s) && k < |s.pool| && s.pool[k].initialized && s.pool[k].pc != Starting && !AboutToSignal(s, k)
    requires !s.pool[k].idle || CompletionKept(s, k)
    requires !s.vm.Scanning?
    ensures RunFrom(s, events) == To(s') && VmUntouched(s, s') && Inv(s') && s'.pool[k].idle && s'.finished > 0
    decreases Ahead(s.pool[k])
  {
    assert PoolThreadOk(s, k);
    if Ahead(s.pool[k]) == 0 {
      events, s' := [], s;
    } else {
      var e := NextOf(k, s.pool[k]);
      var mid := Step(s, e).state;
      StepKeeps(s, e);
      assert AboutToSignal(mid, k) == AboutToSignal(s, k);
      var rest;
      rest, s' := PoolThreadFinishes(mid, k);
      events := [e] + rest;
      assert RunFrom(s, [e]) == To(mid) by {
        assert [e][..0] == [];
      }
      RunAppend(s, [e], rest);
    }
  }

  /** The same Java threads wait for a pool thread, and the blocking records are the same. */
  ghost predicate SameWaits(s: State, s': State) {
    s'.infos == s.infos && Waiters(s') == Waiters(s) && |s'.pool| == |s.pool|
  }

  lemma ScanOne(s: State)
    requires Inv(s) && s.vm.Scanning?
    ensures Step(s, Scan).To? && Inv(Step(s, Scan).state) && SameWaits(s, Step(s, Scan).state)
    ensures Step(s, Scan).state.pool == s.pool
    ensures Step(s, Scan).state.vm == if s.vm.next < |s.pool| then Scanning(s.vm.next + 1) else Free
  {
    StepKeeps(s, Scan);
  }

  /** A scan that finds the pool thread idle and has not passed it yet unblocks whoever waits for it. */
  lemma {:induction false} ScanFinds(s: State, t: JavaThread) returns (events: seq<Event>, s': State)
    requires Inv(s) && s.vm.Scanning? && Known(s, t) && s.vm.next <= PtOf(s, t) && s.pool[PtOf(s, t)].idle
    ensures RunFrom(s, events) == To(s') && t !in s'.blocked && Inv(s') && s'.vm.Scanning? && SameWaits(s, s')
    decreases PtOf(s, t) - s.vm.next
  {
    var mid := Step(s, Scan).state;
    ScanOne(s);
    assert RunFrom(s, [Scan]) == To(mid) by {
      assert [Scan][..0] == [];
    }
    if s.vm.next == PtOf(s, t) {
      events, s' := [Scan], mid;
    } else {
      var rest;
      rest, s' := ScanFinds(mid, t);
      events := [Scan] + rest;
      RunAppend(s, [Scan], rest);
    }
  }

  /** While the VM thread waits for a finish, even forever, every Java thread that waits for its pool thread can still be unblocked. */
  lemma CompletionPossible(s: State, t: JavaThread) returns (events: seq<Event>, s': State)
    requires Reachable(s) && s.vm.AwaitingFinish? && t in s.blocked && Known(s, t)
    ensures RunFrom(s, events) == To(s') && t !in s'.blocked
  {
    ReachableInv(s);
    assert JavaThreadOk(s, t);
    var a, mid := PoolThreadFinishes(s, PtOf(s, t));
    var scanning := Step(mid, ConsumeFinished).state;
    StepKeeps(mid, ConsumeFinished);
    var rest;
    rest, s' := ScanFinds(scanning, t);
    assert RunFrom(mid, [ConsumeFinished]) == To(scanning) by {
      assert [ConsumeFinished][..0] == [];
    }
    RunAppend(mid, [ConsumeFinished], rest);
    RunAppend(s, a, [ConsumeFinished] + rest);
    events := a + ([ConsumeFinished] + rest);
  }

  // ---------------------------------------------------------------- waiting for a pool thread

  /** `s'` can be reached from `s`. */
  ghost predicate Leads(s: State, s': State) {
    exists events :: RunFrom(s, events) == To(s')
  }

  lemma LeadsByStep(s: State, e: Event, s': State)
    requires Step(s, e) == To(s')
    ensures Leads(s, s')
  {
    assert [e][..0] == [];
    assert RunFrom(s, [e]) == To(s');
  }

  lemma LeadsOn(s: State, mid: State, s': State)
    requires Leads(s, mid) && Leads(mid, s')
    ensures Leads(s, s')
  {
    var a :| RunFrom(s, a) == To(mid);
    var b :| RunFrom(mid, b) == To(s');
    RunAppend(s, a, b);
    assert RunFrom(s, a + b) == To(s');
  }

  lemma {:induction false} FreeMeansUnused(pool: seq<PoolThread>)
    ensures FreeCount(pool) == 0 <==> forall k :: 0 <= k < |pool| ==> pool[k].used
  {
    if pool != [] {
      FreeMeansUnused(pool[1..]);
      assert forall k :: 0 < k < |pool| ==> pool[k] == pool[1..][k - 1];
      assert forall k :: 0 <= k < |pool| - 1 ==> pool[1..][k] == pool[k + 1];
    }
  }

  lemma {:induction false} FreeCountUpdated(pool: seq<PoolThread>, k: nat, p: PoolThread)
    requires k < |pool| && p.used == pool[k].used
    ensures FreeCount(pool[k := p]) == FreeCount(pool)
  {
    if k == 0 {
      assert pool[k := p][1..] == pool[1..];
    } else {
      FreeCountUpdated(pool[1..], k - 1, p);
      assert pool[k := p][1..] == pool[1..][k - 1 := p];
    }
  }

  /** The VM thread waits forever only if nobody waits for a pool thread that is free. */
  ghost predicate Watchful(s: State) {
    |s.pool| == NUM_POOL_THREADS && (s.vm == AwaitingFinish(true) ==> s.waiters <= 0 || FreeCount(s.pool) == 0)
  }

  lemma StepKeepsWatchful(s: State, e: Event)
    requires Watchful(s) && Step(s, e).To?
    ensures Watchful(Step(s, e).state)
  {
    if IsPoolEvent(e) {
      var p := PoolStep(s.pool[e.k], e).value;
      FreeCountUpdated(s.pool, e.k, p);
    }
    hide FreeCount;
  }

  lemma {:induction false} RunKeepsWatchful(s: State, events: seq<Event>)
    requires Watchful(s) && RunFrom(s, events).To?
    ensures Watchful(RunFrom(s, events).state)
  {
    if events != [] {
      RunKeepsWatchful(s, events[..|events| - 1]);
      StepKeepsWatchful(RunFrom(s, events[..|events| - 1]).state, events[|events| - 1]);
      hide Step, Watchful;
    }
  }

  /** Something that the VM thread can wait for: a signal that has been given, or a pool thread on its way to one. */
  ghost predicate CanMove(s: State) {
    s.finished > 0 || exists k :: 0 <= k < |s.pool| && Ahead(s.pool[k]) > 0
  }

  /** There is, if a Java thread waits for its pool thread to finish. */
  lemma BlockedUserMoves(s: State, u: JavaThread)
    requires Reachable(s) && s.vm.AwaitingFinish? && u in s.blocked && Known(s, u)
    ensures CanMove(s)
  {
    ReachableInv(s);
    assert JavaThreadOk(s, u);
    assert PoolThreadOk(s, PtOf(s, u));
    assert Ahead(s.pool[PtOf(s, u)]) > 0 || s.finished > 0;
  }

  /** Otherwise a VM thread that waits forever does so, and nothing else happens either. */
  lemma NothingMoves(s: State, e: Event)
    requires Inv(s) && s.vm == AwaitingFinish(true) && !CanMove(s)
    ensures Step(s, e) == Disabled
  {
    if IsPoolEvent(e) && e.k < |s.pool| {
      assert PoolThreadOk(s, e.k);
      assert Ahead(s.pool[e.k]) == 0;
    }
  }

  lemma {:induction false} ScanEnds(s: State) returns (s': State)
    requires Inv(s) && s.vm.Scanning?
    ensures Leads(s, s') && Inv(s') && s'.vm == Free && SameWaits(s, s') && s'.blocked <= s.blocked
    decreases if s.vm.next <= |s.pool| then |s.pool| - s.vm.next else 0
  {
    var mid := Step(s, Scan).state;
    ScanOne(s);
    LeadsByStep(s, Scan, mid);
    assert mid.blocked <= s.blocked;
    if s.vm.next < |s.pool| {
      s' := ScanEnds(mid);
      LeadsOn(s, mid, s');
    } else {
      s' := mid;
    }
  }

  /** Once the signal is given, the VM thread takes it and scans; the given Java thread is unblocked if its pool thread is idle. */
  lemma TakesSignal(s: State, u: JavaThread) returns (s': State)
    requires Inv(s) && s.vm.AwaitingFinish? && s.finished > 0
    ensures Leads(s, s') && Inv(s') && s'.vm == Free && SameWaits(s, s')
    ensures Known(s, u) && s.pool[PtOf(s, u)].idle ==> u !in s'.blocked
  {
    var scanning := Step(s, ConsumeFinished).state;
    StepKeeps(s, ConsumeFinished);
    assert SameWaits(s, scanning);
    LeadsByStep(s, ConsumeFinished, scanning);
    var mid := scanning;
    hide Inv, Step;
    if Known(s, u) && s.pool[PtOf(s, u)].idle {
      var events;
      events, mid := ScanFinds(scanning, u);
      assert Leads(scanning, mid);
      LeadsOn(s, scanning, mid);
    }
    s' := ScanEnds(mid);
    LeadsOn(s, mid, s');
  }

  /** A VM thread that waits gets free if it may time out or something can move. */
  lemma GetsFree(s: State) returns (s': State)
    requires Inv(s) && s.vm.AwaitingFinish? && (s.vm == AwaitingFinish(false) || CanMove(s))
    ensures Leads(s, s') && Inv(s') && s'.vm == Free && SameWaits(s, s')
  {
    if s.vm == AwaitingFinish(false) {
      s' := Step(s, TimeOut).state;
      StepKeeps(s, TimeOut);
      LeadsByStep(s, TimeOut, s');
    } else {
      var mid := s;
      if s.finished == 0 {
        var k :| 0 <= k < |s.pool| && Ahead(s.pool[k]) > 0;
        assert PoolThreadOk(s, k);
        var events;
        events, mid := PoolThreadFinishes(s, k);
      }
      assert SameWaits(s, mid) && Leads(s, mid) by {
        assert RunFrom(s, []) == To(s);
      }
      s' := TakesSignal(mid, 0);
      LeadsOn(s, mid, s');
    }
  }

  /** While no pool thread is free, a Java thread that waits for its pool thread can be unblocked and the VM thread be free again. */
  lemma UserUnblocks(s: State, u: JavaThread) returns (s': State)
    requires Inv(s) && s.vm == Free && FreeCount(s.pool) == 0 && Known(s, u)
    ensures Leads(s, s') && Inv(s') && s'.vm == Free && SameWaits(s, s') && u !in s'.blocked
  {
    assert Leads(s, s) by {
      assert RunFrom(s, []) == To(s);
    }
    if u !in s.blocked {
      s' := s;
    } else {
      var e := WakeWaiters({}, true);
      var waiting := Step(s, e).state;
      StepKeeps(s, e);
      LeadsByStep(s, e, waiting);
      assert SameWaits(s, waiting);
      assert JavaThreadOk(waiting, u);
      var events, mid := PoolThreadFinishes(waiting, PtOf(s, u));
      hide Step, Inv, JavaThreadOk;
      assert Leads(waiting, mid);
      assert SameWaits(waiting, mid);
      LeadsOn(s, waiting, mid);
      s' := TakesSignal(mid, u);
      LeadsOn(s, mid, s');
    }
  }

  /** A Java thread that is not blocked can enter its native method, which goes on with the pool thread it has. */
  lemma UserEnters(s: State, u: JavaThread) returns (s': State)
    requires Inv(s) && s.vm == Free && Known(s, u) && u !in s.blocked
    ensures Leads(s, s') && Inv(s') && s'.vm == InNative(u, Started(false)) && Waiters(s') == Waiters(s)
    ensures Known(s', u) && PtOf(s', u) == PtOf(s, u) && |s'.pool| == |s.pool|
  {
    var entered := Step(s, Enter(u)).state;
    StepKeeps(s, Enter(u));
    LeadsByStep(s, Enter(u), entered);
    s' := Step(entered, Start(true)).state;
    StepKeeps(entered, Start(true));
    LeadsByStep(entered, Start(true), s');
    assert Waiters(s') == Waiters(s);
    LeadsOn(s, entered, s');
  }

  /** A native method that has not asked for execution can end, which frees its pool thread. */
  lemma UserEnds(s: State, u: JavaThread) returns (s': State)
    requires Inv(s) && s.vm == InNative(u, Started(false)) && Known(s, u)
    ensures Leads(s, s') && Inv(s') && s'.vm == Free && Waiters(s') == Waiters(s)
    ensures PtOf(s, u) < |s'.pool| && !s'.pool[PtOf(s, u)].used
  {
    assert JavaThreadOk(s, u);
    var released := Step(s, End).state;
    StepKeeps(s, End);
    LeadsByStep(s, End, released);
    s' := Step(released, Return).state;
    StepKeeps(released, Return);
    LeadsByStep(released, Return, s');
    assert Waiters(s') == Waiters(s);
    LeadsOn(s, released, s');
  }

  /** As many waiters as can be woken, the given one among them. */
  lemma {:induction false} BatchWith(t: JavaThread, waiters: set<JavaThread>, free: nat) returns (woken: set<JavaThread>)
    requires t in waiters && free > 0
    ensures IsBatch(woken, waiters, free) && t in woken
    decreases free
  {
    if |waiters| <= free {
      woken := waiters;
    } else if free == 1 {
      woken := {t};
    } else {
      var rest := BatchWith(t, waiters, free - 1);
      SubsetLacks(rest, waiters);
      var u :| u in waiters && u !in rest;
      woken := rest + {u};
    }
  }

  lemma WaiterWakes(s: State, t: JavaThread) returns (s': State)
    requires Inv(s) && s.vm == Free && t in Waiters(s) && FreeCount(s.pool) > 0
    ensures Leads(s, s') && t !in s'.blocked
  {
    var woken := BatchWith(t, Waiters(s), FreeCount(s.pool));
    assert s.waiters > 0 by {
      assert |{t}| <= |Waiters(s)| by {
        SubsetSize({t}, Waiters(s));
      }
    }
    s' := Step(s, WakeWaiters(woken, false)).state;
    LeadsByStep(s, WakeWaiters(woken, false), s');
  }

  lemma WatchfulWhenReachable(s: State)
    requires Reachable(s)
    ensures Watchful(s)
  {
    var events :| RunFrom(Initial(), events) == To(s);
    RunKeepsWatchful(Initial(), events);
  }

  lemma {:induction false} NothingHappens(s: State, events: seq<Event>)
    requires Inv(s) && s.vm == AwaitingFinish(true) && !CanMove(s) && events != []
    ensures RunFrom(s, events) == Disabled
  {
    var init := events[..|events| - 1];
    NothingMoves(s, events[|events| - 1]);
    if init != [] {
      NothingHappens(s, init);
    }
  }

  lemma StaysPut(s: State, s': State)
    requires Inv(s) && s.vm == AwaitingFinish(true) && !CanMove(s) && Leads(s, s')
    ensures s' == s
  {
    var events :| RunFrom(s, events) == To(s');
    if events != [] {
      NothingHappens(s, events);
      assert false;
    }
  }

  lemma WaiterIsWoken(s: State, t: JavaThread) returns (s': State)
    requires Inv(s) && Watchful(s) && s.vm.AwaitingFinish? && t in Waiters(s) && (s.vm == AwaitingFinish(false) || CanMove(s))
    ensures Leads(s, s') && t !in s'.blocked
  {
    var ready := GetsFree(s);
    assert t in Waiters(ready);
    if FreeCount(ready.pool) == 0 {
      FreeMeansUnused(ready.pool);
      assert PoolThreadOk(ready, 0);
      var u :| u in ready.infos && ready.infos[u].pt == Some(0);
      var unblocked := UserUnblocks(ready, u);
      LeadsOn(s, ready, unblocked);
      var started := UserEnters(unblocked, u);
      LeadsOn(s, unblocked, started);
      ready := UserEnds(started, u);
      LeadsOn(s, started, ready);
      FreeMeansUnused(ready.pool);
    }
    s' := WaiterWakes(ready, t);
    LeadsOn(s, ready, s');
  }

  /**
   While the VM thread waits forever no pool thread is free for those that wait for one; nevertheless each can
   still be woken, exactly if anything can move at all.
   */
  lemma WaiterCanBeWoken(s: State, t: JavaThread)
    requires Reachable(s) && s.vm.AwaitingFinish? && t in Waiters(s)
    ensures s.vm == AwaitingFinish(true) ==> FreeCount(s.pool) == 0
    ensures (exists s' :: Leads(s, s') && t !in s'.blocked) <==> s.vm == AwaitingFinish(false) || CanMove(s)
  {
    ReachableInv(s);
    WatchfulWhenReachable(s);
    SubsetSize({t}, Waiters(s));
    if s.vm == AwaitingFinish(false) || CanMove(s) {
      var s' := WaiterIsWoken(s, t);
    } else {
      forall s' | Leads(s, s') ensures s' == s {
        StaysPut(s, s');
      }
    }
  }
}
