/** Every kernel entry of the scheduler keeps the invariant, and exactly which tasks it conserves or drops. */
module SchedulingSteps {
  import opened Machine
  import opened SleepHeap
  import opened Scheduling
  import opened SchedulingProofs

  // ---- round_robin ----

  lemma FirstLiveIff(ready: seq<nat>, state: seq<TaskState>)
    requires AllWaiting(ready, state)
    ensures FirstLive(ready, state) < |ready| <==> exists t :: t in ready && t < |state| && IsLive(state[t])
  {
    var k := FirstLive(ready, state);
    if k < |ready| {
      assert ready[k] in ready;
    }
  }

  /** Something can be dispatched: the current task, a live ready task, or a sleeper that is due. */
  ghost predicate CanRun(s: Sched, tick: nat) {
    || s.current.To?
    || (exists t :: t in s.ready && t < |s.state| && IsLive(s.state[t]))
    || (exists t :: t in s.sleep && Due(s.wake, t) <= tick)
  }

  lemma AfterWake(s: Sched, tick: nat)
    requires Inv(s)
    ensures var r := Requeue(WakeDue(s, tick));
            && Inv(r) && r.current == Null && Members(r) == Members(s)
            && r.ready == s.ready + Woken(s.sleep, s.wake, tick) + (if s.current.To? then [s.current.slot] else [])
            && (forall t :: t in s.ready && t < |s.state| ==> t < |r.state| && r.state[t] == s.state[t])
  {
    hide IsHeap, Due, WakeDue, Members;
    WakeInv(s, tick);
    WakeClosed(s, tick);
    RequeueInv(WakeDue(s, tick));
    var woken := Woken(s.sleep, s.wake, tick);
    WokenInSleep(s, tick);
    var w := WakeDue(s, tick);
    if s.current.To? {
      assert w.state[s.current.slot := Running] == w.state;
    } else {
      assert s.ready + woken + [] == s.ready + woken;
    }
    forall t | t in s.ready && t < |s.state|
      ensures w.state[t] == s.state[t]
    {
      InTwoPlaces(s, t);
    }
  }

  lemma InTwoPlaces(s: Sched, t: nat)
    requires Unique(s) && t in s.ready
    ensures t !in s.sleep
  {
    assert t in s.sleep ==> Members(s)[t] >= 2;
  }

  lemma CanRunMeansLive(s: Sched, tick: nat)
    requires Inv(s)
    ensures var r := Requeue(WakeDue(s, tick));
            CanRun(s, tick) <==> exists t :: t in r.ready && t < |r.state| && IsLive(r.state[t])
  {
    hide IsHeap, Due, WakeDue, Requeue, Members, Unique, InTable;
    AfterWake(s, tick);
    var r := Requeue(WakeDue(s, tick));
    var woken := Woken(s.sleep, s.wake, tick);
    WokenInSleep(s, tick);
    WokenSplit(s.sleep, s.wake, tick);
    WokenAreLive(s, tick);
    if CanRun(s, tick) {
      if s.current.To? {
        assert s.current.slot in r.ready;
      } else if exists t :: t in s.ready && t < |s.state| && IsLive(s.state[t]) {
        var t :| t in s.ready && t < |s.state| && IsLive(s.state[t]);
        assert t in r.ready;
      } else {
        var t :| t in s.sleep && Due(s.wake, t) <= tick;
        assert t in woken;
        assert t in r.ready;
      }
    }
  }

  lemma WokenAreLive(s: Sched, tick: nat)
    requires Inv(s)
    ensures var r := Requeue(WakeDue(s, tick));
            && (forall t :: t in Woken(s.sleep, s.wake, tick) ==> t < |r.state| && IsLive(r.state[t]))
            && (s.current.To? ==> s.current.slot < |r.state| && IsLive(r.state[s.current.slot]))
  {
    hide IsHeap, Due, WakeDue, Members, Unique, InTable;
    WakeClosed(s, tick);
    var woken := Woken(s.sleep, s.wake, tick);
    WokenInSleep(s, tick);
    assert forall t :: t in woken ==> t < |s.state|;
    var w := WakeDue(s, tick);
    assert Requeue(w).state == w.state by {
      if w.current.To? {
        assert w.state[w.current.slot := Running] == w.state;
      }
    }
  }

  lemma WokenInSleep(s: Sched, tick: nat)
    requires IsHeap(s.sleep, s.wake)
    ensures forall t :: t in Woken(s.sleep, s.wake, tick) ==> t in s.sleep
    ensures forall t :: t in s.sleep && Due(s.wake, t) <= tick ==> t in Woken(s.sleep, s.wake, tick)
  {
    hide IsHeap, Due, Woken, StillAsleep;
    WokenExactly(s.sleep, s.wake, tick);
    var woken, rest := Woken(s.sleep, s.wake, tick), StillAsleep(s.sleep, s.wake, tick);
    forall t | t in woken
      ensures t in s.sleep
    {
      assert t in multiset(woken);
      assert t in multiset(s.sleep);
    }
    forall t | t in s.sleep && Due(s.wake, t) <= tick
      ensures t in woken
    {
      assert t in multiset(s.sleep);
      assert t in multiset(woken) || t in multiset(rest);
    }
  }

  /** `round_robin` panics exactly when nothing can run; otherwise it keeps the invariant and conserves
      every task. */
  lemma RoundRobinInv(s: Sched, tick: nat)
    requires Inv(s)
    ensures RoundRobin(s, tick).Go? <==> CanRun(s, tick)
    ensures RoundRobin(s, tick).Go? ==>
              var s' := RoundRobin(s, tick).sched;
              Inv(s') && Members(s') == Members(s) && s'.current.To?
  {
    hide IsHeap, Due, WakeDue, Requeue, Members, Dispatch, CanRun, FirstLive;
    var r := Requeue(WakeDue(s, tick));
    AfterWake(s, tick);
    CanRunMeansLive(s, tick);
    FirstLiveIff(r.ready, r.state);
    DispatchClosed(r);
    if FirstLive(r.ready, r.state) < |r.ready| {
      DispatchInv(r);
    }
  }

  /** A current task that is not running is simply overwritten. */
  lemma Detached(s: Sched, tick: nat)
    requires s.current.To? && Inv(s.(current := Null))
    requires StateOf(WakeDue(s, tick), s.current.slot) != Running
    ensures RoundRobin(s, tick) == RoundRobin(s.(current := Null), tick)
  {
    hide IsHeap, Due, WakeDue, Members, Dispatch;
    var n := s.(current := Null);
    WakeClosed(s, tick);
    WakeClosed(n, tick);
    WakeInv(n, tick);
    DispatchClosed(WakeDue(s, tick));
    DispatchClosed(WakeDue(n, tick));
  }

  // ---- schedule and yield ----

  /** Scheduling away from a running current task conserves every task. */
  lemma ScheduleInv(s: Sched, tick: nat)
    requires Inv(s) && s.current.To?
    ensures Schedule(s, tick).Go?
    ensures var s' := Schedule(s, tick).sched;
            Inv(s') && Members(s') == Members(s) && s'.current.To?
  {
    hide RoundRobin, Inv, Members;
    RoundRobinInv(s, tick);
  }

  /** The task dropped by the first dispatch: a ready head that is not running yet. */
  ghost function FirstDropped(s: Sched): multiset<nat> {
    if s.ready != [] && StateOf(s, s.ready[0]) != Running then multiset{s.ready[0]} else multiset{}
  }

  /** The scheduler once the first dispatch has dropped that task. */
  ghost function AfterDrop(s: Sched): Sched {
    if s.ready != [] && StateOf(s, s.ready[0]) != Running then s.(ready := s.ready[1..]) else s
  }

  /** With no current task, the head of the ready queue is taken out; unless it is running it is lost. The
      dispatch panics exactly when nothing else can run. */
  lemma FirstScheduleInv(s: Sched, tick: nat)
    requires Inv(s) && s.current == Null
    ensures Schedule(s, tick).Go? <==> CanRun(AfterDrop(s), tick)
    ensures Schedule(s, tick).Go? ==>
              var s' := Schedule(s, tick).sched;
              Inv(s') && Members(s') == Members(s) - FirstDropped(s) && s'.current.To?
  {
    hide RoundRobin, IsHeap, WakeDue, Due, Unique, InTable, Waiting, Members;
    if s.ready == [] {
      RoundRobinInv(s, tick);
    } else {
      var h := s.ready[0];
      var n := s.(ready := s.ready[1..]);
      HeadTaken(s);
      if s.state[h] == Running {
        RoundRobinInv(TakeFirst(s), tick);
        assert h in s.ready && IsLive(s.state[h]);
      } else {
        assert TakeFirst(s) == n.(current := To(h));
        WakeSpares(n.(current := To(h)), tick, h);
        Detached(n.(current := To(h)), tick);
        assert n.(current := To(h)).(current := Null) == n;
        RoundRobinInv(n, tick);
      }
    }
  }

  lemma HeadTaken(s: Sched)
    requires Inv(s) && s.current == Null && s.ready != []
    ensures var n := s.(ready := s.ready[1..]);
            && Inv(n) && Members(n) == Members(s) - multiset{s.ready[0]}
            && s.ready[0] < |s.state| && s.ready[0] !in s.sleep
            && (s.state[s.ready[0]] == Running ==> Inv(TakeFirst(s)) && Members(TakeFirst(s)) == Members(s))
  {
    hide IsHeap, Unique, InTable, StatesFit, Members;
    ReadyOnce(s, 0);
    HeadTakenMembers(s);
    HeadTakenStates(s);
    KeepsPlaces(s, s.(ready := s.ready[1..]));
    KeepsPlaces(s, TakeFirst(s));
  }

  lemma HeadTakenMembers(s: Sched)
    requires s.current == Null && s.ready != []
    ensures Members(TakeFirst(s)) == Members(s)
    ensures Members(s.(ready := s.ready[1..])) == Members(s) - multiset{s.ready[0]}
  {
    HeadOff(s.ready);
  }

  lemma HeadTakenStates(s: Sched)
    requires StatesFit(s) && s.current == Null && s.ready != []
    ensures StatesFit(s.(ready := s.ready[1..])) && s.ready[0] < |s.state|
    ensures s.state[s.ready[0]] == Running ==> StatesFit(TakeFirst(s))
  {
    HeadOff(s.ready);
  }

  /** The wake loop does not touch a task that is not asleep. */
  lemma WakeSpares(s: Sched, tick: nat, t: nat)
    requires IsHeap(s.sleep, s.wake) && t !in s.sleep
    ensures StateOf(WakeDue(s, tick), t) == StateOf(s, t)
  {
    hide IsHeap, Due, WakeDue;
    WakeClosed(s, tick);
    WokenExactly(s.sleep, s.wake, tick);
    assert t in Woken(s.sleep, s.wake, tick) ==> t in multiset(s.sleep);
  }

  // ---- exit ----

  lemma WithoutCurrent(s: Sched)
    requires Inv(s) && s.current.To?
    ensures var n := s.(current := Null);
            && Inv(n) && Members(s) == Members(n) + multiset{s.current.slot}
            && s.current.slot !in Members(n) && s.current.slot !in s.sleep && s.current.slot !in s.ready
            && s.current.slot < |s.state| && s.current.slot < |s.wake|
            && s.current.slot < |s.pid| && s.pid[s.current.slot] == s.current.slot
  {
    hide IsHeap;
    var c := s.current.slot;
    assert Members(s)[c] <= 1 && c in Members(s);
    var n := s.(current := Null);
    assert Members(s) == Members(n) + multiset{c};
    KeepsPlaces(s, n);
  }

  /** Changing the state of a task the scheduler does not hold keeps the invariant. */
  lemma UnheldState(s: Sched, t: nat, v: TaskState)
    requires Inv(s) && t !in Members(s)
    ensures Inv(SetState(s, t, v)) && Members(SetState(s, t, v)) == Members(s)
  {
    hide IsHeap, Unique, InTable;
    Unheld(s, t);
    var s' := SetState(s, t, v);
    assert Members(s') == Members(s);
    KeepsPlaces(s, s');
  }

  /** Exit drops exactly the exiting task: it reaches no queue, so nobody cleans it. */
  lemma ExitInv(s: Sched, tick: nat)
    requires Inv(s) && s.current.To?
    ensures Exit(s, tick).Go? <==> CanRun(s.(current := Null), tick)
    ensures Exit(s, tick).Go? ==>
              var s' := Exit(s, tick).sched;
              Inv(s') && Members(s') == Members(s) - multiset{s.current.slot} && s'.current.To?
  {
    hide RoundRobin, IsHeap, Members, WakeDue, Due;
    var c := s.current.slot;
    WithoutCurrent(s);
    var n := s.(current := Null);
    var z := SetState(n, c, Zombie);
    UnheldState(n, c, Zombie);
    assert SetState(s, c, Zombie) == z.(current := To(c));
    WakeSpares(z.(current := To(c)), tick, c);
    Detached(z.(current := To(c)), tick);
    assert z.(current := To(c)).(current := Null) == z;
    RoundRobinInv(z, tick);
    CanRunSame(n, z, c, tick);
  }

  lemma CanRunSame(n: Sched, z: Sched, c: nat, tick: nat)
    requires z == SetState(n, c, Zombie) && c !in n.ready
    ensures CanRun(z, tick) <==> CanRun(n, tick)
  {
    hide Due;
    assert forall t :: t in n.ready && t < |n.state| ==> z.state[t] == n.state[t];
  }

  // ---- sleep ----

  /** The current task leaves for the sleep queue; a full queue loses it. */
  lemma AsleepInv(s: Sched, ms: nat, hz: nat, tick: nat)
    requires Inv(s) && s.current.To?
    ensures var n := PutToSleep(s, ms, hz, tick).(current := Null);
            && Inv(n)
            && Members(n) == (if |s.sleep| == MAX_SLEEP_TASKS then Members(s) - multiset{s.current.slot}
              else Members(s))
            && StateOf(n, s.current.slot) == Sleeping
            && Due(n.wake, s.current.slot) == (tick + SleepTicks(ms, hz)) % WORD
  {
    hide IsHeap, SleepTicks, Push, Members, Unique, InTable, StatesFit;
    var c := s.current.slot;
    WithoutCurrent(s);
    var wake := s.wake[c := (tick + SleepTicks(ms, hz)) % WORD];
    var n := s.(current := Null);
    HeapFrame(s.sleep, s.wake, wake);
    PushHeap(s.sleep, wake, MAX_SLEEP_TASKS, c);
    var n1 := SetState(n, c, Sleeping);
    UnheldState(n, c, Sleeping);
    var n2 := n1.(wake := wake, sleep := Push(s.sleep, wake, MAX_SLEEP_TASKS, c));
    assert n2 == PutToSleep(s, ms, hz, tick).(current := Null);
    PushedInv(n1, n2, c);
  }

  lemma PushedInv(n1: Sched, n2: Sched, c: nat)
    requires Inv(n1) && n1.current == Null && c !in Members(n1) && c < |n1.state| && n1.state[c] == Sleeping
    requires c < |n1.pid| && n1.pid[c] == c
    requires n2 == n1.(wake := n2.wake, sleep := n2.sleep) && |n2.wake| == |n1.wake| && IsHeap(n2.sleep, n2.wake)
    requires multiset(n2.sleep) == multiset(n1.sleep)
              + (if |n1.sleep| == MAX_SLEEP_TASKS then multiset{} else multiset{c})
    ensures Inv(n2)
    ensures Members(n2) == Members(n1) + (if |n1.sleep| == MAX_SLEEP_TASKS then multiset{} else multiset{c})
  {
    hide IsHeap, StatesFit;
    assert |n2.sleep| == |multiset(n2.sleep)| && |n1.sleep| == |multiset(n1.sleep)|;
    assert Members(n2) == Members(n1) + (if |n1.sleep| == MAX_SLEEP_TASKS then multiset{} else multiset{c});
    PushedStates(n1, n2, c);
  }

  lemma PushedStates(n1: Sched, n2: Sched, c: nat)
    requires StatesFit(n1) && c < |n1.state| && n1.state[c] == Sleeping
    requires n2 == n1.(wake := n2.wake, sleep := n2.sleep)
    requires multiset(n2.sleep) <= multiset(n1.sleep) + multiset{c}
    ensures StatesFit(n2)
  {
    forall t | t in n2.sleep
      ensures t == c || t in n1.sleep
    {
      assert t in multiset(n2.sleep);
    }
  }

  /** What a caller can check: the wake tick does not wrap, or the sleep queue is full and drops the caller. */
  predicate SleepGuard(s: Sched, ms: nat, hz: nat, tick: nat) {
    |s.sleep| == MAX_SLEEP_TASKS || tick + SleepTicks(ms, hz) < WORD
  }

  /** The caller is not woken by the call that put it to sleep. */
  lemma StaysAsleep(s: Sched, ms: nat, hz: nat, tick: nat)
    requires Inv(s) && s.current.To? && SleepGuard(s, ms, hz, tick)
    ensures StateOf(WakeDue(PutToSleep(s, ms, hz, tick), tick), s.current.slot) == Sleeping
  {
    hide IsHeap, WakeDue, Members, Unique, InTable, StatesFit, SleepTicks;
    var c := s.current.slot;
    WithoutCurrent(s);
    AsleepInv(s, ms, hz, tick);
    var p := PutToSleep(s, ms, hz, tick);
    if |s.sleep| == MAX_SLEEP_TASKS {
      WakeSpares(p, tick, c);
    } else {
      WakeSparesLater(p, tick, c);
    }
  }

  /** A sleeping call conserves every task unless the sleep queue was full; it panics exactly when nothing but
      the caller can run. */
  lemma SleepInv(s: Sched, ms: nat, hz: nat, tick: nat)
    requires Inv(s) && s.current.To? && SleepGuard(s, ms, hz, tick)
    ensures Sleep(s, ms, hz, tick).Go? <==> CanRun(s.(current := Null), tick)
    ensures Sleep(s, ms, hz, tick).Go? ==>
              var s' := Sleep(s, ms, hz, tick).sched;
              && Inv(s') && s'.current.To?
              && Members(s') == (if |s.sleep| == MAX_SLEEP_TASKS then Members(s) - multiset{s.current.slot}
                else Members(s))
  {
    hide RoundRobin, IsHeap, Members, WakeDue, PutToSleep, SleepTicks;
    var c := s.current.slot;
    AsleepInv(s, ms, hz, tick);
    var p := PutToSleep(s, ms, hz, tick);
    assert p.current == To(c) by { PutToSleepKeepsCurrent(s, ms, hz, tick); }
    var n := p.(current := Null);
    StaysAsleep(s, ms, hz, tick);
    Detached(p, tick);
    RoundRobinInv(n, tick);
    CanRunAsleep(s, ms, hz, tick);
  }

  /** A caller that is put to sleep past `tick` adds nothing that can run. */
  lemma CanRunAsleep(s: Sched, ms: nat, hz: nat, tick: nat)
    requires Inv(s) && s.current.To? && SleepGuard(s, ms, hz, tick)
    ensures CanRun(PutToSleep(s, ms, hz, tick).(current := Null), tick) <==> CanRun(s.(current := Null), tick)
  {
    hide IsHeap, SleepTicks, Push, Members, Unique, InTable, StatesFit;
    var c := s.current.slot;
    WithoutCurrent(s);
    var wake := s.wake[c := (tick + SleepTicks(ms, hz)) % WORD];
    HeapFrame(s.sleep, s.wake, wake);
    PushHeap(s.sleep, wake, MAX_SLEEP_TASKS, c);
    var o, n := s.(current := Null), PutToSleep(s, ms, hz, tick).(current := Null);
    assert n.sleep == Push(s.sleep, wake, MAX_SLEEP_TASKS, c) && n.wake == wake && n.ready == o.ready;
    SameSleepers(o.sleep, n.sleep, c);
    assert forall t :: t in o.ready && t < |o.state| ==> n.state[t] == o.state[t];
    assert forall t: nat :: t != c ==> Due(wake, t) == Due(s.wake, t);
  }

  lemma SameSleepers(xs: seq<nat>, ys: seq<nat>, c: nat)
    requires multiset(ys) == multiset(xs) || multiset(ys) == multiset(xs) + multiset{c}
    ensures forall t :: t != c ==> (t in xs <==> t in ys)
  {
    forall t | t != c
      ensures t in xs <==> t in ys
    {
      assert t in xs <==> t in multiset(xs);
      assert t in ys <==> t in multiset(ys);
    }
  }

  lemma PutToSleepKeepsCurrent(s: Sched, ms: nat, hz: nat, tick: nat)
    requires s.current.To?
    ensures PutToSleep(s, ms, hz, tick).current == s.current
  {
  }

  /** The wake loop does not touch a sleeper that is not due. */
  lemma WakeSparesLater(s: Sched, tick: nat, t: nat)
    requires IsHeap(s.sleep, s.wake) && Due(s.wake, t) > tick
    ensures StateOf(WakeDue(s, tick), t) == StateOf(s, t)
  {
    hide IsHeap, Due, WakeDue;
    WakeClosed(s, tick);
    WokenExactly(s.sleep, s.wake, tick);
  }

  // ---- spawn and clean ----

  lemma SpawnInv(s: Sched, mode: Mode, parent: Ptr)
    requires Inv(s)
    ensures Inv(Spawn(s, mode, parent))
    ensures var t := FreeSlot(s.state, 0);
            Members(Spawn(s, mode, parent)) == Members(s) + (if t < |s.state| then multiset{t} else multiset{})
  {
    hide IsHeap, Members, Unique, InTable, StatesFit;
    var t := FreeSlot(s.state, 0);
    if t < |s.state| {
      StoppedUnheld(s, t);
      var s1 := s.(state := s.state[t := Created], pid := s.pid[t := t], mode := s.mode[t := mode],
        parent := s.parent[t := parent]);
      var s2 := s1.(ready := s.ready + [t]);
      assert Spawn(s, mode, parent) == s2;
      SpawnedPlaces(s, s2, t);
      SpawnedStates(s, s2, t);
    }
  }

  /** Slot `i` of the task table is as it was. */
  ghost predicate SameSlot(s: Sched, s': Sched, i: nat)
    requires Shaped(s) && Shaped(s') && i < TASKS_MAX
  {
    && s'.state[i] == s.state[i] && s'.mode[i] == s.mode[i] && s'.wake[i] == s.wake[i]
    && s'.pid[i] == s.pid[i] && s'.parent[i] == s.parent[i]
  }

  /** A new task has the mode and the parent asked for and its slot for a pid, waits at the end of the ready queue, and
      shares the table with tasks that are as they were. It takes the lowest stopped slot; when no slot is stopped
      there is no new task. */
  lemma SpawnFields(s: Sched, mode: Mode, parent: Ptr, t: nat)
    requires Shaped(s) && t < TASKS_MAX && s.state[t] == Stopped && forall k: nat :: k < t ==> s.state[k] != Stopped
    ensures var s' := Spawn(s, mode, parent);
            && s'.state[t] == Created && s'.mode[t] == mode && s'.parent[t] == parent && s'.pid[t] == t
            && s'.wake == s.wake && s'.ready == s.ready + [t]
            && s'.current == s.current && s'.sleep == s.sleep && s'.zombie == s.zombie
            && forall i: nat :: i < TASKS_MAX && i != t ==> SameSlot(s, s', i)
  {
    assert FreeSlot(s.state, 0) == t;
  }

  /** Cleaning resets the slot of the dead task and, in the others, changes only the states of its threads. */
  lemma CleanFields(s: Sched)
    requires Inv(s) && s.zombie != []
    ensures var z, s' := s.zombie[0], Clean(s);
            && z < TASKS_MAX && s'.state[z] == Stopped && s'.mode[z] == Kthread && s'.wake[z] == 0
            && s'.pid[z] == 0xFFFF && s'.parent[z] == Null && s'.zombie == s.zombie[1..]
            && s'.current == s.current && s'.ready == s.ready && s'.sleep == s.sleep
            && forall i: nat :: i < TASKS_MAX && i != z ==>
                 if s.parent[i] == To(z) && s.mode[i] == Thread then SameSlot(s.(state := s.state[i := Zombie]), s', i)
                 else SameSlot(s, s', i)
  {
    hide IsHeap, Members, Unique, InTable, StatesFit;
    ZombieTaken(s);
  }

  lemma SpawnedPlaces(s: Sched, s': Sched, t: nat)
    requires Unique(s) && InTable(s) && t !in Members(s) && t < |s.pid|
    requires s'.pid == s.pid[t := t] && s'.ready == s.ready + [t]
    requires s'.current == s.current && s'.sleep == s.sleep && s'.zombie == s.zombie
    ensures Unique(s') && InTable(s') && Members(s') == Members(s) + multiset{t}
  {
    Appended(s.ready, t);
    assert Members(s') == Members(s) + multiset{t};
  }

  lemma SpawnedStates(s: Sched, s': Sched, t: nat)
    requires StatesFit(s) && t !in Members(s) && t < |s.state|
    requires s'.state == s.state[t := Created] && s'.ready == s.ready + [t]
    requires s'.current == s.current && s'.sleep == s.sleep && s'.zombie == s.zombie
    ensures StatesFit(s')
  {
    Unheld(s, t);
  }

  lemma StoppedUnheld(s: Sched, t: nat)
    requires Inv(s) && t < |s.state| && s.state[t] == Stopped
    ensures t !in Members(s)
  {
    hide IsHeap, Unique, InTable, Members;
    Unheld(s, t);
  }

  /** One turn of the cleaner, run by a kernel thread, drops exactly the cleaned task. */
  lemma CleanInv(s: Sched)
    requires Inv(s) && s.zombie != [] && s.current.To? && s.mode[s.current.slot] != Thread
    ensures Inv(Clean(s)) && Members(Clean(s)) == Members(s) - multiset{s.zombie[0]}
    ensures s.zombie[0] < TASKS_MAX && Clean(s).state[s.zombie[0]] == Stopped
    ensures Clean(s).current == s.current && Clean(s).ready == s.ready
  {
    hide IsHeap, MarkThreads, Members, Unique, InTable, StatesFit;
    var z := s.zombie[0];
    var n := s.(zombie := s.zombie[1..]);
    ZombieTaken(s);
    assert Clean(s) == Cleanup(n, z);
    CleanupInv(n, z);
  }

  lemma ZombieTaken(s: Sched)
    requires Inv(s) && s.zombie != []
    ensures var z, n := s.zombie[0], s.(zombie := s.zombie[1..]);
            && Inv(n) && Members(n) == Members(s) - multiset{z} && z !in Members(n)
            && z < |s.pid| && s.pid[z] == z
  {
    hide IsHeap, StatesFit, Members;
    var n := s.(zombie := s.zombie[1..]);
    ZombieMembers(s);
    assert Members(s)[s.zombie[0]] <= 1;
    KeepsPlaces(s, n);
    FewerZombies(s, n);
  }

  lemma ZombieMembers(s: Sched)
    requires s.zombie != []
    ensures Members(s) == Members(s.(zombie := s.zombie[1..])) + multiset{s.zombie[0]}
  {
    HeadOff(s.zombie);
  }

  lemma FewerZombies(s: Sched, n: Sched)
    requires StatesFit(s) && s.zombie != [] && n == s.(zombie := s.zombie[1..])
    ensures StatesFit(n)
  {
    HeadOff(s.zombie);
  }

  lemma CleanupInv(s: Sched, z: nat)
    requires Inv(s) && z < TASKS_MAX && z !in Members(s)
    requires s.current.To? ==> s.mode[s.current.slot] != Thread
    ensures Inv(Cleanup(s, z)) && Members(Cleanup(s, z)) == Members(s)
  {
    hide IsHeap, MarkThreads, Unique, StatesFit;
    Unheld(s, z);
    var s' := Cleanup(s, z);
    assert Members(s') == Members(s);
    HeapFrame(s.sleep, s.wake, s'.wake);
    CleanupPlaces(s, s', z);
    CleanupStates(s, s', z);
  }

  lemma CleanupPlaces(s: Sched, s': Sched, z: nat)
    requires Unique(s) && InTable(s) && z !in Members(s) && z < |s.pid|
    requires Members(s') == Members(s) && s'.pid == s.pid[z := 0xFFFF]
    ensures Unique(s') && InTable(s')
  {
    hide Members;
  }

  lemma CleanupStates(s: Sched, s': Sched, z: nat)
    requires Shaped(s) && StatesFit(s) && z < TASKS_MAX && z !in Members(s)
    requires s.current.To? ==> s.mode[s.current.slot] != Thread
    requires s'.state == MarkThreads(s, z)[z := Stopped]
    requires s'.current == s.current && s'.sleep == s.sleep && s'.zombie == s.zombie && s'.ready == s.ready
    ensures StatesFit(s')
  {
    hide MarkThreads, Members;
    Unheld(s, z);
  }

  // ---- what the linked lists need ----

  /** No task is in two queues, and the sleep queue is in order. */
  ghost predicate Lists(s: Sched) {
    Unique(s.(current := Null)) && IsHeap(s.sleep, s.wake)
  }

  /** `round_robin` may push the current task: it is in no list by then. */
  ghost predicate Safe(s: Sched, tick: nat) {
    && Lists(s)
    && var w := WakeDue(s, tick);
    (w.current.To? && StateOf(w, w.current.slot) == Running ==>
      w.current.slot !in w.ready && w.current.slot !in w.zombie && w.current.slot !in w.sleep)
  }

  lemma FewerPlaces(s: Sched, s': Sched)
    requires Unique(s) && Members(s') <= Members(s)
    ensures Unique(s')
  {
    hide Members;
  }

  lemma WakeOne(s: Sched)
    requires Lists(s) && s.sleep != []
    ensures var t := s.sleep[0]; t !in s.ready && t !in s.zombie
    ensures Lists(EnqueueReady(s.(sleep := Popped(s.sleep, s.wake)), s.sleep[0]))
  {
    hide IsHeap, Popped, Due;
    var t := s.sleep[0];
    PopHeap(s.sleep, s.wake);
    var n := s.(current := Null);
    var s' := EnqueueReady(s.(sleep := Popped(s.sleep, s.wake)), t);
    assert Members(n)[t] <= 1;
    Appended(s.ready, t);
    assert Members(s'.(current := Null)) == Members(n);
    FewerPlaces(n, s'.(current := Null));
  }

  /** The head of the ready queue is in no other list, and each turn of the dispatch loop keeps that so. */
  lemma DispatchTurn(s: Sched)
    requires Lists(s) && s.ready != []
    ensures var t, n := s.ready[0], s.(ready := s.ready[1..]);
            && t !in n.ready && t !in n.zombie && Lists(n)
            && Lists(Redirected(s))
  {
    hide IsHeap, Push, Members;
    var t, n := s.ready[0], s.(ready := s.ready[1..]);
    assert s.ready[0 + 1..] == s.ready[1..];
    ReadyOnce(s.(current := Null), 0);
    PushHeap(n.sleep, n.wake, MAX_SLEEP_TASKS, t);
    DispatchTurnMembers(s.(current := Null));
    var m := s.(current := Null);
    FewerPlaces(m, n.(current := Null));
    FewerPlaces(m, Redirected(s).(current := Null));
  }

  lemma DispatchTurnMembers(s: Sched)
    requires s.ready != [] && s.current == Null && IsHeap(s.sleep, s.wake)
    ensures var t, n := s.ready[0], s.(ready := s.ready[1..]);
            Members(n) <= Members(s) && Members(Redirected(s)) <= Members(s)
  {
    hide IsHeap, Push, Members;
    var t, n := s.ready[0], s.(ready := s.ready[1..]);
    ReadyMembers(s);
    PushHeap(s.sleep, s.wake, MAX_SLEEP_TASKS, t);
    OneMoved(n, EnqueueZombie(n, t), t);
    OneMoved(n, EnqueueReady(n, t), t);
    OneMoved(n, EnqueueSleeper(n, t), t);
  }

  lemma ReadyMembers(s: Sched)
    requires s.ready != []
    ensures Members(s) == Members(s.(ready := s.ready[1..])) + multiset{s.ready[0]}
  {
    HeadOff(s.ready);
  }

  /** At most the task `t` was added to the queues. */
  lemma OneMoved(n: Sched, s: Sched, t: nat)
    requires s.current == n.current
    requires || (s.ready == n.ready + [t] && s.sleep == n.sleep && s.zombie == n.zombie)
             || (s.ready == n.ready && s.sleep == n.sleep && s.zombie == n.zombie + [t])
             || (s.ready == n.ready && multiset(s.sleep) <= multiset(n.sleep) + multiset{t} && s.zombie == n.zombie)
    ensures Members(s) <= Members(n) + multiset{t}
  {
    Appended(n.ready, t);
    Appended(n.zombie, t);
  }

  lemma ListsOfInv(s: Sched)
    requires Inv(s)
    ensures Lists(s)
  {
    hide IsHeap;
    FewerPlaces(s, s.(current := Null));
  }

  lemma SafeRunning(s: Sched, tick: nat)
    requires Inv(s)
    ensures Safe(s, tick)
  {
    hide IsHeap, WakeDue;
    WakeInv(s, tick);
    ListsOfInv(s);
    var w := WakeDue(s, tick);
    if w.current.To? {
      assert Members(w)[w.current.slot] <= 1;
    }
  }

  lemma SafeFirst(s: Sched, tick: nat)
    requires Inv(s)
    ensures Safe(TakeFirst(s), tick)
  {
    hide IsHeap, WakeDue, Members, Unique, InTable, StatesFit;
    if s.current == Null && s.ready != [] {
      HeadTaken(s);
      var h, n := s.ready[0], s.(ready := s.ready[1..]);
      if s.state[h] == Running {
        SafeRunning(TakeFirst(s), tick);
      } else {
        ListsOfInv(n);
        assert TakeFirst(s).(current := Null) == n.(current := Null);
        WakeSpares(TakeFirst(s), tick, h);
        WakeClosed(TakeFirst(s), tick);
      }
    } else {
      SafeRunning(s, tick);
    }
  }

  lemma SafeExit(s: Sched, tick: nat)
    requires Inv(s) && s.current.To?
    ensures Safe(SetState(s, s.current.slot, Zombie), tick)
  {
    hide IsHeap, WakeDue, Members, Unique, InTable, StatesFit;
    var c := s.current.slot;
    WithoutCurrent(s);
    var z := SetState(s.(current := Null), c, Zombie);
    UnheldState(s.(current := Null), c, Zombie);
    ListsOfInv(z);
    assert SetState(s, c, Zombie).(current := Null) == z.(current := Null);
    WakeSpares(SetState(s, c, Zombie), tick, c);
    WakeClosed(SetState(s, c, Zombie), tick);
  }

  lemma SafeSleep(s: Sched, ms: nat, hz: nat, tick: nat)
    requires Inv(s) && s.current.To? && SleepGuard(s, ms, hz, tick)
    ensures Safe(PutToSleep(s, ms, hz, tick), tick) && PutToSleep(s, ms, hz, tick).current == s.current
  {
    hide IsHeap, WakeDue, Members, Unique, InTable, StatesFit, PutToSleep, SleepTicks;
    AsleepInv(s, ms, hz, tick);
    PutToSleepKeepsCurrent(s, ms, hz, tick);
    var p := PutToSleep(s, ms, hz, tick);
    ListsOfInv(p.(current := Null));
    assert p.(current := Null).(current := Null) == p.(current := Null);
    StaysAsleep(s, ms, hz, tick);
    WakeClosed(p, tick);
  }

  lemma RequeueLists(w: Sched)
    requires Lists(w) && w.current.To?
    requires w.current.slot !in w.ready && w.current.slot !in w.zombie && w.current.slot !in w.sleep
    requires StateOf(w, w.current.slot) == Running
    ensures Lists(Requeue(w))
  {
    hide IsHeap;
    var c := w.current.slot;
    Appended(w.ready, c);
    var n := w.(current := Null);
    assert Members(Requeue(w)) == Members(n) + multiset{c};
    Unheld(n, c);
  }
}
