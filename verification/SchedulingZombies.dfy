/** Tasks in the zombie state: which of them run again, and why the cleaner never finds one. */
module SchedulingZombies {
  import opened Machine
  import opened SleepHeap
  import opened Scheduling
  import opened SchedulingProofs
  import opened SchedulingSteps
  import opened SchedulingRuns

  // ---- one dispatch ----

  lemma ZombieNotCurrent(s: Sched, t: nat)
    requires Inv(s) && t < |s.state| && s.state[t] == Zombie
    ensures s.current != To(t)
  {
  }

  /** A dispatch in closed form: what is woken becomes running, and the first live task is taken. */
  lemma RoundRobinClosed(s: Sched, tick: nat)
    requires Inv(s) && RoundRobin(s, tick).Go?
    ensures var r := Requeue(WakeDue(s, tick));
            var k := FirstLive(r.ready, r.state);
            && r.current == Null && AllWaiting(r.ready, r.state) && Members(r) == Members(s)
            && k < |r.ready| && r.ready[k] < |r.state| && IsLive(r.state[r.ready[k]])
            && RoundRobin(s, tick) == Go(Dispatched(r, k))
            && r.sleep == StillAsleep(s.sleep, s.wake, tick) && r.zombie == s.zombie
            && r.state == Readied(s.state, Woken(s.sleep, s.wake, tick))
  {
    hide IsHeap, Due, WakeDue, Members, Unique, InTable, FirstLive, Waiting, Woken, StillAsleep;
    AfterWake(s, tick);
    WakeClosed(s, tick);
    WakeInv(s, tick);
    var w := WakeDue(s, tick);
    if w.current.To? {
      assert w.state[w.current.slot := Running] == w.state;
    }
    var r := Requeue(w);
    DispatchClosed(r);
    var k := FirstLive(r.ready, r.state);
    assert k < |r.ready| ==> r.ready[k] in r.ready;
  }

  /** The wake loop makes any sleeper that is due running, also one that `task_cleanup` has marked: after a dispatch
      a zombie is running, and current or ready, exactly when it was asleep and due. */
  lemma ZombieRunsIff(s: Sched, tick: nat, t: nat)
    requires Inv(s) && t < |s.state| && s.state[t] == Zombie && RoundRobin(s, tick).Go?
    ensures var s' := RoundRobin(s, tick).sched;
            && t < |s'.state| && (s'.state[t] == Running || s'.state[t] == Zombie)
            && (s'.state[t] == Running <==> t in s.sleep && Due(s.wake, t) <= tick)
            && (s'.state[t] == Running ==> s'.current == To(t) || t in s'.ready)
  {
    hide IsHeap, Due, WakeDue, Members, Unique, InTable, RoundRobin, FirstLive, Waiting, Woken, StillAsleep, Requeue;
    var woken := Woken(s.sleep, s.wake, tick);
    WokenInSleep(s, tick);
    WokenSplit(s.sleep, s.wake, tick);
    RoundRobinClosed(s, tick);
    RoundRobinInv(s, tick);
    var s' := RoundRobin(s, tick).sched;
    if s'.state[t] == Running {
      HeldZombie(s, t, woken);
      Unheld(s', t);
    }
  }

  lemma HeldZombie(s: Sched, t: nat, woken: seq<nat>)
    requires t in woken && forall x :: x in woken ==> x in s.sleep
    ensures t in Members(s)
  {
    assert t in multiset(s.sleep);
  }

  // ---- a zombie that is not asleep ----

  /** A zombie outside the sleep queue. */
  ghost predicate Dead(s: Sched, t: nat) {
    t < |s.state| && s.state[t] == Zombie && t !in s.sleep
  }

  lemma RoundRobinKeepsDead(s: Sched, tick: nat, t: nat)
    requires Inv(s) && Dead(s, t) && RoundRobin(s, tick).Go?
    ensures Dead(RoundRobin(s, tick).sched, t)
  {
    hide IsHeap, Due, WakeDue, Members, Unique, InTable, RoundRobin, FirstLive, Waiting, StillAsleep, Requeue;
    ZombieRunsIff(s, tick, t);
    RoundRobinClosed(s, tick);
    StillAsleepIn(s.sleep, s.wake, tick, t);
  }

  lemma StillAsleepIn(sleep: seq<nat>, wake: seq<nat>, tick: nat, t: nat)
    requires IsHeap(sleep, wake) && t !in sleep
    ensures t !in StillAsleep(sleep, wake, tick)
  {
    hide IsHeap, Due, StillAsleep, Woken;
    WokenSplit(sleep, wake, tick);
    assert t !in multiset(sleep);
  }

  lemma StepKeepsDead(s: Sched, step: Step, t: nat)
    requires Inv(s) && Enabled(s, step) && Dead(s, t)
    ensures var s' := Next(s, step); t < |s'.state| && (Dead(s', t) || s'.state[t] == Stopped)
  {
    hide IsHeap, RoundRobin, Unique, InTable, SleepTicks, Push, MarkThreads, Members, Sleep, Exit, Waiting;
    ZombieNotCurrent(s, t);
    match step
    case Add(mode, parent) =>
    case Yield(tick) =>
      if s.current.To? { RoundRobinKeepsDead(s, tick, t); } else { FirstKeepsDead(s, tick, t); }
    case Nap(ms, hz, tick) =>
      NapIsRoundRobin(s, ms, hz, tick);
      AsleepFrame(s, ms, hz, tick, t);
      RoundRobinKeepsDead(PutToSleep(s, ms, hz, tick).(current := Null), tick, t);
    case Quit(tick) =>
      QuitIsRoundRobin(s, tick);
      RoundRobinKeepsDead(SetState(s.(current := Null), s.current.slot, Zombie), tick, t);
    case CleanOne =>
      ZombieTaken(s);
  }

  /** Going to sleep touches nobody but the caller. */
  lemma AsleepFrame(s: Sched, ms: nat, hz: nat, tick: nat, t: nat)
    requires Inv(s) && s.current.To? && t != s.current.slot && t < |s.state|
    ensures var n := PutToSleep(s, ms, hz, tick);
            t < |n.state| && n.state[t] == s.state[t] && (t in n.sleep <==> t in s.sleep)
  {
    hide IsHeap, Push, SleepTicks, Members, Unique, InTable, StatesFit;
    WithoutCurrent(s);
    var c := s.current.slot;
    var wake := s.wake[c := (tick + SleepTicks(ms, hz)) % WORD];
    HeapFrame(s.sleep, s.wake, wake);
    PushHeap(s.sleep, wake, MAX_SLEEP_TASKS, c);
    SameSleepers(s.sleep, Push(s.sleep, wake, MAX_SLEEP_TASKS, c), c);
  }

  lemma FirstKeepsDead(s: Sched, tick: nat, t: nat)
    requires Inv(s) && s.current == Null && Dead(s, t) && Schedule(s, tick).Go?
    ensures Dead(Schedule(s, tick).sched, t)
  {
    hide IsHeap, RoundRobin, Members, Unique, InTable, StatesFit, WakeDue;
    var n := First(s, tick);
    RoundRobinKeepsDead(n, tick, t);
  }

  /** The state whose dispatch the first one amounts to. */
  lemma First(s: Sched, tick: nat) returns (n: Sched)
    requires Inv(s) && s.current == Null
    ensures Inv(n) && Schedule(s, tick) == RoundRobin(n, tick) && Members(n) <= Members(s)
    ensures n.state == s.state && n.sleep == s.sleep && n.wake == s.wake && n.zombie == s.zombie
  {
    hide IsHeap, RoundRobin, Members, Unique, InTable, StatesFit, WakeDue;
    n := s;
    if s.ready != [] {
      var h := s.ready[0];
      HeadTaken(s);
      n := s.(ready := s.ready[1..]);
      if s.state[h] == Running {
        n := TakeFirst(s);
      } else {
        WakeSpares(n.(current := To(h)), tick, h);
        assert n.(current := To(h)).(current := Null) == n;
        Detached(n.(current := To(h)), tick);
      }
    }
  }

  /** A zombie outside the sleep queue never runs again, until its slot is freed. */
  lemma {:induction false} DeadNeverRuns(trace: seq<Sched>, steps: seq<Step>, n: nat, t: nat)
    requires IsRun(trace, steps) && Inv(trace[0]) && Dead(trace[0], t) && n < |trace|
    requires forall i :: 0 <= i <= n ==> t < |trace[i].state| && trace[i].state[t] != Stopped
    ensures Dead(trace[n], t) && trace[n].current != To(t)
  {
    hide Inv, Enabled, Next, IsHeap;
    RunInv(trace, steps, n);
    if n == 0 {
    } else {
      DeadNeverRuns(trace, steps, n - 1, t);
      RunInv(trace, steps, n - 1);
      StepKeepsDead(trace[n - 1], steps[n - 1], t);
    }
    ZombieNotCurrent(trace[n], t);
  }

  // ---- the zombie queue ----

  /** Nothing waits for the cleaner, and nothing the scheduler holds is a zombie. */
  ghost predicate NoZombies(s: Sched) {
    s.zombie == [] && forall t :: t in Members(s) ==> t < |s.state| && s.state[t] != Zombie
  }

  lemma RoundRobinNoZombies(s: Sched, tick: nat)
    requires Inv(s) && NoZombies(s) && RoundRobin(s, tick).Go?
    ensures NoZombies(RoundRobin(s, tick).sched)
  {
    hide IsHeap, Due, WakeDue, Members, Unique, InTable, RoundRobin, FirstLive, Waiting, StillAsleep, Requeue, Woken;
    RoundRobinClosed(s, tick);
    RoundRobinInv(s, tick);
    var r := Requeue(WakeDue(s, tick));
    FrontLive(r);
    assert r.ready[..0] == [] && r.zombie + [] == [];
  }

  lemma FrontLive(r: Sched)
    requires AllWaiting(r.ready, r.state) && forall t :: t in Members(r) ==> t < |r.state| && r.state[t] != Zombie
    ensures r.ready != [] ==> FirstLive(r.ready, r.state) == 0
  {
    hide Members;
    if r.ready != [] {
      var t := r.ready[0];
      assert t in r.ready;
      Unheld(r, t);
    }
  }

  lemma StepNoZombies(s: Sched, step: Step)
    requires Inv(s) && Enabled(s, step) && NoZombies(s)
    ensures NoZombies(Next(s, step)) && !step.CleanOne?
  {
    hide IsHeap, RoundRobin, Unique, InTable, StatesFit, SleepTicks, Push, Members, Sleep, Exit;
    match step
    case Add(mode, parent) => AddNoZombies(s, mode, parent);
    case Yield(tick) =>
      var n := s;
      if s.current == Null { n := First(s, tick); }
      RoundRobinNoZombies(n, tick);
    case Nap(ms, hz, tick) =>
      var n := PutToSleep(s, ms, hz, tick).(current := Null);
      NapIsRoundRobin(s, ms, hz, tick);
      AsleepInv(s, ms, hz, tick);
      SleeperNoZombie(s, ms, hz, tick);
      RoundRobinNoZombies(n, tick);
    case Quit(tick) =>
      var c := s.current.slot;
      QuitIsRoundRobin(s, tick);
      WithoutCurrent(s);
      var n := SetState(s.(current := Null), c, Zombie);
      UnheldState(s.(current := Null), c, Zombie);
      assert forall t :: t in Members(n) ==> t in Members(s) && t != c;
      RoundRobinNoZombies(n, tick);
    case CleanOne =>
      assert false;
  }

  lemma SleeperNoZombie(s: Sched, ms: nat, hz: nat, tick: nat)
    requires Inv(s) && s.current.To? && NoZombies(s)
    ensures NoZombies(PutToSleep(s, ms, hz, tick).(current := Null))
  {
    hide IsHeap, Unique, InTable, StatesFit, SleepTicks, Push, Members;
    AsleepInv(s, ms, hz, tick);
  }

  lemma AddNoZombies(s: Sched, mode: Mode, parent: Ptr)
    requires Inv(s) && NoZombies(s)
    ensures NoZombies(Spawn(s, mode, parent))
  {
    hide IsHeap, Unique, InTable, StatesFit, Members;
    SpawnInv(s, mode, parent);
  }
}
