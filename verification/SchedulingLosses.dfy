/** How long a sleep lasts, and which tasks the scheduler loses for good. */
module SchedulingLosses {
  import opened Machine
  import opened SleepHeap
  import opened Scheduling
  import opened SchedulingProofs
  import opened SchedulingSteps
  import opened SchedulingRuns

  // ---- sleeping ----

  function Wanted(ms: nat, hz: nat): nat {
    if ms * hz / 1000 == 0 then 1 else ms * hz / 1000
  }

  /** The tick count is the one asked for exactly when the 32-bit product does not wrap. */
  lemma SleepTicksExact(ms: nat, hz: nat)
    ensures SleepTicks(ms, hz) == Wanted(ms, hz) <==> ms * hz < WORD
  {
    var p := ms * hz;
    if p >= WORD {
      assert p == p / WORD * WORD + p % WORD;
      assert p >= p % WORD + WORD;
      assert p / 1000 >= (p % WORD + WORD) / 1000 >= p % WORD / 1000 + 4294967;
    }
  }

  function TickOf(step: Step): nat {
    match step
    case Yield(tick) => tick
    case Nap(_, _, tick) => tick
    case Quit(tick) => tick
    case _ => 0
  }

  /** A sleeper with wake tick `due`. */
  ghost predicate AsleepUntil(s: Sched, t: nat, due: nat) {
    t in s.sleep && Due(s.wake, t) == due
  }

  lemma RoundRobinKeepsAsleep(s: Sched, tick: nat, t: nat, due: nat)
    requires Inv(s) && AsleepUntil(s, t, due) && tick < due && RoundRobin(s, tick).Go?
    ensures AsleepUntil(RoundRobin(s, tick).sched, t, due)
  {
    hide Due, IsHeap, WakeDue, Dispatch, Members, Unique, InTable, FirstLive;
    AfterWake(s, tick);
    WakeClosed(s, tick);
    WokenExactly(s.sleep, s.wake, tick);
    var r := Requeue(WakeDue(s, tick));
    assert r.sleep == StillAsleep(s.sleep, s.wake, tick) && r.wake == s.wake;
    DispatchClosed(r);
    assert t in multiset(s.sleep);
  }

  lemma StepKeepsAsleep(s: Sched, step: Step, t: nat, due: nat)
    requires Inv(s) && Enabled(s, step) && AsleepUntil(s, t, due) && TickOf(step) < due
    ensures AsleepUntil(Next(s, step), t, due)
  {
    hide IsHeap, RoundRobin, Members, Unique, InTable, StatesFit, SleepTicks, Popped, MarkThreads;
    match step
    case Add(mode, parent) =>
    case Yield(tick) =>
      if s.current.To? { RoundRobinKeepsAsleep(s, tick, t, due); } else { FirstKeepsAsleep(s, tick, t, due); }
    case Nap(ms, hz, tick) =>
      NapIsRoundRobin(s, ms, hz, tick);
      NapKeepsAsleep(s, ms, hz, tick, t, due);
      RoundRobinKeepsAsleep(PutToSleep(s, ms, hz, tick).(current := Null), tick, t, due);
    case Quit(tick) =>
      QuitIsRoundRobin(s, tick);
      RoundRobinKeepsAsleep(SetState(s.(current := Null), s.current.slot, Zombie), tick, t, due);
    case CleanOne =>
      ZombieTaken(s);
      Unheld(s.(zombie := s.zombie[1..]), s.zombie[0]);
  }

  lemma FirstKeepsAsleep(s: Sched, tick: nat, t: nat, due: nat)
    requires Inv(s) && s.current == Null && AsleepUntil(s, t, due) && tick < due && Schedule(s, tick).Go?
    ensures AsleepUntil(Schedule(s, tick).sched, t, due)
  {
    hide IsHeap, RoundRobin, Members, Unique, InTable, StatesFit, WakeDue, Due;
    if s.ready == [] {
      RoundRobinKeepsAsleep(s, tick, t, due);
    } else {
      var h := s.ready[0];
      var n := s.(ready := s.ready[1..]);
      HeadTaken(s);
      if s.state[h] == Running {
        RoundRobinKeepsAsleep(TakeFirst(s), tick, t, due);
      } else {
        WakeSpares(n.(current := To(h)), tick, h);
        assert n.(current := To(h)).(current := Null) == n;
        Detached(n.(current := To(h)), tick);
        RoundRobinKeepsAsleep(n, tick, t, due);
      }
    }
  }

  lemma NapKeepsAsleep(s: Sched, ms: nat, hz: nat, tick: nat, t: nat, due: nat)
    requires Inv(s) && s.current.To? && AsleepUntil(s, t, due)
    ensures AsleepUntil(PutToSleep(s, ms, hz, tick), t, due)
  {
    hide IsHeap, Push, SleepTicks, Members, Unique, InTable, StatesFit;
    WithoutCurrent(s);
    var c := s.current.slot;
    var wake := s.wake[c := (tick + SleepTicks(ms, hz)) % WORD];
    HeapFrame(s.sleep, s.wake, wake);
    PushHeap(s.sleep, wake, MAX_SLEEP_TASKS, c);
    assert t in multiset(s.sleep);
    assert t in multiset(Push(s.sleep, wake, MAX_SLEEP_TASKS, c));
  }

  /** A sleeper stays asleep through any run whose dispatches all happen before its wake tick. */
  lemma {:induction false} NotWokenEarly(trace: seq<Sched>, steps: seq<Step>, n: nat, t: nat, due: nat)
    requires IsRun(trace, steps) && Inv(trace[0]) && n < |trace|
    requires AsleepUntil(trace[0], t, due) && forall i :: 0 <= i < n ==> TickOf(steps[i]) < due
    ensures AsleepUntil(trace[n], t, due)
  {
    hide Inv, AsleepUntil;
    if n == 0 {
    } else {
      NotWokenEarly(trace, steps, n - 1, t, due);
      RunInv(trace, steps, n - 1);
      StepKeepsAsleep(trace[n - 1], steps[n - 1], t, due);
    }
  }

  /** A call to sleep puts the caller to sleep until the requested number of ticks has passed, as long as the
      queue has room and no 32-bit value wraps. */
  lemma NapLasts(s: Sched, ms: nat, hz: nat, tick: nat)
    requires Inv(s) && Enabled(s, Nap(ms, hz, tick)) && |s.sleep| < MAX_SLEEP_TASKS && ms * hz < WORD
    ensures AsleepUntil(Next(s, Nap(ms, hz, tick)), s.current.slot, tick + Wanted(ms, hz))
  {
    hide IsHeap, RoundRobin, Members, Unique, InTable, StatesFit, Push, SleepTicks, Wanted;
    var c := s.current.slot;
    SleepTicksExact(ms, hz);
    NapIsRoundRobin(s, ms, hz, tick);
    AsleepInv(s, ms, hz, tick);
    var n := PutToSleep(s, ms, hz, tick).(current := Null);
    assert c in n.sleep by {
      WithoutCurrent(s);
      var wake := s.wake[c := (tick + SleepTicks(ms, hz)) % WORD];
      HeapFrame(s.sleep, s.wake, wake);
      PushHeap(s.sleep, wake, MAX_SLEEP_TASKS, c);
      assert c in multiset(Push(s.sleep, wake, MAX_SLEEP_TASKS, c));
    }
    RoundRobinKeepsAsleep(n, tick, c, tick + SleepTicks(ms, hz));
  }

  /** A sleep whose wake tick wraps is woken within the same call while still current, and is then queued twice,
      unless the sleep queue was full and dropped it; otherwise the invariant is kept. */
  lemma NapInvIff(s: Sched, ms: nat, hz: nat, tick: nat)
    requires Inv(s) && s.current.To? && tick < WORD && Sleep(s, ms, hz, tick).Go?
    ensures Inv(Sleep(s, ms, hz, tick).sched) <==> SleepGuard(s, ms, hz, tick)
  {
    hide Unique, InTable, StatesFit, IsHeap, Members, Sleep;
    if SleepGuard(s, ms, hz, tick) {
      SleepInv(s, ms, hz, tick);
    } else {
      QueueBound(s);
      NapWraps(s, ms, hz, tick);
    }
  }

  lemma QueueBound(s: Sched)
    requires Inv(s)
    ensures |s.sleep| <= MAX_SLEEP_TASKS
  {
  }

  lemma SleepTicksBound(ms: nat, hz: nat)
    ensures SleepTicks(ms, hz) < WORD
  {
  }

  lemma NapWraps(s: Sched, ms: nat, hz: nat, tick: nat)
    requires Inv(s) && s.current.To? && |s.sleep| < MAX_SLEEP_TASKS && tick < WORD <= tick + SleepTicks(ms, hz)
    ensures Sleep(s, ms, hz, tick).Go? && !Unique(Sleep(s, ms, hz, tick).sched)
  {
    hide Members, Unique, WakeDue, Push, SleepTicks, Dispatch, PutToSleep, FirstLive;
    var c := s.current.slot;
    WokenAtOnce(s, ms, hz, tick);
    PutToSleepKeepsCurrent(s, ms, hz, tick);
    var w := WakeDue(PutToSleep(s, ms, hz, tick), tick);
    var r := Requeue(w);
    assert w.state[c := Running] == w.state && r.ready == w.ready + [c] && r.current == Null;
    DispatchClosed(r);
    var k := FirstLive(r.ready, r.state);
    assert k < |r.ready| by { FirstLiveIff(r.ready, r.state); assert c in r.ready && IsLive(r.state[c]); }
    DispatchedMembers(r, k);
    Doubled(w, r, c);
    TwiceIsNotUnique(Dispatched(r, k), c);
  }

  /** The caller is ready and running while it is still current. */
  lemma WokenAtOnce(s: Sched, ms: nat, hz: nat, tick: nat)
    requires Inv(s) && s.current.To? && |s.sleep| < MAX_SLEEP_TASKS && tick < WORD <= tick + SleepTicks(ms, hz)
    ensures var w, c := WakeDue(PutToSleep(s, ms, hz, tick), tick), s.current.slot;
            c < |w.state| && w.state[c] == Running && c in w.ready && w.current == To(c) && AllWaiting(w.ready, w.state)
  {
    hide IsHeap, Members, Unique, InTable, WakeDue, Push, SleepTicks;
    SleepTicksBound(ms, hz);
    AsleepInv(s, ms, hz, tick);
    PutToSleepKeepsCurrent(s, ms, hz, tick);
    var p := PutToSleep(s, ms, hz, tick);
    NapQueued(s, ms, hz, tick);
    WakeClosed(p, tick);
    WakeClosed(p.(current := Null), tick);
    WakeInv(p.(current := Null), tick);
    WokenInSleep(p, tick);
  }

  lemma NapQueued(s: Sched, ms: nat, hz: nat, tick: nat)
    requires Inv(s) && s.current.To? && |s.sleep| < MAX_SLEEP_TASKS
    ensures s.current.slot in PutToSleep(s, ms, hz, tick).sleep
  {
    hide IsHeap, Push, SleepTicks, Members, Unique, InTable, StatesFit;
    var c := s.current.slot;
    WithoutCurrent(s);
    var wake := s.wake[c := (tick + SleepTicks(ms, hz)) % WORD];
    HeapFrame(s.sleep, s.wake, wake);
    PushHeap(s.sleep, wake, MAX_SLEEP_TASKS, c);
    assert c in multiset(Push(s.sleep, wake, MAX_SLEEP_TASKS, c));
  }

  lemma Doubled(w: Sched, r: Sched, c: nat)
    requires c in w.ready && r.ready == w.ready + [c]
    ensures Members(r)[c] >= 2
  {
    Appended(w.ready, c);
    assert multiset(w.ready)[c] >= 1;
  }

  lemma TwiceIsNotUnique(s: Sched, c: nat)
    requires Members(s)[c] >= 2
    ensures !Unique(s)
  {
    hide Members;
    assert !(Members(s)[c] <= 1);
  }

  // ---- losses ----

  /** The scheduler does not hold `t`, and its slot is not free either. */
  ghost predicate Lost(s: Sched, t: nat) {
    t < |s.state| && t !in Members(s) && s.state[t] != Stopped
  }

  lemma RoundRobinSpares(s: Sched, tick: nat, t: nat)
    requires Inv(s) && t !in Members(s) && t < |s.state| && RoundRobin(s, tick).Go?
    ensures var s' := RoundRobin(s, tick).sched; t < |s'.state| && s'.state[t] == s.state[t] && t !in Members(s')
  {
    hide Due, IsHeap, WakeDue, Dispatch, Members, Unique, InTable, FirstLive;
    RoundRobinInv(s, tick);
    AfterWake(s, tick);
    WakeClosed(s, tick);
    WokenInSleep(s, tick);
    Unheld(s, t);
    var r := Requeue(WakeDue(s, tick));
    DispatchClosed(r);
    Unheld(r, t);
    var k := FirstLive(r.ready, r.state);
    assert r.ready[k] in r.ready;
  }

  /** Once lost, a task never returns and its slot is never reused. */
  lemma StepKeepsLost(s: Sched, step: Step, t: nat)
    requires Inv(s) && Enabled(s, step) && Lost(s, t)
    ensures Lost(Next(s, step), t)
  {
    hide IsHeap, RoundRobin, Unique, InTable, StatesFit, SleepTicks, Push, MarkThreads, Members, Sleep, Exit;
    Unheld(s, t);
    StepInv(s, step);
    match step
    case Add(mode, parent) =>
    case Yield(tick) =>
      if s.current.To? { RoundRobinSpares(s, tick, t); } else { FirstKeepsLost(s, tick, t); }
    case Nap(ms, hz, tick) => NapKeepsLost(s, ms, hz, tick, t);
    case Quit(tick) => QuitKeepsLost(s, tick, t);
    case CleanOne =>
      ZombieTaken(s);
  }

  lemma NapKeepsLost(s: Sched, ms: nat, hz: nat, tick: nat, t: nat)
    requires Inv(s) && Lost(s, t) && Enabled(s, Nap(ms, hz, tick))
    ensures Lost(Sleep(s, ms, hz, tick).sched, t)
  {
    hide IsHeap, RoundRobin, Unique, InTable, StatesFit, SleepTicks, Push, Members, Sleep;
    var n := PutToSleep(s, ms, hz, tick).(current := Null);
    Unheld(s, t);
    NapIsRoundRobin(s, ms, hz, tick);
    AsleepInv(s, ms, hz, tick);
    RoundRobinSpares(n, tick, t);
  }

  lemma QuitKeepsLost(s: Sched, tick: nat, t: nat)
    requires Inv(s) && Lost(s, t) && Enabled(s, Quit(tick))
    ensures Lost(Exit(s, tick).sched, t)
  {
    hide IsHeap, RoundRobin, Unique, InTable, StatesFit, Members, Exit;
    var z := SetState(s.(current := Null), s.current.slot, Zombie);
    Unheld(s, t);
    QuitIsRoundRobin(s, tick);
    Unheld(z, t);
    RoundRobinSpares(z, tick, t);
  }

  lemma FirstKeepsLost(s: Sched, tick: nat, t: nat)
    requires Inv(s) && s.current == Null && Lost(s, t) && Schedule(s, tick).Go?
    ensures Lost(Schedule(s, tick).sched, t)
  {
    hide IsHeap, RoundRobin, Members, Unique, InTable, StatesFit, WakeDue;
    if s.ready == [] {
      RoundRobinSpares(s, tick, t);
    } else {
      var h := s.ready[0];
      var n := s.(ready := s.ready[1..]);
      HeadTaken(s);
      if s.state[h] == Running {
        RoundRobinSpares(TakeFirst(s), tick, t);
      } else {
        WakeSpares(n.(current := To(h)), tick, h);
        assert n.(current := To(h)).(current := Null) == n;
        Detached(n.(current := To(h)), tick);
        RoundRobinSpares(n, tick, t);
      }
    }
  }

  lemma {:induction false} LostForGood(trace: seq<Sched>, steps: seq<Step>, n: nat, t: nat)
    requires IsRun(trace, steps) && Inv(trace[0]) && n < |trace| && Lost(trace[0], t)
    ensures Lost(trace[n], t)
  {
    hide Inv, Lost;
    if n == 0 {
    } else {
      LostForGood(trace, steps, n - 1, t);
      RunInv(trace, steps, n - 1);
      StepKeepsLost(trace[n - 1], steps[n - 1], t);
    }
  }

  /** An exiting task is lost: no queue receives it, so the cleaner never frees its slot. */
  lemma ExitLoses(s: Sched, tick: nat)
    requires Inv(s) && Enabled(s, Quit(tick))
    ensures Lost(Next(s, Quit(tick)), s.current.slot)
  {
    hide IsHeap, RoundRobin, Members, Unique, InTable, StatesFit;
    var c := s.current.slot;
    var z := SetState(s.(current := Null), c, Zombie);
    WithoutCurrent(s);
    UnheldState(s.(current := Null), c, Zombie);
    QuitIsRoundRobin(s, tick);
    RoundRobinSpares(z, tick, c);
  }
}
