/** Runs of the scheduler from boot. */
module SchedulingBoot {
  import opened Machine
  import opened SleepHeap
  import opened Scheduling
  import opened SchedulingProofs
  import opened SchedulingSteps
  import opened SchedulingRuns
  import opened SchedulingLosses
  import opened SchedulingZombies

  // ---- the cleaner thread ----

  /** The state `scheduler_init` leaves: the cleaner in slot 0, the idle thread in slot 1. */
  function Booted(): Sched {
    Spawn(Spawn(Empty(), Kthread, Null), Kthread, Null)
  }

  /** Nothing has run yet; the cleaner and the idle thread are at the head of the ready queue. */
  ghost predicate Queued(s: Sched) {
    && Inv(s) && s.current == Null && s.sleep == [] && s.zombie == []
    && |s.ready| >= 2 && s.ready[0] == 0 && s.ready[1] == 1 && s.state[0] == Created && s.state[1] == Created
  }

  lemma BootedQueued()
    ensures Queued(Booted()) && Booted().ready == [0, 1]
  {
    hide IsHeap, Unique, InTable, StatesFit, Members;
    var e := Empty();
    EmptyInv();
    SpawnInv(e, Kthread, Null);
    var one := Spawn(e, Kthread, Null);
    assert FreeSlot(e.state, 0) == 0 && one.ready == [0] && one.state == e.state[0 := Created];
    SpawnInv(one, Kthread, Null);
    assert FreeSlot(one.state, 0) == FreeSlot(one.state, 1) == 1;
  }

  lemma AddQueued(s: Sched, mode: Mode, parent: Ptr)
    requires Queued(s)
    ensures Queued(Spawn(s, mode, parent))
  {
    hide IsHeap, Unique, InTable, StatesFit, Members;
    SpawnInv(s, mode, parent);
  }

  lemma {:induction false} AddsQueued(trace: seq<Sched>, steps: seq<Step>, n: nat)
    requires IsRun(trace, steps) && trace[0] == Booted() && n < |trace|
    requires forall i :: 0 <= i < |steps| ==> steps[i].Add?
    ensures Queued(trace[n])
  {
    hide Queued, Booted, Spawn;
    if n == 0 {
      BootedQueued();
    } else {
      AddsQueued(trace, steps, n - 1);
      assert Enabled(trace[n - 1], steps[n - 1]) && steps[n - 1].Add?;
      AddQueued(trace[n - 1], steps[n - 1].mode, steps[n - 1].parent);
    }
  }

  /** The first timer interrupt after boot loses the cleaner thread, whatever tasks were added before: it is taken as
      current while still created, and overwritten. */
  lemma CleanerLostAtBoot(trace: seq<Sched>, steps: seq<Step>, tick: nat)
    requires IsRun(trace, steps) && trace[0] == Booted() && forall i :: 0 <= i < |steps| ==> steps[i].Add?
    ensures var s := trace[|steps|];
            Enabled(s, Yield(tick)) && Next(s, Yield(tick)).current == To(1) && Lost(Next(s, Yield(tick)), 0)
  {
    hide Queued, Booted, Enabled, Next, Lost;
    AddsQueued(trace, steps, |steps|);
    FirstYield(trace[|steps|], tick);
  }

  lemma FirstYield(s: Sched, tick: nat)
    requires Queued(s)
    ensures Enabled(s, Yield(tick))
    ensures var s' := Next(s, Yield(tick));
            && s'.current == To(1) && Lost(s', 0) && Inv(s') && s'.state == s.state[1 := Running]
            && s'.sleep == [] && s'.zombie == [] && s'.ready == s.ready[2..]
  {
    hide IsHeap, Unique, InTable, StatesFit, Members;
    var n := TakeFirst(s);
    assert n.current == To(0) && n.ready == s.ready[1..] && WakeDue(n, tick) == n && Requeue(n) == n;
    assert Dispatch(n) == Go(SetState(n.(ready := n.ready[1..]), 1, Running).(current := To(1)));
    FirstScheduleInv(s, tick);
    OnceReady(s);
    Unheld(Next(s, Yield(tick)), 0);
  }

  lemma OnceReady(s: Sched)
    requires Queued(s)
    ensures 0 !in s.ready[1..][1..]
  {
    hide Members;
    ReadyOnce(s, 0);
  }

  // ---- a wake tick that wraps ----

  /** The kernel with the thread it starts after the scheduler, in slot 2, once that thread runs. */
  function Started(): Sched {
    Spawn(Booted(), Kthread, Null)
  }

  lemma StartedQueued()
    ensures Queued(Started()) && Started().ready == [0, 1, 2] && Started().state[2] == Created
    ensures Enabled(Booted(), Add(Kthread, Null)) && Started() == Next(Booted(), Add(Kthread, Null))
  {
    hide IsHeap, Unique, InTable, StatesFit, Members;
    BootedQueued();
    AddQueued(Booted(), Kthread, Null);
    BootedSlots();
    assert FreeSlot(Booted().state, 0) == FreeSlot(Booted().state, 1) == FreeSlot(Booted().state, 2) == 2;
  }

  lemma BootedSlots()
    ensures Shaped(Booted()) && Booted().state[0] == Booted().state[1] == Created && Booted().state[2] == Stopped
  {
    var e := Empty();
    assert FreeSlot(e.state, 0) == 0;
    var one := Spawn(e, Kthread, Null);
    assert FreeSlot(one.state, 0) == FreeSlot(one.state, 1) == 1;
  }

  /** From the idle thread the next dispatch goes to the thread that waits. */
  lemma SecondYield(s: Sched, tick: nat)
    requires Inv(s) && s.current == To(1) && s.ready == [2] && s.sleep == [] && s.zombie == []
    requires s.state[1] == Running && s.state[2] == Created
    ensures Enabled(s, Yield(tick))
    ensures var s' := Next(s, Yield(tick)); Inv(s') && s'.current == To(2) && s'.sleep == []
  {
    hide IsHeap, Unique, InTable, StatesFit, Members;
    ScheduleInv(s, tick);
    assert WakeDue(s, tick) == s;
    var r := Requeue(s);
    assert s.state[1 := Running] == s.state && r == s.(ready := [2, 1], current := Null);
    assert Dispatch(r) == Go(SetState(r.(ready := [1]), 2, Running).(current := To(2)));
  }

  /** That thread sleeps for two seconds, at 500 ticks a second, when the tick counter is about to wrap. */
  lemma NapWitness() returns (s1: Sched, s2: Sched)
    ensures Enabled(Started(), Yield(0)) && s1 == Next(Started(), Yield(0))
    ensures Enabled(s1, Yield(1)) && s2 == Next(s1, Yield(1))
    ensures Inv(s2) && s2.current == To(2)
    ensures Sleep(s2, 2000, 500, WORD - 1).Go? && !Inv(Sleep(s2, 2000, 500, WORD - 1).sched)
  {
    hide Started, Enabled, Next, Inv, Sleep, Lost;
    StartedQueued();
    FirstYield(Started(), 0);
    s1 := Next(Started(), Yield(0));
    FitsTable(Started());
    assert Started().ready[2..] == [2];
    SecondYield(s1, 1);
    s2 := Next(s1, Yield(1));
    assert SleepTicks(2000, 500) == 1000;
    NapDoubles(s2, 2000, 500, WORD - 1);
  }

  lemma FitsTable(s: Sched)
    requires Inv(s)
    ensures |s.state| == TASKS_MAX
  {
  }

  lemma NapDoubles(s: Sched, ms: nat, hz: nat, tick: nat)
    requires Inv(s) && s.current.To? && s.sleep == [] && tick < WORD <= tick + SleepTicks(ms, hz)
    ensures Sleep(s, ms, hz, tick).Go? && !Inv(Sleep(s, ms, hz, tick).sched)
  {
    hide Unique, InTable, StatesFit, IsHeap, Members, Sleep, SleepTicks;
    NapWraps(s, ms, hz, tick);
  }

  // ---- the cleaner's work ----

  /** In every run from boot nothing ever waits for the cleaner, so no zombie is cleaned: exiting tasks reach no queue,
      and only the cleaner marks others. */
  lemma {:induction false} NeverCleans(trace: seq<Sched>, steps: seq<Step>, n: nat)
    requires IsRun(trace, steps) && trace[0] == Empty() && n < |trace|
    ensures Inv(trace[n]) && NoZombies(trace[n])
    ensures forall i :: 0 <= i < n ==> !steps[i].CleanOne?
  {
    hide Inv, NoZombies, Enabled, Next, Empty;
    if n == 0 {
      EmptyInv();
      EmptyNoZombies();
    } else {
      NeverCleans(trace, steps, n - 1);
      StepInv(trace[n - 1], steps[n - 1]);
      StepNoZombies(trace[n - 1], steps[n - 1]);
    }
  }

  lemma EmptyNoZombies()
    ensures NoZombies(Empty())
  {
  }

  /** A slot once taken is never free again. */
  lemma {:induction false} NeverFreed(trace: seq<Sched>, steps: seq<Step>, i: nat, n: nat, t: nat)
    requires IsRun(trace, steps) && trace[0] == Empty() && i <= n < |trace|
    requires t < |trace[i].state| && trace[i].state[t] != Stopped
    ensures t < |trace[n].state| && trace[n].state[t] != Stopped
    decreases n
  {
    hide Inv, NoZombies, Enabled, Next, Empty;
    if n == i {
    } else {
      NeverFreed(trace, steps, i, n - 1, t);
      NeverCleans(trace, steps, n);
      NeverCleans(trace, steps, n - 1);
      StepKeepsTaken(trace[n - 1], steps[n - 1], t);
    }
  }

  lemma StepKeepsTaken(s: Sched, step: Step, t: nat)
    requires Inv(s) && Enabled(s, step) && !step.CleanOne? && t < |s.state| && s.state[t] != Stopped
    ensures var s' := Next(s, step); t < |s'.state| && s'.state[t] != Stopped
  {
    hide IsHeap, RoundRobin, Unique, InTable, StatesFit, SleepTicks, Push, Members, Sleep, Exit;
    match step
    case Add(mode, parent) =>
    case Yield(tick) =>
      var n := s;
      if s.current == Null { n := First(s, tick); }
      RoundRobinKeepsTaken(n, tick, t);
    case Nap(ms, hz, tick) =>
      NapIsRoundRobin(s, ms, hz, tick);
      RoundRobinKeepsTaken(PutToSleep(s, ms, hz, tick).(current := Null), tick, t);
    case Quit(tick) =>
      QuitIsRoundRobin(s, tick);
      RoundRobinKeepsTaken(SetState(s.(current := Null), s.current.slot, Zombie), tick, t);
  }

  lemma RoundRobinKeepsTaken(s: Sched, tick: nat, t: nat)
    requires Inv(s) && RoundRobin(s, tick).Go? && t < |s.state| && s.state[t] != Stopped
    ensures var s' := RoundRobin(s, tick).sched; t < |s'.state| && s'.state[t] != Stopped
  {
    hide IsHeap, Due, WakeDue, Members, Unique, InTable, RoundRobin, FirstLive, Waiting, StillAsleep, Requeue, Woken;
    RoundRobinClosed(s, tick);
  }
}
