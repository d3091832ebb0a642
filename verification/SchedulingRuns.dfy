/** Whole runs of scheduler steps: safety, bounded waiting, sleeping long enough, and what is lost for good. */
module SchedulingRuns {
  import opened SleepHeap
  import opened Scheduling
  import opened SchedulingProofs
  import opened SchedulingSteps

  datatype Step =
    | Add(mode: Mode, parent: Ptr)
    | Yield(tick: nat)
    | Nap(ms: nat, hz: nat, tick: nat)
    | Quit(tick: nat)
    | CleanOne

  /** A step that can be taken and does not panic. The cleaner is a kernel thread. */
  ghost predicate Enabled(s: Sched, step: Step) {
    Shaped(s) &&
    match step
    case Add(_, _) => true
    case Yield(tick) => Schedule(s, tick).Go?
    case Nap(ms, hz, tick) => s.current.To? && SleepGuard(s, ms, hz, tick) && Sleep(s, ms, hz, tick).Go?
    case Quit(tick) => s.current.To? && Exit(s, tick).Go?
    case CleanOne => s.zombie != [] && s.current.To? && s.current.slot < |s.mode| && s.mode[s.current.slot] == Kthread
  }

  ghost function Next(s: Sched, step: Step): Sched
    requires Enabled(s, step)
  {
    match step
    case Add(mode, parent) => Spawn(s, mode, parent)
    case Yield(tick) => Schedule(s, tick).sched
    case Nap(ms, hz, tick) => Sleep(s, ms, hz, tick).sched
    case Quit(tick) => Exit(s, tick).sched
    case CleanOne => Clean(s)
  }

  ghost predicate IsRun(trace: seq<Sched>, steps: seq<Step>) {
    && |trace| == |steps| + 1
    && forall i :: 0 <= i < |steps| ==> Enabled(trace[i], steps[i]) && trace[i + 1] == Next(trace[i], steps[i])
  }

  /** The tasks a step adds to, or drops from, those the scheduler holds. */
  ghost predicate Conserves(s: Sched, step: Step, s': Sched) {
    match step
    case Add(_, _) =>
      var t := FreeSlot(s.state, 0);
      Members(s') == Members(s) + (if t < |s.state| then multiset{t} else multiset{})
    case Yield(_) => Members(s') == if s.current.To? then Members(s) else Members(s) - FirstDropped(s)
    case Nap(_, _, _) =>
      s.current.To? &&
      Members(s') == if |s.sleep| == MAX_SLEEP_TASKS then Members(s) - multiset{s.current.slot} else Members(s)
    case Quit(_) => s.current.To? && Members(s') == Members(s) - multiset{s.current.slot}
    case CleanOne => s.zombie != [] && Members(s') == Members(s) - multiset{s.zombie[0]}
  }

  /** Every step keeps the invariant and moves tasks exactly as stated; once there is a current task there
      always is one. */
  lemma StepInv(s: Sched, step: Step)
    requires Inv(s) && Enabled(s, step)
    ensures Inv(Next(s, step)) && Conserves(s, step, Next(s, step))
    ensures s.current.To? || step.Yield? ==> Next(s, step).current.To?
  {
    hide Members, Unique, InTable, StatesFit, IsHeap, RoundRobin, Sleep, SleepTicks, Clean;
    match step
    case Add(mode, parent) => SpawnInv(s, mode, parent);
    case Yield(tick) =>
      if s.current.To? { ScheduleInv(s, tick); } else { FirstScheduleInv(s, tick); }
    case Nap(ms, hz, tick) => SleepInv(s, ms, hz, tick);
    case Quit(tick) => ExitInv(s, tick);
    case CleanOne => CleanInv(s);
  }

  /** In every run no task is in two places, the sleep queue is a heap, and each queue holds only tasks in
      the states that belong there. */
  lemma {:induction false} RunInv(trace: seq<Sched>, steps: seq<Step>, n: nat)
    requires IsRun(trace, steps) && Inv(trace[0]) && n < |trace|
    ensures Inv(trace[n])
  {
    hide Inv;
    if n == 0 {
    } else {
      RunInv(trace, steps, n - 1);
      StepInv(trace[n - 1], steps[n - 1]);
    }
  }

  lemma EmptyInv()
    ensures Inv(Empty())
  {
  }

  // ---- bounded waiting ----

  predicate Dispatches(step: Step) {
    step.Yield? || step.Nap? || step.Quit?
  }

  function DispatchCount(steps: seq<Step>): nat {
    if steps == [] then 0 else (if Dispatches(steps[0]) then 1 else 0) + DispatchCount(steps[1..])
  }

  /** The live task `t` waits at position `j` of the ready queue. */
  ghost predicate WaitsAt(s: Sched, t: nat, j: nat) {
    j < |s.ready| && s.ready[j] == t && t < |s.state| && IsLive(s.state[t])
  }

  lemma RoundRobinProgress(s: Sched, tick: nat, t: nat, j: nat)
    requires Inv(s) && WaitsAt(s, t, j)
    ensures RoundRobin(s, tick).Go?
    ensures var s' := RoundRobin(s, tick).sched;
            s'.current == To(t) || exists j': nat :: j' < j && WaitsAt(s', t, j')
  {
    hide Members, Unique, InTable, IsHeap, WakeDue, Requeue, Dispatch;
    AfterWake(s, tick);
    var r := Requeue(WakeDue(s, tick));
    DispatchClosed(r);
    assert t in s.ready && WaitsAt(r, t, j);
    var k := FirstLive(r.ready, r.state);
    assert k <= j;
    var s' := Dispatched(r, k);
    if k < j {
      assert WaitsAt(s', t, j - k - 1);
    }
  }

  /** Each dispatch runs the waiting task or brings it strictly forward. */
  lemma StepProgress(s: Sched, step: Step, t: nat, j: nat)
    requires Inv(s) && s.current.To? && Enabled(s, step) && Dispatches(step) && WaitsAt(s, t, j)
    ensures var s' := Next(s, step);
            s'.current == To(t) || exists j': nat :: j' < j && WaitsAt(s', t, j')
  {
    hide Members, Unique, InTable, IsHeap, WakeDue, RoundRobin, SleepTicks, StatesFit;
    var c := s.current.slot;
    WithoutCurrent(s);
    assert t in s.ready;
    match step
    case Yield(tick) => RoundRobinProgress(s, tick, t, j);
    case Nap(ms, hz, tick) =>
      NapIsRoundRobin(s, ms, hz, tick);
      RoundRobinProgress(PutToSleep(s, ms, hz, tick).(current := Null), tick, t, j);
    case Quit(tick) =>
      QuitIsRoundRobin(s, tick);
      RoundRobinProgress(SetState(s.(current := Null), c, Zombie), tick, t, j);
  }

  lemma NapIsRoundRobin(s: Sched, ms: nat, hz: nat, tick: nat)
    requires Inv(s) && s.current.To? && SleepGuard(s, ms, hz, tick)
    ensures Inv(PutToSleep(s, ms, hz, tick).(current := Null))
    ensures Sleep(s, ms, hz, tick) == RoundRobin(PutToSleep(s, ms, hz, tick).(current := Null), tick)
  {
    hide RoundRobin, IsHeap, Members, WakeDue, PutToSleep, SleepTicks, Unique, InTable, StatesFit;
    AsleepInv(s, ms, hz, tick);
    var p := PutToSleep(s, ms, hz, tick);
    PutToSleepKeepsCurrent(s, ms, hz, tick);
    StaysAsleep(s, ms, hz, tick);
    Detached(p, tick);
  }

  lemma QuitIsRoundRobin(s: Sched, tick: nat)
    requires Inv(s) && s.current.To?
    ensures Inv(SetState(s.(current := Null), s.current.slot, Zombie))
    ensures Exit(s, tick) == RoundRobin(SetState(s.(current := Null), s.current.slot, Zombie), tick)
  {
    hide RoundRobin, IsHeap, Members, WakeDue, Unique, InTable, StatesFit;
    var c := s.current.slot;
    WithoutCurrent(s);
    var n := s.(current := Null);
    var z := SetState(n, c, Zombie);
    UnheldState(n, c, Zombie);
    assert SetState(s, c, Zombie) == z.(current := To(c));
    WakeSpares(z.(current := To(c)), tick, c);
    Detached(z.(current := To(c)), tick);
    assert z.(current := To(c)).(current := Null) == z;
  }

  /** A step that is no dispatch leaves the task where it waits, unless the cleaner marks it. */
  lemma StepWaits(s: Sched, step: Step, t: nat, j: nat)
    requires Inv(s) && Enabled(s, step) && !Dispatches(step) && WaitsAt(s, t, j)
    ensures var s' := Next(s, step); t < |s'.state| && (s'.state[t] == Zombie || WaitsAt(s', t, j))
  {
    hide Members, Unique, InTable, IsHeap, MarkThreads;
    assert t in s.ready;
    if step.CleanOne? {
      var z := s.zombie[0];
      ZombieTaken(s);
      Unheld(s.(zombie := s.zombie[1..]), z);
    }
  }

  /** Bounded waiting: a live task at position `j` of the ready queue becomes current within `j + 1` dispatches,
      whatever wake-ups, sleeps, exits, additions and cleanings interleave, unless it is marked a zombie. */
  lemma {:induction false} BoundedWaiting(trace: seq<Sched>, steps: seq<Step>, t: nat, j: nat)
    requires IsRun(trace, steps) && Inv(trace[0]) && trace[0].current.To? && WaitsAt(trace[0], t, j)
    requires forall n :: 0 <= n < |trace| ==> t < |trace[n].state| && trace[n].state[t] != Zombie
    requires DispatchCount(steps) >= j + 1
    ensures exists n :: 0 < n < |trace| && trace[n].current == To(t)
    decreases |steps|
  {
    hide Inv, Enabled, WaitsAt, IsRun, Next, Conserves, Dispatches;
    assert Enabled(trace[0], steps[0]) && trace[1] == Next(trace[0], steps[0]) && |trace| == |steps| + 1
      by { HeadOfRun(trace, steps); }
    StepInv(trace[0], steps[0]);
    var later, rest := trace[1..], steps[1..];
    var j' := Advance(trace[0], steps[0], t, j);
    if trace[1].current != To(t) {
      TailIsRun(trace, steps);
      BoundedWaiting(later, rest, t, j');
      var n :| 0 < n < |later| && later[n].current == To(t);
      assert trace[n + 1].current == To(t);
    }
  }

  lemma HeadOfRun(trace: seq<Sched>, steps: seq<Step>)
    requires IsRun(trace, steps) && steps != []
    ensures |trace| == |steps| + 1 && Enabled(trace[0], steps[0]) && trace[1] == Next(trace[0], steps[0])
  {
  }

  /** One step of a wait: the task runs, or a dispatch has brought it forward. */
  lemma Advance(s: Sched, step: Step, t: nat, j: nat) returns (j': nat)
    requires Inv(s) && s.current.To? && Enabled(s, step) && WaitsAt(s, t, j)
    requires t < |Next(s, step).state| && Next(s, step).state[t] != Zombie
    ensures var s' := Next(s, step);
            s'.current == To(t) || (WaitsAt(s', t, j') && j' + (if Dispatches(step) then 1 else 0) <= j)
  {
    hide Inv, Enabled, Next;
    j' := j;
    if Dispatches(step) {
      StepProgress(s, step, t, j);
      if Next(s, step).current != To(t) {
        j' :| j' < j && WaitsAt(Next(s, step), t, j');
      }
    } else {
      StepWaits(s, step, t, j);
    }
  }

  lemma TailIsRun(trace: seq<Sched>, steps: seq<Step>)
    requires IsRun(trace, steps) && steps != []
    ensures IsRun(trace[1..], steps[1..])
  {
    hide Enabled, Next;
    forall i | 0 <= i < |steps[1..]|
      ensures Enabled(trace[1..][i], steps[1..][i]) && trace[1..][i + 1] == Next(trace[1..][i], steps[1..][i])
    {
      assert Enabled(trace[i + 1], steps[i + 1]);
    }
  }
}
