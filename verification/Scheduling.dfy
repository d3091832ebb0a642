/** src/kernel/scheduler/scheduler.c and task.c on values: one step function per kernel entry. Tasks are
    named by their slot in the task table. */
module Scheduling {
  import opened Machine
  import opened SleepHeap

  const TASKS_MAX: nat := 256
  const MAX_SLEEP_TASKS: nat := 128

  datatype TaskState = Stopped | Running | Created | Blocked | Sleeping | Zombie | Cleaning
  datatype Mode = Kthread | Process | Thread
  datatype Ptr = Null | To(slot: nat)

  /** The scheduler's globals, with the task table as one sequence per field. */
  datatype Sched = Sched(
    current: Ptr,
    ready: seq<nat>,
    sleep: seq<nat>,
    zombie: seq<nat>,
    state: seq<TaskState>,
    mode: seq<Mode>,
    wake: seq<nat>,
    pid: seq<int>,
    parent: seq<Ptr>)

  function StateOf(s: Sched, t: nat): TaskState {
    if t < |s.state| then s.state[t] else Running
  }

  function SetState(s: Sched, t: nat, v: TaskState): Sched {
    if t < |s.state| then s.(state := s.state[t := v]) else s
  }

  // ---- enqueue_* ----

  function EnqueueReady(s: Sched, t: nat): Sched {
    var s1 := if StateOf(s, t) != Created then SetState(s, t, Running) else s;
    s1.(ready := s.ready + [t])
  }

  function EnqueueZombie(s: Sched, t: nat): Sched {
    SetState(s, t, Zombie).(zombie := s.zombie + [t])
  }

  function EnqueueSleeper(s: Sched, t: nat): Sched {
    SetState(s, t, Sleeping).(sleep := Push(s.sleep, s.wake, MAX_SLEEP_TASKS, t))
  }

  // ---- round_robin ----

  /** The wake loop. */
  function WakeDue(s: Sched, tick: nat): Sched
    decreases |s.sleep|
  {
    if s.sleep == [] || Due(s.wake, s.sleep[0]) > tick then s
    else WakeDue(EnqueueReady(s.(sleep := Popped(s.sleep, s.wake)), s.sleep[0]), tick)
  }

  /** A current task that is still running goes to the back of the ready queue. */
  function Requeue(s: Sched): Sched {
    if s.current.To? && StateOf(s, s.current.slot) == Running
    then EnqueueReady(s, s.current.slot).(current := Null)
    else s
  }

  /** Ready entries that are not running: each turn of the dispatch loop lowers their number. */
  ghost function Pending(ready: seq<nat>, state: seq<TaskState>): nat {
    if ready == [] then 0
    else (if ready[0] < |state| && state[ready[0]] != Running then 1 else 0) + Pending(ready[1..], state)
  }

  datatype Outcome = Panic | Go(sched: Sched)

  /** What the dispatch loop does with a head of the ready queue that it cannot run. */
  function Redirected(s: Sched): Sched
    requires s.ready != []
  {
    var next := s.ready[0];
    var s1 := s.(ready := s.ready[1..]);
    match StateOf(s, next)
    case Zombie => EnqueueZombie(s1, next)
    case Sleeping => EnqueueSleeper(s1, next)
    case _ => EnqueueReady(s1, next)
  }

  /** The dispatch loop. Starting a created task does not return, so it ends the loop. */
  function Dispatch(s: Sched): Outcome
    decreases Pending(s.ready, s.state)
  {
    if s.ready == [] then Panic
    else
      var next := s.ready[0];
      var s1 := s.(ready := s.ready[1..]);
      match StateOf(s, next)
      case Running => Go(s1.(current := To(next)))
      case Created => Go(SetState(s1, next, Running).(current := To(next)))
      case _ => PendingFalls(s); Dispatch(Redirected(s))
  }

  lemma {:induction false} PendingAppend(xs: seq<nat>, t: nat, state: seq<TaskState>)
    ensures Pending(xs + [t], state) == Pending(xs, state) + (if t < |state| && state[t] != Running then 1 else 0)
  {
    if xs == [] {
      assert xs + [t] == [t];
    } else {
      PendingAppend(xs[1..], t, state);
      assert (xs + [t])[1..] == xs[1..] + [t];
    }
  }

  lemma {:induction false} PendingMonotone(xs: seq<nat>, state: seq<TaskState>, t: nat, v: TaskState)
    requires t < |state| && (v == Running || v == state[t])
    ensures Pending(xs, state[t := v]) <= Pending(xs, state)
  {
    if xs == [] {
    } else {
      PendingMonotone(xs[1..], state, t, v);
    }
  }

  lemma PendingFalls(s: Sched)
    requires s.ready != [] && StateOf(s, s.ready[0]) != Running && StateOf(s, s.ready[0]) != Created
    ensures Pending(Redirected(s).ready, Redirected(s).state) < Pending(s.ready, s.state)
  {
    var next := s.ready[0];
    var v := StateOf(s, next);
    if v == Zombie || v == Sleeping {
      PendingMonotone(s.ready[1..], s.state, next, v);
    } else {
      PendingMonotone(s.ready[1..], s.state, next, Running);
      PendingAppend(s.ready[1..], next, Redirected(s).state);
    }
  }

  function RoundRobin(s: Sched, tick: nat): Outcome {
    Dispatch(Requeue(WakeDue(s, tick)))
  }

  // ---- kernel entries ----

  /** With no current task the head of the ready queue is taken first, whatever its state. */
  function TakeFirst(s: Sched): Sched {
    if s.current == Null && s.ready != [] then s.(current := To(s.ready[0]), ready := s.ready[1..]) else s
  }

  function Schedule(s: Sched, tick: nat): Outcome {
    RoundRobin(TakeFirst(s), tick)
  }

  /** Ticks a sleep lasts, with the 32-bit product the code computes. */
  function SleepTicks(ms: nat, hz: nat): (r: nat)
    ensures r >= 1
  {
    var ticks := ms * hz % WORD / 1000;
    if ticks == 0 then 1 else ticks
  }

  /** The current task sets its wake tick and enters the sleep queue. */
  function PutToSleep(s: Sched, ms: nat, hz: nat, tick: nat): Sched
    requires s.current.To?
  {
    var t := s.current.slot;
    var wake := if t < |s.wake| then s.wake[t := (tick + SleepTicks(ms, hz)) % WORD] else s.wake;
    EnqueueSleeper(s.(wake := wake), t)
  }

  function Sleep(s: Sched, ms: nat, hz: nat, tick: nat): Outcome
    requires s.current.To?
  {
    Schedule(PutToSleep(s, ms, hz, tick), tick)
  }

  /** `scheduler_exit`; without a current task it changes nothing. */
  function Exit(s: Sched, tick: nat): Outcome {
    if s.current == Null then Go(s) else RoundRobin(SetState(s, s.current.slot, Zombie), tick)
  }

  /** First stopped slot from `i` on, or the table size. */
  function FreeSlot(state: seq<TaskState>, i: nat): (r: nat)
    requires i <= |state|
    ensures i <= r <= |state|
    ensures r < |state| ==> state[r] == Stopped
    ensures forall k :: i <= k < r ==> state[k] != Stopped
    decreases |state| - i
  {
    if i == |state| || state[i] == Stopped then i else FreeSlot(state, i + 1)
  }

  ghost predicate Shaped(s: Sched) {
    |s.state| == TASKS_MAX && |s.mode| == TASKS_MAX && |s.wake| == TASKS_MAX && |s.pid| == TASKS_MAX
      && |s.parent| == TASKS_MAX
  }

  /** `get_free_task`, the field setting of `task_create_*`, and `scheduler_add`. A full table changes nothing. */
  function Spawn(s: Sched, mode: Mode, parent: Ptr): (r: Sched)
    requires Shaped(s)
    ensures Shaped(r)
  {
    var t := FreeSlot(s.state, 0);
    if t == |s.state| then s
    else
      var s1 := s.(state := s.state[t := Created], pid := s.pid[t := t]);
      EnqueueReady(s1.(mode := s.mode[t := mode], parent := s.parent[t := parent]), t)
  }

  /** The states after `task_cleanup` has looked at the first `n` slots for threads of the dead task. */
  function MarkedTo(s: Sched, t: nat, n: nat): (r: seq<TaskState>)
    requires Shaped(s) && n <= TASKS_MAX
    ensures |r| == |s.state|
    ensures forall i :: 0 <= i < |r| ==>
              r[i] == if i < n && s.parent[i] == To(t) && s.mode[i] == Thread then Zombie else s.state[i]
  {
    if n == 0 then s.state
    else if s.parent[n - 1] == To(t) && s.mode[n - 1] == Thread then MarkedTo(s, t, n - 1)[n - 1 := Zombie]
    else MarkedTo(s, t, n - 1)
  }

  /** `task_cleanup` marks the threads of the dead task. */
  function MarkThreads(s: Sched, t: nat): (r: seq<TaskState>)
    requires Shaped(s)
    ensures |r| == |s.state|
    ensures forall i :: 0 <= i < |r| ==>
              r[i] == if s.parent[i] == To(t) && s.mode[i] == Thread then Zombie else s.state[i]
  {
    MarkedTo(s, t, TASKS_MAX)
  }

  /** The whole of `task_cleanup(pid)`; an unassigned pid changes nothing. */
  function Cleanup(s: Sched, pid: int): Sched
    requires Shaped(s)
  {
    if !(0 <= pid < TASKS_MAX) then s
    else s.(state := MarkThreads(s, pid)[pid := Stopped], mode := s.mode[pid := Kthread],
            wake := s.wake[pid := 0], pid := s.pid[pid := 0xFFFF], parent := s.parent[pid := Null])
  }

  /** One turn of the cleaner: take a zombie and clean its slot. */
  function Clean(s: Sched): Sched
    requires Shaped(s)
  {
    if s.zombie == [] || s.zombie[0] >= |s.pid| then s
    else Cleanup(s.(zombie := s.zombie[1..]), s.pid[s.zombie[0]])
  }

  /** After `task_init` and `scheduler_init`, before the first task is created. */
  function Empty(): (r: Sched)
    ensures Shaped(r)
  {
    Sched(Null, [], [], [], seq(TASKS_MAX, _ => Stopped), seq(TASKS_MAX, _ => Kthread), seq(TASKS_MAX, _ => 0),
          seq(TASKS_MAX, _ => 0xFFFF), seq(TASKS_MAX, _ => Null))
  }
}
