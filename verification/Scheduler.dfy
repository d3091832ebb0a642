/** src/kernel/scheduler/scheduler.c over task objects, linked queues and the sleep array, proved against the
    step functions of Scheduling. */
module Schedulers {
  import opened Machine
  import opened SleepHeap
  import opened Scheduling
  import opened SchedulingProofs
  import opened SchedulingSteps
  import opened TaskQueues
  import opened SleepQueues

  class Scheduler {
    const table: seq<Task>
    const ready: TaskQueue
    const zombie: TaskQueue
    const sleep: SleepQueue
    var current: Task?

    ghost predicate Listed(t: Task)
    {
      t.slot < |table| && table[t.slot] == t
    }

    ghost function Wakes(n: nat := |table|): (r: seq<nat>)
      reads table`wakeTick
      requires n <= |table|
      ensures |r| == n && forall i :: 0 <= i < n ==> r[i] == table[i].wakeTick
    {
      if n == 0 then [] else Wakes(n - 1) + [table[n - 1].wakeTick]
    }

    ghost function States(n: nat := |table|): (r: seq<TaskState>)
      reads table`state
      requires n <= |table|
      ensures |r| == n && forall i :: 0 <= i < n ==> r[i] == table[i].state
    {
      if n == 0 then [] else States(n - 1) + [table[n - 1].state]
    }

    ghost function Modes(n: nat := |table|): (r: seq<Mode>)
      reads table`mode
      requires n <= |table|
      ensures |r| == n && forall i :: 0 <= i < n ==> r[i] == table[i].mode
    {
      if n == 0 then [] else Modes(n - 1) + [table[n - 1].mode]
    }

    ghost function Pids(n: nat := |table|): (r: seq<int>)
      reads table`pid
      requires n <= |table|
      ensures |r| == n && forall i :: 0 <= i < n ==> r[i] == table[i].pid
    {
      if n == 0 then [] else Pids(n - 1) + [table[n - 1].pid]
    }

    ghost function Parents(n: nat := |table|): (r: seq<Ptr>)
      reads table`parent
      requires n <= |table|
      ensures |r| == n && forall i :: 0 <= i < n ==> r[i] == table[i].parent
    {
      if n == 0 then [] else Parents(n - 1) + [table[n - 1].parent]
    }

    ghost predicate Valid()
      reads this, table`next, table`wakeTick, ready, zombie, sleep, sleep.data
    {
      && |table| == TASKS_MAX && (forall i :: 0 <= i < |table| ==> table[i].slot == i)
      && ready != zombie
      && (forall i :: 0 <= i < |ready.nodes| ==> Listed(ready.nodes[i]))
      && (forall i :: 0 <= i < |zombie.nodes| ==> Listed(zombie.nodes[i]))
      && (forall i, j :: 0 <= i < |ready.nodes| && 0 <= j < |zombie.nodes| ==> ready.nodes[i] != zombie.nodes[j])
      && ready.Valid() && zombie.Valid()
      && sleep.data.Length == MAX_SLEEP_TASKS && sleep.Valid(table, Wakes())
      && (current != null ==> Listed(current))
    }

    ghost function Value(): Sched
      reads this, table, ready, zombie, sleep, sleep.data
      requires Valid()
    {
      Sched(if current == null then Null else To(current.slot),
            Slots(ready.nodes), sleep.Prefix(sleep.size), Slots(zombie.nodes),
            States(), Modes(), Wakes(), Pids(), Parents())
    }

    /** `task_init` and `scheduler_init`, before the first thread is started. */
    constructor ()
      ensures Valid() && fresh(table) && fresh(ready) && fresh(zombie) && fresh(sleep) && fresh(sleep.data)
      ensures Value() == Empty()
    {
      var tasks := MakeTable();
      table := tasks;
      ready := new TaskQueue();
      zombie := new TaskQueue();
      sleep := new SleepQueue(MAX_SLEEP_TASKS);
      current := null;
      new;
      assert Valid();
      hide Scheduler.Valid;
      EmptyValue();
    }

    lemma EmptyValue()
      requires Valid() && current == null && ready.nodes == [] && zombie.nodes == [] && sleep.size == 0
      requires forall k :: 0 <= k < |table| ==> table[k].state == Stopped && table[k].mode == Kthread
      requires forall k :: 0 <= k < |table| ==>
                 table[k].wakeTick == 0 && table[k].pid == 0xFFFF && table[k].parent == Null
      ensures Value() == Empty()
    {
      hide Scheduler.Wakes, Scheduler.States, Scheduler.Modes, Scheduler.Pids, Scheduler.Parents;
      assert States() == Empty().state;
      assert Modes() == Empty().mode;
      assert Wakes() == Empty().wake;
      assert Pids() == Empty().pid;
      assert Parents() == Empty().parent;
    }

    static method MakeTable() returns (tasks: seq<Task>)
      ensures |tasks| == TASKS_MAX && fresh(tasks)
      ensures forall k :: 0 <= k < |tasks| ==>
                tasks[k].slot == k && tasks[k].state == Stopped && tasks[k].mode == Kthread
      ensures forall k :: 0 <= k < |tasks| ==>
                tasks[k].wakeTick == 0 && tasks[k].pid == 0xFFFF && tasks[k].parent == Null
    {
      tasks := [];
      for i := 0 to TASKS_MAX
        invariant |tasks| == i && fresh(tasks)
        invariant forall k :: 0 <= k < i ==> tasks[k].slot == k && tasks[k].state == Stopped && tasks[k].mode == Kthread
        invariant forall k :: 0 <= k < i ==> tasks[k].wakeTick == 0 && tasks[k].pid == 0xFFFF && tasks[k].parent == Null
      {
        var t := new Task(i);
        tasks := tasks + [t];
      }
    }

    /** A task in no list may be pushed. */
    ghost predicate Loose(t: Task)
      reads ready, zombie
    {
      Listed(t) && t !in ready.nodes && t !in zombie.nodes
    }

    static lemma SlotIn(ts: seq<Task>, t: Task)
      requires t in ts
      ensures t.slot in Slots(ts)
    {
      var i :| 0 <= i < |ts| && ts[i] == t;
      assert Slots(ts)[i] == t.slot;
    }

    lemma LooseBySlot(t: Task)
      requires Valid() && Listed(t) && t.slot !in Value().ready && t.slot !in Value().zombie
      ensures Loose(t)
    {
      if t in ready.nodes { SlotIn(ready.nodes, t); }
      if t in zombie.nodes { SlotIn(zombie.nodes, t); }
    }

    method SetState(t: Task, v: TaskState)
      requires Valid() && Listed(t)
      modifies t`state
      ensures Valid() && Value() == Scheduling.SetState(old(Value()), t.slot, v)
    {
      hide Scheduler.Wakes, Scheduler.States, Scheduler.Modes, Scheduler.Pids, Scheduler.Parents, SleepQueue.Prefix,
        Slots;
      t.state := v;
      assert States() == old(States())[t.slot := v];
    }

    method PushReady(t: Task)
      requires Valid() && Loose(t)
      modifies ready, table`next
      ensures Valid() && Value() == old(Value()).(ready := old(Value()).ready + [t.slot])
    {
      hide Scheduler.Wakes, Scheduler.States, Scheduler.Modes, Scheduler.Pids, Scheduler.Parents, SleepQueue.Prefix,
        Slots;
      ready.Push(t);
      assert Valid();
      assert Slots(ready.nodes) == old(Slots(ready.nodes)) + [t.slot];
    }

    method PushZombie(t: Task)
      requires Valid() && Loose(t)
      modifies zombie, table`next
      ensures Valid() && Value() == old(Value()).(zombie := old(Value()).zombie + [t.slot])
    {
      hide Scheduler.Wakes, Scheduler.States, Scheduler.Modes, Scheduler.Pids, Scheduler.Parents, SleepQueue.Prefix,
        Slots;
      zombie.Push(t);
      assert Valid();
      assert Slots(zombie.nodes) == old(Slots(zombie.nodes)) + [t.slot];
    }

    method PopReady() returns (t: Task?)
      requires Valid()
      modifies ready, table`next
      ensures Valid()
      ensures old(Value()).ready == [] ==> t == null && Value() == old(Value())
      ensures old(Value()).ready != [] ==>
                && t != null && Loose(t) && t.slot == old(Value()).ready[0]
                && Value() == old(Value()).(ready := old(Value()).ready[1..])
    {
      hide Scheduler.Wakes, Scheduler.States, Scheduler.Modes, Scheduler.Pids, Scheduler.Parents, SleepQueue.Prefix,
        Slots;
      t := ready.Pop();
      assert Valid();
      if t != null {
        assert Slots(ready.nodes) == old(Slots(ready.nodes))[1..];
      }
    }

    method PopZombie() returns (t: Task?)
      requires Valid()
      modifies zombie, table`next
      ensures Valid()
      ensures old(Value()).zombie == [] ==> t == null && Value() == old(Value())
      ensures old(Value()).zombie != [] ==>
                && t != null && Loose(t) && t.slot == old(Value()).zombie[0]
                && Value() == old(Value()).(zombie := old(Value()).zombie[1..])
    {
      hide Scheduler.Wakes, Scheduler.States, Scheduler.Modes, Scheduler.Pids, Scheduler.Parents, SleepQueue.Prefix,
        Slots;
      t := zombie.Pop();
      assert Valid();
      if t != null {
        assert Slots(zombie.nodes) == old(Slots(zombie.nodes))[1..];
      }
    }

    method PushSleeper(t: Task)
      requires Valid() && Listed(t)
      modifies sleep`size, sleep.data
      ensures Valid()
      ensures Value() == old(Value()).(sleep := Push(old(Value()).sleep, old(Value()).wake, MAX_SLEEP_TASKS, t.slot))
    {
      hide Scheduler.Wakes, Scheduler.States, Scheduler.Modes, Scheduler.Pids, Scheduler.Parents, SleepQueue.Prefix,
        Slots;
      sleep.Push(t, table, Wakes());
    }

    method PopSleeper() returns (t: Task?)
      requires Valid() && Value().sleep != []
      modifies sleep`size, sleep.data
      ensures Valid() && t != null && Listed(t) && t.slot == old(Value()).sleep[0]
      ensures Value() == old(Value()).(sleep := Popped(old(Value()).sleep, old(Value()).wake))
    {
      hide Scheduler.Wakes, Scheduler.States, Scheduler.Modes, Scheduler.Pids, Scheduler.Parents, SleepQueue.Prefix,
        Slots, SleepHeap.Popped, Due;
      t := sleep.Pop(table, Wakes());
    }

    // ---- enqueue_* ----

    method EnqueueReady(t: Task)
      requires Valid() && Loose(t)
      modifies ready, table`next, t`state
      ensures Valid() && Value() == Scheduling.EnqueueReady(old(Value()), t.slot)
    {
      hide Scheduler.Valid;
      assert StateOf(Value(), t.slot) == t.state;
      if t.state != Created {
        SetState(t, Running);
      }
      PushReady(t);
    }

    method EnqueueZombie(t: Task)
      requires Valid() && Loose(t)
      modifies zombie, table`next, t`state
      ensures Valid() && Value() == Scheduling.EnqueueZombie(old(Value()), t.slot)
    {
      hide Scheduler.Valid;
      SetState(t, Zombie);
      PushZombie(t);
    }

    method EnqueueSleeper(t: Task)
      requires Valid() && Listed(t)
      modifies sleep`size, sleep.data, t`state
      ensures Valid() && Value() == Scheduling.EnqueueSleeper(old(Value()), t.slot)
    {
      hide Scheduler.Valid, Push;
      SetState(t, Sleeping);
      PushSleeper(t);
    }

    // ---- round_robin ----

    method WakeSleepers(tick: nat)
      requires Valid() && Lists(Value())
      modifies sleep`size, sleep.data, ready, table`next, table`state
      ensures Valid() && Lists(Value()) && Value() == WakeDue(old(Value()), tick)
    {
      hide Scheduler.Valid, Scheduler.Value, Lists, Popped, Scheduling.EnqueueReady;
      while true
        invariant Valid() && Lists(Value())
        invariant WakeDue(Value(), tick) == WakeDue(old(Value()), tick)
        decreases |Value().sleep|
      {
        var t := PeekSleeper();
        if t == null || t.wakeTick > tick {
          break;
        }
        WakeOne(Value());
        ghost var s := Value();
        t := PopSleeper();
        LooseBySlot(t);
        EnqueueReady(t);
        assert |Value().sleep| < |s.sleep| by { WakeShrinks(s); }
      }
    }

    static lemma WakeShrinks(s: Sched)
      requires s.sleep != []
      ensures |Scheduling.EnqueueReady(s.(sleep := Popped(s.sleep, s.wake)), s.sleep[0]).sleep| < |s.sleep|
    {
    }

    method PeekSleeper() returns (t: Task?)
      requires Valid()
      ensures Value().sleep == [] <==> t == null
      ensures t != null ==> Listed(t) && t.slot == Value().sleep[0] && t.wakeTick == Due(Value().wake, t.slot)
    {
      t := sleep.Peek(table, Wakes());
    }

    /** `task_start_impl` does not return, so it ends the pass. */
    method Start(t: Task)
      requires Valid() && Listed(t)
      modifies this`current, t`state
      ensures Valid() && Value() == Scheduling.SetState(old(Value()), t.slot, Running).(current := To(t.slot))
    {
      SetCurrent(t);
      SetState(t, Running);
    }

    method SetCurrent(t: Task?)
      requires Valid() && (t != null ==> Listed(t))
      modifies this`current
      ensures Valid() && Value() == old(Value()).(current := if t == null then Null else To(t.slot))
    {
      hide Scheduler.Wakes, Scheduler.States, Scheduler.Modes, Scheduler.Pids, Scheduler.Parents, SleepQueue.Prefix,
        Slots;
      current := t;
    }

    /** One turn of the switch in the dispatch loop, for a task that cannot be run. */
    method Redirect(next: Task, ghost front: Sched)
      requires Valid() && Loose(next) && front.ready != [] && next.slot == front.ready[0]
      requires Value() == front.(ready := front.ready[1..]) && StateOf(front, next.slot) == next.state
      requires next.state != Running && next.state != Created
      modifies sleep`size, sleep.data, ready, zombie, table`next, next`state
      ensures Valid() && Value() == Redirected(front)
    {
      hide Scheduler.Valid, Scheduling.EnqueueReady, Scheduling.EnqueueSleeper, Scheduling.EnqueueZombie;
      if next.state == Zombie {
        EnqueueZombie(next);
      } else if next.state == Sleeping {
        EnqueueSleeper(next);
      } else {
        EnqueueReady(next);
      }
    }

    /** The next candidate, with the queue it was taken from. */
    method TakeNext() returns (next: Task?)
      requires Valid() && Lists(Value())
      modifies ready, table`next
      ensures Valid()
      ensures old(Value()).ready == [] ==> next == null && Value() == old(Value())
      ensures old(Value()).ready != [] ==>
                && next != null && Loose(next) && next.slot == old(Value()).ready[0]
                && Value() == old(Value()).(ready := old(Value()).ready[1..])
                && StateOf(old(Value()), next.slot) == next.state
    {
      hide Scheduler.Valid, Lists;
      next := PopReady();
      if next != null {
        StateSeen(next);
      }
    }

    /** `next` was taken off the queue of `front`, whose other parts the scheduler still has. */
    ghost predicate Candidate(next: Task, front: Sched)
      reads this, table, ready, zombie, sleep, sleep.data
    {
      && Valid() && Loose(next) && front.ready != [] && next.slot == front.ready[0]
      && Value() == front.(ready := front.ready[1..]) && StateOf(front, next.slot) == next.state
    }

    /** One turn of the dispatch loop: the task goes where its state says, and the next one is taken. */
    method Turn(task: Task, ghost front: Sched) returns (next: Task?, ghost front': Sched)
      requires Candidate(task, front) && Lists(front) && task.state != Running && task.state != Created
      modifies sleep`size, sleep.data, ready, zombie, table`next, table`state
      ensures front' == Redirected(front) && Lists(front') && Valid()
      ensures Pending(front'.ready, front'.state) < Pending(front.ready, front.state)
      ensures Dispatch(front) == Dispatch(front')
      ensures next == null <==> front'.ready == []
      ensures next != null ==> Candidate(next, front')
    {
      hide Scheduler.Valid, Lists, Redirected, Pending, Scheduler.Value;
      DispatchTurn(front);
      PendingFalls(front);
      Redirect(task, front);
      front' := Value();
      next := TakeNext();
    }

    /** The dispatch loop; `false` is the panic. */
    method DispatchNext() returns (ok: bool)
      requires Valid() && Lists(Value())
      modifies this`current, sleep`size, sleep.data, ready, zombie, table`next, table`state
      ensures Valid()
      ensures ok <==> Dispatch(old(Value())).Go?
      ensures ok ==> Value() == Dispatch(old(Value())).sched
    {
      hide Scheduler.Valid, Lists, Redirected, Pending, Scheduler.Value;
      ghost var front := Value();
      var next := TakeNext();
      if next == null {
        return false;
      }
      if next.state == Created {
        Start(next);
        return true;
      }
      while next.state != Running
        invariant next != null && Candidate(next, front)
        invariant Lists(front) && Dispatch(front) == Dispatch(old(Value()))
        decreases Pending(front.ready, front.state)
      {
        if next.state == Created {
          Start(next);
          return true;
        }
        next, front := Turn(next, front);
        if next == null {
          return false;
        }
      }
      if current != next {
        SetCurrent(next);
      } else {
        CurrentSeen();
      }
      return true;
    }

    lemma StateSeen(t: Task)
      requires Valid() && Listed(t)
      ensures StateOf(Value(), t.slot) == t.state
    {
    }

    method RoundRobin(tick: nat) returns (ok: bool)
      requires Valid() && Safe(Value(), tick)
      modifies this`current, sleep`size, sleep.data, ready, zombie, table`next, table`state
      ensures Valid()
      ensures ok <==> Scheduling.RoundRobin(old(Value()), tick).Go?
      ensures ok ==> Value() == Scheduling.RoundRobin(old(Value()), tick).sched
    {
      hide Scheduler.Valid, Lists, Dispatch, WakeDue, Scheduling.EnqueueReady;
      WakeSleepers(tick);
      ghost var w := Value();
      if current != null {
        CurrentSeen();
        StateSeen(current);
        if current.state == Running {
          LooseBySlot(current);
          EnqueueReady(current);
          SetCurrent(null);
          RequeueLists(w);
        }
      }
      ok := DispatchNext();
    }

    lemma CurrentSeen()
      requires Valid() && current != null
      ensures Listed(current) && Value().current == To(current.slot)
    {
    }

    // ---- kernel entries ----

    method Schedule(tick: nat) returns (ok: bool)
      requires Valid() && Safe(TakeFirst(Value()), tick)
      modifies this`current, sleep`size, sleep.data, ready, zombie, table`next, table`state
      ensures Valid()
      ensures ok <==> Scheduling.Schedule(old(Value()), tick).Go?
      ensures ok ==> Value() == Scheduling.Schedule(old(Value()), tick).sched
    {
      hide Scheduler.Valid, Safe, Scheduling.RoundRobin;
      CurrentNull();
      if current == null {
        var t := PopReady();
        SetCurrent(t);
      }
      ok := RoundRobin(tick);
    }

    lemma CurrentNull()
      requires Valid()
      ensures current == null <==> Value().current == Null
    {
    }

    method Yield(tick: nat) returns (ok: bool)
      requires Valid() && Inv(Value())
      modifies this`current, sleep`size, sleep.data, ready, zombie, table`next, table`state
      ensures Valid()
      ensures ok <==> Scheduling.Schedule(old(Value()), tick).Go?
      ensures ok ==> Value() == Scheduling.Schedule(old(Value()), tick).sched
    {
      hide Scheduler.Valid, Safe, Inv, Scheduling.Schedule;
      SafeFirst(Value(), tick);
      ok := Schedule(tick);
    }

    method SetWake(t: Task, v: nat)
      requires Valid() && Listed(t)
      modifies t`wakeTick
      ensures Valid() && t.slot < |old(Value()).wake|
                && Value() == old(Value()).(wake := old(Value()).wake[t.slot := v])
    {
      hide Scheduler.Wakes, Scheduler.States, Scheduler.Modes, Scheduler.Pids, Scheduler.Parents, SleepQueue.Prefix,
        Slots;
      t.wakeTick := v;
      assert Wakes() == old(Wakes())[t.slot := v];
    }

    /** The interrupt-safe block that opens `scheduler_sleep`. */
    method FallAsleep(ms: nat, hz: nat, tick: nat)
      requires Valid() && current != null
      modifies sleep`size, sleep.data, table`state, table`wakeTick
      ensures Valid() && old(Value()).current.To? && Value() == PutToSleep(old(Value()), ms, hz, tick)
    {
      hide Scheduler.Valid, Scheduler.Value, Push, SleepTicks;
      CurrentSeen();
      TableSizes();
      var ticks := ms * hz % WORD / 1000;
      if ticks == 0 {
        ticks := 1;
      }
      TicksOf(ms, hz);
      SetWake(current, (tick + ticks) % WORD);
      EnqueueSleeper(current);
    }

    method Sleep(ms: nat, hz: nat, tick: nat) returns (ok: bool)
      requires Valid() && Inv(Value()) && current != null && SleepGuard(Value(), ms, hz, tick)
      modifies this`current, sleep`size, sleep.data, ready, zombie, table`next, table`state, table`wakeTick
      ensures Valid() && old(Value()).current.To?
      ensures ok <==> Scheduling.Sleep(old(Value()), ms, hz, tick).Go?
      ensures ok ==> Value() == Scheduling.Sleep(old(Value()), ms, hz, tick).sched
    {
      hide Scheduler.Valid, Inv, Scheduling.Schedule, Safe, SleepTicks, PutToSleep;
      CurrentSeen();
      SafeSleep(Value(), ms, hz, tick);
      FallAsleep(ms, hz, tick);
      ok := Schedule(tick);
    }

    static lemma TicksOf(ms: nat, hz: nat)
      ensures SleepTicks(ms, hz) == if ms * hz % WORD / 1000 == 0 then 1 else ms * hz % WORD / 1000
    {
    }

    method Exit(tick: nat) returns (ok: bool)
      requires Valid() && Inv(Value())
      modifies this`current, sleep`size, sleep.data, ready, zombie, table`next, table`state
      ensures Valid()
      ensures ok <==> old(current) != null && Scheduling.Exit(old(Value()), tick).Go?
      ensures ok || old(current) == null ==> Scheduling.Exit(old(Value()), tick) == Go(Value())
    {
      hide Scheduler.Valid, Inv, Safe, Scheduling.RoundRobin;
      CurrentNull();
      if current == null {
        return false;
      }
      CurrentSeen();
      SafeExit(Value(), tick);
      SetState(current, Zombie);
      ok := RoundRobin(tick);
    }

    /** `get_free_task`: the first stopped slot. */
    method GetFreeTask() returns (t: Task?)
      requires Valid()
      modifies table`state, table`pid, table`mode
      ensures Valid()
      ensures var i := FreeSlot(old(Value()).state, 0);
              if i == TASKS_MAX then t == null && Value() == old(Value())
              else t != null && Listed(t) && t.slot == i && i < |old(Value()).pid|
                   && Value() == old(Value()).(state := old(Value()).state[i := Created],
                                               pid := old(Value()).pid[i := i],
                                               mode := old(Value()).mode[i := Kthread])
    {
      var i := 0;
      while i < TASKS_MAX
        invariant 0 <= i <= TASKS_MAX && Valid() && Value() == old(Value())
        invariant FreeSlot(Value().state, i) == FreeSlot(old(Value()).state, 0)
      {
        if table[i].state == Stopped {
          Claim(table[i]);
          return table[i];
        }
        i := i + 1;
      }
      return null;
    }

    method Claim(t: Task)
      requires Valid() && Listed(t)
      modifies t`state, t`pid, t`mode
      ensures Valid()
      ensures var i, v := t.slot, old(Value());
              i < |v.state| && i < |v.pid| && i < |v.mode|
              && Value() == v.(state := v.state[i := Created], pid := v.pid[i := i], mode := v.mode[i := Kthread])
    {
      hide Scheduler.Valid;
      SetPid(t, t.slot);
      SetState(t, Created);
      SetMode(t, Kthread);
      TableSizes();
    }

    lemma TableSizes()
      requires Valid()
      ensures Shaped(Value())
    {
    }

    method SetPid(t: Task, v: int)
      requires Valid() && Listed(t)
      modifies t`pid
      ensures Valid() && t.slot < |old(Value()).pid| && Value() == old(Value()).(pid := old(Value()).pid[t.slot := v])
    {
      hide Scheduler.Wakes, Scheduler.States, Scheduler.Modes, Scheduler.Pids, Scheduler.Parents, SleepQueue.Prefix,
        Slots;
      t.pid := v;
      assert Pids() == old(Pids())[t.slot := v];
    }

    method SetMode(t: Task, v: Mode)
      requires Valid() && Listed(t)
      modifies t`mode
      ensures Valid() && t.slot < |old(Value()).mode|
                && Value() == old(Value()).(mode := old(Value()).mode[t.slot := v])
    {
      hide Scheduler.Wakes, Scheduler.States, Scheduler.Modes, Scheduler.Pids, Scheduler.Parents, SleepQueue.Prefix,
        Slots;
      t.mode := v;
      assert Modes() == old(Modes())[t.slot := v];
    }

    method SetParent(t: Task, v: Ptr)
      requires Valid() && Listed(t)
      modifies t`parent
      ensures Valid() && t.slot < |old(Value()).parent|
                && Value() == old(Value()).(parent := old(Value()).parent[t.slot := v])
    {
      hide Scheduler.Wakes, Scheduler.States, Scheduler.Modes, Scheduler.Pids, Scheduler.Parents, SleepQueue.Prefix,
        Slots;
      t.parent := v;
      assert Parents() == old(Parents())[t.slot := v];
    }

    /** `task_create_kthread` and `task_create_thread_process`, as far as the scheduler sees them. */
    method Create(mode: Mode, parent: Ptr) returns (t: Task?)
      requires Valid() && Inv(Value())
      modifies ready, table`next, table`state, table`pid, table`mode, table`parent
      ensures Valid() && Shaped(old(Value())) && Value() == Spawn(old(Value()), mode, parent)
      ensures t == null <==> FreeSlot(old(Value()).state, 0) == TASKS_MAX
    {
      hide Scheduler.Valid, Unique, InTable, StatesFit, IsHeap, Members, Scheduling.EnqueueReady, Scheduler.Value,
        FreeSlot;
      ghost var s := Value();
      t := GetFreeTask();
      if t != null {
        SetMode(t, mode);
        SetParent(t, parent);
        assert s.mode[t.slot := Kthread][t.slot := mode] == s.mode[t.slot := mode];
        StoppedUnheld(s, t.slot);
        Unheld(s, t.slot);
        LooseBySlot(t);
        EnqueueReady(t);
      }
    }

    // ---- the cleaner ----

    /** The first loop of `task_cleanup`. */
    method MarkZombies(pid: nat)
      requires Valid() && pid < TASKS_MAX
      modifies table`state
      ensures Valid() && Shaped(old(Value())) && Value() == old(Value()).(state := MarkThreads(old(Value()), pid))
    {
      hide Scheduler.Valid, Scheduler.Value;
      TableSizes();
      ghost var s := Value();
      for i := 0 to TASKS_MAX
        invariant Valid() && Value() == s.(state := MarkedTo(s, pid, i))
      {
        var t := At(i);
        if t.parent == To(pid) && t.mode == Thread {
          SetState(t, Zombie);
        }
      }
    }

    /** The entry of the table at `i`, with the fields `task_cleanup` looks at. */
    method At(i: nat) returns (t: Task)
      requires Valid() && i < TASKS_MAX
      ensures Listed(t) && t.slot == i && i < |Value().parent| && i < |Value().mode| && i < |Value().state|
      ensures t.parent == Value().parent[i] && t.mode == Value().mode[i]
      ensures i < |Value().pid| && t.pid == Value().pid[i]
    {
      t := table[i];
    }

    /** `task_cleanup`, as far as the scheduler sees it. */
    method TaskCleanup(pid: int)
      requires Valid()
      modifies table`state, table`mode, table`wakeTick, table`pid, table`parent
      ensures Valid() && Shaped(old(Value())) && Value() == Cleanup(old(Value()), pid)
    {
      hide Scheduler.Valid, Scheduler.Value, MarkThreads;
      TableSizes();
      if pid == 0xFFFF || pid >= TASKS_MAX || pid < 0 {
        return;
      }
      MarkZombies(pid);
      var t := At(pid);
      SetMode(t, Kthread);
      SetWake(t, 0);
      SetState(t, Stopped);
      SetPid(t, 0xFFFF);
      SetParent(t, Null);
    }

    /** One turn of `kthread_task_cleaner`, up to its yield. */
    method CleanOne()
      requires Valid() && Inv(Value())
      modifies zombie, table`next, table`state, table`mode, table`wakeTick, table`pid, table`parent
      ensures Valid() && Shaped(old(Value())) && Value() == Clean(old(Value()))
    {
      hide Scheduler.Valid, Unique, StatesFit, IsHeap, Members, Cleanup, Scheduler.Value;
      ghost var s := Value();
      var t := PopZombie();
      if t != null {
        ZombieTaken(s);
        PidSeen(t);
        TaskCleanup(t.pid);
      }
    }

    lemma PidSeen(t: Task)
      requires Valid() && Listed(t)
      ensures t.slot < |Value().pid| && Value().pid[t.slot] == t.pid
    {
    }
  }
}
