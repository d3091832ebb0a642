/** src/kernel/scheduler/task-queue.c: a FIFO threaded through the tasks' own `next` fields. */
module TaskQueues {
  import opened Scheduling

  class Task {
    const slot: nat
    var state: TaskState
    var mode: Mode
    var wakeTick: nat
    var pid: int
    var parent: Ptr
    var next: Task?

    /** A slot of the table as `task_init` leaves it. */
    constructor (i: nat)
      ensures slot == i && state == Stopped && mode == Kthread && wakeTick == 0 && pid == 0xFFFF
      ensures parent == Null && next == null
    {
      slot, state, mode, wakeTick, pid, parent, next := i, Stopped, Kthread, 0, 0xFFFF, Null, null;
    }
  }

  ghost predicate Distinct(ts: seq<Task>) {
    forall i, j :: 0 <= i < j < |ts| ==> ts[i] != ts[j]
  }

  ghost function Slots(ts: seq<Task>): (r: seq<nat>)
    ensures |r| == |ts| && forall i :: 0 <= i < |r| ==> r[i] == ts[i].slot
  {
    seq(|ts|, i requires 0 <= i < |ts| => ts[i].slot)
  }

  class TaskQueue {
    var head: Task?
    var tail: Task?
    var size: nat
    ghost var nodes: seq<Task>

    /** The `next` fields run through `nodes` in order and stop; `size` is their number. */
    ghost predicate Valid()
      reads this, nodes`next
    {
      && size == |nodes| && Distinct(nodes)
      && (nodes == [] ==> head == null && tail == null)
      && (nodes != [] ==> head == nodes[0] && tail == nodes[|nodes| - 1] && tail.next == null)
      && (forall i :: 0 <= i < |nodes| - 1 ==> nodes[i].next == nodes[i + 1])
    }

    constructor ()
      ensures Valid() && nodes == []
    {
      head, tail, size, nodes := null, null, 0, [];
    }

    method Push(task: Task)
      requires Valid() && task !in nodes
      modifies this, nodes`next, task`next
      ensures Valid() && nodes == old(nodes) + [task]
    {
      task.next := null;
      if tail != null {
        tail.next := task;
      } else {
        head := task;
      }
      tail := task;
      size := size + 1;
      nodes := nodes + [task];
    }

    method Peek() returns (task: Task?)
      requires Valid()
      ensures task == if nodes == [] then null else nodes[0]
    {
      if size == 0 {
        return null;
      }
      return head;
    }

    method Pop() returns (task: Task?)
      requires Valid()
      modifies this, nodes`next
      ensures Valid()
      ensures old(nodes) == [] ==> task == null && nodes == []
      ensures old(nodes) != [] ==> task == old(nodes)[0] && nodes == old(nodes)[1..] && task.next == null
    {
      if head == null {
        return null;
      }
      task := head;
      head := task.next;
      if head == null {
        tail := null;
      }
      task.next := null;
      size := size - 1;
      nodes := nodes[1..];
    }
  }
}
