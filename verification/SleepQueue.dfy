/** src/kernel/scheduler/sleep-queue.c: the min-heap of sleepers, sifted in place in an array. */
module SleepQueues {
  import opened SleepHeap
  import opened TaskQueues

  class SleepQueue {
    const data: array<Task?>
    var size: nat

    /** The first `n` places hold tasks of the table, whose wake ticks are `wake`. */
    ghost predicate Holds(n: nat, table: seq<Task>, wake: seq<nat>)
      reads this, data, table`wakeTick
    {
      && n <= data.Length
      && forall i :: 0 <= i < n ==>
           data[i] != null && data[i].slot < |table| && table[data[i].slot] == data[i]
             && data[i].wakeTick == Due(wake, data[i].slot)
    }

    ghost predicate Valid(table: seq<Task>, wake: seq<nat>)
      reads this, data, table`wakeTick
    {
      Holds(size, table, wake)
    }

    /** The slots of the tasks in the first `n` places. */
    ghost function Prefix(n: nat): (r: seq<nat>)
      reads this, data
      requires n <= data.Length && forall i :: 0 <= i < n ==> data[i] != null
      ensures |r| == n && forall i :: 0 <= i < n ==> r[i] == data[i].slot
    {
      if n == 0 then [] else Prefix(n - 1) + [data[n - 1].slot]
    }

    constructor (capacity: nat)
      ensures fresh(data) && data.Length == capacity && size == 0
    {
      data := new Task?[capacity](_ => null);
      size := 0;
    }

    method Swap(i: nat, j: nat, n: nat, ghost table: seq<Task>, ghost wake: seq<nat>)
      requires i < n && j < n && Holds(n, table, wake)
      modifies data
      ensures Holds(n, table, wake) && Prefix(n) == Swapped(old(Prefix(n)), i, j)
    {
      data[i], data[j] := data[j], data[i];
    }

    /** Sifts the element at `start` up; the heap ends just after it. */
    method HeapifyUp(start: nat, ghost table: seq<Task>, ghost wake: seq<nat>)
      requires Holds(start + 1, table, wake)
      modifies data
      ensures Holds(start + 1, table, wake)
      ensures Prefix(start + 1) == SiftUp(old(Prefix(start + 1)), wake, start)
    {
      hide Due;
      var idx: nat := start;
      while idx > 0
        invariant idx <= start && Holds(start + 1, table, wake)
        invariant SiftUp(Prefix(start + 1), wake, idx) == SiftUp(old(Prefix(start + 1)), wake, start)
      {
        var parent := (idx - 1) / 2;
        if data[parent].wakeTick <= data[idx].wakeTick {
          break;
        }
        Swap(parent, idx, start + 1, table, wake);
        idx := parent;
      }
    }

    method HeapifyDown(start: nat, ghost table: seq<Task>, ghost wake: seq<nat>)
      requires start < size && Holds(size, table, wake)
      modifies data
      ensures Holds(size, table, wake)
      ensures Prefix(size) == SiftDown(old(Prefix(size)), wake, start)
    {
      hide Due;
      var idx: nat := start;
      while true
        invariant idx < size && Holds(size, table, wake)
        invariant SiftDown(Prefix(size), wake, idx) == SiftDown(old(Prefix(size)), wake, start)
        decreases size - idx
      {
        var left, right, smallest := idx * 2 + 1, idx * 2 + 2, idx;
        if left < size && data[left].wakeTick < data[smallest].wakeTick {
          smallest := left;
        }
        if right < size && data[right].wakeTick < data[smallest].wakeTick {
          smallest := right;
        }
        assert smallest == Smallest(Prefix(size), wake, idx);
        if smallest == idx {
          break;
        }
        Swap(idx, smallest, size, table, wake);
        idx := smallest;
      }
    }

    /** A full queue ignores the task. */
    method Push(task: Task, ghost table: seq<Task>, ghost wake: seq<nat>)
      requires Valid(table, wake)
      requires task.slot < |table| && table[task.slot] == task && task.wakeTick == Due(wake, task.slot)
      modifies this`size, data
      ensures Valid(table, wake)
      ensures Prefix(size) == SleepHeap.Push(old(Prefix(size)), wake, data.Length, task.slot)
    {
      if size == data.Length {
        return;
      }
      data[size] := task;
      assert Prefix(size + 1) == old(Prefix(size)) + [task.slot];
      HeapifyUp(size, table, wake);
      size := size + 1;
    }

    method Peek(ghost table: seq<Task>, ghost wake: seq<nat>) returns (task: Task?)
      requires Valid(table, wake)
      ensures size == 0 ==> task == null
      ensures size > 0 ==>
                task != null && task.slot < |table| && task == table[task.slot] && task.slot == Prefix(size)[0]
    {
      if size == 0 {
        return null;
      }
      return data[0];
    }

    method Pop(ghost table: seq<Task>, ghost wake: seq<nat>) returns (task: Task?)
      requires Valid(table, wake)
      modifies this`size, data
      ensures Valid(table, wake)
      ensures old(size) == 0 ==> task == null && size == 0
      ensures old(size) > 0 ==>
                && task != null && task.slot < |table| && task == table[task.slot]
                && task.slot == old(Prefix(size))[0] && Prefix(size) == Popped(old(Prefix(size)), wake)
    {
      if size == 0 {
        return null;
      }
      task := data[0];
      ghost var before := Prefix(size);
      size := size - 1;
      if size > 0 {
        data[0] := data[size];
        assert Prefix(size) == [before[size]] + before[1..size];
        HeapifyDown(0, table, wake);
      }
    }
  }
}
