/** src/kernel/scheduler/sleep-queue.c on values: a binary min-heap of task slots keyed by wake tick. */
module SleepHeap {

  /** The tick a task is to be woken at. */
  function Due(wake: seq<nat>, t: nat): nat {
    if t < |wake| then wake[t] else 0
  }

  function Parent(i: nat): nat
    requires 0 < i
  {
    (i - 1) / 2
  }

  function Swapped(s: seq<nat>, i: nat, j: nat): (r: seq<nat>)
    requires i < |s| && j < |s|
    ensures |r| == |s|
  {
    s[i := s[j]][j := s[i]]
  }

  function SiftUp(s: seq<nat>, wake: seq<nat>, i: nat): (r: seq<nat>)
    requires i < |s|
    ensures |r| == |s|
    decreases i
  {
    if i == 0 || Due(wake, s[Parent(i)]) <= Due(wake, s[i]) then s
    else SiftUp(Swapped(s, Parent(i), i), wake, Parent(i))
  }

  /** The position among `i` and its children that is due first, as the code picks it. */
  function Smallest(s: seq<nat>, wake: seq<nat>, i: nat): (r: nat)
    requires i < |s|
    ensures r < |s| && (r == i || r == 2 * i + 1 || r == 2 * i + 2)
  {
    var l, r := 2 * i + 1, 2 * i + 2;
    var m := if l < |s| && Due(wake, s[l]) < Due(wake, s[i]) then l else i;
    if r < |s| && Due(wake, s[r]) < Due(wake, s[m]) then r else m
  }

  function SiftDown(s: seq<nat>, wake: seq<nat>, i: nat): (r: seq<nat>)
    requires i < |s|
    ensures |r| == |s|
    decreases |s| - i
  {
    var m := Smallest(s, wake, i);
    if m == i then s else SiftDown(Swapped(s, i, m), wake, m)
  }

  /** A full queue drops the task. */
  function Push(s: seq<nat>, wake: seq<nat>, capacity: nat, t: nat): seq<nat> {
    if |s| == capacity then s else SiftUp(s + [t], wake, |s|)
  }

  /** The queue without its root. */
  function Popped(s: seq<nat>, wake: seq<nat>): (r: seq<nat>)
    requires s != []
    ensures |r| == |s| - 1
  {
    if |s| == 1 then [] else SiftDown([s[|s| - 1]] + s[1..|s| - 1], wake, 0)
  }

  // ---- heap order ----

  ghost predicate IsHeap(s: seq<nat>, wake: seq<nat>) {
    forall i :: 0 < i < |s| ==> Due(wake, s[Parent(i)]) <= Due(wake, s[i])
  }

  /** In order except that the element at `i` may be smaller than its parent. */
  ghost predicate HeapButUp(s: seq<nat>, wake: seq<nat>, i: nat) {
    && (forall j :: 0 < j < |s| && j != i ==> Due(wake, s[Parent(j)]) <= Due(wake, s[j]))
    && (forall j :: 0 < j < |s| && 0 < i == Parent(j) ==> Due(wake, s[Parent(i)]) <= Due(wake, s[j]))
  }

  /** In order except that the element at `i` may be larger than its children. */
  ghost predicate HeapButDown(s: seq<nat>, wake: seq<nat>, i: nat) {
    && (forall j :: 0 < j < |s| && Parent(j) != i ==> Due(wake, s[Parent(j)]) <= Due(wake, s[j]))
    && (forall j :: 0 < j < |s| && 0 < i == Parent(j) ==> Due(wake, s[Parent(i)]) <= Due(wake, s[j]))
  }

  lemma SwappedPerm(s: seq<nat>, i: nat, j: nat)
    requires i < |s| && j < |s|
    ensures multiset(Swapped(s, i, j)) == multiset(s)
  {
  }

  lemma {:induction false} SiftUpHeap(s: seq<nat>, wake: seq<nat>, i: nat)
    requires i < |s| && HeapButUp(s, wake, i)
    ensures IsHeap(SiftUp(s, wake, i), wake) && multiset(SiftUp(s, wake, i)) == multiset(s)
    decreases i
  {
    if i == 0 || Due(wake, s[Parent(i)]) <= Due(wake, s[i]) {
    } else {
      SiftUpStep(s, wake, i);
      SwappedPerm(s, Parent(i), i);
      SiftUpHeap(Swapped(s, Parent(i), i), wake, Parent(i));
    }
  }

  lemma SiftUpStep(s: seq<nat>, wake: seq<nat>, i: nat)
    requires 0 < i < |s| && HeapButUp(s, wake, i) && Due(wake, s[i]) < Due(wake, s[Parent(i)])
    ensures HeapButUp(Swapped(s, Parent(i), i), wake, Parent(i))
  {
    hide Due;
    var p := Parent(i);
    var r := Swapped(s, p, i);
    forall j | 0 < j < |r| && j != p
      ensures Due(wake, r[Parent(j)]) <= Due(wake, r[j])
    {
      assert Due(wake, s[Parent(j)]) <= Due(wake, s[j]) || j == i;
    }
    forall j | 0 < j < |r| && 0 < p == Parent(j)
      ensures Due(wake, r[Parent(p)]) <= Due(wake, r[j])
    {
      assert Due(wake, s[Parent(p)]) <= Due(wake, s[p]);
      assert j != i ==> Due(wake, s[p]) <= Due(wake, s[j]);
    }
  }

  lemma {:induction false} SiftDownHeap(s: seq<nat>, wake: seq<nat>, i: nat)
    requires i < |s| && HeapButDown(s, wake, i)
    ensures IsHeap(SiftDown(s, wake, i), wake) && multiset(SiftDown(s, wake, i)) == multiset(s)
    decreases |s| - i
  {
    hide Due;
    var m := Smallest(s, wake, i);
    if m == i {
      SiftDownDone(s, wake, i);
    } else {
      SiftDownStep(s, wake, i);
      SwappedPerm(s, i, m);
      SiftDownHeap(Swapped(s, i, m), wake, m);
    }
  }

  lemma SiftDownDone(s: seq<nat>, wake: seq<nat>, i: nat)
    requires i < |s| && HeapButDown(s, wake, i) && Smallest(s, wake, i) == i
    ensures IsHeap(s, wake)
  {
    hide Due;
    forall j | 0 < j < |s|
      ensures Due(wake, s[Parent(j)]) <= Due(wake, s[j])
    {
      if Parent(j) == i {
        assert j == 2 * i + 1 || j == 2 * i + 2;
      }
    }
  }

  lemma SiftDownStep(s: seq<nat>, wake: seq<nat>, i: nat)
    requires i < |s| && HeapButDown(s, wake, i) && Smallest(s, wake, i) != i
    ensures HeapButDown(Swapped(s, i, Smallest(s, wake, i)), wake, Smallest(s, wake, i))
  {
    hide Due;
    var m := Smallest(s, wake, i);
    var r := Swapped(s, i, m);
    assert Parent(m) == i;
    forall j | 0 < j < |r| && Parent(j) != m
      ensures Due(wake, r[Parent(j)]) <= Due(wake, r[j])
    {
      if Parent(j) == i {
        assert j == 2 * i + 1 || j == 2 * i + 2;
      } else if j == i {
        assert Due(wake, s[Parent(i)]) <= Due(wake, s[m]);
      } else {
        assert Due(wake, s[Parent(j)]) <= Due(wake, s[j]);
      }
    }
    forall j | 0 < j < |r| && 0 < m == Parent(j)
      ensures Due(wake, r[Parent(m)]) <= Due(wake, r[j])
    {
      assert Due(wake, s[m]) <= Due(wake, s[j]);
    }
  }

  // ---- the queue as a multiset ----

  /** Below capacity a push adds exactly the task; at capacity it changes nothing. */
  lemma PushHeap(s: seq<nat>, wake: seq<nat>, capacity: nat, t: nat)
    requires IsHeap(s, wake)
    ensures IsHeap(Push(s, wake, capacity, t), wake)
    ensures multiset(Push(s, wake, capacity, t)) == multiset(s) + (if |s| == capacity then multiset{} else multiset{t})
    ensures |s| == capacity ==> Push(s, wake, capacity, t) == s
  {
    hide Due;
    if |s| != capacity {
      var s' := s + [t];
      assert HeapButUp(s', wake, |s|) by {
        forall j | 0 < j < |s'| && j != |s|
          ensures Due(wake, s'[Parent(j)]) <= Due(wake, s'[j])
        {
          assert s'[j] == s[j] && s'[Parent(j)] == s[Parent(j)];
        }
      }
      SiftUpHeap(s', wake, |s|);
    }
  }

  lemma {:induction false} RootFirst(s: seq<nat>, wake: seq<nat>, i: nat)
    requires IsHeap(s, wake) && i < |s|
    ensures Due(wake, s[0]) <= Due(wake, s[i])
  {
    if i == 0 {
    } else {
      RootFirst(s, wake, Parent(i));
    }
  }

  /** A pop removes exactly the root, which nobody in the queue precedes. */
  lemma PopHeap(s: seq<nat>, wake: seq<nat>)
    requires IsHeap(s, wake) && s != []
    ensures IsHeap(Popped(s, wake), wake)
    ensures multiset(s) == multiset{s[0]} + multiset(Popped(s, wake))
    ensures forall t :: t in s ==> Due(wake, s[0]) <= Due(wake, t)
  {
    hide Due;
    forall t | t in s
      ensures Due(wake, s[0]) <= Due(wake, t)
    {
      var i :| 0 <= i < |s| && s[i] == t;
      RootFirst(s, wake, i);
    }
    var n := |s| - 1;
    if n > 0 {
      var s' := [s[n]] + s[1..n];
      assert s == [s[0]] + s[1..n] + [s[n]];
      forall j | 0 < j < |s'| && Parent(j) != 0
        ensures Due(wake, s'[Parent(j)]) <= Due(wake, s'[j])
      {
        assert s'[j] == s[j] && s'[Parent(j)] == s[Parent(j)];
      }
      SiftDownHeap(s', wake, 0);
    } else {
      assert s == [s[0]];
    }
  }

  /** The order in which repeated pops empty the queue. */
  function Drain(s: seq<nat>, wake: seq<nat>): seq<nat>
    decreases |s|
  {
    if s == [] then [] else [s[0]] + Drain(Popped(s, wake), wake)
  }

  ghost predicate ByDue(s: seq<nat>, wake: seq<nat>) {
    forall i, j :: 0 <= i < j < |s| ==> Due(wake, s[i]) <= Due(wake, s[j])
  }

  /** Repeated pops yield the contents sorted by wake tick. */
  lemma {:induction false} DrainSorted(s: seq<nat>, wake: seq<nat>)
    requires IsHeap(s, wake)
    ensures multiset(Drain(s, wake)) == multiset(s) && ByDue(Drain(s, wake), wake)
    decreases |s|
  {
    hide Due, IsHeap, Popped;
    if s == [] {
    } else {
      var rest := Popped(s, wake);
      PopHeap(s, wake);
      DrainSorted(rest, wake);
      var d := Drain(rest, wake);
      assert Drain(s, wake) == [s[0]] + d;
      forall x | x in d
        ensures Due(wake, s[0]) <= Due(wake, x)
      {
        assert x in multiset(d);
        assert x in multiset(s);
      }
      FirstThenRest(s[0], d, wake);
    }
  }

  lemma FirstThenRest(t: nat, later: seq<nat>, wake: seq<nat>)
    requires ByDue(later, wake) && forall x :: x in later ==> Due(wake, t) <= Due(wake, x)
    ensures ByDue([t] + later, wake)
  {
    hide Due;
  }

  /** The order depends only on the wake ticks of the queued tasks. */
  lemma HeapFrame(s: seq<nat>, wake: seq<nat>, wake': seq<nat>)
    requires IsHeap(s, wake) && forall t :: t in s ==> Due(wake', t) == Due(wake, t)
    ensures IsHeap(s, wake')
  {
    hide Due;
  }
}
