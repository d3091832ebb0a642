/** What one pass of `round_robin` does, in closed form, and the invariant it keeps. */
module SchedulingProofs {
  import opened SleepHeap
  import opened Scheduling

  // ---- the heads the dispatch loop cannot run ----

  /** A zombie goes to the zombie queue, a sleeper back to the sleep queue if there is room, and any other task to the
      end of the ready queue as a running one; nothing else changes. */
  lemma RedirectedTo(s: Sched)
    requires s.ready != [] && s.ready[0] < |s.state| && IsHeap(s.sleep, s.wake) && |s.sleep| < MAX_SLEEP_TASKS
    ensures var t, r, rest := s.ready[0], Redirected(s), s.ready[1..];
            match s.state[t] {
              case Zombie => r == s.(ready := rest, zombie := s.zombie + [t])
              case Sleeping =>
                && r == s.(ready := rest, sleep := r.sleep) && IsHeap(r.sleep, r.wake)
                && multiset(r.sleep) == multiset(s.sleep) + multiset{t}
              case _ =>
                r == s.(ready := rest + [t], state := if s.state[t] == Created then s.state else s.state[t := Running])
            }
  {
    hide IsHeap, Push;
    PushHeap(s.sleep, s.wake, MAX_SLEEP_TASKS, s.ready[0]);
  }

  // ---- the wake loop ----

  /** The sleepers the wake loop takes out, in the order it takes them. */
  function Woken(sleep: seq<nat>, wake: seq<nat>, tick: nat): seq<nat>
    decreases |sleep|
  {
    if sleep == [] || Due(wake, sleep[0]) > tick then []
    else [sleep[0]] + Woken(Popped(sleep, wake), wake, tick)
  }

  function StillAsleep(sleep: seq<nat>, wake: seq<nat>, tick: nat): seq<nat>
    decreases |sleep|
  {
    if sleep == [] || Due(wake, sleep[0]) > tick then sleep
    else StillAsleep(Popped(sleep, wake), wake, tick)
  }

  lemma {:induction false} WokenSplit(sleep: seq<nat>, wake: seq<nat>, tick: nat)
    requires IsHeap(sleep, wake)
    ensures var woken, rest := Woken(sleep, wake, tick), StillAsleep(sleep, wake, tick);
            && multiset(sleep) == multiset(woken) + multiset(rest)
            && IsHeap(rest, wake) && |rest| <= |sleep|
            && (forall t :: t in woken ==> Due(wake, t) <= tick)
            && (forall t :: t in rest ==> Due(wake, t) > tick)
    decreases |sleep|
  {
    hide Due, IsHeap, Popped;
    if sleep == [] {
    } else {
      PopHeap(sleep, wake);
      if Due(wake, sleep[0]) <= tick {
        WokenSplit(Popped(sleep, wake), wake, tick);
      }
    }
  }

  lemma {:induction false} WokenInOrder(sleep: seq<nat>, wake: seq<nat>, tick: nat)
    requires IsHeap(sleep, wake)
    ensures ByDue(Woken(sleep, wake, tick), wake)
    decreases |sleep|
  {
    hide Due, IsHeap, Popped, ByDue;
    if sleep == [] || Due(wake, sleep[0]) > tick {
      assert ByDue([], wake) by { NoneDue(wake); }
    } else {
      var sleep' := Popped(sleep, wake);
      PopHeap(sleep, wake);
      WokenInOrder(sleep', wake, tick);
      WokenSplit(sleep', wake, tick);
      var later := Woken(sleep', wake, tick);
      assert forall t :: t in later ==> t in multiset(later);
      assert forall t :: t in multiset(sleep) ==> t in sleep;
      FirstThenRest(sleep[0], later, wake);
    }
  }

  lemma NoneDue(wake: seq<nat>)
    ensures ByDue([], wake)
  {
  }

  /** After the wake loop no queued sleeper is due, none was taken early, and the sleepers taken come out
      in order of their wake ticks. */
  lemma WokenExactly(sleep: seq<nat>, wake: seq<nat>, tick: nat)
    requires IsHeap(sleep, wake)
    ensures var woken, rest := Woken(sleep, wake, tick), StillAsleep(sleep, wake, tick);
            && multiset(sleep) == multiset(woken) + multiset(rest)
            && IsHeap(rest, wake) && ByDue(woken, wake) && |rest| <= |sleep|
            && (forall t :: t in woken ==> Due(wake, t) <= tick)
            && (forall t :: t in rest ==> Due(wake, t) > tick)
  {
    hide *;
    WokenSplit(sleep, wake, tick);
    WokenInOrder(sleep, wake, tick);
  }

  /** The states after a list of tasks was made ready. */
  function Readied(state: seq<TaskState>, ts: seq<nat>): (r: seq<TaskState>)
    ensures |r| == |state|
    ensures forall t :: 0 <= t < |r| ==> r[t] == if t in ts && state[t] != Created then Running else state[t]
  {
    seq(|state|, t requires 0 <= t < |state| => if t in ts && state[t] != Created then Running else state[t])
  }

  lemma {:induction false} WakeClosed(s: Sched, tick: nat)
    ensures WakeDue(s, tick) ==
            s.(sleep := StillAsleep(s.sleep, s.wake, tick),
               ready := s.ready + Woken(s.sleep, s.wake, tick),
               state := Readied(s.state, Woken(s.sleep, s.wake, tick)))
    decreases |s.sleep|
  {
    hide Due, Popped, Readied;
    if s.sleep == [] || Due(s.wake, s.sleep[0]) > tick {
      assert s.ready + [] == s.ready;
      ReadiedNone(s.state);
    } else {
      var t := s.sleep[0];
      var s1 := EnqueueReady(s.(sleep := Popped(s.sleep, s.wake)), t);
      WakeClosed(s1, tick);
      var later := Woken(s1.sleep, s.wake, tick);
      assert s.ready + [t] + later == s.ready + ([t] + later);
      ReadiedMore(s, t, later);
    }
  }

  lemma ReadiedNone(state: seq<TaskState>)
    ensures Readied(state, []) == state
  {
  }

  lemma ReadiedMore(s: Sched, t: nat, later: seq<nat>)
    ensures Readied(EnqueueReady(s, t).state, later) == Readied(s.state, [t] + later)
  {
  }

  // ---- the dispatch loop ----

  predicate IsLive(v: TaskState) {
    v == Running || v == Created
  }

  /** Position of the first task the dispatch loop can run, or the length of the queue. */
  function FirstLive(ready: seq<nat>, state: seq<TaskState>): (k: nat)
    ensures k <= |ready|
    ensures forall i :: 0 <= i < k ==> ready[i] < |state| && !IsLive(state[ready[i]])
    ensures k < |ready| && ready[k] < |state| ==> IsLive(state[ready[k]])
  {
    if ready == [] || ready[0] >= |state| || IsLive(state[ready[0]]) then 0
    else 1 + FirstLive(ready[1..], state)
  }

  /** States that occur in the ready queue. */
  predicate Waiting(v: TaskState) {
    IsLive(v) || v == Zombie
  }

  ghost predicate AllWaiting(ready: seq<nat>, state: seq<TaskState>) {
    forall t :: t in ready ==> t < |state| && Waiting(state[t])
  }

  /** The state once the task at position `k` of the ready queue was dispatched. */
  function Dispatched(s: Sched, k: nat): Sched
    requires k < |s.ready|
  {
    SetState(s, s.ready[k], Running).(
      current := To(s.ready[k]), ready := s.ready[k + 1..], zombie := s.zombie + s.ready[..k])
  }

  /** The loop runs the first live task, moves the zombies before it to the zombie queue, and panics exactly
      when no ready task is live. */
  lemma {:induction false} DispatchClosed(s: Sched)
    requires AllWaiting(s.ready, s.state)
    ensures var k := FirstLive(s.ready, s.state);
            Dispatch(s) == if k == |s.ready| then Panic else Go(Dispatched(s, k))
    decreases |s.ready|
  {
    if s.ready != [] {
      assert s.ready[0] in s.ready;
      if s.state[s.ready[0]] == Zombie {
        var s2 := s.(ready := s.ready[1..], zombie := s.zombie + [s.ready[0]]);
        assert Redirected(s) == s2 by { assert s.state[s.ready[0] := Zombie] == s.state; }
        assert AllWaiting(s2.ready, s2.state) by { HeadOff(s.ready); }
        hide Redirected, Dispatched;
        DispatchClosed(s2);
        DispatchedLater(s, s2);
      } else {
        DispatchedFirst(s);
      }
    }
  }

  lemma DispatchedFirst(s: Sched)
    requires s.ready != [] && s.ready[0] < |s.state| && IsLive(s.state[s.ready[0]])
    ensures Dispatch(s) == Go(Dispatched(s, 0))
  {
    var t := s.ready[0];
    assert s.zombie + s.ready[..0] == s.zombie;
    assert s.state[t] == Running ==> s.state[t := Running] == s.state;
  }

  lemma DispatchedLater(s: Sched, s2: Sched)
    requires s.ready != [] && s2 == s.(ready := s.ready[1..], zombie := s.zombie + [s.ready[0]])
    ensures forall k :: 0 < k < |s.ready| ==> Dispatched(s2, k - 1) == Dispatched(s, k)
  {
    forall k | 0 < k < |s.ready|
      ensures Dispatched(s2, k - 1) == Dispatched(s, k)
    {
      assert s.zombie + [s.ready[0]] + s.ready[1..][..k - 1] == s.zombie + s.ready[..k];
      assert s.ready[1..][k..] == s.ready[k + 1..];
    }
  }

  // ---- the invariant ----

  /** The tasks the scheduler holds: current, ready, asleep, or waiting to be cleaned. */
  ghost function Members(s: Sched): multiset<nat> {
    (if s.current.To? then multiset{s.current.slot} else multiset{})
    + multiset(s.ready) + multiset(s.sleep) + multiset(s.zombie)
  }

  /** No task is in two places. */
  ghost predicate Unique(s: Sched) {
    forall t :: Members(s)[t] <= 1
  }

  ghost predicate InTable(s: Sched) {
    forall t :: t in Members(s) ==> t < |s.pid| && s.pid[t] == t
  }

  ghost predicate StatesFit(s: Sched) {
    && AllWaiting(s.ready, s.state)
    && (forall t :: t in s.sleep ==> t < |s.state| && (s.state[t] == Sleeping || s.state[t] == Zombie))
    && (forall t :: t in s.zombie ==> t < |s.state| && s.state[t] == Zombie)
    && (s.current.To? ==> s.current.slot < |s.state| && s.state[s.current.slot] == Running)
  }

  ghost predicate Inv(s: Sched)
  {
    && Shaped(s) && Unique(s) && InTable(s) && StatesFit(s)
    && IsHeap(s.sleep, s.wake) && |s.sleep| <= MAX_SLEEP_TASKS
  }

  lemma WakeInv(s: Sched, tick: nat)
    requires Inv(s)
    ensures Inv(WakeDue(s, tick)) && Members(WakeDue(s, tick)) == Members(s)
  {
    hide Due, IsHeap, WakeDue, Unique, InTable, StatesFit, Members, Readied, Woken, StillAsleep;
    WakeClosed(s, tick);
    WokenExactly(s.sleep, s.wake, tick);
    var woken, rest := Woken(s.sleep, s.wake, tick), StillAsleep(s.sleep, s.wake, tick);
    var s' := WakeDue(s, tick);
    WokenMembers(s, woken, rest);
    WokenStates(s, woken, rest);
    SamePlaces(s, s');
  }

  lemma WokenMembers(s: Sched, woken: seq<nat>, rest: seq<nat>)
    requires multiset(s.sleep) == multiset(woken) + multiset(rest)
    ensures Members(s.(sleep := rest, ready := s.ready + woken, state := Readied(s.state, woken))) == Members(s)
  {
    assert multiset(s.ready + woken) == multiset(s.ready) + multiset(woken);
  }

  lemma SamePlaces(s: Sched, s': Sched)
    requires Unique(s) && InTable(s) && s'.pid == s.pid && Members(s') == Members(s)
    ensures Unique(s') && InTable(s')
  {
    hide Members;
  }

  lemma WokenStates(s: Sched, woken: seq<nat>, rest: seq<nat>)
    requires Inv(s) && multiset(s.sleep) == multiset(woken) + multiset(rest)
    ensures StatesFit(s.(sleep := rest, ready := s.ready + woken, state := Readied(s.state, woken)))
  {
    hide IsHeap;
    var state' := Readied(s.state, woken);
    forall t | t in woken
      ensures t in s.sleep && t !in rest && t !in s.zombie && s.current != To(t) && t !in s.ready
    {
      assert multiset(woken)[t] >= 1;
      assert Members(s)[t] <= 1;
      assert t in multiset(s.sleep);
    }
    forall t | t in rest
      ensures t in s.sleep
    {
      assert t in multiset(s.sleep);
    }
  }

  lemma RequeueInv(s: Sched)
    requires Inv(s)
    ensures Inv(Requeue(s)) && Members(Requeue(s)) == Members(s) && Requeue(s).current == Null
  {
    hide IsHeap;
    if s.current.To? {
      var t := s.current.slot;
      assert s.state[t := Running] == s.state;
      var s' := s.(ready := s.ready + [t], current := Null);
      assert Requeue(s) == s';
      assert multiset(s.ready + [t]) == multiset(s.ready) + multiset{t};
      assert Members(s') == Members(s);
    }
  }

  /** The parts a queue falls into around position `k`. */
  lemma Around(q: seq<nat>, k: nat)
    requires k < |q|
    ensures multiset(q) == multiset(q[..k]) + multiset{q[k]} + multiset(q[k + 1..])
    ensures forall x :: x in q <==> x in q[..k] || x == q[k] || x in q[k + 1..]
  {
    assert q == q[..k] + [q[k]] + q[k + 1..];
  }

  lemma DispatchInv(s: Sched)
    requires Inv(s) && s.current == Null && FirstLive(s.ready, s.state) < |s.ready|
    ensures Dispatch(s).Go? && Inv(Dispatch(s).sched) && Members(Dispatch(s).sched) == Members(s)
    ensures Dispatch(s).sched.current.To?
  {
    hide IsHeap, Dispatch, FirstLive, AllWaiting;
    DispatchClosed(s);
    var k := FirstLive(s.ready, s.state);
    var s' := Dispatched(s, k);
    DispatchedMembers(s, k);
    DispatchedStates(s, k);
  }

  lemma DispatchedMembers(s: Sched, k: nat)
    requires s.current == Null && k < |s.ready|
    ensures Members(Dispatched(s, k)) == Members(s)
  {
    Around(s.ready, k);
    assert multiset(s.zombie + s.ready[..k]) == multiset(s.zombie) + multiset(s.ready[..k]);
  }

  /** A ready task is nowhere else. */
  lemma ReadyOnce(s: Sched, k: nat)
    requires Unique(s) && k < |s.ready|
    ensures var t := s.ready[k];
            t !in s.ready[..k] && t !in s.ready[k + 1..] && t !in s.sleep && t !in s.zombie && s.current != To(t)
  {
    Around(s.ready, k);
    assert Members(s)[s.ready[k]] <= 1;
  }

  lemma DispatchedStates(s: Sched, k: nat)
    requires Inv(s) && s.current == Null && k == FirstLive(s.ready, s.state) < |s.ready|
    ensures StatesFit(Dispatched(s, k)) && Shaped(Dispatched(s, k))
  {
    hide IsHeap, InTable, Unique, Members, FirstLive;
    var t := s.ready[k];
    ReadyOnce(s, k);
    assert t in s.ready;
    var s' := Dispatched(s, k);
    assert s'.state == s.state[t := Running] && s'.ready == s.ready[k + 1..];
    forall x | x in s'.ready
      ensures x < |s'.state| && Waiting(s'.state[x])
    {
      assert x in s.ready && x != t;
    }
    forall x | x in s.ready[..k]
      ensures x < |s.state| && s'.state[x] == Zombie
    {
      var i :| 0 <= i < k && s.ready[i] == x;
      assert x in s.ready && x != t;
    }
    assert AllWaiting(s'.ready, s'.state);
  }

  // ---- moving tasks between places ----

  /** Dropping or moving tasks, never copying them, keeps them in one place each. */
  lemma KeepsPlaces(s: Sched, s': Sched)
    requires Unique(s) && InTable(s) && s'.pid == s.pid && Members(s') <= Members(s)
    ensures Unique(s') && InTable(s')
  {
    hide Members;
  }

  lemma Appended(q: seq<nat>, t: nat)
    ensures multiset(q + [t]) == multiset(q) + multiset{t}
  {
  }

  lemma HeadOff(q: seq<nat>)
    requires q != []
    ensures multiset(q) == multiset(q[1..]) + multiset{q[0]}
    ensures forall x :: x in q[1..] ==> x in q
    ensures q[0] in q
  {
    assert q == [q[0]] + q[1..];
  }

  lemma Unheld(s: Sched, t: nat)
    ensures t !in Members(s) <==> t !in s.ready && t !in s.sleep && t !in s.zombie && s.current != To(t)
  {
  }
}
