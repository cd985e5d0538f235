/**
  kernel/sched.c in its own form: tasks linked into the running queue, the wait queues and the term queue by one node
  each, and into the task list by another.
 */
module Scheduler {
  import opened Wrappers
  import opened SchedSpec
  import opened TaskQueues
  import Lists

  type Items = map<Place, seq<Task>>

  ghost function At(items: Items, p: Place): seq<Task> {
    if p in items then items[p] else []
  }

  ghost function WaitsOf(items: Items): (w: map<nat, seq<Task>>)
    ensures forall q: nat :: q in w <==> Waiters(q) in items
    ensures forall q: nat :: q in w ==> w[q] == items[Waiters(q)]
  {
    map p | p in items && p.Waiters? :: p.q := items[p]
  }

  lemma WaitsSet(items: Items, k: Place, ts: seq<Task>)
    ensures WaitsOf(items[k := ts]) == if k.Waiters? then WaitsOf(items)[k.q := ts] else WaitsOf(items)
  {
    var w, w' := WaitsOf(items[k := ts]), if k.Waiters? then WaitsOf(items)[k.q := ts] else WaitsOf(items);
    assert forall q: nat :: q in w <==> q in w';
    assert w.Keys == w'.Keys;
  }

  /** The queues are those of the abstract scheduler. */
  ghost predicate Shows(items: Items, s: Sched) {
    && RunQueue in items && TermQueue in items && TaskList !in items
    && s.running == items[RunQueue] && s.term == items[TermQueue] && s.waits == WaitsOf(items)
  }

  /** Task `t` is on no queue. */
  ghost predicate Nowhere(s: Sched, t: Task) {
    t !in s.running && t !in s.term && forall q :: q in s.waits ==> t !in s.waits[q]
  }

  lemma NowhereOff(q: Layout, s: Sched, t: Task)
    requires Shows(q.items, s)
    ensures Nowhere(s, t) <==> Off(q, t)
  {
    hide WaitsOf;
    if Nowhere(s, t) {
      forall k | k in q.items
        ensures t !in q.items[k]
      {
        if k.Waiters? { assert k.q in s.waits && s.waits[k.q] == q.items[k]; }
      }
    }
  }

  /** A running task that is not queued to run is on no queue: the other queues hold other states. */
  lemma RunningNowhere(s: Sched, t: Task)
    requires Queues(s) && t in s.state && s.state[t].Running? && t !in s.running
    ensures Nowhere(s, t)
  {
  }

  /** A task without a node is on no queue. */
  lemma NewOff(q: Layout, owner: Owner, l: Memory, t: Task)
    requires Linked(q, owner, l) && t !in q.node
    ensures Off(q, t)
  {
    hide Lists.Ring, Distinct, NodesOf, Apart;
  }

  lemma OnQueue(items: Items, s: Sched, t: Task) returns (k: Place)
    requires Shows(items, s) && !Nowhere(s, t)
    ensures k in items && t in items[k]
  {
    hide WaitsOf;
    if t in s.running { return RunQueue; }
    if t in s.term { return TermQueue; }
    var q :| q in s.waits && t in s.waits[q];
    return Waiters(q);
  }

  /** The queue that a state names. */
  predicate Named(v: TaskState, p: Place) {
    match v
    case Running => p == RunQueue
    case Term => p == TermQueue
    case Wait => p.Waiters?
  }

  /** The node of every started task, but for the current, the idle and the destroyed ones, is linked into exactly one
      list, and that is one its state names. */
  lemma NodeInOneList(q: Layout, owner: Owner, l: Memory, s: Sched, t: Task) returns (k: Place)
    requires Linked(q, owner, l) && Shows(q.items, s) && Inv(s) && CanTerminate(s, t) && t != s.current && t in q.node
    ensures k in q.items && Named(s.state[t], k) && Known(q, q.items[k]) && q.node[t] in NodesOf(q, q.items[k])
    ensures forall p :: p in q.items && p != k ==> Known(q, q.items[p]) && q.node[t] !in NodesOf(q, q.items[p])
  {
    hide Lists.Ring, NodesOf, WaitsOf, Accounted, Gone;
    assert !Nowhere(s, t) by { PlacedSomewhere(s, t); }
    k := OnQueue(q.items, s, t);
    var i :| 0 <= i < |q.items[k]| && q.items[k][i] == t;
    assert NodesOf(q, q.items[k])[i] == q.node[t];
    forall p | p in q.items && p != k
      ensures Known(q, q.items[p]) && q.node[t] !in NodesOf(q, q.items[p])
    {
      if q.node[t] in NodesOf(q, q.items[p]) { NodeIn(q, owner, l, q.items[p], q.node[t]); }
    }
  }

  lemma PlacedSomewhere(s: Sched, t: Task)
    requires Accounted(s) && CanTerminate(s, t) && t != s.current
    ensures !Nowhere(s, t)
  {
    assert Placed(s, t);
  }

  /** Queue `p`, opened if need be, with one more task. */
  ghost function Joined(items: Items, p: Place, t: Task): Items {
    items[p := At(items, p) + [t]]
  }

  lemma JoinedWaits(items: Items, s: Sched, q: nat, t: Task)
    requires s.waits == WaitsOf(items)
    ensures WaitsOf(Joined(items, Waiters(q), t)) == s.waits[q := WaitQueue(s, q) + [t]]
  {
    hide WaitsOf;
    WaitsSet(items, Waiters(q), At(items, Waiters(q)) + [t]);
  }

  lemma NoWaits(items: Items)
    requires forall p :: p in items ==> !p.Waiters?
    ensures WaitsOf(items) == map[]
  {
  }

  lemma LinkedOnce(q: Layout, owner: Owner, l: Memory)
    requires Linked(q, owner, l)
    ensures Once(q)
  {
    hide Lists.Ring;
  }

  lemma WaitsWithout(items: Items, items': Items, s: Sched, t: Task)
    requires items'.Keys == items.Keys && forall p :: p in items ==> items'[p] == Without(items[p], t)
    requires s.waits == WaitsOf(items)
    ensures WaitsOf(items') == Detach(s, t).waits
  {
    hide Without;
    var w, w' := WaitsOf(items'), Detach(s, t).waits;
    forall q: nat
      ensures q in w <==> q in w'
      ensures q in w ==> w[q] == w'[q]
    {
      assert q in w <==> Waiters(q) in items;
    }
    assert w.Keys == w'.Keys;
  }

  lemma DroppedFrom(q: Layout, k: Place, t: Task)
    requires Once(q) && k in q.items && t in q.items[k]
    ensures forall p :: p in q.items ==> q.items[k := Without(q.items[k], t)][p] == Without(q.items[p], t)
  {
    hide Distinct, Known, Without;
    forall p | p in q.items && p != k
      ensures Without(q.items[p], t) == q.items[p]
    {
      WithoutAbsent(q.items[p], t);
    }
  }

  /** Taking a task's node out of its queue takes the task out of all of them. */
  lemma Detached(q: Layout, s: Sched, k: Place, t: Task)
    requires Shows(q.items, s) && Once(q) && k in q.items && t in q.items[k]
    ensures Shows(q.items[k := Without(q.items[k], t)], Detach(s, t))
  {
    hide Once, Without, WaitsOf;
    var items' := q.items[k := Without(q.items[k], t)];
    DroppedFrom(q, k, t);
    WaitsWithout(q.items, items', s, t);
  }

  class Kernel {
    const idle: Task
    const queues: QueueSet            // linked through task.running
    const all: QueueSet               // task_list, linked through task.list
    var current: Task
    var state: map<Task, TaskState>
    ghost var destroyed: seq<Task>
    ghost var ticked: bool

    ghost predicate Valid()
      reads this, queues, all, queues.Repr, all.Repr
    {
      && queues != all && queues.Repr !! all.Repr && queues.Valid() && all.Valid()
      && RunQueue in queues.items && TermQueue in queues.items && TaskList !in queues.items &&
          all.items.Keys == {TaskList}
      && queues.node.Keys == state.Keys && all.node.Keys == state.Keys
    }

    ghost function Abs(): Sched
      reads this, queues, all
    {
      Sched(idle, current, At(queues.items, RunQueue), WaitsOf(queues.items), At(queues.items, TermQueue), state,
            At(all.items, TaskList), destroyed, ticked)
    }

    /** The idle task alone, current and queued at once. */
    constructor (idleTask: Task, q: QueueSet, a: QueueSet)
      requires q != a && q.Repr !! a.Repr && q.Valid() && a.Valid()
      requires q.items == map[RunQueue := [idleTask], TermQueue := []] && a.items == map[TaskList := [idleTask]]
      requires q.node.Keys == a.node.Keys == {idleTask}
      ensures Valid() && queues == q && all == a && Abs() == Setup(idleTask)
    {
      hide Linked, WaitsOf;
      idle, queues, all, current := idleTask, q, a, idleTask;
      state, destroyed, ticked := map[idleTask := Running], [], false;
      new;
      NoWaits(queues.items);
    }

    /** LIST_DEQUEUE of the running queue, the idle task standing in for an empty one. */
    method TakeNext()
      requires Valid()
      modifies this`current, queues`items, queues.Repr
      ensures Valid() && Abs() == Dispatch(old(Abs()))
    {
      hide Linked, WaitsOf;
      ghost var items := queues.items;
      var t := queues.Pop(RunQueue);
      current := if t.None? then idle else t.value;
      WaitsSet(items, RunQueue, queues.items[RunQueue]);
      assert items[RunQueue := items[RunQueue]] == items;
    }

    /** LIST_ENQUEUE on the running queue. */
    method Requeue(t: Task)
      requires Valid() && t in state && Nowhere(Abs(), t)
      modifies queues`items, queues.Repr
      ensures Valid() && Abs() == old(Abs()).(running := old(Abs()).running + [t])
    {
      hide Linked, WaitsOf, Off, Nowhere;
      NowhereOff(queues.View(), Abs(), t);
      WaitsSet(queues.items, RunQueue, queues.items[RunQueue] + [t]);
      queues.Push(RunQueue, t);
    }

    /** LIST_ENQUEUE on the term queue. */
    method Condemn(t: Task)
      requires Valid() && t in state && Nowhere(Abs(), t)
      modifies queues`items, queues.Repr
      ensures Valid() && Abs() == old(Abs()).(term := old(Abs()).term + [t])
    {
      hide Linked, WaitsOf, Off, Nowhere;
      NowhereOff(queues.View(), Abs(), t);
      WaitsSet(queues.items, TermQueue, queues.items[TermQueue] + [t]);
      queues.Push(TermQueue, t);
    }

    /** LIST_ENQUEUE on a wait queue, whose head is set up when it is first used. */
    method Park(q: nat, t: Task)
      requires Valid() && t in state && Nowhere(Abs(), t)
      modifies queues, queues.Repr
      ensures Valid() && fresh(queues.Repr - old(queues.Repr))
      ensures Abs() == old(Abs()).(waits := old(Abs()).waits[q := WaitQueue(old(Abs()), q) + [t]])
    {
      hide Linked, WaitsOf, Off, Nowhere;
      NowhereOff(queues.View(), Abs(), t);
      JoinedWaits(queues.items, Abs(), q, t);
      queues.Join(Waiters(q), t);
    }

    /** LIST_DEQUEUE of a wait queue. */
    method Unpark(q: nat) returns (t: Option<Task>)
      requires Valid()
      modifies queues`items, queues.Repr
      ensures Valid()
      ensures var w := WaitQueue(old(Abs()), q);
              if w == [] then t.None? && Abs() == old(Abs())
              else t == Some(w[0]) && Abs() == old(Abs()).(waits := old(Abs()).waits[q := w[1..]])
    {
      hide Linked, WaitsOf;
      HeadsOpen(queues.View(), queues.owner, Lists.Snapshot(queues.Repr));
      if Waiters(q) !in queues.heads { return None; }
      ghost var w := queues.items[Waiters(q)];
      if w != [] { WaitsSet(queues.items, Waiters(q), w[1..]); }
      t := queues.Pop(Waiters(q));
    }

    /** LIST_DEL of the task's node, on whichever queue it is. */
    method Extract(t: Task)
      requires Valid() && !Nowhere(Abs(), t)
      modifies queues`items, queues.Repr
      ensures Valid() && Abs() == Detach(old(Abs()), t)
    {
      hide Linked, WaitsOf, Nowhere, Without;
      ghost var s := Abs();
      ghost var k := OnQueue(queues.items, s, t);
      LinkedOnce(queues.View(), queues.owner, Lists.Snapshot(queues.Repr));
      Detached(queues.View(), s, k, t);
      queues.Drop(t, k);
    }

    /** do_term_task: the task leaves the task list. */
    method Destroy(t: Task)
      requires Valid() && t in Abs().list
      modifies this`destroyed, all`items, all.Repr
      ensures Valid()
      ensures Abs() == old(Abs()).(list := Without(old(Abs()).list, t), destroyed := old(Abs()).destroyed + [t])
    {
      hide Linked, WaitsOf, Without;
      all.Drop(t, TaskList);
      destroyed := destroyed + [t];
    }

    /** LIST_DEQUEUE of the term queue. */
    method TakeTerminated() returns (t: Task)
      requires Valid() && Abs().term != []
      modifies queues`items, queues.Repr
      ensures Valid() && t == old(Abs()).term[0] && Abs() == old(Abs()).(term := old(Abs()).term[1..])
    {
      hide Linked, WaitsOf;
      WaitsSet(queues.items, TermQueue, queues.items[TermQueue][1..]);
      var r := queues.Pop(TermQueue);
      t := r.value;
    }

    /** LIST_COUNT of the term queue. */
    method CountTerminated() returns (n: nat)
      requires Valid()
      ensures n == |Abs().term|
    {
      hide Linked, WaitsOf;
      n := queues.Count(TermQueue);
    }

    method SetState(t: Task, v: TaskState)
      requires Valid() && t in state
      modifies this`state
      ensures Valid() && Abs() == old(Abs()).(state := old(Abs()).state[t := v])
    {
      hide Linked, WaitsOf;
      state := state[t := v];
    }

    method SetCurrent(t: Task)
      requires Valid()
      modifies this`current
      ensures Valid() && Abs() == old(Abs()).(current := t)
    {
      hide Linked, WaitsOf;
      current := t;
    }

    /** The body of yield: the next task first, then the old one goes to the tail if it still runs. */
    method Switch()
      requires Valid() && current in state && (state[current].Running? ==> Nowhere(Dispatch(Abs()), current))
      modifies this`current, queues`items, queues.Repr
      ensures Valid() && Abs() == Yield(old(Abs()))
    {
      hide Valid, WaitsOf;
      var onboard := current;
      TakeNext();
      if state[onboard] == Running { Requeue(onboard); }
    }

    /** yield: processor and queue together turn by one place, the idle task standing in for an empty queue. */
    method YieldCpu()
      requires Valid() && Inv(Abs())
      modifies this`current, queues`items, queues.Repr
      ensures Valid() && Abs() == Yield(old(Abs()))
      ensures var s := old(Abs());
              && [current] + Abs().running == (if s.running == [] then [idle] else s.running) + [s.current]
              && (Inv(Abs()) <==> CanYield(s))
    {
      hide Valid, WaitsOf, Gone, Accounted, Nowhere, Dispatch, CanYield;
      YieldRotates(Abs());
      YieldExact(Abs());
      DispatchedNowhere(Abs());
      Switch();
    }

    /** The two nodes of a new task, one on the task list and one on the running queue. */
    method Admit(t: Task)
      requires queues != all && queues.Repr !! all.Repr && queues.Valid() && all.Valid()
      requires RunQueue in queues.items && TaskList in all.items && t !in queues.node && t !in all.node
      modifies queues, all, queues.Repr, all.Repr
      ensures queues.Repr !! all.Repr && queues.Valid() && all.Valid()
      ensures fresh(queues.Repr - old(queues.Repr)) && fresh(all.Repr - old(all.Repr))
      ensures queues.items == old(queues.items)[RunQueue := old(queues.items)[RunQueue] + [t]]
      ensures all.items == old(all.items)[TaskList := old(all.items)[TaskList] + [t]]
      ensures queues.node.Keys == old(queues.node).Keys + {t} && all.node.Keys == old(all.node).Keys + {t}
    {
      hide Linked, Off;
      NewOff(queues.View(), queues.owner, Lists.Snapshot(queues.Repr), t);
      NewOff(all.View(), all.owner, Lists.Snapshot(all.Repr), t);
      all.Admit(TaskList, t);
      queues.Admit(RunQueue, t);
    }

    /** task_start: the task is listed and queued. */
    method TaskStart(t: Task)
      requires Valid() && Inv(Abs()) && t !in state
      modifies this`state, queues, all, queues.Repr, all.Repr
      ensures Valid() && fresh(queues.Repr - old(queues.Repr)) && fresh(all.Repr - old(all.Repr))
      ensures Inv(Abs()) && Abs() == Start(old(Abs()), t)
    {
      hide Valid, WaitsOf, Inv;
      StartInv(Abs(), t);
      Record(t);
    }

    method Record(t: Task)
      requires Valid() && t !in state
      modifies this`state, queues, all, queues.Repr, all.Repr
      ensures Valid() && fresh(queues.Repr - old(queues.Repr)) && fresh(all.Repr - old(all.Repr))
      ensures Abs() == Start(old(Abs()), t)
    {
      hide QueueSet.Valid, WaitsOf;
      WaitsSet(queues.items, RunQueue, queues.items[RunQueue] + [t]);
      state := state[t := Running];
      Admit(t);
    }

    /** task_suspend: the current task goes to the tail of a wait queue. */
    method TaskSuspend(q: nat)
      requires Valid() && Inv(Abs()) && current != idle
      modifies this`state, this`current, queues, queues.Repr
      ensures Valid() && fresh(queues.Repr - old(queues.Repr))
      ensures Inv(Abs()) && Abs() == Suspend(old(Abs()), q)
    {
      hide Valid, WaitsOf, Accounted, Gone;
      SuspendInv(Abs(), q);
      RunningNowhere(Abs(), current);
      SetState(current, Wait);
      Park(q, current);
      TakeNext();
    }

    /** task_resume: the first waiter takes over and the current task is queued. */
    method TaskResume(q: nat)
      requires Valid() && Inv(Abs())
      modifies this`state, this`current, queues`items, queues.Repr
      ensures Valid() && Inv(Abs()) && Abs() == Resume(old(Abs()), q)
    {
      hide Valid, WaitsOf, Accounted, Gone;
      ghost var s := Abs();
      ResumeInv(s, q);
      var t := Unpark(q);
      if t.None? { return; }
      QueueState(s, q, 0);
      SetState(t.value, Running);
      RunningNowhere(s, current);
      Requeue(current);
      SetCurrent(t.value);
    }

    /** task_term; LIST_DEL takes the task's node out of whichever queue it is on. */
    method TaskTerm(t: Task)
      requires Valid() && Inv(Abs()) && CanTerminate(Abs(), t)
      modifies this`state, this`current, queues`items, queues.Repr
      ensures Valid() && Inv(Abs()) && Abs() == Terminate(old(Abs()), t)
    {
      hide Valid, WaitsOf, Gone, Without;
      ghost var s := Abs();
      if t == current { TerminateSelfInv(s); } else { TerminateOtherInv(s, t); }
      SetState(t, Term);
      if t != current {
        assert Placed(s, t);
        Extract(t);
        DetachedNowhere(Abs(), s.(state := state), t);
        Condemn(t);
      } else {
        RunningNowhere(s, t);
        Condemn(t);
        Switch();
      }
    }

    /** task_sched. */
    method TaskSched()
      requires Valid() && Inv(Abs())
      modifies this`current, this`destroyed, this`ticked, queues`items, queues.Repr, all`items, all.Repr
      ensures Valid() && Inv(Abs()) && Abs() == Tick(old(Abs()))
    {
      hide Valid, WaitsOf, Queues, Accounted, Gone, Without, Filed, Distinct, Nowhere, Drain;
      ghost var s := Abs();
      TickInv(s);
      TickFiled(s);
      DispatchInv((if s.current != s.idle then s.(running := s.running + [s.current]) else s).(ticked := true));
      if current != idle && state[current] == Running {
        TickedCurrent(s);
        Requeue(current);
      }
      TakeNext();
      SetTicked();
      DrainTerminated();
    }

    /** The loop of task_sched that destroys the terminated tasks. */
    method DrainTerminated()
      requires Valid() && Inv(Abs())
      modifies this`destroyed, queues`items, queues.Repr, all`items, all.Repr
      ensures Valid() && Inv(Abs()) && Abs() == Drain(old(Abs()))
    {
      hide Valid, WaitsOf, Inv, Without;
      var n := CountTerminated();
      while n > 0
        invariant Valid() && Drain(Abs()) == Drain(old(Abs())) && Inv(Abs()) && n == |Abs().term|
        decreases n
      {
        DestroyHeadInv(Abs());
        TermListed(Abs());
        var t := TakeTerminated();
        Destroy(t);
        n := CountTerminated();
      }
    }

    method SetTicked()
      requires Valid()
      modifies this`ticked
      ensures Valid() && Abs() == old(Abs()).(ticked := true)
    {
      hide Linked, WaitsOf;
      ticked := true;
    }
  }

  /** Once the head of the queue is taken, the current task is on no queue, also before the first tick. */
  lemma DispatchedNowhere(s: Sched)
    requires Queues(s) && Phase(s)
    ensures Nowhere(Dispatch(s), s.current)
  {
    if s.current !in s.running {
      RunningNowhere(s, s.current);
    } else {
      forall i | 1 <= i < |s.running|
        ensures s.running[i] != s.current
      {
        assert s.running[0] != s.running[i];
      }
    }
  }

  /** After its node is out, the task is on no queue. */
  lemma DetachedNowhere(s': Sched, s: Sched, t: Task)
    requires s' == Detach(s, t)
    ensures Nowhere(s', t)
  {
    hide Without;
    WithoutMember(s.running, t, t);
    WithoutMember(s.term, t, t);
    forall q | q in s'.waits
      ensures t !in s'.waits[q]
    {
      WithoutMember(s.waits[q], t, t);
    }
  }

  lemma TickedCurrent(s: Sched)
    requires Inv(s) && s.current != s.idle
    ensures Nowhere(s, s.current)
  {
    hide Accounted, Gone, Nowhere;
    RunningNowhere(s, s.current);
  }

  lemma TermListed(s: Sched)
    requires Inv(s) && s.term != []
    ensures s.term[0] in s.list
  {
    hide Accounted;
    assert s.term[0] in s.term;
  }

  /** sched_setup. */
  method SchedSetup(idle: Task) returns (k: Kernel)
    ensures k.Valid() && fresh(k) && fresh(k.queues) && fresh(k.all) && fresh(k.queues.Repr) && fresh(k.all.Repr)
    ensures k.Abs() == Setup(idle) && Inv(k.Abs())
  {
    hide Linked, Inv;
    var q := SetOf(RunQueue, idle);
    q.Open(TermQueue);
    var a := SetOf(TaskList, idle);
    k := new Kernel(idle, q, a);
    SetupInv(idle);
  }
}
