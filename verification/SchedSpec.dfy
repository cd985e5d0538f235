/**
  The scheduler of kernel/sched.c as a state machine: the running task, the running queue, the wait
  queues and the queue of terminated tasks, one step per function.
 */
module SchedSpec {

  /** A task by its identity. */
  type Task = nat

  datatype TaskState = Running | Term | Wait

  /** `waits` names the wait queues in use; `destroyed` lists the tasks taken down so far, in order;
      `ticked` tells whether the clock has called the scheduler yet. */
  datatype Sched = Sched(
    idle: Task,
    current: Task,
    running: seq<Task>,
    waits: map<nat, seq<Task>>,
    term: seq<Task>,
    state: map<Task, TaskState>,
    list: seq<Task>,
    destroyed: seq<Task>,
    ticked: bool)

  function WaitQueue(s: Sched, q: nat): seq<Task> {
    if q in s.waits then s.waits[q] else []
  }

  /** LIST_DEL of a task from whichever sequence holds it. */
  function Without(ts: seq<Task>, t: Task): (r: seq<Task>)
    ensures |r| <= |ts|
  {
    if ts == [] then [] else (if ts[0] == t then [] else [ts[0]]) + Without(ts[1..], t)
  }

  // ----- the steps

  /** sched_setup: the idle task is both current and queued. */
  function Setup(idle: Task): Sched {
    Sched(idle, idle, [idle], map[], [], map[idle := Running], [idle], [], false)
  }

  function Start(s: Sched, t: Task): Sched {
    s.(state := s.state[t := Running], list := s.list + [t], running := s.running + [t])
  }

  /** The head of the running queue becomes current; the idle task when there is none. */
  function Dispatch(s: Sched): Sched {
    if s.running == [] then s.(current := s.idle)
    else s.(current := s.running[0], running := s.running[1..])
  }

  /** The next task first, then the old one goes to the tail if it still runs. */
  function Yield(s: Sched): Sched
    requires s.current in s.state
  {
    var s' := Dispatch(s);
    if s.state[s.current].Running? then s'.(running := s'.running + [s.current]) else s'
  }

  function Suspend(s: Sched, q: nat): Sched {
    Dispatch(s.(state := s.state[s.current := Wait], waits := s.waits[q := WaitQueue(s, q) + [s.current]]))
  }

  /** From an interrupt: the head of the wait queue takes over from the current task. */
  function Resume(s: Sched, q: nat): Sched {
    var w := WaitQueue(s, q);
    if w == [] then s
    else s.(waits := s.waits[q := w[1..]], state := s.state[w[0] := Running],
            running := s.running + [s.current], current := w[0])
  }

  function Detach(s: Sched, t: Task): Sched {
    s.(running := Without(s.running, t), term := Without(s.term, t),
       waits := map q | q in s.waits :: Without(s.waits[q], t))
  }

  function Terminate(s: Sched, t: Task): Sched
    requires s.current in s.state
  {
    var s1 := s.(state := s.state[t := Term]);
    if t != s.current then
      var s2 := Detach(s1, t);
      s2.(term := s2.term + [t])
    else Yield(s1.(term := s1.term + [t]))
  }

  /** do_term_task on the head of the term queue. */
  function DestroyHead(s: Sched): Sched
    requires s.term != []
  {
    s.(term := s.term[1..], list := Without(s.list, s.term[0]), destroyed := s.destroyed + [s.term[0]])
  }

  function Drain(s: Sched): Sched
    decreases |s.term|
  {
    if s.term == [] then s else Drain(DestroyHead(s))
  }

  /** task_sched, from the clock interrupt. */
  function Tick(s: Sched): Sched
    requires s.current in s.state
  {
    var s1 := if s.current != s.idle && s.state[s.current].Running? then s.(running := s.running + [s.current]) else s;
    Drain(Dispatch(s1).(ticked := true))
  }

  // ----- the invariant

  ghost predicate Distinct(ts: seq<Task>) {
    forall i, j :: 0 <= i < j < |ts| ==> ts[i] != ts[j]
  }

  /** Every queue holds tasks of its state, none twice, and no task waits on two queues. */
  ghost predicate Queues(s: Sched) {
    && Distinct(s.running) && Distinct(s.term)
    && (forall q :: q in s.waits ==> Distinct(s.waits[q]))
    && (forall q, q', t :: q in s.waits && q' in s.waits && t in s.waits[q] && t in s.waits[q'] ==> q == q')
    && (forall t :: t in s.running ==> t in s.state && s.state[t].Running?)
    && (forall q, t :: q in s.waits && t in s.waits[q] ==> t in s.state && s.state[t].Wait?)
    && (forall t :: t in s.term ==> t in s.state && s.state[t].Term?)
  }

  /** Before the first tick the idle task is current and heads the queue, and nothing waits; after it,
      the current task is queued nowhere. */
  ghost predicate Phase(s: Sched) {
    && s.current in s.state && s.state[s.current].Running?
    && s.idle in s.state && s.state[s.idle].Running?
    && if s.ticked then s.current !in s.running
       else s.current == s.idle && |s.running| > 0 && s.running[0] == s.idle
            && forall q :: q in s.waits ==> s.waits[q] == []
  }

  /** Task `t` sits on some queue or the processor. */
  ghost predicate Placed(s: Sched, t: Task) {
    t == s.current || t in s.running || t in s.term || exists q :: q in s.waits && t in s.waits[q]
  }

  /** No started task is lost before it is destroyed. */
  ghost predicate Accounted(s: Sched) {
    forall t :: t in s.state && t != s.idle && t !in s.destroyed ==> Placed(s, t)
  }

  /** Destroyed tasks were terminated, went once, and are on no queue; the task list is the rest. */
  ghost predicate Gone(s: Sched) {
    && Distinct(s.destroyed) && Distinct(s.list)
    && (forall t :: t in s.destroyed ==> t in s.state && s.state[t].Term? && t !in s.term)
    && (forall t :: t in s.list <==> t in s.state && t !in s.destroyed)
  }

  ghost predicate Inv(s: Sched) {
    Queues(s) && Phase(s) && Accounted(s) && Gone(s)
  }

  // ----- removal

  lemma WithoutMember(ts: seq<Task>, t: Task, x: Task)
    ensures x in Without(ts, t) <==> x in ts && x != t
  {
  }

  lemma DistinctAppend(xs: seq<Task>, ys: seq<Task>)
    requires Distinct(xs) && Distinct(ys) && forall x :: x in xs ==> x !in ys
    ensures Distinct(xs + ys)
  {
    var zs := xs + ys;
    forall i, j | 0 <= i < j < |zs|
      ensures zs[i] != zs[j]
    {
      if i < |xs| <= j { assert zs[i] in xs && zs[j] in ys; }
    }
  }

  lemma {:induction false} WithoutDistinct(ts: seq<Task>, t: Task)
    requires Distinct(ts)
    ensures Distinct(Without(ts, t))
  {
    if ts != [] {
      WithoutDistinct(ts[1..], t);
      forall x | x in Without(ts[1..], t)
        ensures x != ts[0]
      {
        WithoutMember(ts[1..], t, x);
      }
      DistinctAppend(if ts[0] == t then [] else [ts[0]], Without(ts[1..], t));
    }
  }

  lemma WithoutAbsent(ts: seq<Task>, t: Task)
    requires t !in ts
    ensures Without(ts, t) == ts
  {
  }

  // ----- every step keeps the invariant

  lemma SetupInv(idle: Task)
    ensures Inv(Setup(idle))
  {
  }

  lemma StartInv(s: Sched, t: Task)
    requires Inv(s) && t !in s.state
    ensures Inv(Start(s, t))
  {
    var s' := Start(s, t);
    DistinctAppend(s.running, [t]);
    DistinctAppend(s.list, [t]);
    forall x | x in s'.state && x != s'.idle && x !in s'.destroyed
      ensures Placed(s', x)
    {
      assert x == t || Placed(s, x);
    }
  }

  /** What Dispatch needs and gives when the current task has already been filed away. */
  ghost predicate Filed(s: Sched) {
    && Queues(s) && Gone(s) && s.idle in s.state && s.state[s.idle].Running?
    && forall t :: t in s.state && t != s.idle && t !in s.destroyed ==>
         t in s.running || t in s.term || exists q :: q in s.waits && t in s.waits[q]
  }

  lemma DispatchInv(s: Sched)
    requires Filed(s) && s.ticked
    ensures Inv(Dispatch(s))
  {
    var s' := Dispatch(s);
    if s.running != [] {
      forall x | x in s.running && x != s.running[0]
        ensures x in s'.running
      {
        var i :| 0 <= i < |s.running| && s.running[i] == x;
        assert s'.running[i - 1] == x;
      }
    }
  }

  lemma FileCurrent(s: Sched)
    requires Inv(s) && s.ticked
    ensures Filed(s.(running := s.running + [s.current]))
  {
    DistinctAppend(s.running, [s.current]);
    forall t | t in s.state && t != s.idle && t !in s.destroyed
      ensures Placed(s, t)
    {
    }
  }

  /** The idle task may yield to a queued task, and before the first tick to itself alone. */
  ghost predicate CanYield(s: Sched) {
    if s.ticked then s.current != s.idle || s.running != [] else |s.running| == 1
  }

  /** A yield keeps the invariant exactly unless the idle task yields with nothing queued, which leaves it both
      current and queued, or, before the first tick, with more than itself queued, which takes it from the head of the
      queue. */
  lemma YieldExact(s: Sched)
    requires Inv(s)
    ensures Inv(Yield(s)) <==> CanYield(s)
  {
    hide Queues, Gone, Accounted;
    if !s.ticked {
      if |s.running| == 1 {
        assert Yield(s) == s by { assert s.running == [s.current] && s.running[1..] + [s.current] == s.running; }
      } else {
        YieldEarly(s);
      }
    } else {
      var s1 := s.(running := s.running + [s.current]);
      FileCurrent(s);
      if s.running != [] {
        DispatchInv(s1);
        assert (s.running + [s.current])[1..] == s.running[1..] + [s.current];
        assert Yield(s) == Dispatch(s1);
      } else if s.current != s.idle {
        YieldAlone(s, s1);
      } else {
        assert s.current in Yield(s).running;
      }
    }
  }

  lemma YieldEarly(s: Sched)
    requires Queues(s) && Phase(s) && !s.ticked && |s.running| > 1
    ensures !Phase(Yield(s))
  {
    assert s.running[0] != s.running[1] && Yield(s).running[0] == s.running[1];
  }

  /** A yield lets the head of the queue run, moves every other queued task one place forward and puts the yielding
      task behind them; alone, a task other than the idle one hands over to the idle task and is queued. Nothing else
      changes. */
  lemma YieldRotates(s: Sched)
    requires Inv(s)
    ensures var s' := Yield(s);
            && s' == s.(current := s'.current, running := s'.running)
            && [s'.current] + s'.running == (if s.running == [] then [s.idle] else s.running) + [s.current]
  {
    hide Queues, Accounted, Gone;
  }

  /** The idle task yielding to an empty queue, as after sched_setup and one tick, is then both current and queued. */
  lemma IdleYieldsAlone(idle: Task)
    ensures var s := Tick(Setup(idle));
            && Inv(s) && s.ticked && s.current == idle && s.running == []
            && Yield(s).current == idle && Yield(s).running == [idle] && !Inv(Yield(s))
  {
    SetupInv(idle);
    TickInv(Setup(idle));
    assert Tick(Setup(idle)) == Dispatch(Setup(idle)).(ticked := true);
  }

  lemma YieldAlone(s: Sched, s1: Sched)
    requires Phase(s) && s.current != s.idle && s.running == []
    requires s1 == s.(running := s.running + [s.current]) && Filed(s1)
    ensures Inv(Yield(s))
  {
    assert Yield(s) == s1.(current := s.idle);
    hide Queues, Gone;
  }

  lemma SuspendInv(s: Sched, q: nat)
    requires Inv(s) && s.current != s.idle
    ensures Inv(Suspend(s, q))
  {
    var s1 := s.(state := s.state[s.current := Wait], waits := s.waits[q := WaitQueue(s, q) + [s.current]]);
    DistinctAppend(WaitQueue(s, q), [s.current]);
    forall t | t in s1.state && t != s1.idle && t !in s1.destroyed
      ensures t in s1.running || t in s1.term || exists q' :: q' in s1.waits && t in s1.waits[q']
    {
      if t == s.current {
        assert t in s1.waits[q];
      } else if t !in s.running && t !in s.term {
        var q' :| q' in s.waits && t in s.waits[q'];
        assert t in s1.waits[q'];
      }
    }
    assert Filed(s1);
    DispatchInv(s1);
  }

  lemma ResumeQueues(s: Sched, q: nat)
    requires Queues(s) && Phase(s) && WaitQueue(s, q) != []
    ensures Queues(Resume(s, q))
  {
    DistinctAppend(s.running, [s.current]);
    var w := WaitQueue(s, q);
    assert w[0] in w && forall x :: x in w[1..] ==> x in w && x != w[0];
  }

  lemma ResumeInv(s: Sched, q: nat)
    requires Inv(s)
    ensures Inv(Resume(s, q))
  {
    var w := WaitQueue(s, q);
    if w != [] {
      ResumeQueues(s, q);
      ResumeAccounted(s, q);
      QueueState(s, q, 0);
      NotRunning(s, w[0]);
      hide Queues, Accounted;
      assert w[0] !in s.destroyed;
    }
  }

  lemma ResumeAccounted(s: Sched, q: nat)
    requires Accounted(s) && WaitQueue(s, q) != []
    ensures Accounted(Resume(s, q))
  {
    var w, s' := WaitQueue(s, q), Resume(s, q);
    forall x | x in s'.state && x != s'.idle && x !in s'.destroyed && x != w[0]
      ensures Placed(s', x)
    {
      assert Placed(s, x);
      if x != s.current && x !in s.running && x !in s.term {
        var q' :| q' in s.waits && x in s.waits[q'];
        assert q' in s'.waits && x in s'.waits[q'];
      }
    }
  }

  lemma QueueState(s: Sched, q: nat, i: nat)
    requires Queues(s) && i < |WaitQueue(s, q)|
    ensures WaitQueue(s, q)[i] in s.state && s.state[WaitQueue(s, q)[i]].Wait?
  {
  }

  lemma NotRunning(s: Sched, t: Task)
    requires Queues(s) && Phase(s) && t in s.state && !s.state[t].Running?
    ensures t !in s.running && t != s.current
  {
  }

  // ----- termination

  /** A started task that is neither idle nor destroyed may be terminated. */
  ghost predicate CanTerminate(s: Sched, t: Task) {
    t in s.state && t != s.idle && t !in s.destroyed
  }

  lemma DetachQueues(s: Sched, t: Task)
    requires Queues(s)
    ensures var s' := Detach(s, t);
            && Distinct(s'.running) && Distinct(s'.term) && s'.waits.Keys == s.waits.Keys
            && (forall x :: x in s'.running <==> x in s.running && x != t)
            && (forall x :: x in s'.term <==> x in s.term && x != t)
            && (forall q :: q in s'.waits ==> Distinct(s'.waits[q]))
            && (forall q, x :: q in s'.waits ==> (x in s'.waits[q] <==> x in s.waits[q] && x != t))
  {
    WithoutDistinct(s.running, t);
    WithoutDistinct(s.term, t);
    forall q | q in s.waits
      ensures Distinct(Without(s.waits[q], t))
    {
      WithoutDistinct(s.waits[q], t);
    }
    forall x
      ensures x in Without(s.running, t) <==> x in s.running && x != t
      ensures x in Without(s.term, t) <==> x in s.term && x != t
    {
      WithoutMember(s.running, t, x);
      WithoutMember(s.term, t, x);
    }
    forall q, x | q in s.waits
      ensures x in Without(s.waits[q], t) <==> x in s.waits[q] && x != t
    {
      WithoutMember(s.waits[q], t, x);
    }
  }

  lemma TerminateOtherInv(s: Sched, t: Task)
    requires Inv(s) && CanTerminate(s, t) && t != s.current
    ensures Inv(Terminate(s, t))
  {
    hide Queues, Phase, Accounted, Gone, Terminate;
    assert s.current in s.state by { CurrentKnown(s); }
    TerminateQueues(s, t);
    TerminateAccounted(s, t);
    TerminatePhase(s, t);
    TerminateGone(s, t);
  }

  lemma CurrentKnown(s: Sched)
    requires Phase(s)
    ensures s.current in s.state
  {
  }

  lemma TerminatePhase(s: Sched, t: Task)
    requires Phase(s) && t != s.current && t != s.idle
    ensures Phase(Terminate(s, t))
  {
    WithoutMember(s.running, t, s.current);
    if !s.ticked {
      HeadStays(s.running, t);
      forall q | q in s.waits
        ensures Without(s.waits[q], t) == []
      {
        assert s.waits[q] == [];
      }
    }
    hide Without;
  }

  lemma TerminateGone(s: Sched, t: Task)
    requires Gone(s) && CanTerminate(s, t) && s.current in s.state && t != s.current
    ensures Gone(Terminate(s, t))
  {
    hide Without, Distinct;
    forall x | x in s.destroyed
      ensures x !in Without(s.term, t)
    {
      WithoutMember(s.term, t, x);
    }
  }

  lemma TerminateAccounted(s: Sched, t: Task)
    requires Queues(s) && Accounted(s) && s.current in s.state && t != s.current
    ensures Accounted(Terminate(s, t))
  {
    hide Without;
    DetachQueues(s, t);
    var s' := Terminate(s, t);
    assert Detach(s.(state := s.state[t := Term]), t) == Detach(s, t).(state := s.state[t := Term]);
    forall x | x in s'.state && x != s'.idle && x !in s'.destroyed && x != t
      ensures Placed(s', x)
    {
      assert Placed(s, x);
      if x != s.current && x !in s.running && x !in s.term {
        var q :| q in s.waits && x in s.waits[q];
        assert x in s'.waits[q];
      }
    }
  }

  lemma HeadStays(ts: seq<Task>, t: Task)
    requires ts != [] && ts[0] != t
    ensures Without(ts, t) != [] && Without(ts, t)[0] == ts[0]
  {
  }

  lemma TerminateQueues(s: Sched, t: Task)
    requires Queues(s) && s.current in s.state && t != s.current
    ensures Queues(Terminate(s, t))
  {
    hide Without;
    var s1 := s.(state := s.state[t := Term]);
    DetachQueues(s1.(state := s.state), t);
    assert Detach(s1, t) == Detach(s, t).(state := s1.state);
    DistinctAppend(Detach(s, t).term, [t]);
  }

  lemma TerminateSelfInv(s: Sched)
    requires Inv(s) && CanTerminate(s, s.current)
    ensures Inv(Terminate(s, s.current))
  {
    var s1 := s.(state := s.state[s.current := Term], term := s.term + [s.current]);
    DistinctAppend(s.term, [s.current]);
    forall t | t in s1.state && t != s1.idle && t !in s1.destroyed
      ensures t in s1.running || t in s1.term || exists q :: q in s1.waits && t in s1.waits[q]
    {
      assert Placed(s, t);
    }
    DispatchInv(s1);
  }

  lemma DestroyHeadGone(s: Sched)
    requires Queues(s) && Gone(s) && s.term != []
    ensures Queues(DestroyHead(s)) && Gone(DestroyHead(s))
  {
    var t, s' := s.term[0], DestroyHead(s);
    DistinctAppend(s.destroyed, [t]);
    WithoutDistinct(s.list, t);
    forall x
      ensures x in s'.list <==> x in s.list && x != t
    {
      WithoutMember(s.list, t, x);
    }
    hide Without;
  }

  lemma DestroyHeadInv(s: Sched)
    requires Inv(s) && s.term != []
    ensures Inv(DestroyHead(s))
  {
    hide Queues, Gone, Without;
    DestroyHeadGone(s);
    var t, s' := s.term[0], DestroyHead(s);
    assert forall x :: x in s.term && x != t ==> x in s.term[1..];
    forall x | x in s'.state && x != s'.idle && x !in s'.destroyed
      ensures Placed(s', x)
    {
      assert t in s'.destroyed && x !in s.destroyed;
      assert Placed(s, x);
    }
  }

  /** The draining loop empties the term queue into `destroyed` and touches nothing else. */
  lemma {:induction false} DrainInv(s: Sched)
    requires Inv(s)
    ensures Inv(Drain(s))
    ensures var s' := Drain(s);
            s'.term == [] && s'.destroyed == s.destroyed + s.term &&
            s' == s.(term := [], destroyed := s'.destroyed, list := s'.list)
    decreases |s.term|
  {
    if s.term != [] {
      DestroyHeadInv(s);
      DrainInv(DestroyHead(s));
      assert s.destroyed + [s.term[0]] + s.term[1..] == s.destroyed + s.term;
    }
  }

  lemma TickInv(s: Sched)
    requires Inv(s)
    ensures Inv(Tick(s))
  {
    var s1 := if s.current != s.idle && s.state[s.current].Running? then s.(running := s.running + [s.current]) else s;
    TickFiled(s);
    DispatchInv(s1.(ticked := true));
    assert Dispatch(s1).(ticked := true) == Dispatch(s1.(ticked := true));
    DrainInv(Dispatch(s1).(ticked := true));
  }

  lemma TickFiled(s: Sched)
    requires Inv(s)
    ensures Filed((if s.current != s.idle then s.(running := s.running + [s.current]) else s).(ticked := true))
  {
    if s.current != s.idle {
      DistinctAppend(s.running, [s.current]);
    }
    forall t | t in s.state && t != s.idle && t !in s.destroyed
      ensures Placed(s, t)
    {
    }
  }
}
