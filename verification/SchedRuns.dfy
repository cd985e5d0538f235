/**
  Whole runs of the scheduler: where each task is, how long it waits, and how it ends.
 */
module SchedRuns {
  import opened SchedSpec

  datatype Op =
    | OpStart(t: Task)
    | OpYield
    | OpSuspend(q: nat)
    | OpResume(q: nat)
    | OpTerm(t: Task)
    | OpTick

  /** What each function asks of its caller: tasks are started once, the idle task is never suspended or terminated, and
      yields only to a queued task. */
  ghost predicate Legal(s: Sched, op: Op) {
    match op
    case OpStart(t) => t !in s.state
    case OpYield => CanYield(s)
    case OpSuspend(_) => s.current != s.idle
    case OpResume(_) => true
    case OpTerm(t) => CanTerminate(s, t)
    case OpTick => true
  }

  ghost function Step(s: Sched, op: Op): Sched
    requires Inv(s)
  {
    match op
    case OpStart(t) => Start(s, t)
    case OpYield => Yield(s)
    case OpSuspend(q) => Suspend(s, q)
    case OpResume(q) => Resume(s, q)
    case OpTerm(t) => Terminate(s, t)
    case OpTick => Tick(s)
  }

  lemma StepInv(s: Sched, op: Op)
    requires Inv(s) && Legal(s, op)
    ensures Inv(Step(s, op))
  {
    hide Queues, Phase, Accounted, Gone;
    match op
    case OpStart(t) => StartInv(s, t);
    case OpYield => YieldExact(s);
    case OpSuspend(q) => SuspendInv(s, q);
    case OpResume(q) => ResumeInv(s, q);
    case OpTerm(t) => if t == s.current { TerminateSelfInv(s); } else { TerminateOtherInv(s, t); }
    case OpTick => TickInv(s);
  }

  /** Each step keeps the invariant if and only if its caller keeps to that. */
  lemma StepExact(s: Sched, op: Op)
    requires Inv(s)
    ensures Inv(Step(s, op)) <==> Legal(s, op)
  {
    if Legal(s, op) {
      StepInv(s, op);
    } else {
      hide Queues, Accounted, Without, CanYield;
      match op
      case OpStart(t) => StartedTwice(s, t);
      case OpYield => YieldExact(s);
      case OpSuspend(_) => assert !Phase(Step(s, op));
      case OpTerm(t) => TerminatedWrongly(s, t);
      case _ =>
    }
  }

  lemma StartedTwice(s: Sched, t: Task)
    requires Gone(s) && t in s.state
    ensures !Gone(Start(s, t))
  {
    var s' := Start(s, t);
    if t !in s.destroyed {
      var i :| 0 <= i < |s.list| && s.list[i] == t;
      assert s'.list[i] == s'.list[|s.list|];
    }
  }

  lemma TerminatedWrongly(s: Sched, t: Task)
    requires Gone(s) && Phase(s) && !CanTerminate(s, t)
    ensures !(Gone(Terminate(s, t)) && Phase(Terminate(s, t)))
  {
    hide Without, Distinct;
    var s' := Terminate(s, t);
    assert t in s.destroyed ==> t != s.current && t in s'.term;
  }

  /** Every state follows from the one before by one of the functions. */
  ghost predicate Follows(s: Sched, op: Op, s': Sched) {
    Inv(s) ==> s' == Step(s, op)
  }

  /** The invariant holds in all states of a run if and only if every call keeps to what its function asks. */
  lemma RunExact(ss: seq<Sched>, ops: seq<Op>)
    requires |ss| == |ops| + 1 && Inv(ss[0]) && forall i :: 0 <= i < |ops| ==> Follows(ss[i], ops[i], ss[i + 1])
    ensures (forall n :: 0 <= n < |ss| ==> Inv(ss[n])) <==>
            (forall i :: 0 <= i < |ops| && Inv(ss[i]) ==> Legal(ss[i], ops[i]))
  {
    hide Inv, Step, Legal;
    if forall n :: 0 <= n < |ss| ==> Inv(ss[n]) {
      forall i | 0 <= i < |ops|
        ensures Legal(ss[i], ops[i])
      {
        assert Follows(ss[i], ops[i], ss[i + 1]);
        StepExact(ss[i], ops[i]);
      }
    } else if forall i :: 0 <= i < |ops| && Inv(ss[i]) ==> Legal(ss[i], ops[i]) {
      var n :| 0 <= n < |ss| && !Inv(ss[n]);
      forall i | 0 <= i < |ops|
        ensures Next(ss[i], ops[i], ss[i + 1])
      {
        assert Follows(ss[i], ops[i], ss[i + 1]);
      }
      RunInv(ss, ops, n);
    }
  }

  ghost predicate Next(s: Sched, op: Op, s': Sched) {
    Inv(s) ==> Legal(s, op) && s' == Step(s, op)
  }

  ghost predicate IsRun(ss: seq<Sched>, ops: seq<Op>) {
    && |ss| == |ops| + 1
    && forall i :: 0 <= i < |ops| ==> Next(ss[i], ops[i], ss[i + 1])
  }

  lemma {:induction false} RunInv(ss: seq<Sched>, ops: seq<Op>, n: nat)
    requires IsRun(ss, ops) && Inv(ss[0]) && n < |ss|
    ensures Inv(ss[n])
  {
    hide Inv, Step, Legal;
    if n > 0 {
      RunInv(ss, ops, n - 1);
      assert Next(ss[n - 1], ops[n - 1], ss[n]);
      StepInv(ss[n - 1], ops[n - 1]);
    }
  }

  // ----- where a task is

  ghost predicate Waits(s: Sched, t: Task) {
    exists q :: q in s.waits && t in s.waits[q]
  }

  function One(b: bool): nat { if b then 1 else 0 }

  /** A started task, not idle and not destroyed, is in exactly one place, and its state names it: on the
      processor or the running queue exactly when running, on exactly one wait queue exactly when waiting,
      on the term queue exactly when terminated. */
  lemma OnePlace(s: Sched, t: Task)
    requires Inv(s) && t in s.state && t != s.idle && t !in s.destroyed
    ensures One(t == s.current) + One(t in s.running) + One(Waits(s, t)) + One(t in s.term) == 1
    ensures s.state[t].Running? <==> t == s.current || t in s.running
    ensures s.state[t].Wait? <==> Waits(s, t)
    ensures s.state[t].Term? <==> t in s.term
    ensures forall q, q' :: q in s.waits && q' in s.waits && t in s.waits[q] && t in s.waits[q'] ==> q == q'
  {
    assert Placed(s, t);
  }

  /** The idle task is both current and queued only before the first tick. */
  lemma IdleOnce(s: Sched)
    requires Inv(s)
    ensures s.current == s.idle && s.idle in s.running ==> !s.ticked
    ensures !Waits(s, s.idle) && s.idle !in s.term && s.idle !in s.destroyed
  {
  }

  // ----- bounded waiting

  /** The steps that give the processor to the head of the running queue. */
  ghost predicate Switches(s: Sched, op: Op) {
    op.OpTick? || op.OpYield? || op.OpSuspend? || op == OpTerm(s.current)
  }

  /** `t` is at position `k` of the running queue. */
  ghost predicate At(s: Sched, t: Task, k: nat) {
    k < |s.running| && s.running[k] == t
  }

  lemma {:induction false} WithoutPosition(ts: seq<Task>, x: Task, t: Task, k: nat) returns (k': nat)
    requires k < |ts| && ts[k] == t && t != x
    ensures k' <= k && k' < |Without(ts, x)| && Without(ts, x)[k'] == t
  {
    if k == 0 {
      k' := 0;
    } else {
      var r := WithoutPosition(ts[1..], x, t, k - 1);
      k' := if ts[0] == x then r else r + 1;
    }
  }

  lemma DispatchMoves(s: Sched, t: Task, k: nat)
    requires At(s, t, k)
    ensures if k == 0 then Dispatch(s).current == t else At(Dispatch(s), t, k - 1)
  {
  }

  /** No step moves a queued task back, and every switch moves it one place forward or onto the processor. */
  lemma StepMoves(s: Sched, op: Op, t: Task, k: nat) returns (k': nat)
    requires Inv(s) && Legal(s, op) && At(s, t, k) && op != OpTerm(t)
    ensures Step(s, op).current == t || (At(Step(s, op), t, k') && k' <= k && (Switches(s, op) ==> k' < k))
  {
    hide Queues, Accounted, Gone;
    k' := k;
    match op
    case OpStart(_) =>
    case OpYield =>
      DispatchMoves(s, t, k);
      if k > 0 { k' := k - 1; }
    case OpSuspend(q) =>
      DispatchMoves(s.(state := s.state[s.current := Wait], waits := s.waits[q := WaitQueue(s, q) + [s.current]]),
              t, k);
      if k > 0 { k' := k - 1; }
    case OpResume(_) =>
    case OpTerm(x) =>
      if x == s.current {
        var s1 := s.(state := s.state[x := Term], term := s.term + [x]);
        assert Step(s, op) == Dispatch(s1);
        DispatchMoves(s1, t, k);
        if k > 0 { k' := k - 1; }
      } else {
        k' := WithoutPosition(s.running, x, t, k);
      }
    case OpTick =>
      var s1 := if s.current != s.idle && s.state[s.current].Running?
          then s.(running := s.running + [s.current]) else s;
      DispatchMoves(s1, t, k);
      DrainKeeps(Dispatch(s1).(ticked := true));
      if k > 0 { k' := k - 1; }
  }

  lemma {:induction false} DrainKeeps(s: Sched)
    ensures Drain(s).current == s.current && Drain(s).running == s.running && Drain(s).state == s.state
    ensures Drain(s).waits == s.waits && Drain(s).idle == s.idle
    decreases |s.term|
  {
    if s.term != [] { DrainKeeps(DestroyHead(s)); }
  }

  /** Switches in a run. */
  ghost function SwitchCount(ss: seq<Sched>, ops: seq<Op>): nat
    requires |ss| == |ops| + 1
    decreases |ops|
  {
    if ops == [] then 0 else (if Switches(ss[0], ops[0]) then 1 else 0) + SwitchCount(ss[1..], ops[1..])
  }

  /** A task at position `k` of the running queue becomes current within any run of at least k + 1 switches in
      which it is not terminated. */
  lemma {:induction false} BoundedWaiting(ss: seq<Sched>, ops: seq<Op>, t: Task, k: nat)
    requires IsRun(ss, ops) && Inv(ss[0]) && At(ss[0], t, k)
    requires OpTerm(t) !in ops && SwitchCount(ss, ops) >= k + 1
    ensures exists n :: 0 < n < |ss| && ss[n].current == t
    decreases |ops|
  {
    hide Inv, Step, Legal;
    assert Next(ss[0], ops[0], ss[1]);
    StepInv(ss[0], ops[0]);
    var k' := StepMoves(ss[0], ops[0], t, k);
    if ss[1].current != t {
      var ss', ops' := ss[1..], ops[1..];
      forall i | 0 <= i < |ops'|
        ensures Next(ss'[i], ops'[i], ss'[i + 1])
      {
        var j := i + 1;
        assert Next(ss[j], ops[j], ss[j + 1]);
      }
      BoundedWaiting(ss', ops', t, k');
      var n :| 0 < n < |ss'| && ss'[n].current == t;
      assert ss[n + 1].current == t;
    }
  }

  // ----- waking up

  /** The tasks asleep on a queue, by the calls alone: each task that suspends itself there joins at the end, a resume
      of the queue takes the first, and a termination takes its task. */
  ghost function Sleepers(ss: seq<Sched>, ops: seq<Op>, q: nat, n: nat): seq<Task>
    requires n <= |ops| < |ss|
  {
    if n == 0 then [] else
    var w := Sleepers(ss, ops, q, n - 1);
    match ops[n - 1]
    case OpSuspend(q') => if q' == q then w + [ss[n - 1].current] else w
    case OpResume(q') => if q' == q && w != [] then w[1..] else w
    case OpTerm(t) => Without(w, t)
    case _ => w
  }

  lemma StepWaits(s: Sched, op: Op, q: nat)
    requires Inv(s) && Legal(s, op)
    ensures var w := WaitQueue(s, q);
            WaitQueue(Step(s, op), q) ==
            match op
            case OpSuspend(q') => if q' == q then w + [s.current] else w
            case OpResume(q') => if q' == q && w != [] then w[1..] else w
            case OpTerm(t) => Without(w, t)
            case _ => w
  {
    hide Accounted, Gone;
    match op
    case OpTerm(t) => if t == s.current { WithoutAbsent(WaitQueue(s, q), t); }
    case OpTick =>
      var s1 := if s.current != s.idle then s.(running := s.running + [s.current]) else s;
      DrainKeeps(Dispatch(s1).(ticked := true));
    case _ =>
  }

  /** In every state of a run from sched_setup the wait queues hold exactly the tasks asleep, in the order they came. */
  lemma {:induction false} SleepersWait(ss: seq<Sched>, ops: seq<Op>, q: nat, n: nat)
    requires IsRun(ss, ops) && ss[0] == Setup(ss[0].idle) && n < |ss|
    ensures WaitQueue(ss[n], q) == Sleepers(ss, ops, q, n)
  {
    hide Inv, Step, Legal, WaitQueue;
    if n == 0 {
      NoneWait(ss[0], q);
    } else {
      SleepersWait(ss, ops, q, n - 1);
      SetupInv(ss[0].idle);
      RunInv(ss, ops, n - 1);
      assert Next(ss[n - 1], ops[n - 1], ss[n]);
      StepWaits(ss[n - 1], ops[n - 1], q);
    }
  }

  lemma NoneWait(s: Sched, q: nat)
    requires s.waits == map[]
    ensures WaitQueue(s, q) == []
  {
  }

  /** Those of `ws`, asleep on queue `q` in this order, whom the calls from `i` up to `n` leave asleep: each resume of
      the queue wakes the first, and a termination takes its task. */
  function Ahead(ops: seq<Op>, q: nat, ws: seq<Task>, i: nat, n: nat): seq<Task>
    requires i <= n <= |ops|
    decreases n
  {
    if i == n then ws else
    var w := Ahead(ops, q, ws, i, n - 1);
    match ops[n - 1]
    case OpResume(q') => if q' == q && w != [] then w[1..] else w
    case OpTerm(t) => Without(w, t)
    case _ => w
  }

  lemma WithoutHead(ts: seq<Task>, t: Task)
    requires ts != []
    ensures Without(ts, t) == (if ts[0] == t then [] else [ts[0]]) + Without(ts[1..], t)
  {
  }

  lemma {:induction false} WithoutConcat(xs: seq<Task>, ys: seq<Task>, t: Task)
    ensures Without(xs + ys, t) == Without(xs, t) + Without(ys, t)
  {
    hide Without;
    if xs == [] {
      assert xs + ys == ys;
      WithoutAbsent(xs, t);
    } else {
      WithoutConcat(xs[1..], ys, t);
      assert (xs + ys)[1..] == xs[1..] + ys;
      WithoutHead(xs, t);
      WithoutHead(xs + ys, t);
    }
  }

  lemma WithoutAround(xs: seq<Task>, t: Task, ys: seq<Task>, x: Task)
    requires x != t
    ensures Without(xs + [t] + ys, x) == Without(xs, x) + [t] + Without(ys, x)
  {
    WithoutConcat(xs + [t], ys, x);
    WithoutConcat(xs, [t], x);
    assert Without([t], x) == [t];
  }

  /** From the call that suspends task `t` on, it is behind those ahead of it and before whoever came later. */
  lemma {:induction false} Asleep(ss: seq<Sched>, ops: seq<Op>, q: nat, i: nat, n: nat) returns (later: seq<Task>)
    requires IsRun(ss, ops) && Inv(ss[0]) && i < n < |ss| && ops[i] == OpSuspend(q)
    requires var ws := WaitQueue(ss[i], q);
             forall m :: i < m < n ==>
               ops[m] != OpTerm(ss[i].current) && !(ops[m] == OpResume(q) && Ahead(ops, q, ws, i + 1, m) == [])
    ensures WaitQueue(ss[n], q) == Ahead(ops, q, WaitQueue(ss[i], q), i + 1, n) + [ss[i].current] + later
    decreases n
  {
    hide Inv, Step, Legal, WaitQueue, Without;
    var t, ws := ss[i].current, WaitQueue(ss[i], q);
    RunInv(ss, ops, n - 1);
    assert Next(ss[n - 1], ops[n - 1], ss[n - 1 + 1]);
    StepWaits(ss[n - 1], ops[n - 1], q);
    if n == i + 1 {
      later := [];
    } else {
      later := Asleep(ss, ops, q, i, n - 1);
      match ops[n - 1]
      case OpSuspend(q') => if q' == q { later := later + [ss[n - 1].current]; }
      case OpTerm(x) =>
        WithoutAround(Ahead(ops, q, ws, i + 1, n - 1), t, later, x);
        later := Without(later, x);
      case _ =>
    }
  }

  lemma WaiterIdle(s: Sched, q: nat, t: Task)
    requires Inv(s) && t in WaitQueue(s, q)
    ensures s.current != t && t !in s.running
  {
  }

  /** The wake-up law. A task that suspends itself on a queue sleeps, neither current nor queued to run, until the first
      resume of that queue that finds none of those left who slept there before it, or until it is terminated; and that
      resume makes it current. Resumes of other queues and any other calls do not matter. */
  lemma WakesInTurn(ss: seq<Sched>, ops: seq<Op>, q: nat, i: nat, n: nat)
    requires IsRun(ss, ops) && ss[0] == Setup(ss[0].idle) && i < n < |ss| && ops[i] == OpSuspend(q)
    requires var ws := Sleepers(ss, ops, q, i);
             forall m :: i < m < n ==>
               ops[m] != OpTerm(ss[i].current) && !(ops[m] == OpResume(q) && Ahead(ops, q, ws, i + 1, m) == [])
    ensures ss[n].current != ss[i].current && ss[i].current !in ss[n].running
    ensures n < |ops| && ops[n] == OpResume(q) && Ahead(ops, q, Sleepers(ss, ops, q, i), i + 1, n) == [] ==>
              ss[n + 1].current == ss[i].current
  {
    hide Inv, Step, Legal, WaitQueue, Sleepers;
    SleepersWait(ss, ops, q, i);
    SetupInv(ss[0].idle);
    var later := Asleep(ss, ops, q, i, n);
    RunInv(ss, ops, n);
    WaiterIdle(ss[n], q, ss[i].current);
    if n < |ops| && ops[n] == OpResume(q) {
      assert Next(ss[n], ops[n], ss[n + 1]);
      ResumeHands(ss[n], q);
      assert Step(ss[n], ops[n]) == Resume(ss[n], q) by { StepOfResume(ss[n], q); }
    }
  }

  lemma StepOfResume(s: Sched, q: nat)
    requires Inv(s)
    ensures Step(s, OpResume(q)) == Resume(s, q)
  {
  }

  /** A resume gives the processor to the first waiter; the interrupted task is queued last, and every queued task keeps
      its place. */
  lemma ResumeHands(s: Sched, q: nat)
    requires Inv(s)
    ensures var s', w := Resume(s, q), WaitQueue(s, q);
            if w == [] then s' == s
            else s'.current == w[0] && At(s', s.current, |s.running|) && |s'.running| == |s.running| + 1
                 && forall t, k :: At(s, t, k) ==> At(s', t, k)
  {
  }

  function Resumes(ops: seq<Op>, q: nat, i: nat, n: nat): nat
    requires i <= n <= |ops|
    decreases n
  {
    if i == n then 0 else Resumes(ops, q, i, n - 1) + if ops[n - 1] == OpResume(q) then 1 else 0
  }

  lemma {:induction false} AheadCount(ops: seq<Op>, q: nat, ws: seq<Task>, i: nat, n: nat)
    requires i <= n <= |ops| && Resumes(ops, q, i, n) <= |ws|
    requires forall m :: i <= m < n && ops[m].OpTerm? ==> ops[m].t !in ws
    ensures Ahead(ops, q, ws, i, n) == ws[Resumes(ops, q, i, n)..]
    decreases n
  {
    if i < n {
      AheadCount(ops, q, ws, i, n - 1);
      var w := ws[Resumes(ops, q, i, n - 1)..];
      match ops[n - 1]
      case OpTerm(t) => WithoutAbsent(w, t);
      case _ =>
    }
  }

  /** With `k` tasks asleep before it, none of whom is terminated, it sleeps until the resume number k + 1 of its queue,
      which makes it current. */
  lemma WakesAtTurn(ss: seq<Sched>, ops: seq<Op>, q: nat, i: nat, n: nat)
    requires IsRun(ss, ops) && ss[0] == Setup(ss[0].idle) && i < n < |ops|
    requires ops[i] == OpSuspend(q) && ops[n] == OpResume(q)
    requires forall m :: i < m < n && ops[m].OpTerm? ==>
               ops[m].t != ss[i].current && ops[m].t !in Sleepers(ss, ops, q, i)
    requires Resumes(ops, q, i + 1, n) == |Sleepers(ss, ops, q, i)|
    ensures ss[n + 1].current == ss[i].current
    ensures forall m :: i < m <= n ==> ss[m].current != ss[i].current
  {
    hide Inv, Step, Legal, WaitQueue, Sleepers, Setup, Without;
    var ws := Sleepers(ss, ops, q, i);
    forall m | i < m <= n
      ensures Resumes(ops, q, i + 1, m) <= |ws| && Ahead(ops, q, ws, i + 1, m) == ws[Resumes(ops, q, i + 1, m)..]
      ensures m < n && ops[m] == OpResume(q) ==> Resumes(ops, q, i + 1, m) < |ws|
    {
      ResumesGrow(ops, q, i + 1, if m < n && ops[m] == OpResume(q) then m + 1 else m, n);
      AheadCount(ops, q, ws, i + 1, m);
    }
    forall m | i < m <= n
      ensures ss[m].current != ss[i].current
    {
      WakesInTurn(ss, ops, q, i, m);
    }
    WakesInTurn(ss, ops, q, i, n);
  }

  lemma {:induction false} ResumesGrow(ops: seq<Op>, q: nat, i: nat, m: nat, n: nat)
    requires i <= m <= n <= |ops|
    ensures Resumes(ops, q, i, m) <= Resumes(ops, q, i, n)
    decreases n
  {
    if m < n { ResumesGrow(ops, q, i, m, n - 1); }
  }

  // ----- how a task ends

  lemma StepTerm(s: Sched, op: Op, t: Task)
    requires Inv(s) && Legal(s, op) && t in s.state && s.state[t].Term?
    ensures var s' := Step(s, op); t in s'.state && s'.state[t].Term?
    ensures s.destroyed <= Step(s, op).destroyed
  {
    match op
    case OpTick =>
      var s1 := if s.current != s.idle && s.state[s.current].Running?
          then s.(running := s.running + [s.current]) else s;
      DrainKeeps(Dispatch(s1).(ticked := true));
      DrainExtends(Dispatch(s1).(ticked := true));
    case _ =>
  }

  lemma {:induction false} DrainExtends(s: Sched)
    ensures Drain(s).destroyed == s.destroyed + s.term
    decreases |s.term|
  {
    if s.term != [] {
      DrainExtends(DestroyHead(s));
      assert s.destroyed + [s.term[0]] + s.term[1..] == s.destroyed + s.term;
    }
  }

  /** Once terminated, a task never runs again in any later state of the run, nor is queued to run or wait;
      and the tasks destroyed so far stay destroyed, each listed once. */
  lemma {:induction false} TerminatedForGood(ss: seq<Sched>, ops: seq<Op>, i: nat, j: nat, t: Task)
    requires IsRun(ss, ops) && Inv(ss[0]) && i <= j < |ss| && t in ss[i].state && ss[i].state[t].Term?
    ensures t in ss[j].state && ss[j].state[t].Term?
    ensures ss[j].current != t && t !in ss[j].running && !Waits(ss[j], t)
    ensures ss[i].destroyed <= ss[j].destroyed && Distinct(ss[j].destroyed)
    decreases j - i
  {
    RunInv(ss, ops, j);
    if i < j {
      TerminatedForGood(ss, ops, i, j - 1, t);
      RunInv(ss, ops, j - 1);
      assert Next(ss[j - 1], ops[j - 1], ss[j]);
      hide Step, Legal;
      StepTerm(ss[j - 1], ops[j - 1], t);
    }
  }

  /** The next tick destroys exactly the terminated tasks, in order, none of which is then current, queued
      anywhere or on the task list. */
  lemma TickDestroys(s: Sched, t: Task)
    requires Inv(s) && t in s.term
    ensures var s' := Tick(s);
            && s'.term == [] && s'.destroyed == s.destroyed + s.term
            && t !in s.destroyed && t in s'.destroyed
            && t != s'.current && t !in s'.running && !Waits(s', t) && t !in s'.list
  {
    var s1 := if s.current != s.idle && s.state[s.current].Running? then s.(running := s.running + [s.current]) else s;
    TickInv(s);
    DrainExtends(Dispatch(s1).(ticked := true));
    DrainEmpties(Dispatch(s1).(ticked := true));
  }

  lemma {:induction false} DrainEmpties(s: Sched)
    ensures Drain(s).term == []
    decreases |s.term|
  {
    if s.term != [] { DrainEmpties(DestroyHead(s)); }
  }

  // ----- the books, by the calls alone

  /** The tasks terminated since the last tick, in order; one terminated again goes to the end. */
  function Doomed(ops: seq<Op>, n: nat): seq<Task>
    requires n <= |ops|
  {
    if n == 0 then [] else
    match ops[n - 1]
    case OpTerm(t) => Without(Doomed(ops, n - 1), t) + [t]
    case OpTick => []
    case _ => Doomed(ops, n - 1)
  }

  /** The tasks terminated before the last tick, in order. */
  function Buried(ops: seq<Op>, n: nat): seq<Task>
    requires n <= |ops|
  {
    if n == 0 then [] else Buried(ops, n - 1) + if ops[n - 1].OpTick? then Doomed(ops, n - 1) else []
  }

  function WithoutAll(ts: seq<Task>, gone: seq<Task>): seq<Task>
    decreases |gone|
  {
    if gone == [] then ts else WithoutAll(Without(ts, gone[0]), gone[1..])
  }

  /** The tasks started and not buried, in the order they started. */
  function Alive(idle: Task, ops: seq<Op>, n: nat): seq<Task>
    requires n <= |ops|
  {
    if n == 0 then [idle] else
    var ts := Alive(idle, ops, n - 1);
    match ops[n - 1]
    case OpStart(t) => ts + [t]
    case OpTick => WithoutAll(ts, Doomed(ops, n - 1))
    case _ => ts
  }

  lemma {:induction false} DrainLists(s: Sched)
    ensures Drain(s).list == WithoutAll(s.list, s.term)
    decreases |s.term|
  {
    if s.term != [] { DrainLists(DestroyHead(s)); }
  }

  lemma StepBooks(s: Sched, op: Op)
    requires Inv(s) && Legal(s, op)
    ensures Step(s, op).term == match op case OpTerm(t) => Without(s.term, t) + [t] case OpTick => [] case _ => s.term
    ensures Step(s, op).destroyed == s.destroyed + if op.OpTick? then s.term else []
    ensures Step(s, op).list ==
            match op case OpStart(t) => s.list + [t] case OpTick => WithoutAll(s.list, s.term) case _ => s.list
  {
    hide Accounted, Without, WithoutAll;
    match op
    case OpTerm(t) => if t == s.current { WithoutAbsent(s.term, t); }
    case OpTick =>
      var s1 := Dispatch(if s.current != s.idle then s.(running := s.running + [s.current]) else s).(ticked := true);
      DrainExtends(s1);
      DrainEmpties(s1);
      DrainLists(s1);
    case _ =>
  }

  /** In every state of a run from sched_setup the term queue, the destroyed tasks and the task list are those the calls
      say: a tick destroys the tasks terminated since the last one, in that order, and the list is in order of start. */
  lemma {:induction false} Books(ss: seq<Sched>, ops: seq<Op>, n: nat)
    requires IsRun(ss, ops) && ss[0] == Setup(ss[0].idle) && n < |ss|
    ensures ss[n].term == Doomed(ops, n) && ss[n].destroyed == Buried(ops, n)
    ensures ss[n].list == Alive(ss[0].idle, ops, n)
  {
    hide Inv, Step, Legal, Without, WithoutAll;
    if n > 0 {
      Books(ss, ops, n - 1);
      SetupInv(ss[0].idle);
      RunInv(ss, ops, n - 1);
      assert Next(ss[n - 1], ops[n - 1], ss[n]);
      StepBooks(ss[n - 1], ops[n - 1]);
    }
  }

  /** The line at the processor, by the calls alone: the current task and those queued behind it. A switch takes the
      next in line, the idle task when there is none; who yields goes to the end, and so does who is interrupted, by a
      tick or by a resume; the idle task does not queue up at a tick. */
  ghost function Line(ss: seq<Sched>, ops: seq<Op>, n: nat): (r: seq<Task>)
    requires n <= |ops| < |ss|
    ensures r != []
  {
    var idle := ss[0].idle;
    if n == 0 then [idle, idle] else
    var line := Line(ss, ops, n - 1);
    var now, behind := line[0], line[1..];
    match ops[n - 1]
    case OpStart(t) => line + [t]
    case OpYield => Others(idle, behind) + [now]
    case OpSuspend(_) => Others(idle, behind)
    case OpResume(q) =>
      var w := Sleepers(ss, ops, q, n - 1);
      if w == [] then line else [w[0]] + behind + [now]
    case OpTerm(t) => if t == now then Others(idle, behind) else [now] + Without(behind, t)
    case OpTick => Others(idle, behind + if now == idle then [] else [now])
  }

  function Others(idle: Task, ts: seq<Task>): (r: seq<Task>)
    ensures r != []
  {
    if ts == [] then [idle] else ts
  }

  lemma StepLine(s: Sched, op: Op)
    requires Inv(s) && Legal(s, op)
    ensures var s' := Step(s, op);
            && s'.idle == s.idle
            && [s'.current] + s'.running ==
               match op
               case OpStart(t) => [s.current] + s.running + [t]
               case OpYield => Others(s.idle, s.running) + [s.current]
               case OpSuspend(_) => Others(s.idle, s.running)
               case OpResume(q) =>
                 var w := WaitQueue(s, q);
                 if w == [] then [s.current] + s.running else [w[0]] + s.running + [s.current]
               case OpTerm(t) =>
                 if t == s.current then Others(s.idle, s.running) else [s.current] + Without(s.running, t)
               case OpTick => Others(s.idle, s.running + if s.current == s.idle then [] else [s.current])
  {
    hide Queues, Accounted, Gone, Without, Drain;
    match op
    case OpYield => YieldRotates(s);
    case OpTick =>
      DrainKeeps(Dispatch(if s.current != s.idle then s.(running := s.running + [s.current]) else s).(ticked := true));
    case _ =>
  }

  /** In every state of every run from sched_setup the current task and the running queue are the line of the calls. */
  lemma {:induction false} LinesUp(ss: seq<Sched>, ops: seq<Op>, n: nat)
    requires IsRun(ss, ops) && ss[0] == Setup(ss[0].idle) && n < |ss|
    ensures ss[n].idle == ss[0].idle && [ss[n].current] + ss[n].running == Line(ss, ops, n)
  {
    hide Inv, Step, Legal, Without, Sleepers, WaitQueue;
    if n > 0 {
      LinesUp(ss, ops, n - 1);
      SetupInv(ss[0].idle);
      RunInv(ss, ops, n - 1);
      assert Next(ss[n - 1], ops[n - 1], ss[n]);
      StepLine(ss[n - 1], ops[n - 1]);
      var line := Line(ss, ops, n - 1);
      assert line[0] == ss[n - 1].current && line[1..] == ss[n - 1].running;
      if ops[n - 1].OpResume? { SleepersWait(ss, ops, ops[n - 1].q, n - 1); }
    }
  }
}
