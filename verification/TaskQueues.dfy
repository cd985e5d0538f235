/**
  Queues of tasks on the linked nodes of lib/list.h: every task has one node, every queue a head, and a task is on a
  queue by having its node linked there.
 */
module TaskQueues {
  import opened Wrappers
  import opened SchedSpec
  import Lists

  datatype Place = RunQueue | TermQueue | Waiters(q: nat) | TaskList

  /** The head of each queue, the node embedded in each task, and the tasks on each queue. */
  datatype Layout = Layout(heads: map<Place, Lists.Node>, node: map<Task, Lists.Node>, items: map<Place, seq<Task>>)

  type Owner = map<Lists.Node, Task>           // container_of

  type Memory = map<Lists.Node, Lists.Link>

  ghost predicate Known(q: Layout, ts: seq<Task>) {
    forall i :: 0 <= i < |ts| ==> ts[i] in q.node
  }

  /** The nodes of some tasks, in order. */
  ghost function NodesOf(q: Layout, ts: seq<Task>): (ns: seq<Lists.Node>)
    requires Known(q, ts)
    ensures |ns| == |ts| && forall i :: 0 <= i < |ts| ==> ns[i] == q.node[ts[i]]
  {
    seq(|ts|, i requires 0 <= i < |ts| => q.node[ts[i]])
  }

  /** Heads and nodes are all different. */
  ghost predicate Apart(q: Layout, owner: Owner, l: Memory) {
    && q.heads.Keys == q.items.Keys
    && (forall t :: t in q.node ==> q.node[t] in l && q.node[t] in owner && owner[q.node[t]] == t)
    && (forall n :: n in owner ==> owner[n] in q.node && q.node[owner[n]] == n)
    && (forall k :: k in q.heads ==> q.heads[k] in l && q.heads[k] !in owner)
    && (forall k, k' :: k in q.heads && k' in q.heads && q.heads[k] == q.heads[k'] ==> k == k')
  }

  /** No task is on two queues, or twice on one. */
  ghost predicate Once(q: Layout) {
    && (forall k :: k in q.items ==> Distinct(q.items[k]) && Known(q, q.items[k]))
    && (forall k, k', t :: k in q.items && k' in q.items && t in q.items[k] && t in q.items[k'] ==> k == k')
  }

  /** Every queue is a circular list, in memory, of the nodes of its tasks. */
  ghost predicate Linked(q: Layout, owner: Owner, l: Memory) {
    Apart(q, owner, l) && Once(q) && forall k :: k in q.heads ==> Lists.Ring(l, q.heads[k], NodesOf(q, q.items[k]))
  }

  /** Task `t` is on no queue. */
  ghost predicate Off(q: Layout, t: Task) {
    forall k :: k in q.items ==> t !in q.items[k]
  }

  lemma NodesSame(q: Layout, q': Layout, ts: seq<Task>)
    requires Known(q, ts) && forall t :: t in q.node ==> t in q'.node && q'.node[t] == q.node[t]
    ensures Known(q', ts) && NodesOf(q', ts) == NodesOf(q, ts)
  {
  }

  /** What is written when queue `k` is relinked to hold `ts`: its head and the nodes of its old and new tasks. */
  ghost predicate Touched(q: Layout, owner: Owner, k: Place, ts: seq<Task>, n: Lists.Node)
    requires k in q.heads && k in q.items
  {
    n == q.heads[k] || (n in owner && (owner[n] in q.items[k] || owner[n] in ts))
  }

  /** A queue other than `k` has no node that is touched. */
  lemma OtherRing(q: Layout, owner: Owner, l: Memory, l': Memory, k: Place, ts: seq<Task>, j: Place)
    requires Linked(q, owner, l) && k in q.heads && j in q.heads && j != k && l'.Keys == l.Keys
    requires forall t :: t in ts ==> t in q.items[k] || Off(q, t)
    requires forall n :: n in l && !Touched(q, owner, k, ts, n) ==> l'[n] == l[n]
    ensures Lists.Ring(l', q.heads[j], NodesOf(q, q.items[j]))
  {
    hide Lists.Ring, Distinct;
    var ns := NodesOf(q, q.items[j]);
    forall n | n in Lists.Nodes(q.heads[j], ns)
      ensures n in l && l'[n] == l[n]
    {
      if n != q.heads[j] {
        var i :| 0 <= i < |ns| && ns[i] == n;
        assert owner[n] == q.items[j][i] && q.items[j][i] in q.items[j];
      }
    }
    Lists.RingKept(l, l', q.heads[j], ns);
  }

  lemma OnceWith(q: Layout, k: Place, ts: seq<Task>)
    requires Once(q) && k in q.items && Distinct(ts) && Known(q, ts)
    requires forall t :: t in ts ==> t in q.items[k] || Off(q, t)
    ensures Once(q.(items := q.items[k := ts]))
  {
    hide Distinct;
  }

  /** Relinking queue `k` to hold `ts`, its own tasks and ones that were on no queue, leaves every other queue alone. */
  lemma Relinked(q: Layout, owner: Owner, l: Memory, l': Memory, k: Place, ts: seq<Task>)
    requires Linked(q, owner, l) && k in q.heads && Distinct(ts) && Known(q, ts) && l'.Keys == l.Keys
    requires forall t :: t in ts ==> t in q.items[k] || Off(q, t)
    requires Lists.Ring(l', q.heads[k], NodesOf(q, ts))
    requires forall n :: n in l && !Touched(q, owner, k, ts, n) ==> l'[n] == l[n]
    ensures Linked(q.(items := q.items[k := ts]), owner, l')
  {
    hide Lists.Ring, Distinct, Once, NodesOf, Off, Touched, Known;
    var q' := q.(items := q.items[k := ts]);
    OnceWith(q, k, ts);
    forall j | j in q.heads
      ensures Known(q', q'.items[j]) && Lists.Ring(l', q.heads[j], NodesOf(q', q'.items[j]))
    {
      OnceKnown(q, j);
      NodesSame(q, q', q'.items[j]);
      if j != k { OtherRing(q, owner, l, l', k, ts, j); }
    }
  }

  lemma OnceKnown(q: Layout, j: Place)
    requires Once(q) && j in q.items
    ensures Known(q, q.items[j])
  {
  }

  /** Adding nodes to memory changes no queue. */
  lemma RingsKept(q: Layout, q': Layout, owner: Owner, l: Memory, l': Memory, j: Place)
    requires Linked(q, owner, l) && j in q.heads && l.Keys <= l'.Keys && forall n :: n in l ==> l'[n] == l[n]
    requires forall t :: t in q.node ==> t in q'.node && q'.node[t] == q.node[t]
    ensures Known(q', q.items[j]) && Lists.Ring(l', q.heads[j], NodesOf(q', q.items[j]))
  {
    hide Lists.Ring, Distinct;
    var ns := NodesOf(q, q.items[j]);
    NodesSame(q, q', q.items[j]);
    forall n | n in Lists.Nodes(q.heads[j], ns)
      ensures n in l
    {
      if n != q.heads[j] {
        var i :| 0 <= i < |ns| && ns[i] == n;
      }
    }
    Lists.RingKept(l, l', q.heads[j], ns);
  }

  lemma Opened(q: Layout, owner: Owner, l: Memory, l': Memory, k: Place, head: Lists.Node)
    requires Linked(q, owner, l) && k !in q.heads && head !in l && l'.Keys == l.Keys + {head}
    requires Lists.Ring(l', head, []) && forall n :: n in l ==> l'[n] == l[n]
    ensures Linked(q.(heads := q.heads[k := head], items := q.items[k := []]), owner, l')
  {
    hide Lists.Ring, NodesOf, Once, Known, Apart;
    var q' := q.(heads := q.heads[k := head], items := q.items[k := []]);
    ApartOpened(q, q', owner, l, l', k, head);
    OnceOpened(q, q', k);
    forall j | j in q'.heads
      ensures Known(q', q'.items[j]) && Lists.Ring(l', q'.heads[j], NodesOf(q', q'.items[j]))
    {
      if j == k {
        OnceKnown(q', k);
        assert NodesOf(q', []) == [];
      } else {
        RingsKept(q, q', owner, l, l', j);
      }
    }
  }

  lemma ApartOpened(q: Layout, q': Layout, owner: Owner, l: Memory, l': Memory, k: Place, head: Lists.Node)
    requires Apart(q, owner, l) && k !in q.heads && head !in l && l'.Keys == l.Keys + {head}
    requires q' == q.(heads := q.heads[k := head], items := q.items[k := []])
    ensures Apart(q', owner, l') && k !in q.items
  {
  }

  lemma OnceOpened(q: Layout, q': Layout, k: Place)
    requires Once(q) && k !in q.items && q'.items == q.items[k := []] && q'.node == q.node
    ensures Once(q')
  {
  }

  lemma Enlisted(q: Layout, owner: Owner, l: Memory, l': Memory, t: Task, n: Lists.Node)
    requires Linked(q, owner, l) && t !in q.node && n !in l && l'.Keys == l.Keys + {n}
    requires forall n :: n in l ==> l'[n] == l[n]
    ensures Linked(q.(node := q.node[t := n]), owner[n := t], l')
  {
    hide Lists.Ring, NodesOf, Known, Apart, Distinct;
    var q' := q.(node := q.node[t := n]);
    ApartEnlisted(q, q', owner, l, l', t, n);
    forall j | j in q.heads
      ensures Known(q', q.items[j]) && Lists.Ring(l', q.heads[j], NodesOf(q', q.items[j]))
    {
      RingsKept(q, q', owner, l, l', j);
    }
  }

  lemma ApartEnlisted(q: Layout, q': Layout, owner: Owner, l: Memory, l': Memory, t: Task, n: Lists.Node)
    requires Apart(q, owner, l) && t !in q.node && n !in l && l'.Keys == l.Keys + {n} &&
             q' == q.(node := q.node[t := n])
    ensures Apart(q', owner[n := t], l') && q.heads.Keys == q.items.Keys
  {
  }

  lemma NodeIn(q: Layout, owner: Owner, l: Memory, ts: seq<Task>, n: Lists.Node)
    requires Apart(q, owner, l) && Known(q, ts) && n in NodesOf(q, ts)
    ensures n in l && n in owner && owner[n] in ts
  {
    var i :| 0 <= i < |ts| && NodesOf(q, ts)[i] == n;
    assert owner[n] == ts[i];
  }

  /** The list of a queue, with its nodes in memory and the tasks around them. */
  lemma QueueList(q: Layout, owner: Owner, l: Memory, k: Place)
    requires Linked(q, owner, l) && k in q.items
    ensures k in q.heads && Known(q, q.items[k]) && Distinct(q.items[k])
    ensures var ts := q.items[k]; var ns := NodesOf(q, ts);
            && Lists.Ring(l, q.heads[k], ns) && Lists.Nodes(q.heads[k], ns) <= l.Keys
            && forall i :: 0 <= i < |ts| ==> ns[i] in owner && owner[ns[i]] == ts[i]
  {
    hide Lists.Ring, NodesOf, Distinct;
    var ns := NodesOf(q, q.items[k]);
    forall n | n in ns
      ensures n in l
    {
      NodeIn(q, owner, l, q.items[k], n);
    }
  }

  /** The node of a task that is on no queue. */
  lemma NodeOff(q: Layout, owner: Owner, l: Memory, k: Place, t: Task)
    requires Linked(q, owner, l) && k in q.heads && t in q.node && Off(q, t)
    ensures q.node[t] in l && q.node[t] != q.heads[k] && Known(q, q.items[k]) && q.node[t] !in NodesOf(q, q.items[k])
  {
    hide Lists.Ring, NodesOf, Distinct;
    if q.node[t] in NodesOf(q, q.items[k]) { NodeIn(q, owner, l, q.items[k], q.node[t]); }
  }

  /** The same, with the nodes written given as the nodes of the old and the new list. */
  lemma RelinkedNodes(q: Layout, owner: Owner, l: Memory, l': Memory, k: Place, ts: seq<Task>)
    requires Linked(q, owner, l) && k in q.heads && Distinct(ts) && Known(q, ts) && l'.Keys == l.Keys
    requires forall t :: t in ts ==> t in q.items[k] || Off(q, t)
    requires Lists.Ring(l', q.heads[k], NodesOf(q, ts))
    requires forall n :: n in l && n != q.heads[k] && n !in NodesOf(q, q.items[k]) && n !in NodesOf(q, ts) ==>
             l'[n] == l[n]
    ensures Linked(q.(items := q.items[k := ts]), owner, l')
  {
    hide Lists.Ring, NodesOf, Once, Distinct, Off;
    OnceKnown(q, k);
    forall n | n in l && !Touched(q, owner, k, ts, n)
      ensures l'[n] == l[n]
    {
      if n in NodesOf(q, q.items[k]) { NodeIn(q, owner, l, q.items[k], n); }
      if n in NodesOf(q, ts) { NodeIn(q, owner, l, ts, n); }
    }
    Relinked(q, owner, l, l', k, ts);
  }

  class QueueSet {
    var heads: map<Place, Lists.Node>
    var node: map<Task, Lists.Node>
    var owner: Owner
    ghost var items: map<Place, seq<Task>>
    ghost var Repr: set<Lists.Node>

    ghost function View(): Layout
      reads this
    {
      Layout(heads, node, items)
    }

    ghost predicate Valid()
      reads this, Repr
    {
      Linked(View(), owner, Lists.Snapshot(Repr))
    }

    constructor ()
      ensures Valid() && View() == Layout(map[], map[], map[]) && Repr == {}
    {
      heads, node, owner, items, Repr := map[], map[], map[], map[], {};
    }

    /** LIST_HEAD_INIT of a new queue. */
    method Open(k: Place)
      requires Valid() && k !in items
      modifies this
      ensures Valid() && items == old(items)[k := []] && node == old(node) && fresh(Repr - old(Repr))
    {
      hide Linked, Lists.Ring, Lists.IsList;
      ghost var l := Lists.Snapshot(Repr);
      HeadsOpen(View(), owner, l);
      var head := new Lists.Node();
      Lists.Init(head);
      Lists.RingIsList(Repr + {head}, head, []);
      Opened(View(), owner, l, Lists.Snapshot(Repr + {head}), k, head);
      heads, items, Repr := heads[k := head], items[k := []], Repr + {head};
    }

    /** The node that a new task brings along. */
    method Enlist(t: Task)
      requires Valid() && t !in node
      modifies this
      ensures Valid() && items == old(items) && node.Keys == old(node).Keys + {t} && fresh(Repr - old(Repr))
    {
      hide Linked;
      ghost var l := Lists.Snapshot(Repr);
      var n := new Lists.Node();
      Enlisted(View(), owner, l, Lists.Snapshot(Repr + {n}), t, n);
      node, owner, Repr := node[t := n], owner[n := t], Repr + {n};
    }

    /** LIST_ADD_TAIL of a task that is on no queue. */
    method Push(k: Place, t: Task)
      requires Valid() && k in items && t in node && Off(View(), t)
      modifies this`items, Repr
      ensures Valid() && items == old(items)[k := old(items)[k] + [t]]
    {
      hide Linked, Lists.Ring, Lists.IsList, Lists.Snapshot, NodesOf, Distinct, Off, Without;
      ghost var q, l, ts := View(), Lists.Snapshot(Repr), items[k];
      QueueList(q, owner, l, k);
      ghost var ns := NodesOf(q, ts);
      NodeOff(q, owner, l, k, t);
      Lists.RingIsList(Repr, heads[k], ns);
      Lists.AddTail(heads[k], node[t], ns);
      ghost var l' := Lists.Snapshot(Repr);
      Lists.RingIsList(Repr, heads[k], ns + [node[t]]);
      PushedNodes(q, ts, t);
      DistinctAppend(ts, [t]);
      RelinkedNodes(q, owner, l, l', k, ts + [t]);
      items := items[k := ts + [t]];
    }

    /** A new task, with its node, at the tail of a queue. */
    method Admit(k: Place, t: Task)
      requires Valid() && k in items && t !in node && Off(View(), t)
      modifies this, Repr
      ensures Valid() && items == old(items)[k := old(items)[k] + [t]] && node.Keys == old(node).Keys + {t}
      ensures fresh(Repr - old(Repr))
    {
      hide Linked;
      Enlist(t);
      Push(k, t);
    }

    /** LIST_ADD_TAIL on a queue whose head is set up when it is first used. */
    method Join(k: Place, t: Task)
      requires Valid() && t in node && Off(View(), t)
      modifies this, Repr
      ensures Valid() && items == old(items)[k := (if k in old(items) then old(items)[k] else []) + [t]]
      ensures node == old(node) && fresh(Repr - old(Repr))
    {
      hide Linked;
      HeadsOpen(View(), owner, Lists.Snapshot(Repr));
      if k !in heads { Open(k); }
      Push(k, t);
    }

    /** LIST_DEQUEUE, and the task around the node. */
    method Pop(k: Place) returns (r: Option<Task>)
      requires Valid() && k in items
      modifies this`items, Repr
      ensures Valid()
      ensures if old(items)[k] == [] then r == None && items == old(items)
              else r == Some(old(items)[k][0]) && items == old(items)[k := old(items)[k][1..]]
    {
      hide Linked, Lists.Ring, Lists.IsList, Lists.Snapshot, NodesOf, Distinct, Off, Without;
      ghost var q, l, ts := View(), Lists.Snapshot(Repr), items[k];
      QueueList(q, owner, l, k);
      ghost var ns := NodesOf(q, ts);
      Lists.RingIsList(Repr, heads[k], ns);
      var n := Lists.Dequeue(heads[k], ns);
      ghost var l', rest := Lists.Snapshot(Repr), if ts == [] then [] else ts[1..];
      PoppedNodes(q, ts);
      Lists.RingIsList(Repr, heads[k], NodesOf(q, rest));
      RelinkedNodes(q, owner, l, l', k, rest);
      items := items[k := rest];
      assert ts == [] ==> items == q.items;
      assert ts != [] ==> n == ns[0];
      r := if n == null then None else Some(owner[n]);
    }

    /** LIST_DEL of a task's node, on whichever queue it is. */
    method Drop(t: Task, ghost k: Place)
      requires Valid() && k in items && t in items[k]
      modifies this`items, Repr
      ensures Valid() && items == old(items)[k := Without(old(items)[k], t)]
    {
      hide Linked, Lists.Ring, Lists.IsList, Lists.Snapshot, NodesOf, Distinct, Off, Without;
      ghost var q, l, ts := View(), Lists.Snapshot(Repr), items[k];
      QueueList(q, owner, l, k);
      ghost var ns := NodesOf(q, ts);
      ghost var i :| 0 <= i < |ts| && ts[i] == t;
      Lists.RingIsList(Repr, heads[k], ns);
      Lists.Del(node[t], heads[k], ns, i);
      ghost var l', rest := Lists.Snapshot(Repr), Without(ts, t);
      DroppedNodes(q, ts, t, i);
      Lists.RingIsList(Repr, heads[k], NodesOf(q, rest));
      RelinkedNodes(q, owner, l, l', k, rest);
      items := items[k := rest];
    }

    /** LIST_COUNT. */
    method Count(k: Place) returns (n: nat)
      requires Valid() && k in items
      ensures n == |items[k]|
    {
      hide Linked, Lists.Ring, Lists.IsList;
      ghost var q, l := View(), Lists.Snapshot(Repr);
      QueueList(q, owner, l, k);
      Lists.RingIsList(Repr, heads[k], NodesOf(q, items[k]));
      n := Lists.Count(heads[k], NodesOf(q, items[k]));
    }
  }

  lemma PoppedNodes(q: Layout, ts: seq<Task>)
    requires Known(q, ts) && Distinct(ts)
    ensures var rest := if ts == [] then [] else ts[1..]; var ns := NodesOf(q, ts);
            && Known(q, rest) && Distinct(rest) && (forall t :: t in rest ==> t in ts)
            && NodesOf(q, rest) == (if ns == [] then [] else ns[1..]) && (forall n :: n in NodesOf(q, rest) ==> n in ns)
  {
    var rest := if ts == [] then [] else ts[1..];
    assert forall i :: 0 <= i < |rest| ==> rest[i] == ts[i + 1];
    assert NodesOf(q, rest) == if ts == [] then [] else NodesOf(q, ts)[1..];
  }

  lemma DroppedNodes(q: Layout, ts: seq<Task>, t: Task, i: nat)
    requires Known(q, ts) && Distinct(ts) && i < |ts| && ts[i] == t
    ensures var rest := Without(ts, t); var ns := NodesOf(q, ts);
            && Known(q, rest) && Distinct(rest) && (forall x :: x in rest ==> x in ts)
            && NodesOf(q, rest) == ns[..i] + ns[i + 1..] && (forall n :: n in NodesOf(q, rest) ==> n in ns)
  {
    WithoutAt(ts, t, i);
    WithoutDistinct(ts, t);
    hide Without;
    var rest, ns := Without(ts, t), NodesOf(q, ts);
    assert forall j :: 0 <= j < |rest| ==> rest[j] == if j < i then ts[j] else ts[j + 1];
    assert NodesOf(q, rest) == ns[..i] + ns[i + 1..];
  }

  lemma {:induction false} WithoutAt(ts: seq<Task>, t: Task, i: nat)
    requires Distinct(ts) && i < |ts| && ts[i] == t
    ensures Without(ts, t) == ts[..i] + ts[i + 1..]
  {
    if i == 0 {
      assert t !in ts[1..];
      WithoutAbsent(ts[1..], t);
    } else {
      WithoutAt(ts[1..], t, i - 1);
      assert ts[..i] + ts[i + 1..] == [ts[0]] + (ts[1..][..i - 1] + ts[1..][i..]);
    }
  }

  lemma HeadsOpen(q: Layout, owner: Owner, l: Memory)
    requires Linked(q, owner, l)
    ensures q.heads.Keys == q.items.Keys
  {
    hide Lists.Ring;
  }

  /** A queue set whose one queue `k` holds the one task `t`. */
  method SetOf(k: Place, t: Task) returns (q: QueueSet)
    ensures fresh(q) && fresh(q.Repr) && q.Valid() && q.node.Keys == {t} && q.items == map[k := [t]]
  {
    hide Linked;
    q := new QueueSet();
    q.Open(k);
    q.Enlist(t);
    q.Push(k, t);
    assert [] + [t] == [t];
  }

  lemma PushedNodes(q: Layout, ts: seq<Task>, t: Task)
    requires Known(q, ts) && t in q.node
    ensures Known(q, ts + [t]) && NodesOf(q, ts + [t]) == NodesOf(q, ts) + [q.node[t]] && Distinct([t])
  {
  }
}
