/**
  The intrusive circular lists of lib/list.h on linked nodes, and the sequence each one stands for.
 */
module Lists {

  class Node {
    var prev: Node?
    var next: Node?

    constructor ()
      ensures prev == null && next == null
    {
      prev, next := null, null;
    }
  }

  ghost predicate Distinct(ns: seq<Node>) {
    forall i, j :: 0 <= i < j < |ns| ==> ns[i] != ns[j]
  }

  function Succ(n: nat, i: nat): nat
    requires i < n
  {
    if i == n - 1 then 0 else i + 1
  }

  /** Node `i` of the ring and its successor point at each other. */
  ghost predicate Joined(ring: seq<Node>, i: nat)
    requires i < |ring|
    reads ring
  {
    var j := Succ(|ring|, i);
    ring[i].next == ring[j] && ring[j].prev == ring[i]
  }

  /** `head` with `items` after it form one circular list whose links are mutually inverse. */
  ghost predicate IsList(head: Node, items: seq<Node>)
    reads head, items
  {
    var ring := [head] + items;
    Distinct(ring) && forall i :: 0 <= i < |ring| ==> Joined(ring, i)
  }

  method Init(head: Node)
    modifies head
    ensures IsList(head, [])
  {
    head.prev := head;
    head.next := head;
  }

  /** The walk of LIST_ADD_TAIL ends at the node that the head already points back to. */
  method Last(head: Node, ghost items: seq<Node>) returns (last: Node)
    requires IsList(head, items)
    ensures last == head.prev && last == ([head] + items)[|items|]
  {
    ghost var ring := [head] + items;
    last := head;
    ghost var k := 0;
    while last.next != head
      invariant 0 <= k < |ring| && last == ring[k]
      decreases |ring| - k
    {
      assert Joined(ring, k);
      last := last.next;
      k := k + 1;
    }
    assert Joined(ring, k);
  }

  /** LIST_ADD_TAIL: walk to the last node, then link the new one in. */
  method AddTail(head: Node, node: Node, ghost items: seq<Node>)
    requires IsList(head, items) && node != head && node !in items
    modifies head, node, items
    ensures IsList(head, items + [node])
  {
    ghost var ring, k := [head] + items, |items|;
    var last := Last(head, items);
    last.next := node;
    node.prev := last;
    node.next := head;
    head.prev := node;
    ghost var ring' := [head] + (items + [node]);
    assert ring' == ring + [node];
    forall i | 0 <= i < |ring'|
      ensures Joined(ring', i)
    {
      assert i < k ==> old(Joined(ring, i));
    }
  }

  lemma RemoveDistinct(ns: seq<Node>, ns': seq<Node>, k: nat)
    requires Distinct(ns) && k < |ns| && |ns'| == |ns| - 1
    requires forall i {:trigger ns'[i]} :: 0 <= i < |ns'| ==> ns'[i] == if i < k then ns[i] else ns[i + 1]
    ensures Distinct(ns')
  {
    forall i, j | 0 <= i < j < |ns'|
      ensures ns'[i] != ns'[j]
    {
      var i', j' := if i < k then i else i + 1, if j < k then j else j + 1;
      assert ns'[i] == ns[i'] && ns'[j] == ns[j'] && i' < j';
    }
  }

  /** LIST_DEL: unlink a node that sits at position `k` of its list. */
  method Del(node: Node, ghost head: Node, ghost items: seq<Node>, ghost k: nat)
    requires IsList(head, items) && k < |items| && items[k] == node
    modifies head, items
    ensures IsList(head, items[..k] + items[k + 1..])
    ensures node.prev == null && node.next == null
  {
    ghost var ring := [head] + items;
    assert Joined(ring, k) && Joined(ring, k + 1);
    node.prev.next := node.next;
    node.next.prev := node.prev;
    node.prev := null;
    node.next := null;
    ghost var ring' := [head] + (items[..k] + items[k + 1..]);
    assert forall i {:trigger ring'[i]} :: 0 <= i < |ring'| ==> ring'[i] == if i <= k then ring[i] else ring[i + 1];
    RemoveDistinct(ring, ring', k + 1);
    forall i | 0 <= i < |ring'|
      ensures Joined(ring', i)
    {
      assert i < k ==> old(Joined(ring, i));
      assert i > k ==> old(Joined(ring, i + 1));
    }
  }

  /** LIST_DEQUEUE: the first node, unlinked; null from an empty list. */
  method Dequeue(head: Node, ghost items: seq<Node>) returns (node: Node?)
    requires IsList(head, items)
    modifies head, items
    ensures items == [] ==> node == null && IsList(head, [])
    ensures items != [] ==> node == items[0] && IsList(head, items[1..]) && node.prev == null && node.next == null
  {
    ghost var ring := [head] + items;
    assert Joined(ring, 0);
    node := head.next;
    if node == head { return null; }
    assert items[..0] + items[1..] == items[1..];
    Del(node, head, items, 0);
  }

  /** LIST_COUNT. */
  method Count(head: Node, ghost items: seq<Node>) returns (n: nat)
    requires IsList(head, items)
    ensures n == |items|
  {
    ghost var ring := [head] + items;
    var node := head;
    n := 0;
    while node.next != head
      invariant n < |ring| && node == ring[n]
      decreases |ring| - n
    {
      assert Joined(ring, n);
      node := node.next;
      n := n + 1;
    }
    assert Joined(ring, n);
  }

  ghost function Nodes(head: Node, items: seq<Node>): set<Node> {
    {head} + set n | n in items
  }

  lemma RingNodes(head: Node, items: seq<Node>)
    ensures forall i :: 0 <= i < |items| ==> items[i] in Nodes(head, items)
    ensures forall i :: 0 <= i < |[head] + items| ==> ([head] + items)[i] in Nodes(head, items)
  {
  }

  // ----- lists in a memory of links

  datatype Link = Link(prev: Node?, next: Node?)

  /** The links of a set of nodes as a value. */
  ghost function Snapshot(nodes: set<Node>): (l: map<Node, Link>)
    reads nodes
    ensures l.Keys == nodes && forall n :: n in nodes ==> l[n] == Link(n.prev, n.next)
  {
    map n | n in nodes :: Link(n.prev, n.next)
  }

  /** `head` with `items` after it form one circular list in the links `l`. */
  ghost predicate Ring(l: map<Node, Link>, head: Node, items: seq<Node>) {
    var ring := [head] + items;
    && Distinct(ring)
    && (forall i :: 0 <= i < |ring| ==> ring[i] in l)
    && forall i :: 0 <= i < |ring| ==>
         var j := Succ(|ring|, i); l[ring[i]].next == ring[j] && l[ring[j]].prev == ring[i]
  }

  lemma RingIsList(nodes: set<Node>, head: Node, items: seq<Node>)
    requires Nodes(head, items) <= nodes
    ensures Ring(Snapshot(nodes), head, items) <==> IsList(head, items)
  {
    var ring := [head] + items;
    RingNodes(head, items);
    if Ring(Snapshot(nodes), head, items) {
      forall i | 0 <= i < |ring| ensures Joined(ring, i) {}
    } else if IsList(head, items) {
      forall i | 0 <= i < |ring|
        ensures var l, j := Snapshot(nodes), Succ(|ring|, i); l[ring[i]].next == ring[j] && l[ring[j]].prev == ring[i]
      {
        assert Joined(ring, i);
      }
    }
  }

  /** A list none of whose nodes has changed is still that list. */
  lemma RingKept(l: map<Node, Link>, l': map<Node, Link>, head: Node, items: seq<Node>)
    requires Ring(l, head, items)
    requires forall n :: n in Nodes(head, items) ==> n in l && n in l' && l'[n] == l[n]
    ensures Ring(l', head, items)
  {
    var ring := [head] + items;
    RingNodes(head, items);
  }
}
