/** Queues ordered by a key, entries of equal key in order of arrival, and the doubly
    linked lists between two sentinels that hold them. */
module SentinelLists {

  /** An entry: what it is ordered by, and the number of its arrival, which stands for
      what else it carries. */
  datatype Entry = Entry(key: nat, id: nat)

  predicate Before(a: Entry, b: Entry) {
    a.key < b.key || (a.key == b.key && a.id < b.id)
  }

  predicate InOrder(q: seq<Entry>) {
    forall i, j :: 0 <= i < j < |q| ==> Before(q[i], q[j])
  }

  /** After the last entry whose key is not greater. */
  function Insert(q: seq<Entry>, x: Entry): seq<Entry> {
    if q == [] || x.key < q[0].key then [x] + q else [q[0]] + Insert(q[1..], x)
  }

  /** All entries arrived before number n. */
  predicate Older(q: seq<Entry>, n: nat) {
    forall i :: 0 <= i < |q| ==> q[i].id < n
  }

  lemma {:induction false} InsertIsAt(q: seq<Entry>, x: Entry, k: nat)
    requires k <= |q| && (forall i :: 0 <= i < k ==> q[i].key <= x.key)
    requires k < |q| ==> x.key < q[k].key
    ensures Insert(q, x) == q[..k] + [x] + q[k..]
  {
    if k > 0 {
      InsertIsAt(q[1..], x, k - 1);
      assert q[1..][..k - 1] == q[1..k] && q[1..][k - 1..] == q[k..];
      assert q[..k] == [q[0]] + q[1..k];
    }
  }

  lemma {:induction false} InsertKeepsOrder(q: seq<Entry>, x: Entry)
    requires InOrder(q) && Older(q, x.id)
    ensures InOrder(Insert(q, x)) && |Insert(q, x)| == |q| + 1
    ensures forall e :: e in Insert(q, x) <==> e in q || e == x
  {
    if q != [] && x.key >= q[0].key {
      InsertKeepsOrder(q[1..], x);
      var r := Insert(q[1..], x);
      forall e | e in r
        ensures Before(q[0], e)
      {
      }
      assert q == [q[0]] + q[1..];
    }
  }

  lemma {:induction false} InsertCounts(q: seq<Entry>, x: Entry)
    ensures multiset(Insert(q, x)) == multiset(q) + multiset{x}
  {
    if q != [] && x.key >= q[0].key {
      InsertCounts(q[1..], x);
      assert q == [q[0]] + q[1..];
    }
  }

  /** Arrivals are numbered from 0. */
  predicate ArrivalsAre(arrived: seq<Entry>) {
    forall i :: 0 <= i < |arrived| ==> arrived[i].id == i
  }

  lemma {:induction false} OnceEach(arrived: seq<Entry>, e: Entry)
    requires ArrivalsAre(arrived)
    ensures multiset(arrived)[e] <= 1 && (multiset(arrived)[e] == 1 ==> e.id < |arrived|)
  {
    if arrived != [] {
      var n := |arrived| - 1;
      OnceEach(arrived[..n], e);
      assert arrived == arrived[..n] + [arrived[n]];
    }
  }

  /** A node; only its place in the order of arrival is not in the source. */
  class Node {
    const key: nat
    ghost const id: nat
    var next: Node?
    var prev: Node?

    constructor (key: nat, ghost id: nat)
      ensures this.key == key && this.id == id && next == null && prev == null
    {
      this.key := key;
      this.id := id;
      next, prev := null, null;
    }

    ghost function AsEntry(): Entry {
      Entry(key, id)
    }
  }

  predicate Distinct(s: seq<Node>) {
    forall i, j :: 0 <= i < j < |s| ==> s[i] != s[j]
  }

  /** The entries between the sentinels. */
  ghost function Inner(nodes: seq<Node>): (r: seq<Entry>)
    requires |nodes| >= 2
    ensures |r| == |nodes| - 2 && forall k :: 0 <= k < |r| ==> r[k] == nodes[k + 1].AsEntry()
  {
    seq(|nodes| - 2, k requires 0 <= k < |nodes| - 2 => nodes[k + 1].AsEntry())
  }

  lemma InnerInserted(nodes: seq<Node>, i: nat, node: Node)
    requires i < |nodes| - 1
    ensures Inner(nodes[..i + 1] + [node] + nodes[i + 1..]) == Inner(nodes)[..i] + [node.AsEntry()] + Inner(nodes)[i..]
  {
    var was, now := Inner(nodes), Inner(nodes[..i + 1] + [node] + nodes[i + 1..]);
    assert |now| == |was| + 1;
    assert now[..i] == was[..i] && now[i] == node.AsEntry() && now[i + 1..] == was[i..];
    assert now == now[..i] + [now[i]] + now[i + 1..];
  }

  lemma InnerRemoved(nodes: seq<Node>, i: nat)
    requires 0 < i < |nodes| - 1
    ensures Inner(nodes[..i] + nodes[i + 1..]) == Inner(nodes)[..i - 1] + Inner(nodes)[i..]
  {
    var was, now := Inner(nodes), Inner(nodes[..i] + nodes[i + 1..]);
    assert |now| == |was| - 1;
    assert now[..i - 1] == was[..i - 1] && now[i - 1..] == was[i..];
    assert now == now[..i - 1] + now[i - 1..];
  }

  lemma DistinctInserted(nodes: seq<Node>, i: nat, node: Node)
    requires Distinct(nodes) && node !in nodes && i < |nodes|
    ensures Distinct(nodes[..i + 1] + [node] + nodes[i + 1..])
  {
  }

  lemma OnlyThere(nodes: seq<Node>, i: nat)
    requires Distinct(nodes) && i < |nodes|
    ensures forall j :: 0 <= j < |nodes| && j != i ==> nodes[j] != nodes[i]
  {
  }

  class SentinelList {
    const head: Node
    const tail: Node
    /** All nodes in order, the sentinels included, and all nodes there ever were. */
    ghost var nodes: seq<Node>
    ghost var repr: set<Node>

    ghost predicate Valid()
      reads this, repr
    {
      |nodes| >= 2 && nodes[0] == head && nodes[|nodes| - 1] == tail && Distinct(nodes)
      && (forall i :: 0 <= i < |nodes| ==> nodes[i] in repr)
      && (forall i :: 0 <= i < |nodes| - 1 ==> nodes[i].next == nodes[i + 1])
      && (forall i :: 0 < i < |nodes| ==> nodes[i].prev == nodes[i - 1])
    }

    ghost function Contents(): seq<Entry>
      reads this
      requires |nodes| >= 2
    {
      Inner(nodes)
    }

    /** The outer links of the sentinels, which nobody follows, are null or closed. */
    constructor (closed: bool)
      ensures Valid() && fresh(repr) && Contents() == []
    {
      head := new Node(0, 0);
      tail := new Node(0, 0);
      new;
      if closed {
        head.prev := head;
        tail.next := tail;
      }
      head.next := tail;
      tail.prev := head;
      nodes := [head, tail];
      repr := {head, tail};
    }

    /** A new node behind node number i. */
    method InsertAfter(current: Node, key: nat, ghost id: nat, ghost i: nat) returns (node: Node)
      requires Valid() && i < |nodes| - 1 && current == nodes[i]
      modifies this, repr
      ensures Valid() && fresh(repr - old(repr))
      ensures nodes == old(nodes[..i + 1]) + [node] + old(nodes[i + 1..]) && node.AsEntry() == Entry(key, id)
      ensures Contents() == old(Contents()[..i]) + [Entry(key, id)] + old(Contents()[i..])
    {
      hide Inner, Distinct;
      assert nodes[i].next == nodes[i + 1];
      node := new Node(key, id);
      var next := current.next;
      node.next := next;
      node.prev := current;
      current.next := node;
      if next != null {
        next.prev := node;
      }
      InnerInserted(nodes, i, node);
      DistinctInserted(nodes, i, node);
      OnlyThere(nodes, i);
      OnlyThere(nodes, i + 1);
      ghost var was := nodes;
      nodes := nodes[..i + 1] + [node] + nodes[i + 1..];
      repr := repr + {node};
      forall j | 0 <= j < |nodes| - 1
        ensures nodes[j].next == nodes[j + 1] && nodes[j + 1].prev == nodes[j]
      {
        assert nodes[j] == if j <= i then was[j] else if j == i + 1 then node else was[j - 1];
        assert nodes[j + 1] == if j < i then was[j + 1] else if j == i then node else was[j];
      }
    }

    /** The links on both sides of a node are joined. */
    method Unlink(node: Node, ghost i: nat)
      requires Valid() && 0 < i < |nodes| - 1 && node == nodes[i]
      modifies this, repr
      ensures Valid() && repr == old(repr) && nodes == old(nodes[..i]) + old(nodes[i + 1..])
      ensures Contents() == old(Contents()[..i - 1]) + old(Contents()[i..])
    {
      hide Inner;
      InnerRemoved(nodes, i);
      assert nodes[i].next == nodes[i + 1] && nodes[i].prev == nodes[i - 1];
      ghost var was := nodes;
      node.prev.next := node.next;
      node.next.prev := node.prev;
      nodes := nodes[..i] + nodes[i + 1..];
      forall j | 0 <= j < |nodes| - 1
        ensures nodes[j].next == nodes[j + 1] && nodes[j + 1].prev == nodes[j]
      {
        assert nodes[j] == was[if j < i then j else j + 1] && nodes[j + 1] == was[if j + 1 < i then j + 1 else j + 2];
      }
    }

    /** The same for the first node, which leaves its own links alone. */
    method RemoveFirst(node: Node)
      requires Valid() && |nodes| > 2 && node == nodes[1]
      modifies this, repr
      ensures Valid() && repr == old(repr) && Contents() == old(Contents()[1..])
    {
      hide Inner;
      InnerRemoved(nodes, 1);
      assert nodes[1].next == nodes[2];
      head.next := node.next;
      if node.next != null {
        node.next.prev := head;
      }
      nodes := nodes[..1] + nodes[2..];
    }
  }
}
