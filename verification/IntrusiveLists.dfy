/** Doubly linked lists threaded through an array of descriptors: `next` and
    `prev` live in the descriptors, and each list is known by its first node.
    The buddy system keeps one such list per order and the slab layer one per
    size class. A node is named by its index and NIL stands for the null pointer. */
module IntrusiveLists {
  import opened Slices

  const NIL := -1

  function At(s: seq<int>, p: int): int {
    if 0 <= p < |s| then s[p] else NIL
  }

  /** From its head, the links spell out exactly s, and back again. */
  ghost predicate Chain(s: seq<int>, head: int, next: seq<int>, prev: seq<int>) {
    && |prev| == |next|
    && head == At(s, 0)
    && (forall p :: 0 <= p < |s| ==> 0 <= s[p] < |next|)
    && (forall p {:trigger next[s[p]]} :: 0 <= p < |s| ==> next[s[p]] == At(s, p + 1))
    && (forall p {:trigger prev[s[p]]} :: 0 <= p < |s| ==> prev[s[p]] == At(s, p - 1))
    && (forall p, q :: 0 <= p < q < |s| ==> s[p] != s[q])
  }

  lemma ChainFrame(s: seq<int>, head: int, next: seq<int>, prev: seq<int>, next': seq<int>, prev': seq<int>)
    requires Chain(s, head, next, prev)
    requires |next'| == |prev'| == |next|
    requires forall i :: 0 <= i < |next| && i in s ==> next'[i] == next[i] && prev'[i] == prev[i]
    ensures Chain(s, head, next', prev')
  {
    forall p | 0 <= p < |s| ensures s[p] in s && 0 <= s[p] < |next| {
    }
  }

  /** Making i the new head: the four writes of the insertion code. */
  lemma ChainPush(s: seq<int>, head: int, next: seq<int>, prev: seq<int>, i: int)
    requires Chain(s, head, next, prev)
    requires 0 <= i < |next| && i !in s
    ensures head == NIL || 0 <= head < |next|
    ensures var next' := next[i := head];
            var prev0 := prev[i := NIL];
            var prev' := if head == NIL then prev0 else prev0[head := i];
            Chain([i] + s, i, next', prev')
  {
    var next' := next[i := head];
    var prev0 := prev[i := NIL];
    var prev' := if head == NIL then prev0 else prev0[head := i];
    var t := [i] + s;
    forall p | 0 <= p < |t|
      ensures 0 <= t[p] < |next| && next'[t[p]] == At(t, p + 1) && prev'[t[p]] == At(t, p - 1)
    {
      if p > 0 {
        assert t[p] == s[p - 1];
        assert p > 1 ==> s[p - 1] != s[0];
      }
    }
    forall p, q | 0 <= p < q < |t| ensures t[p] != t[q] {
      assert t[q] == s[q - 1];
      if p > 0 {
        assert t[p] == s[p - 1];
      }
    }
  }

  /** Taking out the node at position p: its neighbours are joined. */
  lemma ChainUnlink(s: seq<int>, head: int, next: seq<int>, prev: seq<int>, p: nat)
    requires Chain(s, head, next, prev)
    requires p < |s|
    ensures At(s, p + 1) == NIL || 0 <= At(s, p + 1) < |next|
    ensures At(s, p - 1) == NIL || 0 <= At(s, p - 1) < |next|
    ensures p > 0 ==> At(s, p - 1) != NIL
    ensures var before, after := At(s, p - 1), At(s, p + 1);
            var next' := if p == 0 then next else next[before := after];
            var prev' := if after == NIL then prev else prev[after := before];
            Chain(Without(s, p), if p == 0 then after else head, next', prev')
  {
    var before, after := At(s, p - 1), At(s, p + 1);
    var next' := if p == 0 then next else next[before := after];
    var prev' := if after == NIL then prev else prev[after := before];
    var t := Without(s, p);
    WithoutDistinct(s, p);
    WithoutAt(s, p, 0);
    assert |t| == |s| - 1;
    hide Without;
    forall q | 0 <= q < |t|
      ensures 0 <= t[q] < |next|
      ensures next'[t[q]] == At(t, q + 1) && prev'[t[q]] == At(t, q - 1)
    {
      UnlinkedNode(s, head, next, prev, p, q);
    }
  }

  /** The links of node q of the shortened list. */
  lemma UnlinkedNode(s: seq<int>, head: int, next: seq<int>, prev: seq<int>, p: nat, q: nat)
    requires Chain(s, head, next, prev)
    requires p < |s| && q < |Without(s, p)|
    ensures 0 <= Without(s, p)[q] < |next|
    ensures p > 0 ==> 0 <= At(s, p - 1) < |next|
    ensures At(s, p + 1) == NIL || 0 <= At(s, p + 1) < |next|
    ensures var before, after, t := At(s, p - 1), At(s, p + 1), Without(s, p);
            var next' := if p == 0 then next else next[before := after];
            var prev' := if after == NIL then prev else prev[after := before];
            next'[t[q]] == At(t, q + 1) && prev'[t[q]] == At(t, q - 1)
  {
    var r := if q < p then q else q + 1;
    WithoutAt(s, p, q - 1);
    WithoutAt(s, p, q);
    WithoutAt(s, p, q + 1);
    assert next[s[r]] == At(s, r + 1) && prev[s[r]] == At(s, r - 1);
    UnlinkedAt(s, next, prev, p, r);
  }

  lemma WithoutDistinct(s: seq<int>, p: nat)
    requires p < |s|
    requires forall q, r :: 0 <= q < r < |s| ==> s[q] != s[r]
    ensures var t := Without(s, p); forall q, r :: 0 <= q < r < |t| ==> t[q] != t[r]
  {
    var t := Without(s, p);
    forall q, r | 0 <= q < r < |t| ensures t[q] != t[r] {
      WithoutAt(s, p, q);
      WithoutAt(s, p, r);
    }
  }

  lemma WithoutAt(s: seq<int>, p: nat, q: int)
    requires p < |s|
    ensures At(Without(s, p), q) == At(s, if q < p then q else q + 1)
  {
  }

  /** The links of any other node r after the unlinking of position p. */
  lemma UnlinkedAt(s: seq<int>, next: seq<int>, prev: seq<int>, p: nat, r: nat)
    requires |next| == |prev| && p < |s| && r < |s| && r != p
    requires forall q :: 0 <= q < |s| ==> 0 <= s[q] < |next|
    requires next[s[r]] == At(s, r + 1) && prev[s[r]] == At(s, r - 1)
    requires forall p, q :: 0 <= p < q < |s| ==> s[p] != s[q]
    ensures var before, after := At(s, p - 1), At(s, p + 1);
            var next' := if p == 0 then next else next[before := after];
            var prev' := if after == NIL then prev else prev[after := before];
            && next'[s[r]] == (if r == p - 1 then after else At(s, r + 1))
            && prev'[s[r]] == (if r == p + 1 then before else At(s, r - 1))
  {
    if p > 0 && r != p - 1 {
      assert s[r] != s[p - 1];
    }
    if p + 1 < |s| && r != p + 1 {
      assert s[r] != s[p + 1];
    }
  }

  /** The lists as a whole: every head spells out its own list and no node is on two. */
  ghost predicate Linked(lists: seq<seq<int>>, head: seq<int>, next: seq<int>, prev: seq<int>) {
    && |head| == |lists|
    && (forall k :: 0 <= k < |lists| ==> Chain(lists[k], head[k], next, prev))
    && NoneShared(lists)
  }

  ghost predicate NoneShared(lists: seq<seq<int>>) {
    forall k, l, i :: 0 <= k < |lists| && 0 <= l < |lists| && i in lists[k] && i in lists[l] ==> k == l
  }

  ghost predicate OnSome(lists: seq<seq<int>>, i: int) {
    exists k :: 0 <= k < |lists| && i in lists[k]
  }

  lemma LinkedPush(lists: seq<seq<int>>, head: seq<int>, next: seq<int>, prev: seq<int>, k: nat, i: nat,
                   head': seq<int>, next': seq<int>, prev': seq<int>)
    requires Linked(lists, head, next, prev)
    requires k < |lists| && i < |next| && !OnSome(lists, i)
    requires head[k] == NIL || 0 <= head[k] < |prev|
    requires next' == next[i := head[k]]
    requires |prev| == |next|
    requires prev' == if head[k] == NIL then prev[i := NIL] else prev[i := NIL][head[k] := i]
    requires head' == head[k := i]
    ensures Linked(lists[k := [i] + lists[k]], head', next', prev')
  {
    var lists' := lists[k := [i] + lists[k]];
    ChainPush(lists[k], head[k], next, prev, i);
    forall l | 0 <= l < |lists| ensures Chain(lists'[l], head'[l], next', prev') {
      if l != k {
        assert head[k] != NIL ==> head[k] in lists[k];
        ChainFrame(lists[l], head[l], next, prev, next', prev');
      }
    }
    NoneSharedPush(lists, k, i);
  }

  lemma NoneSharedPush(lists: seq<seq<int>>, k: nat, i: int)
    requires k < |lists| && NoneShared(lists) && !OnSome(lists, i)
    ensures NoneShared(lists[k := [i] + lists[k]])
  {
    var lists' := lists[k := [i] + lists[k]];
    forall l, m, j | 0 <= l < |lists| && 0 <= m < |lists| && j in lists'[l] && j in lists'[m] ensures l == m {
      assert j == i || (j in lists[l] && j in lists[m]);
    }
  }

  lemma LinkedUnlink(lists: seq<seq<int>>, head: seq<int>, next: seq<int>, prev: seq<int>, k: nat, p: nat,
                     head': seq<int>, next': seq<int>, prev': seq<int>)
    requires Linked(lists, head, next, prev)
    requires k < |lists| && p < |lists[k]| && |prev| == |next|
    requires At(lists[k], p + 1) == NIL || 0 <= At(lists[k], p + 1) < |next|
    requires p > 0 ==> 0 <= At(lists[k], p - 1) < |next|
    requires next' == if p == 0 then next else next[At(lists[k], p - 1) := At(lists[k], p + 1)]
    requires prev' == if At(lists[k], p + 1) == NIL then prev else prev[At(lists[k], p + 1) := At(lists[k], p - 1)]
    requires head' == if p == 0 then head[k := At(lists[k], 1)] else head
    ensures Linked(lists[k := Without(lists[k], p)], head', next', prev')
  {
    var lists' := lists[k := Without(lists[k], p)];
    ChainUnlink(lists[k], head[k], next, prev, p);
    forall l | 0 <= l < |lists| ensures Chain(lists'[l], head'[l], next', prev') {
      if l != k {
        assert p > 0 ==> lists[k][p - 1] in lists[k];
        assert p + 1 < |lists[k]| ==> lists[k][p + 1] in lists[k];
        ChainFrame(lists[l], head[l], next, prev, next', prev');
      }
    }
    NoneSharedLess(lists, k, Without(lists[k], p));
  }

  lemma NoneSharedLess(lists: seq<seq<int>>, k: nat, s: seq<int>)
    requires k < |lists| && NoneShared(lists)
    requires forall j :: j in s ==> j in lists[k]
    ensures NoneShared(lists[k := s])
  {
    var lists' := lists[k := s];
    forall l, m, j | 0 <= l < |lists| && 0 <= m < |lists| && j in lists'[l] && j in lists'[m] ensures l == m {
      assert j in lists[l] && j in lists[m];
    }
  }

  /** Replacing one list by one that lost at most x keeps every other node on some list. */
  lemma StillOn(lists: seq<seq<int>>, k: nat, s: seq<int>, x: int)
    requires k < |lists|
    requires forall i :: i in lists[k] && i != x ==> i in s
    ensures forall i :: OnSome(lists, i) && i != x ==> OnSome(lists[k := s], i)
  {
    var lists' := lists[k := s];
    forall i | OnSome(lists, i) && i != x ensures OnSome(lists', i) {
      var l :| 0 <= l < |lists| && i in lists[l];
      assert i in lists'[l];
    }
  }

  /** What taking a node out does to membership. */
  lemma WithoutMembers(s: seq<int>, p: nat)
    requires p < |s|
    requires forall q, r :: 0 <= q < r < |s| ==> s[q] != s[r]
    ensures forall j :: j in Without(s, p) <==> j in s && j != s[p]
  {
    forall j | j in s && j != s[p] ensures j in Without(s, p) {
      var q :| 0 <= q < |s| && s[q] == j;
      assert Without(s, p)[if q < p then q else q - 1] == j;
    }
    forall j | j in Without(s, p) ensures j in s && j != s[p] {
      var q :| 0 <= q < |s| - 1 && Without(s, p)[q] == j;
      assert s[if q < p then q else q + 1] == j;
    }
  }

  class Links {
    const nodes: nat
    const count: nat
    const next: array<int>
    const prev: array<int>
    const head: array<int>
    ghost var lists: seq<seq<int>>
    // Nodes taken off a list whose own links have not been reset yet.
    ghost var stale: set<int>

    ghost predicate Shape() {
      && next.Length == nodes && prev.Length == nodes && head.Length == count
      && next != prev && next != head && prev != head
    }

    ghost predicate Valid()
      reads this, next, prev, head
    {
      && Shape()
      && |lists| == count
      && Linked(lists, head[..], next[..], prev[..])
      && (forall i :: 0 <= i < nodes && i !in stale && !OnSome(lists, i) ==> next[i] == NIL && prev[i] == NIL)
    }

    constructor (nodes: nat, count: nat)
      ensures this.nodes == nodes && this.count == count
      ensures Shape()
      ensures fresh(next) && fresh(prev) && fresh(head)
    {
      this.nodes, this.count := nodes, count;
      next, prev, head := new int[nodes], new int[nodes], new int[count];
    }

    lemma HeadIsFirst(k: nat)
      requires Valid() && k < count
      ensures head[k] == At(lists[k], 0)
      ensures head[k] == NIL <==> lists[k] == []
    {
      assert Chain(lists[k], head[..][k], next[..], prev[..]);
    }

    lemma NextIs(k: nat, p: nat)
      requires Valid() && k < count && p < |lists[k]|
      ensures 0 <= lists[k][p] < nodes
      ensures next[lists[k][p]] == At(lists[k], p + 1)
    {
      assert Chain(lists[k], head[..][k], next[..], prev[..]);
      assert next[..][lists[k][p]] == At(lists[k], p + 1);
    }

    lemma NoneTwice(k: nat)
      requires Valid() && k < count
      ensures forall p, q :: 0 <= p < q < |lists[k]| ==> lists[k][p] != lists[k][q]
    {
      assert Chain(lists[k], head[..][k], next[..], prev[..]);
    }

    /** All heads and all links become null. */
    method Reset()
      requires Shape()
      modifies this, next, prev, head
      ensures Valid() && stale == {}
      ensures lists == seq(count, k => [])
    {
      for k := 0 to count
        invariant forall l :: 0 <= l < k ==> head[l] == NIL
      {
        head[k] := NIL;
      }
      for i := 0 to nodes
        invariant forall j :: 0 <= j < i ==> next[j] == NIL && prev[j] == NIL
        invariant forall l :: 0 <= l < count ==> head[l] == NIL
      {
        next[i], prev[i] := NIL, NIL;
      }
      lists, stale := seq(count, k => []), {};
    }

    method PushFront(k: nat, i: nat)
      requires Valid() && k < count && i < nodes && !OnSome(lists, i)
      modifies this, next, prev, head
      ensures Valid() && stale == old(stale) - {i}
      ensures lists == old(lists)[k := [i] + old(lists)[k]]
    {
      ghost var h, n, p := head[..], next[..], prev[..];
      var first := head[k];
      assert first == NIL || 0 <= first < nodes by { ChainPush(lists[k], h[k], n, p, i); }
      next[i] := first;
      prev[i] := NIL;
      if first != NIL {
        prev[first] := i;
      }
      head[k] := i;
      stale := stale - {i};
      lists := lists[k := [i] + lists[k]];
      LinkedPush(old(lists), h, n, p, k, i, head[..], next[..], prev[..]);
      StillOn(old(lists), k, [i] + old(lists)[k], NIL);
      assert i in lists[k];
    }

    /** The first node of a list leaves it; its own links are left as they were. */
    method PopFront(k: nat) returns (i: nat)
      requires Valid() && k < count && lists[k] != []
      modifies this, next, prev, head
      ensures i < nodes && i == old(lists)[k][0]
      ensures Valid() && stale == old(stale) + {i}
      ensures lists == old(lists)[k := Without(old(lists)[k], 0)]
    {
      ghost var h, n, p := head[..], next[..], prev[..];
      i := head[k];
      head[k] := next[i];
      if next[i] != NIL {
        prev[next[i]] := NIL;
      }
      stale := stale + {i};
      lists := lists[k := Without(lists[k], 0)];
      LinkedUnlink(old(lists), h, n, p, k, 0, head[..], next[..], prev[..]);
      WithoutMembers(old(lists)[k], 0);
      StillOn(old(lists), k, lists[k], i);
      assert p[i] == NIL;
    }

    /** A given node leaves its list, at the head or between its neighbours; its
        own links are left as they were. The branch for a node that is neither
        the head nor linked from behind cannot be taken. */
    method Unlink(k: nat, i: nat, ghost p: nat)
      requires Valid() && k < count && p < |lists[k]| && lists[k][p] == i
      requires i < nodes
      modifies this, next, prev, head
      ensures Valid() && stale == old(stale) + {i}
      ensures lists == old(lists)[k := Without(old(lists)[k], p)]
    {
      ghost var h, n, v := head[..], next[..], prev[..];
      assert n[i] == At(lists[k], p + 1) && v[i] == At(lists[k], p - 1);
      if head[k] == i {
        assert p == 0;
        head[k] := next[i];
        if next[i] != NIL {
          prev[next[i]] := NIL;
        }
      } else {
        if prev[i] != NIL {
          next[prev[i]] := next[i];
          if next[i] != NIL {
            prev[next[i]] := prev[i];
          }
        } else {
          assert false;
        }
      }
      stale := stale + {i};
      lists := lists[k := Without(lists[k], p)];
      LinkedUnlink(old(lists), h, n, v, k, p, head[..], next[..], prev[..]);
      WithoutMembers(old(lists)[k], p);
      StillOn(old(lists), k, lists[k], i);
    }

    /** Following the links from the head meets every node of the list once and
        then the null pointer. */
    method Count(k: nat) returns (n: nat)
      requires Valid() && k < count
      ensures n == |lists[k]|
    {
      n := 0;
      var curr := head[k];
      while curr != NIL
        invariant n <= |lists[k]| && curr == At(lists[k], n)
        decreases |lists[k]| - n
      {
        n := n + 1;
        curr := next[curr];
      }
    }

    /** A node that is on no list gets null links. */
    method Clear(i: nat)
      requires Valid() && i < nodes && !OnSome(lists, i)
      modifies this`stale, next, prev
      ensures Valid() && stale == old(stale) - {i} && lists == old(lists)
      ensures next[i] == NIL && prev[i] == NIL
    {
      ghost var n, v := next[..], prev[..];
      next[i], prev[i] := NIL, NIL;
      stale := stale - {i};
      forall k | 0 <= k < count ensures Chain(lists[k], head[k], next[..], prev[..]) {
        ChainFrame(lists[k], head[k], n, v, next[..], prev[..]);
      }
    }
  }
}
