/** The binary buddy system over an array of frame descriptors. */
module BuddySystem {
  import opened Dyadic
  import opened Blocks
  import opened Carving
  import opened IntrusiveLists
  import opened Integers
  import opened PageFrames
  import opened Slices

  const BELONGED := -1
  const ALLOCATED := -2
  const RESERVED := -3
  const UNINIT := -4

  /** The descriptors tell, frame by frame, what the ghost maps say; list k holds
      the free blocks of order k. The block at `hand` is being worked on: it counts
      as live although its descriptor does not say so. */
  ghost predicate Coupled(status: seq<int>, order: seq<int>, lists: seq<seq<int>>,
                          live: Blocks, free: Blocks, reserved: set<int>, hand: int)
    requires |status| == |order|
  {
    && (forall i :: 0 <= i < |status| && i in free ==> status[i] == free[i])
    && (forall i :: 0 <= i < |status| && i in live && i != hand ==> status[i] == ALLOCATED && order[i] == live[i])
    && (forall i :: 0 <= i < |status| && i !in free && i !in live ==>
          status[i] == if i in reserved then RESERVED else BELONGED)
    && (forall k, i :: 0 <= k < |lists| ==> (i in lists[k] <==> i in free && free[i] == k))
  }

  ghost function Drawing(free: Blocks, reserved: set<int>, f: int): int {
    if f in free then free[f]
    else if f in reserved then RESERVED
    else if Covers(free, f) then BELONGED
    else UNINIT
  }

  /** The descriptors while free blocks are still being carved out. */
  ghost predicate Drawn(status: seq<int>, lists: seq<seq<int>>, free: Blocks, reserved: set<int>) {
    && (forall f :: 0 <= f < |status| ==> status[f] == Drawing(free, reserved, f))
    && (forall k, i :: 0 <= k < |lists| ==> (i in lists[k] <==> i in free && free[i] == k))
  }

  lemma DrawnPlace(status: seq<int>, status': seq<int>, lists: seq<seq<int>>, free: Blocks, reserved: set<int>,
      i: nat, k: nat)
    requires Drawn(status, lists, free, reserved) && i !in free && k < |lists|
    requires |status'| == |status|
    requires forall f :: 0 <= f < |status| ==>
      status'[f] == if f == i then k else if In(f, i, k) then BELONGED else status[f]
    requires forall f :: In(f, i, k) ==> f !in free && f !in reserved
    ensures Drawn(status', lists[k := [i] + lists[k]], free[i := k], reserved)
  {
    CoversAfter(free, k, i);
  }

  /** An uninitialised descriptor is one of a frame that nothing has claimed. */
  lemma UninitIsUncut(status: seq<int>, lists: seq<seq<int>>, free: Blocks, reserved: set<int>)
    requires Drawn(status, lists, free, reserved)
    requires forall i :: i in free ==> 0 <= i && In(i, i, free[i])
    ensures forall f :: 0 <= f < |status| ==> (status[f] == UNINIT <==> f in FreeFrames(|status|, reserved, free))
  {
    forall f | 0 <= f < |status| ensures status[f] == UNINIT <==> f in FreeFrames(|status|, reserved, free) {
      if f in free {
        assert In(f, f, free[f]);
      }
    }
  }

  lemma DrawnEnd(status: seq<int>, order: seq<int>, lists: seq<seq<int>>, free: Blocks, reserved: set<int>)
    requires Drawn(status, lists, free, reserved) && |order| == |status|
    requires Exhausts(|status|, reserved, free)
    ensures Coupled(status, order, lists, map[], free, reserved, NIL)
  {
  }

  /** A new free block h of order k, while the block in hand changes its order. */
  lemma CoupledSplit(status: seq<int>, order: seq<int>, lists: seq<seq<int>>,
                     live: Blocks, free: Blocks, reserved: set<int>, hand: int, h: nat, k: nat)
    requires |status| == |order| && h < |status| && k < |lists|
    requires Coupled(status, order, lists, live, free, reserved, hand)
    requires hand in live && h !in live && h !in free
    ensures Coupled(status[h := k], order, lists[k := [h] + lists[k]], live[hand := k], free[h := k], reserved, hand)
  {
  }

  /** A free block moves from the front of its list into the hand. */
  lemma CoupledTake(status: seq<int>, order: seq<int>, lists: seq<seq<int>>,
                    live: Blocks, free: Blocks, reserved: set<int>, k: nat)
    requires |status| == |order| && k < |lists| && lists[k] != []
    requires Coupled(status, order, lists, live, free, reserved, NIL)
    requires NIL !in live
    requires forall i :: i in Without(lists[k], 0) <==> i in lists[k] && i != lists[k][0]
    ensures var r := lists[k][0];
            Coupled(status, order, lists[k := Without(lists[k], 0)], live[r := k], free - {r}, reserved, r)
  {
  }

  /** The descriptor of the block in hand is filled in. */
  lemma CoupledMark(status: seq<int>, order: seq<int>, lists: seq<seq<int>>,
                    live: Blocks, free: Blocks, reserved: set<int>, hand: nat, k: nat)
    requires |status| == |order| && hand < |status|
    requires Coupled(status, order, lists, live, free, reserved, hand)
    requires hand in live && live[hand] == k && hand !in free && NIL !in live
    ensures Coupled(status[hand := ALLOCATED], order[hand := k], lists, live, free, reserved, NIL)
  {
  }

  /** An aligned free run lies in a block of some list of at least its order. */
  lemma RunListed(total: nat, maxOrder: nat, status: seq<int>, order: seq<int>, lists: seq<seq<int>>,
                  live: Blocks, free: Blocks, reserved: set<int>, hand: int, i: nat, k: nat) returns (j: int, m: nat)
    requires |status| == |order| && |lists| == maxOrder + 1
    requires Coupled(status, order, lists, live, free, reserved, hand)
    requires Canonical(total, maxOrder, reserved, live, free)
    requires k <= maxOrder && FreeRun(FreeFrames(total, reserved, live), i, k)
    ensures k <= m <= maxOrder && j in lists[m]
  {
    j := RunInOneBlock(total, maxOrder, reserved, live, free, i, k);
    m := free[j];
    assert (live + free)[j] == m;
    assert Fits(total, maxOrder, j, m);
  }

  /** The front of a listed block is a free run of any smaller order. */
  lemma BlockFront(total: nat, maxOrder: nat, live: Blocks, free: Blocks, reserved: set<int>, i: int, k: nat)
    requires Canonical(total, maxOrder, reserved, live, free)
    requires i in free && k <= free[i]
    ensures FreeRun(FreeFrames(total, reserved, live), i, k)
  {
    assert (live + free)[i] == free[i];
    assert Fits(total, maxOrder, i, free[i]);
    FreeFramesAreCovered(total, maxOrder, reserved, live, free);
    AlignedLess(i, k, free[i]);
    Pow2Grows(k, free[i]);
    assert forall f :: In(f, i, k) ==> In(f, i, free[i]);
  }

  /** The block in hand absorbs a free block; the higher of the two heads is no head any more. */
  lemma CoupledMerge(status: seq<int>, order: seq<int>, lists: seq<seq<int>>, live: Blocks, free: Blocks,
                     reserved: set<int>, hand: nat, buddy: nat, lo: nat, hi: nat, k: nat, rest: seq<int>)
    requires |status| == |order| && hand < |status| && buddy < |status| && k < |lists|
    requires Coupled(status, order, lists, live, free, reserved, hand)
    requires hand in live && hand !in free && buddy in free && free[buddy] == k && live.Keys !! free.Keys
    requires (lo == hand && hi == buddy) || (lo == buddy && hi == hand)
    requires hi !in reserved
    requires forall i :: i in rest <==> i in lists[k] && i != buddy
    ensures Coupled(status[hi := BELONGED], order[hi := -1], lists[k := rest],
                    (live - {hand})[lo := k + 1], free - {buddy}, reserved, lo)
  {
  }

  /** The block in hand becomes a free block at the front of its list. */
  lemma CoupledRelease(status: seq<int>, order: seq<int>, lists: seq<seq<int>>, live: Blocks, free: Blocks,
                       reserved: set<int>, hand: nat, k: nat)
    requires |status| == |order| && hand < |status| && k < |lists|
    requires Coupled(status, order, lists, live, free, reserved, hand)
    requires hand in live && hand !in free && NIL !in live
    ensures Coupled(status[hand := k], order, lists[k := [hand] + lists[k]],
                    live - {hand}, free[hand := k], reserved, NIL)
  {
  }

  lemma OnlyFreeListed(status: seq<int>, order: seq<int>, lists: seq<seq<int>>, live: Blocks, free: Blocks,
                       reserved: set<int>, hand: int, i: int)
    requires |status| == |order|
    requires Coupled(status, order, lists, live, free, reserved, hand)
    ensures OnSome(lists, i) ==> i in free
    ensures forall k :: 0 <= k < |lists| ==> (i in lists[k] <==> i in free && free[i] == k)
  {
  }

  /** The status of a frame other than the one in hand is an order exactly if a
      free block of that order starts there. */
  lemma StatusIsOrder(status: seq<int>, order: seq<int>, lists: seq<seq<int>>, live: Blocks, free: Blocks,
                      reserved: set<int>, hand: int, i: nat, k: nat)
    requires |status| == |order| && k < |lists|
    requires Coupled(status, order, lists, live, free, reserved, hand)
    requires forall j :: j in free ==> j < |status|
    requires i != hand
    ensures i < |status| && status[i] == k <==> i in free && free[i] == k
    ensures i in free && free[i] == k <==> i in lists[k]
  {
  }

  ghost predicate FirstFit(lists: seq<seq<int>>, order: nat, k: nat) {
    order <= k < |lists| && lists[k] != [] && forall j :: order <= j < k ==> lists[j] == []
  }

  /** Taking the one occurrence of x out of a list. */
  function Drop(s: seq<int>, x: int): seq<int> {
    if s == [] then [] else if s[0] == x then s[1..] else [s[0]] + Drop(s[1..], x)
  }

  lemma {:induction false} DropIsWithout(s: seq<int>, p: nat)
    requires p < |s|
    requires forall q, r :: 0 <= q < r < |s| ==> s[q] != s[r]
    ensures Drop(s, s[p]) == Without(s, p)
  {
    if p == 0 {
    } else {
      DropIsWithout(s[1..], p - 1);
      assert s[p] == s[1..][p - 1];
      assert Without(s, p) == [s[0]] + Without(s[1..], p - 1);
    }
  }

  /** The lists after the first block of list k was taken and split down to the
      given order: each upper half heads the list of its order. */
  function SplitLists(lists: seq<seq<int>>, k: nat, order: nat): seq<seq<int>>
    requires order <= k < |lists| && lists[k] != []
  {
    seq(|lists|, j requires 0 <= j < |lists| =>
      if j == k then lists[k][1..]
      else if order <= j < k then [lists[k][0] + Pow2(j)] + lists[j]
      else lists[j])
  }

  /** The lists after block i of order k was given back: it keeps absorbing its
      buddy as long as that is free, and what results heads the list of its order. */
  function MergeLists(lists: seq<seq<int>>, i: nat, k: nat): seq<seq<int>>
    requires k < |lists|
    decreases |lists| - k
  {
    if k + 1 < |lists| && Buddy(i, k) in lists[k]
    then MergeLists(lists[k := Drop(lists[k], Buddy(i, k))], Parent(i, k), k + 1)
    else lists[k := [i] + lists[k]]
  }

  class Buddies {
    const total: nat
    const maxOrder: nat
    const status: array<int>
    const allocatedOrder: array<int>
    const links: Links
    ghost var live: Blocks
    ghost var free: Blocks
    ghost var reserved: set<int>

    ghost function Repr(): set<object> {
      {this, status, allocatedOrder, links, links.next, links.prev, links.head}
    }

    ghost predicate Shape() {
      && status.Length == total && allocatedOrder.Length == total
      && links.nodes == total && links.count == maxOrder + 1 && links.Shape()
      && status != allocatedOrder
      && status !in {links.next, links.prev, links.head}
      && allocatedOrder !in {links.next, links.prev, links.head}
    }

    ghost predicate Holding(hand: int)
      reads Repr()
    {
      && Shape()
      && links.Valid()
      && links.stale <= {hand}
      && Coupled(status[..], allocatedOrder[..], links.lists, live, free, reserved, hand)
      && Canonical(total, maxOrder, reserved, live, free)
    }

    ghost predicate Valid()
      reads Repr()
    {
      Holding(NIL) && links.stale == {}
    }

    /** The descriptors as boot code first sets them up; no frame is managed yet. */
    constructor (total: nat, maxOrder: nat)
      ensures this.total == total && this.maxOrder == maxOrder
      ensures Shape() && fresh(Repr())
      ensures forall i :: 0 <= i < total ==> status[i] == UNINIT
    {
      this.total, this.maxOrder := total, maxOrder;
      status := new int[total](i => UNINIT);
      allocatedOrder := new int[total];
      links := new Links(total, maxOrder + 1);
      live, free, reserved := map[], map[], {};
    }

    ghost function Unused(): set<int>
      reads this
    {
      FreeFrames(total, reserved, live)
    }

    lemma InRange(r: int)
      requires Canonical(total, maxOrder, reserved, live, free)
      requires r in live || r in free
      ensures r in live ==> Fits(total, maxOrder, r, live[r])
      ensures r in free ==> Fits(total, maxOrder, r, free[r])
    {
      ghost var b := live + free;
      assert r in live ==> b[r] == live[r];
      assert r in free ==> b[r] == free[r];
    }

    lemma IsCanonical()
      requires Valid()
      ensures Canonical(total, maxOrder, reserved, live, free)
    {
    }

    lemma NoBlockAtNil()
      requires Canonical(total, maxOrder, reserved, live, free)
      ensures NIL !in live && NIL !in free && live.Keys !! free.Keys
    {
      assert NIL in live ==> NIL in live + free;
    }

    /** Splits the block in hand, of order k, until it has the given order. */
    method SplitDown(r: nat, k: nat, order: nat)
      requires Holding(r) && r in live && live[r] == k && order <= k
      modifies Repr()
      ensures Holding(r) && reserved == old(reserved)
      ensures live == old(live)[r := order]
      ensures forall j :: order <= j < k ==> links.lists[j] == [r + Pow2(j)] + old(links.lists[j])
      ensures forall j :: 0 <= j <= maxOrder && !(order <= j < k) ==> links.lists[j] == old(links.lists[j])
    {
      hide Canonical, Linked, Coupled;
      InRange(r);
      var cur := k;
      while cur > order
        invariant order <= cur <= k
        invariant Holding(r) && reserved == old(reserved)
        invariant live == old(live)[r := cur]
        invariant forall j :: cur <= j < k ==> links.lists[j] == [r + Pow2(j)] + old(links.lists[j])
        invariant forall j :: 0 <= j <= maxOrder && !(cur <= j < k) ==> links.lists[j] == old(links.lists[j])
      {
        cur := cur - 1;
        SplitOnce(r, cur);
      }
    }

    /** One split: the upper half of the block in hand goes to the list of order k. */
    method SplitOnce(r: nat, k: nat)
      requires Holding(r) && r in live && live[r] == k + 1
      modifies Repr()
      ensures Holding(r) && reserved == old(reserved)
      ensures live == old(live)[r := k]
      ensures links.lists == old(links.lists)[k := [r + Pow2(k)] + old(links.lists)[k]]
    {
      hide Canonical, Linked, Coupled;
      InRange(r);
      SplitKeepsCanonical(total, maxOrder, reserved, live, free, r, k);
      var buddy := Buddy(r, k);
      if buddy < r {
        assert false;
      }
      ghost var st, ord, lists := status[..], allocatedOrder[..], links.lists;
      CoupledSplit(st, ord, lists, live, free, reserved, r, buddy, k);
      OnlyFreeListed(st, ord, lists, live, free, reserved, r, buddy);
      status[buddy] := k;
      links.PushFront(k, buddy);
      live, free := live[r := k], free[buddy := k];
      assert status[..] == st[buddy := k];
      assert allocatedOrder[..] == ord;
    }

    lemma TakenRun(k: nat, order: nat)
      requires Valid() && order <= k <= maxOrder && links.lists[k] != []
      ensures links.lists[k][0] >= 0 && FreeRun(Unused(), links.lists[k][0], order)
    {
      assert links.lists[k][0] in links.lists[k];
      BlockFront(total, maxOrder, live, free, reserved, links.lists[k][0], order);
    }

    method TakeFirst(k: nat) returns (r: int)
      requires Valid() && k <= maxOrder && links.lists[k] != []
      modifies Repr()
      ensures r == old(links.lists)[k][0] && old(r in free && free[r] == k)
      ensures Holding(r) && reserved == old(reserved)
      ensures live == old(live)[r := k]
      ensures links.lists == old(links.lists)[k := Without(old(links.lists)[k], 0)]
    {
      hide Canonical;
      ghost var st, ord, lists := status[..], allocatedOrder[..], links.lists;
      assert lists[k][0] in lists[k];
      InRange(lists[k][0]);
      NoBlockAtNil();
      WithoutMembers(lists[k], 0);
      CoupledTake(st, ord, lists, live, free, reserved, k);
      TakeKeepsCanonical(total, maxOrder, reserved, live, free, lists[k][0]);
      r := links.PopFront(k);
      live, free := live[r := k], free - {r};
      assert status[..] == st && allocatedOrder[..] == ord;
    }

    method MarkAllocated(r: nat, order: nat)
      requires Holding(r) && r in live && live[r] == order
      modifies Repr()
      ensures Valid() && reserved == old(reserved) && live == old(live)
      ensures links.lists == old(links.lists)
    {
      hide Canonical, Linked, Coupled;
      InRange(r);
      NoBlockAtNil();
      ghost var st, ord, lists := status[..], allocatedOrder[..], links.lists;
      CoupledMark(st, ord, lists, live, free, reserved, r, order);
      OnlyFreeListed(st, ord, lists, live, free, reserved, r, r);
      status[r] := ALLOCATED;
      links.Clear(r);
      allocatedOrder[r] := order;
      assert status[..] == st[r := ALLOCATED];
      assert allocatedOrder[..] == ord[r := order];
    }

    /** First fit: the first block of the first non-empty list from `order` up, cut
        down to size. It fails exactly when no aligned run of that many free frames
        is left. */
    method Allocate(order: nat) returns (r: int)
      requires Valid()
      modifies Repr()
      ensures Valid() && reserved == old(reserved)
      ensures r == -1 <==> order > maxOrder || forall i :: !FreeRun(old(Unused()), i, order)
      ensures r == -1 ==> live == old(live) && links.lists == old(links.lists)
      ensures r != -1 ==> FreeRun(old(Unused()), r, order) && live == old(live)[r := order]
      ensures r != -1 ==> exists k: nat :: (FirstFit(old(links.lists), order, k)
                && r == old(links.lists)[k][0] && links.lists == SplitLists(old(links.lists), k, order))
    {
      hide Canonical, Linked, Coupled;
      if order > maxOrder {
        return -1;
      }
      var i := order;
      while i <= maxOrder
        invariant order <= i <= maxOrder + 1
        invariant Valid() && reserved == old(reserved) && live == old(live) && links.lists == old(links.lists)
        invariant forall j :: order <= j < i ==> links.lists[j] == []
      {
        links.HeadIsFirst(i);
        if links.head[i] != NIL {
          TakenRun(i, order);
          assert Unused() == old(Unused());
          r := TakeFirst(i);
          SplitDown(r, i, order);
          MarkAllocated(r, order);
          assert FirstFit(old(links.lists), order, i);
          assert Without(old(links.lists)[i], 0) == old(links.lists)[i][1..];
          assert links.lists == SplitLists(old(links.lists), i, order);
          return;
        }
        i := i + 1;
      }
      NoRunLeft(order);
      assert Unused() == old(Unused());
      return -1;
    }

    lemma NoRunLeft(order: nat)
      requires Valid() && order <= maxOrder
      requires forall j :: order <= j <= maxOrder ==> links.lists[j] == []
      ensures forall i :: !FreeRun(Unused(), i, order)
    {
      hide Canonical, Linked, Coupled;
      if i :| FreeRun(Unused(), i, order) {
        var j, m :=
          RunListed(total, maxOrder, status[..], allocatedOrder[..], links.lists, live, free, reserved, NIL, i, order);
      }
    }

    /** The block in hand, of order k, absorbs its free buddy. */
    method MergeOnce(block: nat, k: nat, buddy: nat) returns (lo: nat)
      requires Holding(block) && block in live && live[block] == k && k < maxOrder
      requires buddy == Buddy(block, k) && buddy in links.lists[k]
      modifies Repr()
      ensures lo == Parent(block, k)
      ensures Holding(lo) && reserved == old(reserved)
      ensures live == (old(live) - {block})[lo := k + 1] && (lo == block || lo !in old(live))
      ensures links.lists == old(links.lists)[k := Drop(old(links.lists)[k], buddy)]
    {
      hide Canonical, Linked, Coupled;
      var hi;
      if buddy < block {
        lo, hi := buddy, block;
      } else {
        lo, hi := block, buddy;
      }
      ghost var st, ord, lists := status[..], allocatedOrder[..], links.lists;
      ghost var p := MergeFacts(block, k, buddy, lo, hi);
      ghost var live', free' := (live - {block})[lo := k + 1], free - {buddy};
      links.Unlink(k, buddy, p);
      OnlyFreeListed(st[hi := BELONGED], ord[hi := -1], links.lists, live', free', reserved, lo, hi);
      status[hi] := BELONGED;
      links.Clear(hi);
      allocatedOrder[hi] := -1;
      live, free := live', free';
      assert status[..] == st[hi := BELONGED] && allocatedOrder[..] == ord[hi := -1];
    }

    /** Everything a merge needs to know beforehand; the buddy is at position p of list k. */
    lemma MergeFacts(block: nat, k: nat, buddy: nat, lo: nat, hi: nat) returns (p: nat)
      requires Holding(block) && block in live && live[block] == k && k < maxOrder
      requires buddy == Buddy(block, k) && buddy in links.lists[k]
      requires (buddy < block && lo == buddy && hi == block) || (buddy >= block && lo == block && hi == buddy)
      ensures p < |links.lists[k]| && links.lists[k][p] == buddy
      ensures Without(links.lists[k], p) == Drop(links.lists[k], buddy)
      ensures lo < total && hi < total && hi != lo && (lo == block || lo !in live) && hi !in free - {buddy}
      ensures var live', free' := (live - {block})[lo := k + 1], free - {buddy};
              && Canonical(total, maxOrder, reserved, live', free')
              && Coupled(status[..][hi := BELONGED], allocatedOrder[..][hi := -1],
                         links.lists[k := Without(links.lists[k], p)], live', free', reserved, lo)
    {
      hide Canonical, Linked, Coupled;
      var st, ord, lists := status[..], allocatedOrder[..], links.lists;
      OnlyFreeListed(st, ord, lists, live, free, reserved, block, buddy);
      p :| p < |lists[k]| && lists[k][p] == buddy;
      InRange(block);
      InRange(buddy);
      BuddyCases(block, k);
      NoBlockAtNil();
      links.NoneTwice(k);
      WithoutMembers(lists[k], p);
      DropIsWithout(lists[k], p);
      MergeKeepsCanonical(total, maxOrder, reserved, live, free, block, k);
      NotReserved(hi);
      CoupledMerge(st, ord, lists, live, free, reserved, block, buddy, lo, hi, k, Without(lists[k], p));
    }

    lemma NotReserved(i: int)
      requires Canonical(total, maxOrder, reserved, live, free)
      requires i in live || i in free
      ensures i !in reserved
    {
      ghost var b := live + free;
      assert i in b && In(i, i, b[i]);
    }

    method ReleaseHand(block: nat, k: nat)
      requires Holding(block) && block in live && live[block] == k
      requires k < maxOrder ==> Buddy(block, k) !in links.lists[k]
      modifies Repr()
      ensures Valid() && reserved == old(reserved) && live == old(live) - {block}
      ensures links.lists == old(links.lists)[k := [block] + old(links.lists)[k]]
    {
      hide Canonical, Linked, Coupled;
      ghost var st, ord, lists := status[..], allocatedOrder[..], links.lists;
      InRange(block);
      NoBlockAtNil();
      OnlyFreeListed(st, ord, lists, live, free, reserved, block, Buddy(block, k));
      ReleaseKeepsCanonical(total, maxOrder, reserved, live, free, block);
      CoupledRelease(st, ord, lists, live, free, reserved, block, k);
      OnlyFreeListed(st, ord, lists, live, free, reserved, block, block);
      status[block] := k;
      links.PushFront(k, block);
      live, free := live - {block}, free[block := k];
      assert status[..] == st[block := k] && allocatedOrder[..] == ord;
    }

    /** Gives the block that starts at frame i back. A frame that is not the head of
        a live block is refused and nothing changes. */
    method Free(i: nat)
      requires Valid() && i < total
      modifies Repr()
      ensures Valid() && reserved == old(reserved)
      ensures i in old(live) ==> live == old(live) - {i} && old(live)[i] <= maxOrder
      ensures i in old(live) && old(live)[i] <= maxOrder ==>
        links.lists == MergeLists(old(links.lists), i, old(live)[i])
      ensures i !in old(live) ==> live == old(live) && links.lists == old(links.lists)
      ensures i !in old(live) ==> unchanged(status, allocatedOrder, links, links.next, links.prev, links.head)
    {
      hide Canonical, Linked, Coupled;
      NoBlockAtNil();
      LiveIsAllocated(i);
      if status[i] != ALLOCATED {
        return;
      }
      InRange(i);
      var order := allocatedOrder[i];
      TakeInHand(i, order);
      var block := i;
      var buddy := Buddy(block, order);
      AfterStatusOf(block, order, buddy);
      while order < maxOrder && buddy < total && status[buddy] == order
        invariant 0 <= order <= maxOrder && buddy == Buddy(block, order)
        invariant Holding(block) && reserved == old(reserved)
        invariant block in live && live[block] == order
        invariant live - {block} == old(live) - {i}
        invariant buddy < total && status[buddy] == order <==> buddy in links.lists[order]
        invariant MergeLists(links.lists, block, order) == MergeLists(old(links.lists), i, old(live)[i])
        decreases maxOrder - order
      {
        block := MergeOnce(block, order, buddy);
        order := order + 1;
        buddy := Buddy(block, order);
        AfterStatusOf(block, order, buddy);
      }
      ReleaseHand(block, order);
    }

    lemma LiveIsAllocated(i: nat)
      requires Valid() && i < total
      ensures status[i] == ALLOCATED <==> i in live
      ensures i in live ==> allocatedOrder[i] == live[i]
    {
      NoBlockAtNil();
    }

    lemma AfterStatusOf(block: nat, order: nat, buddy: nat)
      requires Holding(block) && order <= maxOrder && block in live && live[block] == order
      requires buddy == Buddy(block, order)
      ensures buddy < total && status[buddy] == order <==> buddy in links.lists[order]
    {
      hide Canonical, Linked, Coupled;
      InRange(block);
      BuddyCases(block, order);
      forall j | j in free ensures j < total {
        InRange(j);
      }
      StatusIsOrder(status[..], allocatedOrder[..], links.lists, live, free, reserved, block, buddy, order);
    }

    /** The first write of a release: the head gets its order back as status. */
    method TakeInHand(i: nat, order: nat)
      requires Valid() && i in live && live[i] == order && i < total
      modifies status
      ensures Holding(i)
    {
      hide Canonical, Linked;
      ghost var st := status[..];
      status[i] := order;
      assert status[..] == st[i := order];
    }

    ghost predicate CarvingAt(k: nat, at: nat, before: set<int>)
      reads Repr()
    {
      && Shape() && links.Valid() && links.stale == {} && live == map[]
      && Drawn(status[..], links.lists, free, reserved)
      && Carved(total, maxOrder, reserved, free, k, at, before)
    }

    /** Marks every frame of an address range as reserved. */
    method Reserve(begin: nat, end: nat)
      requires Shape() && begin < WORD && end < WORD
      modifies status
      ensures forall f :: 0 <= f < total ==>
        status[f] == if Reserves(begin, end, f) then RESERVED else old(status[f])
    {
      var first := ToInt(AddressToIndex(begin));
      var last := ToInt(AddressToIndex((end + FRAME_SIZE - 1) % WORD));
      var i := first;
      while i < last
        invariant forall f :: 0 <= f < total ==>
          status[f] == if first <= f < last && f < i then RESERVED else old(status[f])
      {
        if i >= 0 && i < total {
          status[i] := RESERVED;
        }
        i := i + 1;
      }
    }

    /** Boot: whatever is not marked reserved is carved into free blocks, largest
        orders first. */
    method Init()
      requires Shape()
      modifies Repr()
      ensures Valid() && live == map[]
      ensures reserved == set f | 0 <= f < total && old(status[f]) == RESERVED
    {
      hide Carved, Linked, Canonical;
      links.Reset();
      for i := 0 to total
        invariant links.Valid() && links.stale == {} && links.lists == seq(maxOrder + 1, k => [])
        invariant forall j :: 0 <= j < i ==> status[j] == if old(status[j]) == RESERVED then RESERVED else UNINIT
        invariant forall j :: i <= j < total ==> status[j] == old(status[j])
      {
        if status[i] != RESERVED {
          status[i] := UNINIT;
        }
        allocatedOrder[i] := -1;
      }
      live, free := map[], map[];
      reserved := set f | 0 <= f < total && status[f] == RESERVED;
      ghost var uncut := FreeFrames(total, reserved, free);
      CarveBegin(total, maxOrder, reserved);
      var k := maxOrder;
      while k > 0
        invariant 0 <= k <= maxOrder && reserved == old(set f | 0 <= f < total && status[f] == RESERVED)
        invariant CarvingAt(k, 0, uncut)
      {
        var at := CarvePass(k, uncut);
        CarveNextOrder(total, maxOrder, reserved, free, k, at, uncut);
        uncut := FreeFrames(total, reserved, free);
        k := k - 1;
      }
      var at := CarvePass(0, uncut);
      CarveEnd(total, maxOrder, reserved, free, at, uncut);
      ExhaustsAtEnd();
      DrawnEnd(status[..], allocatedOrder[..], links.lists, free, reserved);
    }

    lemma ExhaustsAtEnd()
      requires Canonical(total, maxOrder, reserved, map[], free)
      ensures Exhausts(total, reserved, free)
    {
      assert map[] + free == free;
    }

    /** One pass over all aligned runs of order k. */
    method CarvePass(k: nat, ghost before: set<int>) returns (at: nat)
      requires CarvingAt(k, 0, before)
      modifies Repr()
      ensures CarvingAt(k, at, before) && total <= at && reserved == old(reserved)
    {
      hide Carved, Drawn, Linked;
      at := 0;
      AlignedZero(k);
      while at < total
        invariant Aligned(at, k) && reserved == old(reserved)
        invariant CarvingAt(k, at, before)
        decreases total - at
      {
        var whole := WholeRun(at, k, before);
        if whole {
          CarvePlace(total, maxOrder, reserved, free, k, at, before);
          PlaceBlock(at, k, before);
        } else {
          CarveSkip(total, maxOrder, reserved, free, k, at, before);
        }
        AlignedNext(at, k);
        at := at + Pow2(k);
      }
    }

    /** Whether the run at `at` is inside the managed range and all of it uninitialised. */
    method WholeRun(at: nat, k: nat, ghost before: set<int>) returns (whole: bool)
      requires CarvingAt(k, at, before) && Aligned(at, k) && at < total
      ensures whole <==> FreeRun(FreeFrames(total, reserved, free), at, k)
    {
      UncutStatus(k, at, before);
      hide Carved, Drawn, Linked;
      ghost var uncut := FreeFrames(total, reserved, free);
      assert In(at, at, k) && In(at + Pow2(k) - 1, at, k);
      if status[at] != UNINIT {
        return false;
      }
      if at + Pow2(k) > total {
        return false;
      }
      var j := 0;
      while j < Pow2(k)
        invariant 0 <= j <= Pow2(k)
        invariant forall f :: at <= f < at + j ==> f in uncut
      {
        if status[at + j] != UNINIT {
          assert In(at + j, at, k) && at + j !in uncut;
          return false;
        }
        j := j + 1;
      }
      return true;
    }

    lemma UncutStatus(k: nat, at: nat, before: set<int>)
      requires CarvingAt(k, at, before)
      ensures forall f :: 0 <= f < total ==> (status[f] == UNINIT <==> f in FreeFrames(total, reserved, free))
    {
      forall i | i in free ensures 0 <= i && In(i, i, free[i]) {
        assert Fits(total, maxOrder, i, free[i]);
      }
      UninitIsUncut(status[..], links.lists, free, reserved);
    }

    lemma UncutRun(at: nat, k: nat, before: set<int>)
      requires CarvingAt(k, at, before) && FreeRun(FreeFrames(total, reserved, free), at, k)
      ensures k <= maxOrder && at + Pow2(k) <= total && !OnSome(links.lists, at)
      ensures forall f :: In(f, at, k) ==> f !in free && f !in reserved
    {
      UncutStatus(k, at, before);
      assert In(at, at, k) && In(at + Pow2(k) - 1, at, k);
    }

    method MarkBelonged(at: nat, k: nat)
      requires at + Pow2(k) <= status.Length
      modifies status
      ensures forall f :: 0 <= f < status.Length ==>
        status[f] == if at < f < at + Pow2(k) then BELONGED else old(status[f])
    {
      var j := 1;
      while j < Pow2(k)
        invariant 1 <= j <= Pow2(k)
        invariant forall f :: 0 <= f < status.Length ==>
          status[f] == if at < f < at + j then BELONGED else old(status[f])
      {
        status[at + j] := BELONGED;
        j := j + 1;
      }
    }

    method PlaceBlock(at: nat, k: nat, ghost before: set<int>)
      requires CarvingAt(k, at, before) && FreeRun(FreeFrames(total, reserved, free), at, k)
      requires Carved(total, maxOrder, reserved, free[at := k], k, at + Pow2(k), before)
      modifies Repr()
      ensures CarvingAt(k, at + Pow2(k), before) && reserved == old(reserved)
    {
      hide Carved, Drawn, Linked;
      UncutRun(at, k, before);
      ghost var st, lists := status[..], links.lists;
      status[at] := k;
      links.PushFront(k, at);
      MarkBelonged(at, k);
      DrawnPlace(st, status[..], lists, free, reserved, at, k);
      free := free[at := k];
    }
  }
}
