/** Boot-time carving: which blocks have been cut from the unreserved frames so
    far, and why cutting from the highest order down ends in canonical form. */
module Carving {
  import opened Dyadic
  import opened Blocks

  ghost predicate NoRun(frames: set<int>, k: nat) {
    forall i :: !FreeRun(frames, i, k)
  }

  /** The pass for order k has reached frame `at`; `before` are the frames that were
      still uncut when this pass began. */
  ghost predicate Carved(total: nat, maxOrder: nat, reserved: set<int>, free: Blocks, k: nat, at: nat,
      before: set<int>) {
    && k <= maxOrder
    && (forall i :: i in free ==> Fits(total, maxOrder, i, free[i]) && k <= free[i])
    && Apart(free) && Avoids(reserved, free) && NoBuddies(maxOrder, free)
    && (forall i :: i in free && free[i] == k ==> FreeRun(before, i, k))
    && (k < maxOrder ==> NoRun(before, k + 1))
    && FreeFrames(total, reserved, free) <= before
    && (forall j :: 0 <= j < at ==> !FreeRun(FreeFrames(total, reserved, free), j, k))
  }

  lemma CarveBegin(total: nat, maxOrder: nat, reserved: set<int>)
    ensures Carved(total, maxOrder, reserved, map[], maxOrder, 0, FreeFrames(total, reserved, map[]))
  {
  }

  /** No uncut run of this order is left, so the pass for the next lower order can begin. */
  lemma CarveNextOrder(total: nat, maxOrder: nat, reserved: set<int>, free: Blocks, k: nat, at: nat, before: set<int>)
    requires Carved(total, maxOrder, reserved, free, k, at, before) && total <= at && k > 0
    ensures Carved(total, maxOrder, reserved, free, k - 1, 0, FreeFrames(total, reserved, free))
  {
    NoRunBeyond(total, reserved, free, k, at);
  }

  lemma NoRunBeyond(total: nat, reserved: set<int>, free: Blocks, k: nat, at: nat)
    requires total <= at
    ensures forall j :: at <= j ==> !FreeRun(FreeFrames(total, reserved, free), j, k)
  {
    forall j | at <= j ensures !FreeRun(FreeFrames(total, reserved, free), j, k) {
      assert In(j, j, k) && j !in FreeFrames(total, reserved, free);
    }
  }

  lemma CarveSkip(total: nat, maxOrder: nat, reserved: set<int>, free: Blocks, k: nat, at: nat, before: set<int>)
    requires Carved(total, maxOrder, reserved, free, k, at, before)
    requires Aligned(at, k) && !FreeRun(FreeFrames(total, reserved, free), at, k)
    ensures Carved(total, maxOrder, reserved, free, k, at + Pow2(k), before)
  {
    forall j: nat | at < j < at + Pow2(k) ensures !Aligned(j, k) {
      if Aligned(j, k) {
        Nested(j, k, at, k, j);
      }
    }
  }

  lemma CarvePlace(total: nat, maxOrder: nat, reserved: set<int>, free: Blocks, k: nat, at: nat, before: set<int>)
    requires Carved(total, maxOrder, reserved, free, k, at, before)
    requires FreeRun(FreeFrames(total, reserved, free), at, k)
    ensures Carved(total, maxOrder, reserved, free[at := k], k, at + Pow2(k), before)
  {
    var uncut := FreeFrames(total, reserved, free);
    var uncut' := FreeFrames(total, reserved, free[at := k]);
    assert In(at, at, k) && In(at + Pow2(k) - 1, at, k);
    PlaceApart(total, reserved, free, k, at);
    UncutAfter(total, reserved, free, k, at);
    BuddyNotPlaced(maxOrder, free, k, at, before);
    NoBuddiesAdd(maxOrder, free, at, k);
    FewerRuns(uncut', uncut, k);
    forall j | at <= j < at + Pow2(k) ensures !FreeRun(uncut', j, k) {
      assert In(j, j, k) && In(j, at, k);
    }
  }

  /** The frames left uncut after cutting one more block. */
  lemma UncutAfter(total: nat, reserved: set<int>, free: Blocks, k: nat, at: nat)
    requires at !in free
    ensures FreeFrames(total, reserved, free[at := k]) == FreeFrames(total, reserved, free) - Frames(at, k)
  {
    CoversAfter(free, k, at);
  }

  lemma CoversAfter(free: Blocks, k: nat, at: int)
    requires at !in free
    ensures forall f :: Covers(free[at := k], f) <==> Covers(free, f) || In(f, at, k)
  {
    var free' := free[at := k];
    forall f | Covers(free, f) || In(f, at, k) ensures Covers(free', f) {
      if In(f, at, k) {
        assert at in free' && In(f, at, free'[at]);
      } else {
        var i :| i in free && In(f, i, free[i]);
        assert i in free' && In(f, i, free'[i]);
      }
    }
  }

  lemma PlaceApart(total: nat, reserved: set<int>, free: Blocks, k: nat, at: nat)
    requires Apart(free) && Avoids(reserved, free)
    requires FreeRun(FreeFrames(total, reserved, free), at, k)
    ensures at !in free
    ensures Apart(free[at := k]) && Avoids(reserved, free[at := k])
  {
    var uncut := FreeFrames(total, reserved, free);
    assert In(at, at, k);
    assert !Covers(free, at);
    assert at in free ==> In(at, at, free[at]);
    forall i | i in free ensures i < at ==> i + Pow2(free[i]) <= at
                         ensures at < i ==> at + Pow2(k) <= i {
      assert !In(at, i, free[i]);
      assert In(i, i, free[i]);
      assert i !in uncut;
      assert !In(i, at, k);
    }
  }

  /** If the buddy had been cut in this pass, both would have been one uncut run
      of the order above, and the pass before would have taken it. */
  lemma BuddyNotPlaced(maxOrder: nat, free: Blocks, k: nat, at: nat, before: set<int>)
    requires FreeRun(before, at, k)
    requires forall i :: i in free && free[i] == k ==> FreeRun(before, i, k)
    requires k < maxOrder ==> NoRun(before, k + 1)
    ensures k < maxOrder && Buddy(at, k) in free ==> free[Buddy(at, k)] != k
  {
    if k < maxOrder && Buddy(at, k) in free && free[Buddy(at, k)] == k {
      BuddyRun(before, at, k);
    }
  }

  lemma BuddyRun(frames: set<int>, i: nat, k: nat)
    requires FreeRun(frames, i, k) && FreeRun(frames, Buddy(i, k), k)
    ensures FreeRun(frames, Parent(i, k), k + 1)
  {
    BuddyCases(i, k);
    assert Pow2(k + 1) == 2 * Pow2(k);
    forall f | In(f, Parent(i, k), k + 1) ensures f in frames {
      assert In(f, i, k) || In(f, Buddy(i, k), k);
    }
  }

  /** After the pass for order 0 nothing is left uncut: the result is canonical. */
  lemma CarveEnd(total: nat, maxOrder: nat, reserved: set<int>, free: Blocks, at: nat, before: set<int>)
    requires Carved(total, maxOrder, reserved, free, 0, at, before) && total <= at
    ensures Canonical(total, maxOrder, reserved, map[], free)
  {
    var uncut := FreeFrames(total, reserved, free);
    forall f | 0 <= f < total && f !in reserved ensures Covers(free, f) {
      assert FreeRun(uncut, f, 0) <==> f in uncut by {
        assert In(f, f, 0);
      }
    }
    assert map[] + free == free;
  }

  /** No frame is left exactly if no run of order 0 is. */
  lemma NoFrameLeft(frames: set<int>)
    requires forall f :: f in frames ==> 0 <= f
    ensures (forall f :: f !in frames) <==> forall i :: !FreeRun(frames, i, 0)
  {
    forall i ensures FreeRun(frames, i, 0) <==> i in frames {
      assert In(i, i, 0);
    }
  }

  lemma FewerRuns(small: set<int>, big: set<int>, k: nat)
    requires small <= big
    ensures forall j :: FreeRun(small, j, k) ==> FreeRun(big, j, k)
  {
  }
}
