/** Partitions of the managed frames into naturally aligned blocks. A block is
    an entry i := k of a map: it starts at frame i and has 2^k frames. */
module Blocks {
  import opened Dyadic

  type Blocks = map<int, nat>

  ghost predicate Covers(b: Blocks, f: int) {
    exists i :: i in b && In(f, i, b[i])
  }

  ghost predicate Fits(total: nat, maxOrder: nat, i: int, k: nat) {
    0 <= i && k <= maxOrder && i + Pow2(k) <= total && Aligned(i, k)
  }

  /** Blocks do not overlap. */
  ghost predicate Apart(b: Blocks) {
    forall i, j :: i in b && j in b && i < j ==> i + Pow2(b[i]) <= j
  }

  ghost predicate Avoids(reserved: set<int>, b: Blocks) {
    forall i, f | i in b && f in reserved :: !In(f, i, b[i])
  }

  ghost predicate Exhausts(total: nat, reserved: set<int>, b: Blocks) {
    forall f :: 0 <= f < total && f !in reserved ==> Covers(b, f)
  }

  /** Every frame is reserved or in exactly one block, never both. */
  ghost predicate Partition(total: nat, maxOrder: nat, reserved: set<int>, b: Blocks) {
    && (forall i :: i in b ==> Fits(total, maxOrder, i, b[i]))
    && Apart(b)
    && Avoids(reserved, b)
    && Exhausts(total, reserved, b)
  }

  /** The frames that are neither reserved nor part of a live block. */
  ghost function FreeFrames(total: nat, reserved: set<int>, live: Blocks): set<int> {
    set f | 0 <= f < total && f !in reserved && !Covers(live, f)
  }

  /** The frames of one block. */
  function Frames(i: int, k: nat): (r: set<int>)
    ensures forall f :: f in r <==> In(f, i, k)
  {
    set f | i <= f < i + Pow2(k) && In(f, i, k)
  }

  /** An aligned run of 2^k frames, all of them in the set. */
  ghost predicate FreeRun(frames: set<int>, i: int, k: nat) {
    0 <= i && Aligned(i, k) && forall f :: In(f, i, k) ==> f in frames
  }

  function Parent(i: nat, k: nat): nat {
    if Buddy(i, k) < i then Buddy(i, k) else i
  }

  /** A run that is not part of a longer one of an order the allocator handles. */
  ghost predicate Maximal(frames: set<int>, maxOrder: nat, i: int, k: nat) {
    k <= maxOrder && FreeRun(frames, i, k) && (k < maxOrder ==> !FreeRun(frames, Parent(i, k), k + 1))
  }

  ghost predicate NoBuddies(maxOrder: nat, free: Blocks) {
    forall i, j :: i in free && j in free && 0 <= i && free[i] == free[j] && free[i] < maxOrder ==>
      j != Buddy(i, free[i])
  }

  /** Free and live blocks together partition the unreserved frames, and no two
      free blocks could be merged. */
  ghost predicate Canonical(total: nat, maxOrder: nat, reserved: set<int>, live: Blocks, free: Blocks) {
    && live.Keys !! free.Keys
    && Partition(total, maxOrder, reserved, live + free)
    && NoBuddies(maxOrder, free)
  }

  /** A free frame is one that a free block covers. */
  lemma FreeFramesAreCovered(total: nat, maxOrder: nat, reserved: set<int>, live: Blocks, free: Blocks)
    requires live.Keys !! free.Keys
    requires Partition(total, maxOrder, reserved, live + free)
    ensures forall f :: f in FreeFrames(total, reserved, live) <==> Covers(free, f)
  {
    var b := live + free;
    forall f | f in FreeFrames(total, reserved, live) ensures Covers(free, f) {
      var i :| i in b && In(f, i, b[i]);
      assert i !in live;
    }
    forall f | Covers(free, f) ensures f in FreeFrames(total, reserved, live) {
      var i :| i in free && In(f, i, free[i]);
      assert i in b && b[i] == free[i];
      forall j | j in live ensures !In(f, j, live[j]) {
        assert j in b && b[j] == live[j];
        assert i < j || j < i;
      }
    }
  }

  /** A free run starts at a managed frame where no live block starts. */
  lemma FreeRunHead(total: nat, reserved: set<int>, live: Blocks, i: int, k: nat)
    requires FreeRun(FreeFrames(total, reserved, live), i, k)
    ensures 0 <= i < total && i !in live && i !in reserved
  {
    assert In(i, i, k);
    assert i in live ==> In(i, i, live[i]);
  }

  /** In canonical form every aligned free run lies inside one free block. */
  lemma {:induction false} RunInOneBlock(total: nat, maxOrder: nat, reserved: set<int>, live: Blocks, free: Blocks,
                                         i: nat, k: nat) returns (j: int)
    requires Canonical(total, maxOrder, reserved, live, free)
    requires k <= maxOrder && FreeRun(FreeFrames(total, reserved, live), i, k)
    ensures j in free && k <= free[j]
    ensures j <= i && i + Pow2(k) <= j + Pow2(free[j])
    decreases k
  {
    FreeFramesAreCovered(total, maxOrder, reserved, live, free);
    var b := live + free;
    if k == 0 {
      assert In(i, i, 0);
      j :| j in free && In(i, j, free[j]);
    } else {
      Halves(i, k - 1);
      var h := i + Pow2(k - 1);
      j := RunInOneBlock(total, maxOrder, reserved, live, free, i, k - 1);
      var r := RunInOneBlock(total, maxOrder, reserved, live, free, h, k - 1);
      assert free[j] == k - 1 ==> j == i;
      assert free[r] == k - 1 ==> r == h;
      if free[j] >= k {
        Nested(i, k, j, free[j], i);
      } else if free[r] >= k {
        Nested(i, k, r, free[r], h);
        j := r;
      } else {
        assert false;
      }
    }
  }

  lemma FreeAreApart(live: Blocks, free: Blocks)
    requires live.Keys !! free.Keys && Apart(live + free)
    ensures Apart(free) && Apart(live)
  {
    var b := live + free;
    assert forall i :: i in free ==> i in b && b[i] == free[i];
    assert forall i :: i in live ==> i in b && b[i] == live[i];
  }

  /** A block that holds a run is the only one that starts in it. */
  lemma OnlyBlock(b: Blocks, j: int, i: int, k: nat)
    requires Apart(b) && j in b
    requires j <= i && i + Pow2(k) <= j + Pow2(b[j])
    ensures forall x :: x in b && i <= x < i + Pow2(k) ==> x == j
  {
  }

  /** A set that contains a block around a smaller run contains the run twice as
      long around that run, too. */
  lemma ParentRun(frames: set<int>, i: nat, k: nat, j: nat, m: nat)
    requires Aligned(i, k) && Aligned(j, m) && k < m
    requires j <= i && i + Pow2(k) <= j + Pow2(m)
    requires forall f :: In(f, j, m) ==> f in frames
    ensures FreeRun(frames, Parent(i, k), k + 1)
  {
    BuddyCases(i, k);
    Nested(Parent(i, k), k + 1, j, m, i);
    assert forall f :: In(f, Parent(i, k), k + 1) ==> In(f, j, m);
  }

  /** The same, with the remark that no second free block starts in the run. */
  lemma RunInOnlyBlock(total: nat, maxOrder: nat, reserved: set<int>, live: Blocks, free: Blocks,
                       i: nat, k: nat) returns (j: int)
    requires Canonical(total, maxOrder, reserved, live, free)
    requires k <= maxOrder && FreeRun(FreeFrames(total, reserved, live), i, k)
    ensures j in free && k <= free[j]
    ensures j <= i && i + Pow2(k) <= j + Pow2(free[j])
    ensures forall x :: x in free && i <= x < i + Pow2(k) ==> x == j
  {
    j := RunInOneBlock(total, maxOrder, reserved, live, free, i, k);
    FreeAreApart(live, free);
    OnlyBlock(free, j, i, k);
  }

  /** Canonical form: the free blocks are exactly the maximal aligned free runs. */
  lemma FreeBlocksAreMaximalRuns(total: nat, maxOrder: nat, reserved: set<int>, live: Blocks, free: Blocks,
      i: int, k: nat)
    requires Canonical(total, maxOrder, reserved, live, free)
    ensures (i in free && free[i] == k) <==> Maximal(FreeFrames(total, reserved, live), maxOrder, i, k)
  {
    hide Canonical, Maximal, FreeFrames;
    if i in free && free[i] == k {
      FreeIsMaximal(total, maxOrder, reserved, live, free, i, k);
    }
    if Maximal(FreeFrames(total, reserved, live), maxOrder, i, k) {
      MaximalIsFree(total, maxOrder, reserved, live, free, i, k);
    }
  }

  lemma FreeIsMaximal(total: nat, maxOrder: nat, reserved: set<int>, live: Blocks, free: Blocks, i: int, k: nat)
    requires Canonical(total, maxOrder, reserved, live, free) && i in free && free[i] == k
    ensures Maximal(FreeFrames(total, reserved, live), maxOrder, i, k)
  {
    var frames := FreeFrames(total, reserved, live);
    var b := live + free;
    FreeFramesAreCovered(total, maxOrder, reserved, live, free);
    assert b[i] == k;
    assert FreeRun(frames, i, k);
    BuddyCases(i, k);
    if k < maxOrder && FreeRun(frames, Parent(i, k), k + 1) {
      var j := RunInOnlyBlock(total, maxOrder, reserved, live, free, Parent(i, k), k + 1);
    }
  }

  lemma MaximalIsFree(total: nat, maxOrder: nat, reserved: set<int>, live: Blocks, free: Blocks, i: int, k: nat)
    requires Canonical(total, maxOrder, reserved, live, free)
    requires Maximal(FreeFrames(total, reserved, live), maxOrder, i, k)
    ensures i in free && free[i] == k
  {
    var frames := FreeFrames(total, reserved, live);
    FreeFramesAreCovered(total, maxOrder, reserved, live, free);
    var j := RunInOnlyBlock(total, maxOrder, reserved, live, free, i, k);
    assert forall f :: In(f, j, free[j]) ==> f in frames;
    if free[j] > k {
      ParentRun(frames, i, k, j, free[j]);
    }
  }

  /** The free blocks are determined by the set of free frames alone. */
  lemma SameFramesSameBlocks(total: nat, maxOrder: nat, reserved: set<int>, live: Blocks, free: Blocks,
                             reserved': set<int>, live': Blocks, free': Blocks)
    requires Canonical(total, maxOrder, reserved, live, free)
    requires Canonical(total, maxOrder, reserved', live', free')
    requires FreeFrames(total, reserved, live) == FreeFrames(total, reserved', live')
    ensures free == free'
  {
    forall i | i in free ensures i in free' && free'[i] == free[i] {
      FreeBlocksAreMaximalRuns(total, maxOrder, reserved, live, free, i, free[i]);
      FreeBlocksAreMaximalRuns(total, maxOrder, reserved', live', free', i, free[i]);
    }
    forall i | i in free' ensures i in free && free'[i] == free[i] {
      FreeBlocksAreMaximalRuns(total, maxOrder, reserved, live, free, i, free'[i]);
      FreeBlocksAreMaximalRuns(total, maxOrder, reserved', live', free', i, free'[i]);
    }
  }

  /** Splitting a block into its two halves keeps the partition. */
  lemma SplitKeepsPartition(total: nat, maxOrder: nat, reserved: set<int>, b: Blocks, i: int, k: nat)
    requires Partition(total, maxOrder, reserved, b)
    requires i in b && b[i] == k + 1
    ensures i + Pow2(k) !in b
    ensures Partition(total, maxOrder, reserved, b[i := k][i + Pow2(k) := k])
  {
    Halves(i, k);
    SplitApart(b, i, k);
    SplitAvoids(reserved, b, i, k);
    SplitExhausts(total, reserved, b, i, k);
  }

  lemma SplitAvoids(reserved: set<int>, b: Blocks, i: int, k: nat)
    requires Avoids(reserved, b) && i in b && b[i] == k + 1
    ensures Avoids(reserved, b[i := k][i + Pow2(k) := k])
  {
    forall f | f in reserved ensures !In(f, i, k) && !In(f, i + Pow2(k), k) {
      assert !In(f, i, b[i]);
    }
  }

  lemma SplitApart(b: Blocks, i: int, k: nat)
    requires Apart(b) && i in b && b[i] == k + 1
    ensures Apart(b[i := k][i + Pow2(k) := k])
  {
    assert Pow2(k + 1) == 2 * Pow2(k);
  }

  lemma SplitExhausts(total: nat, reserved: set<int>, b: Blocks, i: int, k: nat)
    requires Exhausts(total, reserved, b) && i in b && b[i] == k + 1
    requires i + Pow2(k) !in b
    ensures Exhausts(total, reserved, b[i := k][i + Pow2(k) := k])
  {
    var c := b[i := k][i + Pow2(k) := k];
    forall f | 0 <= f < total && f !in reserved ensures Covers(c, f) {
      var j :| j in b && In(f, j, b[j]);
      if j == i {
        assert In(f, i, c[i]) || In(f, i + Pow2(k), c[i + Pow2(k)]);
      } else {
        assert j in c && c[j] == b[j];
      }
    }
  }

  /** Merging two buddies keeps the partition. */
  lemma MergeKeepsPartition(total: nat, maxOrder: nat, reserved: set<int>, b: Blocks, i: int, k: nat)
    requires Partition(total, maxOrder, reserved, b)
    requires i in b && b[i] == k && i + Pow2(k) in b && b[i + Pow2(k)] == k
    requires Aligned(i, k + 1) && k < maxOrder
    ensures Partition(total, maxOrder, reserved, (b - {i + Pow2(k)})[i := k + 1])
  {
    MergeExhausts(total, reserved, b, i, k);
    assert forall f :: In(f, i, k + 1) <==> In(f, i, k) || In(f, i + Pow2(k), k);
  }

  lemma MergeExhausts(total: nat, reserved: set<int>, b: Blocks, i: int, k: nat)
    requires Exhausts(total, reserved, b)
    requires i in b && b[i] == k && i + Pow2(k) in b && b[i + Pow2(k)] == k
    ensures Exhausts(total, reserved, (b - {i + Pow2(k)})[i := k + 1])
  {
    var h := i + Pow2(k);
    var c := (b - {h})[i := k + 1];
    forall f | 0 <= f < total && f !in reserved ensures Covers(c, f) {
      var j :| j in b && In(f, j, b[j]);
      if j == i || j == h {
        assert In(f, i, c[i]);
      } else {
        assert j in c && c[j] == b[j];
      }
    }
  }

  // The four changes that allocation and release are made of keep canonical form.

  /** A free block becomes live as a whole. */
  lemma TakeKeepsCanonical(total: nat, maxOrder: nat, reserved: set<int>, live: Blocks, free: Blocks, i: int)
    requires Canonical(total, maxOrder, reserved, live, free) && i in free
    ensures Canonical(total, maxOrder, reserved, live[i := free[i]], free - {i})
  {
    assert live[i := free[i]] + (free - {i}) == live + free;
  }

  /** A live block is halved and its upper half becomes free. */
  lemma SplitKeepsCanonical(total: nat, maxOrder: nat, reserved: set<int>, live: Blocks, free: Blocks, i: int, k: nat)
    requires Canonical(total, maxOrder, reserved, live, free)
    requires i in live && live[i] == k + 1
    ensures Aligned(i, k + 1) && Buddy(i, k) == i + Pow2(k)
    ensures i + Pow2(k) !in live && i + Pow2(k) !in free
    ensures Canonical(total, maxOrder, reserved, live[i := k], free[i + Pow2(k) := k])
  {
    var b, h := live + free, i + Pow2(k);
    assert b[i] == live[i];
    SplitKeepsPartition(total, maxOrder, reserved, b, i, k);
    assert live[i := k] + free[h := k] == b[i := k][h := k];
    Halves(i, k);
    NoBuddiesAdd(maxOrder, free, h, k);
  }

  /** Adding a free block whose buddy is not free at the same order. */
  lemma NoBuddiesAdd(maxOrder: nat, free: Blocks, h: nat, k: nat)
    requires NoBuddies(maxOrder, free) && h !in free && Aligned(h, k)
    requires forall i :: i in free ==> 0 <= i && Aligned(i, free[i])
    requires k < maxOrder && Buddy(h, k) in free ==> free[Buddy(h, k)] != k
    ensures NoBuddies(maxOrder, free[h := k])
  {
    var free' := free[h := k];
    BuddyCases(h, k);
    forall i, j | i in free' && j in free' && 0 <= i && free'[i] == free'[j] && free'[i] < maxOrder
      ensures j != Buddy(i, free'[i])
    {
      if i != h {
        BuddyCases(i, free[i]);
      }
    }
  }

  /** A live block absorbs its free buddy. */
  lemma MergeKeepsCanonical(total: nat, maxOrder: nat, reserved: set<int>, live: Blocks, free: Blocks, i: int, k: nat)
    requires Canonical(total, maxOrder, reserved, live, free)
    requires i in live && live[i] == k && k < maxOrder
    requires 0 <= i
    requires Buddy(i, k) in free && free[Buddy(i, k)] == k
    ensures Aligned(i, k) && Aligned(Parent(i, k), k + 1)
    ensures Canonical(total, maxOrder, reserved, (live - {i})[Parent(i, k) := k + 1], free - {Buddy(i, k)})
  {
    var b, y, lo := live + free, Buddy(i, k), Parent(i, k);
    assert b[i] == k && b[y] == k;
    BuddyCases(i, k);
    MergeKeepsPartition(total, maxOrder, reserved, b, lo, k);
    assert (live - {i})[lo := k + 1] + (free - {y}) == (b - {lo + Pow2(k)})[lo := k + 1];
  }

  /** A live block that cannot be merged becomes free. */
  lemma ReleaseKeepsCanonical(total: nat, maxOrder: nat, reserved: set<int>, live: Blocks, free: Blocks, i: int)
    requires Canonical(total, maxOrder, reserved, live, free)
    requires i in live && 0 <= i
    requires live[i] < maxOrder && Buddy(i, live[i]) in free ==> free[Buddy(i, live[i])] != live[i]
    ensures Canonical(total, maxOrder, reserved, live - {i}, free[i := live[i]])
  {
    var b := live + free;
    assert (live - {i}) + free[i := live[i]] == b;
    assert b[i] == live[i];
    assert forall j :: j in free ==> b[j] == free[j];
    NoBuddiesAdd(maxOrder, free, i, live[i]);
  }
}
