/** What holds over whole runs of the allocators. */
module HeapRuns {
  import opened Dyadic
  import opened Blocks
  import opened Integers
  import opened PageFrames
  import opened BuddySystem
  import opened Extents
  import opened KernelHeap

  /** With the kernel's constants no run of an order beyond the maximum fits into
      memory, so an allocation fails only when no free run is left. */
  lemma NoHugeRun(reserved: set<int>, live: Blocks, i: int, order: nat)
    requires order > 20
    ensures !FreeRun(FreeFrames(0x3C000, reserved, live), i, order)
  {
    Pow2Of20();
    Pow2Grows(MAX_ORDER, order);
    if FreeRun(FreeFrames(TOTAL_FRAME, reserved, live), i, order) {
      assert In(i + TOTAL_FRAME, i, order);
    }
  }

  /** Allocating and freeing at once restores the free blocks of every order. */
  method RoundTrip(b: Buddies, order: nat) returns (r: int)
    requires b.Valid()
    modifies b.Repr()
    ensures b.Valid() && b.reserved == old(b.reserved)
    ensures b.live == old(b.live) && b.free == old(b.free)
  {
    hide Buddies.Holding;
    ghost var live, free := b.live, b.free;
    b.IsCanonical();
    r := b.Allocate(order);
    if r != -1 {
      FreeRunHead(b.total, old(b.reserved), live, r, order);
      b.Free(r);
      assert live[r := order] - {r} == live;
    }
    b.IsCanonical();
    SameFramesSameBlocks(b.total, b.maxOrder, b.reserved, live, free, b.reserved, b.live, b.free);
  }

  /** Freeing every live block, in whatever order, leads back to the free blocks that
      booting with the same reserved frames produces. */
  method FreeAll(b: Buddies, order: seq<nat>, ghost boot: Blocks)
    requires b.Valid()
    requires forall i :: i in b.live <==> i in order
    requires forall j, k :: 0 <= j < k < |order| ==> order[j] != order[k]
    requires Canonical(b.total, b.maxOrder, b.reserved, map[], boot)
    modifies b.Repr()
    ensures b.Valid() && b.reserved == old(b.reserved)
    ensures b.live == map[] && b.free == boot
  {
    hide Buddies.Holding, Canonical;
    for j := 0 to |order|
      invariant b.Valid() && b.reserved == old(b.reserved)
      invariant forall i :: i in b.live <==> exists k :: j <= k < |order| && order[k] == i
    {
      assert order[j] in b.live;
      b.IsCanonical();
      b.InRange(order[j]);
      ghost var live := b.live;
      b.Free(order[j]);
      forall i ensures i in b.live <==> exists k :: j + 1 <= k < |order| && order[k] == i {
        if i in live && i != order[j] {
          var k :| j <= k < |order| && order[k] == i;
        }
      }
    }
    assert b.live == map[] by {
      assert forall i :: i !in b.live;
    }
    b.IsCanonical();
    SameFramesSameBlocks(b.total, b.maxOrder, b.reserved, map[], boot, b.reserved, b.live, b.free);
  }

  datatype Op = Chunk(size: nat) | Block(size: nat) | Any(size: nat) | Release(ptr: nat)

  /** The arguments fit their C types, and a pointer does not lead below the descriptors. */
  predicate WellTyped(op: Op) {
    match op
    case Release(ptr) => ptr < WORD && (ptr == NULL || ToInt(AddressToIndex(ptr)) >= 0)
    case _ => op.size < 0x1_0000_0000
  }

  /** What one operation does to the extents in use. */
  ghost predicate Effect(op: Op, result: nat, before: map<int, int>, after: map<int, int>) {
    match op
    case Release(ptr) => after == Released(before, ptr)
    case _ =>
      if result == NULL then after == before
      else
        && result !in before && result in after && after == before[result := after[result]]
        && (op.size <= 0x1_0000_0000 - FRAME_SIZE ==> op.size <= after[result])
  }

  /** Extents lie inside the managed memory, apart from each other and from reserved frames. */
  ghost predicate Safe(extents: map<int, int>, total: nat, reserved: set<int>) {
    && (forall a :: a in extents ==> Address(0) <= a && 0 < extents[a] && a + extents[a] <= Address(total))
    && (forall a, b :: a in extents && b in extents && a < b ==> a + extents[a] <= b)
    && (forall a, f | a in extents && f in reserved :: a + extents[a] <= Address(f) || Address(f + 1) <= a)
  }

  /** What is in use and what is free at one time. */
  datatype Moment = Moment(extents: map<int, int>, live: Blocks, free: Blocks)

  ghost function MomentOf(heap: Heap): Moment
    reads heap, heap.buddies
  {
    Moment(heap.extents, heap.buddies.live, heap.buddies.free)
  }

  /** Free blocks are in canonical form, extents are safe, and nothing is live without one. */
  ghost predicate Sound(m: Moment, total: nat, maxOrder: nat, reserved: set<int>) {
    && Canonical(total, maxOrder, reserved, m.live, m.free) && Safe(m.extents, total, reserved)
    && (m.extents == map[] ==> m.live == map[])
  }

  /** Any sequence of operations on the mixed heap: each has its effect, and after every
      one of them the state is sound. */
  method Run(heap: Heap, ops: seq<Op>) returns (results: seq<nat>, ghost history: seq<Moment>)
    requires heap.Valid()
    requires forall j :: 0 <= j < |ops| ==> WellTyped(ops[j])
    modifies heap.Repr()
    ensures heap.Valid() && heap.buddies.reserved == old(heap.buddies.reserved)
    ensures |results| == |ops| && |history| == |ops| + 1
    ensures history[0] == old(MomentOf(heap)) && history[|ops|] == MomentOf(heap)
    ensures forall j :: 0 <= j < |ops| ==> Effect(ops[j], results[j], history[j].extents, history[j + 1].extents)
    ensures forall j :: 0 <= j <= |ops| ==>
      Sound(history[j], heap.buddies.total, heap.buddies.maxOrder, heap.buddies.reserved)
  {
    hide Heap.Valid, Sound, Effect, WellTyped;
    results, history := [], [MomentOf(heap)];
    HeapIsSound(heap);
    for j := 0 to |ops|
      invariant heap.Valid() && heap.buddies.reserved == old(heap.buddies.reserved)
      invariant |results| == j && |history| == j + 1
      invariant history[0] == old(MomentOf(heap)) && history[j] == MomentOf(heap)
      invariant forall i :: 0 <= i < j ==> Effect(ops[i], results[i], history[i].extents, history[i + 1].extents)
      invariant forall i :: 0 <= i <= j ==>
        Sound(history[i], heap.buddies.total, heap.buddies.maxOrder, heap.buddies.reserved)
    {
      var r := Perform(heap, ops[j]);
      HeapIsSound(heap);
      results, history := results + [r], history + [MomentOf(heap)];
    }
  }

  method Perform(heap: Heap, op: Op) returns (r: nat)
    requires heap.Valid() && WellTyped(op)
    modifies heap.Repr()
    ensures heap.Valid() && heap.buddies.reserved == old(heap.buddies.reserved)
    ensures Effect(op, r, old(heap.extents), heap.extents)
  {
    hide Heap.Valid;
    match op {
      case Chunk(size) => r := heap.MallocS(size);
      case Block(size) => r := heap.MallocB(size);
      case Any(size) => r := heap.KMalloc(size);
      case Release(ptr) =>
        heap.KFree(ptr);
        r := NULL;
    }
  }

  lemma HeapIsSound(heap: Heap)
    requires heap.Valid()
    ensures Sound(MomentOf(heap), heap.buddies.total, heap.buddies.maxOrder, heap.buddies.reserved)
  {
    HeapIsSafe(heap);
    heap.Facts();
    hide Canonical, Safe, Heap.Valid;
    if heap.extents == map[] {
      NothingLive(heap);
    }
  }

  lemma SomeIn(s: set<int>, n: nat)
    requires s != {} && forall c :: c in s ==> 0 <= c < n
    ensures exists c :: c in s
  {
    assert s == set c | 0 <= c < n && c in s;
  }

  lemma NothingLive(heap: Heap)
    requires heap.Valid() && heap.extents == map[]
    ensures heap.buddies.live == map[]
  {
    hide Heap.Valid;
    forall h ensures h !in heap.buddies.live {
      if h in heap.slabs {
        heap.Facts();
        var s := heap.slabs[h];
        assert SlabOk(s);
        SomeIn(s.used, FRAME_SIZE / s.size);
        var c :| c in s.used;
        assert ChunkExtent(heap.slabs, h, c, Address(h) + c * s.size, s.size);
        heap.InExtents(Address(h) + c * s.size, s.size);
      } else if heap.WholeBlock(h) {
        heap.BlockAddress(h);
      }
    }
  }

  lemma HeapIsSafe(heap: Heap)
    requires heap.Valid()
    ensures Safe(heap.extents, heap.buddies.total, heap.buddies.reserved)
  {
    heap.Facts();
    hide Heap.Valid;
    var e, live, slabs := heap.extents, heap.buddies.live, heap.slabs;
    forall a | a in e
      ensures Address(0) <= a && 0 < e[a] && a + e[a] <= Address(heap.buddies.total)
      ensures forall f :: f in heap.buddies.reserved ==> a + e[a] <= Address(f) || Address(f + 1) <= a
    {
      OneExtentSafe(heap.buddies.total, heap.buddies.maxOrder, heap.buddies.reserved, live, heap.buddies.free,
                    slabs, a, e[a]);
    }
    forall a, b | a in e && b in e && a < b ensures a + e[a] <= b {
      ExtentsDisjoint(live, slabs, a, e[a], b, e[b]);
    }
  }

  lemma OneExtentSafe(total: nat, maxOrder: nat, reserved: set<int>, live: Blocks, free: Blocks, slabs: Slabs,
      a: int, n: int)
    requires Canonical(total, maxOrder, reserved, live, free) && SlabsOk(live, slabs)
    requires IsExtent(live, slabs, a, n)
    ensures Address(0) <= a && 0 < n && a + n <= Address(total)
    ensures forall f :: f in reserved ==> a + n <= Address(f) || Address(f + 1) <= a
  {
    var h := ExtentHome(live, slabs, a, n);
    var b := live + free;
    assert b[h] == live[h] && Fits(total, maxOrder, h, b[h]);
    forall f | f in reserved ensures a + n <= Address(f) || Address(f + 1) <= a {
      assert !In(f, h, b[h]);
    }
  }

  // From boot.

  datatype Range = Range(begin: nat, end: nat)

  /** A range of addresses of frames that an int can number. */
  predicate Plain(r: Range) {
    BASE <= r.begin <= r.end <= BASE + 0x800_0000_0000 - FRAME_SIZE
  }

  /** Reserving some ranges and booting: exactly the frames of these ranges are reserved, and
      nothing is in use. */
  method Boot(heap: Heap, ranges: seq<Range>)
    requires heap.Shape() && forall f :: 0 <= f < heap.buddies.total ==> heap.buddies.status[f] != RESERVED
    requires forall k :: 0 <= k < |ranges| ==> ranges[k].begin < WORD && ranges[k].end < WORD
    modifies heap.Repr()
    ensures heap.Valid() && heap.extents == map[] && heap.buddies.live == map[]
    ensures forall f :: 0 <= f < heap.buddies.total ==>
      (f in heap.buddies.reserved <==>
       exists k :: 0 <= k < |ranges| && Reserves(ranges[k].begin, ranges[k].end, f))
  {
    hide Reserves;
    var b := heap.buddies;
    for i := 0 to |ranges|
      invariant forall f :: 0 <= f < b.total ==>
        (b.status[f] == RESERVED <==> exists k :: 0 <= k < i && Reserves(ranges[k].begin, ranges[k].end, f))
    {
      ghost var before := b.status[..];
      b.Reserve(ranges[i].begin, ranges[i].end);
      forall f | 0 <= f < b.total
        ensures b.status[f] == RESERVED <==> exists k :: 0 <= k < i + 1 && Reserves(ranges[k].begin, ranges[k].end, f)
      {
        assert b.status[f] == if Reserves(ranges[i].begin, ranges[i].end, f) then RESERVED else before[f];
      }
    }
    heap.Init();
  }

  /** No byte of an extent lies in the range. */
  ghost predicate Clear(extents: map<int, int>, r: Range) {
    r.begin < r.end ==> forall a :: a in extents ==> a + extents[a] <= r.begin || r.end <= a
  }

  /** From boot with any reservations through any operations: free blocks are in canonical
      form throughout and the same whenever the same frames are free, so whenever all has
      been given back, in whatever order, they are those of boot; and no byte of a reserved
      range is ever handed out. */
  method Lifetime(heap: Heap, ranges: seq<Range>, ops: seq<Op>) returns (results: seq<nat>, ghost history: seq<Moment>)
    requires heap.Shape() && forall f :: 0 <= f < heap.buddies.total ==> heap.buddies.status[f] != RESERVED
    requires forall k :: 0 <= k < |ranges| ==> ranges[k].begin < WORD && ranges[k].end < WORD
    requires forall j :: 0 <= j < |ops| ==> WellTyped(ops[j])
    modifies heap.Repr()
    ensures heap.Valid() && |results| == |ops| && |history| == |ops| + 1
    ensures history[0].extents == map[] && history[0].live == map[]
    ensures forall j :: 0 <= j < |ops| ==> Effect(ops[j], results[j], history[j].extents, history[j + 1].extents)
    ensures forall j :: 0 <= j <= |ops| ==>
      Sound(history[j], heap.buddies.total, heap.buddies.maxOrder, heap.buddies.reserved)
    ensures forall i, j :: 0 <= i <= |ops| && 0 <= j <= |ops| ==>
      AgreeOnFree(history[i], history[j], heap.buddies.total, heap.buddies.reserved)
    ensures forall j :: 0 <= j <= |ops| && history[j].extents == map[] ==> history[j].free == history[0].free
    ensures forall j, k :: 0 <= j <= |ops| && 0 <= k < |ranges| && Plain(ranges[k]) ==>
      Clear(history[j].extents, ranges[k])
  {
    hide Heap.Valid, Sound, Effect, WellTyped, Reserves, Clear, Plain, AgreeOnFree;
    Boot(heap, ranges);
    results, history := Run(heap, ops);
    ghost var b := heap.buddies;
    forall i, j | 0 <= i <= |ops| && 0 <= j <= |ops|
      ensures AgreeOnFree(history[i], history[j], b.total, b.reserved)
      ensures history[i].extents == map[] && history[j].extents == map[] ==> history[i].free == history[j].free
    {
      SameFree(history[i], history[j], b.total, b.maxOrder, b.reserved);
    }
    forall j, k | 0 <= j <= |ops| && 0 <= k < |ranges| && Plain(ranges[k])
      ensures Clear(history[j].extents, ranges[k])
    {
      StaysClear(history[j], b.total, b.maxOrder, b.reserved, ranges[k]);
    }
  }

  /** If the same frames are free, the same blocks are. */
  ghost predicate AgreeOnFree(m: Moment, n: Moment, total: nat, reserved: set<int>) {
    FreeFrames(total, reserved, m.live) == FreeFrames(total, reserved, n.live) ==> m.free == n.free
  }

  lemma SameFree(m: Moment, n: Moment, total: nat, maxOrder: nat, reserved: set<int>)
    requires Sound(m, total, maxOrder, reserved) && Sound(n, total, maxOrder, reserved)
    ensures AgreeOnFree(m, n, total, reserved)
    ensures m.extents == map[] && n.extents == map[] ==> m.free == n.free
  {
    hide Canonical, Safe, FreeFrames;
    if FreeFrames(total, reserved, m.live) == FreeFrames(total, reserved, n.live) {
      SameFramesSameBlocks(total, maxOrder, reserved, m.live, m.free, reserved, n.live, n.free);
    }
  }

  /** An extent that avoids the frames a range touches avoids the range. */
  lemma StaysClear(m: Moment, total: nat, maxOrder: nat, reserved: set<int>, r: Range)
    requires Sound(m, total, maxOrder, reserved) && Plain(r)
    requires forall f :: 0 <= f < total && Reserves(r.begin, r.end, f) ==> f in reserved
    ensures Clear(m.extents, r)
  {
    hide Canonical, Reserves;
    forall a | r.begin < r.end && a in m.extents ensures a + m.extents[a] <= r.begin || r.end <= a {
      if a < r.end && r.begin < a + m.extents[a] {
        var f := SharedFrame(a, m.extents[a], total, r);
      }
    }
  }

  /** An extent and a range that share a byte share a frame, which the range reserves. */
  lemma SharedFrame(a: int, n: int, total: nat, r: Range) returns (f: nat)
    requires Plain(r) && Address(0) <= a && 0 < n && a + n <= Address(total)
    requires r.begin < r.end && a < r.end && r.begin < a + n
    ensures f < total && Reserves(r.begin, r.end, f) && Address(f) < a + n && a < Address(f + 1)
  {
    hide Reserves;
    var x := if a < r.begin then r.begin else a;
    f := (x - BASE) / FRAME_SIZE;
    assert Address(f) <= x < Address(f + 1);
    IndexBound(x - BASE, total);
    ReservedFramesAreTouched(r.begin, r.end, f);
  }

  /** Through any address inside its first frame, and through those 2^44 bytes and more
      beyond, a block is freed all the same. */
  method FreeThroughOtherAddress(heap: Heap, size: nat, offset: nat, alias: nat) returns (ptr: nat)
    requires heap.Valid() && 0 < size < 0x1_0000_0000 && offset < FRAME_SIZE && alias < 16
    modifies heap.Repr()
    ensures heap.Valid() && heap.extents == old(heap.extents)
  {
    hide Heap.Valid, FreeRun, FreeFrames;
    ptr := heap.KMalloc(size);
    if ptr != NULL {
      ghost var r := ToInt(AddressToIndex(ptr));
      heap.ExtentFrame(ptr);
      AtLeastOneFrame(size);
      assert heap.buddies.total < 0x8000_0000 by { heap.Bounded(); }
      SameFrame(r, offset, alias);
      heap.KFree(ptr + offset + alias * 0x1000_0000_0000);
      assert old(heap.extents)[ptr := Pow2(LeastOrder(FramesFor(size))) * FRAME_SIZE] - {ptr} == old(heap.extents);
    }
  }

  lemma AtLeastOneFrame(size: nat)
    ensures Pow2(LeastOrder(FramesFor(size))) * FRAME_SIZE >= FRAME_SIZE
  {
  }

  lemma SameFrame(i: nat, offset: nat, alias: nat)
    requires i < 0x8000_0000 && offset < FRAME_SIZE && alias < 16
    ensures var a := Address(i) + offset + alias * 0x1000_0000_0000;
      0 <= a < WORD && ToInt(AddressToIndex(a)) == i
  {
    hide AddressToIndex, ToInt;
    var low := i * FRAME_SIZE + offset;
    var a := BASE + (low + alias * 0x1000_0000_0000);
    CutToLow(low, alias);
    AddressOfIndex(a, i);
  }

  lemma CutToLow(low: nat, alias: nat)
    requires low < 0x1000_0000_0000 && alias < 16
    ensures TakenFor(BASE + (low + alias * 0x1000_0000_0000)) == BASE + low
  {
    var x := low + alias * 0x1000_0000_0000;
    assert BASE + x - BASE == x;
    QuotientIs(x, 0x1000_0000_0000, alias, low);
  }
}
