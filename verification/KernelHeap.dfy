/** The kernel heap: pages cut into equal chunks on top of the buddy system, and
    the front end that hands out chunks and whole blocks. */
module KernelHeap {
  import opened Dyadic
  import opened Blocks
  import opened Integers
  import opened PageFrames
  import opened Slices
  import opened IntrusiveLists
  import opened BuddySystem
  import opened Bitmaps
  import opened Carving
  import opened Extents

  const SLAB_TYPE := 10
  // Ten slots, nine initialisers: the last one is zero.
  const SLAB_SIZES: seq<nat> := [8, 16, 32, 64, 128, 256, 512, 1024, 2048, 0]
  const BITMAP_BYTES := 64
  const NULL := 0

  datatype SlabFrame = SlabFrame(
    available: int, slabType: int, slabSize: int, startAddress: int,
    totalSlabs: int, freeSlabs: int, bitmap: seq<bv8>)

  // The two fields of a frame descriptor that belong to the chunk layer.
  datatype PageMark = PageMark(slabPtr: int, isSlabPage: bool)

  function NoBits(): (r: seq<bv8>)
    ensures |r| == BITMAP_BYTES && forall i :: 0 <= i < |r| ==> r[i] == 0
  {
    seq(BITMAP_BYTES, i => 0 as bv8)
  }

  function UnusedSlab(): SlabFrame {
    SlabFrame(1, -1, -1, WORD - 1, -1, -1, NoBits())
  }

  /** The first class at or after i whose chunks are large enough, or -1. */
  function ClassFrom(size: nat, i: nat): (t: int)
    requires i <= SLAB_TYPE
    ensures t == -1 || i <= t < SLAB_TYPE
    ensures t != -1 ==> size <= SLAB_SIZES[t] && forall j :: i <= j < t ==> SLAB_SIZES[j] < size
    ensures t == -1 ==> forall j :: i <= j < SLAB_TYPE ==> SLAB_SIZES[j] < size
    decreases SLAB_TYPE - i
  {
    if i == SLAB_TYPE then -1 else if SLAB_SIZES[i] >= size then i else ClassFrom(size, i + 1)
  }

  /** Requests up to 2048 bytes have a class, and never the zero one. */
  lemma ClassFound(size: nat)
    ensures ClassFrom(size, 0) == -1 <==> size > 2048
    ensures ClassFrom(size, 0) != SLAB_TYPE - 1
  {
    assert SLAB_SIZES[0] == 8;
    assert SLAB_SIZES[8] == 2048;
  }

  /** Its chunks have the least of the sizes 8, 16, 32 up to 2048 that is enough. */
  lemma ClassIsLeast(size: nat)
    requires size <= 2048
    ensures ClassFrom(size, 0) >= 0
    ensures var n := SLAB_SIZES[ClassFrom(size, 0)];
      n in [8, 16, 32, 64, 128, 256, 512, 1024, 2048] && size <= n && (n == 8 || n / 2 < size)
  {
    ClassFound(size);
    var t := ClassFrom(size, 0);
    assert t > 0 ==> SLAB_SIZES[t - 1] < size;
    EachTwice(t);
  }

  lemma EachTwice(t: nat)
    requires t < 9
    ensures SLAB_SIZES[t] in [8, 16, 32, 64, 128, 256, 512, 1024, 2048]
    ensures if t == 0 then SLAB_SIZES[t] == 8 else SLAB_SIZES[t - 1] == SLAB_SIZES[t] / 2
  {
  }

  ghost predicate IsClass(size: nat) {
    exists t :: 0 <= t < SLAB_TYPE - 1 && SLAB_SIZES[t] == size
  }

  /** Chunk sizes divide the page. */
  lemma ClassDivides(size: nat)
    requires IsClass(size)
    ensures 8 <= size <= 2048 && size * (FRAME_SIZE / size) == FRAME_SIZE
    ensures FRAME_SIZE / size <= 8 * BITMAP_BYTES && FRAME_SIZE / size >= 2
  {
    assert forall t :: 0 <= t < 9 ==>
      SLAB_SIZES[t] in [8, 16, 32, 64, 128, 256, 512, 1024, 2048];
  }

  ghost predicate Describes(d: SlabFrame, p: int, s: Slab) {
    && d.available == 0
    && 0 <= d.slabType < SLAB_TYPE - 1 && SLAB_SIZES[d.slabType] == s.size
    && d.slabSize == s.size && 0 < s.size
    && d.startAddress == Address(p)
    && d.totalSlabs == FRAME_SIZE / s.size
    && d.freeSlabs == d.totalSlabs - |s.used|
    && |d.bitmap| == BITMAP_BYTES && Bits(d.bitmap) == s.used
  }

  /** Descriptors, page marks and class lists all tell the same story. */
  ghost predicate Described(frames: seq<SlabFrame>, marks: seq<PageMark>, lists: seq<seq<int>>, slabs: Slabs) {
    && |marks| == |frames|
    && |lists| == SLAB_TYPE
    && (forall p :: 0 <= p < |frames| && p in slabs ==>
        Describes(frames[p], p, slabs[p]) && marks[p] == PageMark(p, true))
    && (forall p :: 0 <= p < |frames| && p !in slabs ==> frames[p] == UnusedSlab() && marks[p] == PageMark(NIL, false))
    && (forall t, p :: 0 <= t < SLAB_TYPE ==> (p in lists[t] <==> p in slabs && slabs[p].size == SLAB_SIZES[t]))
  }

  /** The numbers below n. */
  function Upto(n: nat): (r: set<int>)
    ensures forall i :: i in r <==> 0 <= i < n
  {
    if n == 0 then {} else Upto(n - 1) + {n - 1}
  }

  lemma {:induction false} UptoSize(n: nat)
    ensures |Upto(n)| == n
  {
    if n > 0 {
      UptoSize(n - 1);
    }
  }

  /** The count of unused chunks is positive exactly if some chunk is unused. */
  lemma SomeUnused(used: set<int>, n: nat)
    requires used <= Upto(n)
    ensures |used| <= n
    ensures |used| == n <==> used == Upto(n)
  {
    UptoSize(n);
    var rest := Upto(n) - used;
    assert Upto(n) == used + rest && used !! rest;
  }

  lemma DescribedOne(frames: seq<SlabFrame>, marks: seq<PageMark>, lists: seq<seq<int>>, slabs: Slabs, p: nat)
    requires Described(frames, marks, lists, slabs) && p < |frames|
    ensures marks[p] == if p in slabs then PageMark(p, true) else PageMark(NIL, false)
    ensures p in slabs ==> Describes(frames[p], p, slabs[p]) && IsClass(slabs[p].size)
    ensures p !in slabs ==> frames[p] == UnusedSlab()
    ensures p !in slabs ==> !OnSome(lists, p)
    ensures forall t :: 0 <= t < SLAB_TYPE ==> (p in lists[t] <==> p in slabs && slabs[p].size == SLAB_SIZES[t])
  {
  }

  /** A chunk of page p is taken or given back, and the page stays cut. */
  lemma DescribedChunk(frames: seq<SlabFrame>, marks: seq<PageMark>, lists: seq<seq<int>>, slabs: Slabs,
                       p: nat, d: SlabFrame, used: set<int>)
    requires Described(frames, marks, lists, slabs) && p < |frames| && p in slabs
    requires Describes(d, p, Slab(slabs[p].size, used))
    ensures Described(frames[p := d], marks, lists, slabs[p := Slab(slabs[p].size, used)])
  {
  }

  /** Page p becomes a cut page of class t. */
  lemma DescribedNew(frames: seq<SlabFrame>, marks: seq<PageMark>, lists: seq<seq<int>>, slabs: Slabs,
                     p: nat, t: nat, d: SlabFrame, s: Slab)
    requires Described(frames, marks, lists, slabs) && p < |frames| && p !in slabs
    requires t < SLAB_TYPE - 1 && s.size == SLAB_SIZES[t]
    requires Describes(d, p, s)
    ensures Described(frames[p := d], marks[p := PageMark(p, true)], lists[t := [p] + lists[t]], slabs[p := s])
  {
    var lists' := lists[t := [p] + lists[t]];
    assert forall u :: 0 <= u < SLAB_TYPE && u != t ==> SLAB_SIZES[u] != SLAB_SIZES[t];
  }

  /** Page p is no cut page any more. */
  lemma DescribedDrop(frames: seq<SlabFrame>, marks: seq<PageMark>, lists: seq<seq<int>>, slabs: Slabs,
                      p: nat, t: nat, rest: seq<int>)
    requires Described(frames, marks, lists, slabs) && p < |frames| && p in slabs
    requires t < SLAB_TYPE - 1 && slabs[p].size == SLAB_SIZES[t]
    requires forall q :: q in rest <==> q in lists[t] && q != p
    ensures Described(frames[p := UnusedSlab()], marks[p := PageMark(NIL, false)], lists[t := rest], slabs - {p})
  {
    assert forall u :: 0 <= u < SLAB_TYPE && u != t ==> SLAB_SIZES[u] != SLAB_SIZES[t];
  }

  lemma DescribesTake(d: SlabFrame, p: int, s: Slab, c: nat)
    requires Describes(d, p, s) && c !in s.used && c < 8 * BITMAP_BYTES
    ensures Describes(d.(bitmap := SetBit(d.bitmap, c), freeSlabs := d.freeSlabs - 1), p, Slab(s.size, s.used + {c}))
  {
    SetBitAdds(d.bitmap, c);
  }

  lemma DescribesGive(d: SlabFrame, p: int, s: Slab, c: nat)
    requires Describes(d, p, s) && c in s.used && c < 8 * BITMAP_BYTES
    ensures Describes(d.(bitmap := ClearBit(d.bitmap, c), freeSlabs := d.freeSlabs + 1), p, Slab(s.size, s.used - {c}))
  {
    ClearBitRemoves(d.bitmap, c);
  }

  ghost predicate Full(s: Slab) {
    s.size > 0 && s.used == Upto(FRAME_SIZE / s.size)
  }

  lemma FirstChunk(p: nat, t: nat)
    requires t < SLAB_TYPE - 1
    ensures var n := FRAME_SIZE / SLAB_SIZES[t];
      Describes(SlabFrame(0, t, SLAB_SIZES[t], Address(p), n, n - 1, SetBit(NoBits(), 0)), p, Slab(SLAB_SIZES[t], {0}))
  {
    ZeroHasNoBits(NoBits());
    SetBitAdds(NoBits(), 0);
  }

  lemma AllUsedIsFull(s: Slab)
    requires s.size > 0 && s.used <= Upto(FRAME_SIZE / s.size)
    ensures (forall j :: 0 <= j < FRAME_SIZE / s.size ==> j in s.used) ==> Full(s)
  {
  }

  /** All pages before position i are full. */
  ghost predicate FirstWithRoom(pages: seq<int>, slabs: Slabs, i: nat) {
    i < |pages| && forall j :: 0 <= j < i ==> pages[j] in slabs && Full(slabs[pages[j]])
  }

  /** Chunk c is the lowest one not in use. */
  ghost predicate FirstUnused(s: Slab, c: int) {
    s.size > 0 && 0 <= c < FRAME_SIZE / s.size && c !in s.used && forall i :: 0 <= i < c ==> i in s.used
  }

  /** Page p gave back the chunk at `address`, the whole page with the last one; if no
      chunk in use begins there nothing changed. */
  ghost predicate ChunkFreed(slabs: Slabs, live: Blocks, extents: map<int, int>, p: int, address: int,
                             slabs': Slabs, live': Blocks, extents': map<int, int>)
  {
    if p in slabs && slabs[p].size > 0 && address in extents && Address(p) <= address < Address(p) + FRAME_SIZE then
      var c := (address - Address(p)) / slabs[p].size;
      && extents' == extents - {address}
      && (slabs[p].used == {c} ==> live' == live - {p} && slabs' == slabs - {p})
      && (slabs[p].used != {c} ==> live' == live && slabs' == slabs[p := Slab(slabs[p].size, slabs[p].used - {c})])
    else
      slabs' == slabs && live' == live && extents' == extents
  }

  /** Live blocks stay live, and stay whole or cut as they were. */
  ghost predicate KeepsBlocks(live: Blocks, slabs: Slabs, live': Blocks, slabs': Slabs) {
    forall p :: p in live ==> p in live' && live'[p] == live[p] && (p in slabs' <==> p in slabs)
  }

  /** The null pointer if no run of the order for this size is left; else the address
      of such a run, which is now a live block and an extent in use. */
  ghost predicate BlockGiven(size: nat, ptr: nat, maxOrder: nat, unused: set<int>, live: Blocks, extents: map<int, int>,
                             live': Blocks, extents': map<int, int>)
  {
    var order, r := LeastOrder(FramesFor(size)), ToInt(AddressToIndex(ptr));
    && (ptr == NULL <==> order > maxOrder || forall i :: !FreeRun(unused, i, order))
    && (ptr == NULL ==> live' == live && extents' == extents)
    && (ptr != NULL ==> ptr == Address(r) && FreeRun(unused, r, order)
                        && r !in live && live' == live[r := order]
                        && ptr !in extents && extents' == extents[ptr := Pow2(order) * FRAME_SIZE])
  }

  /** What is in use after a pointer has been released: through any address that leads to
      the first frame of a whole block, also one that only does so because the index is cut
      to 32 bits, that block goes; else the extent that begins there, if one does. */
  ghost function Released(extents: map<int, int>, ptr: nat): map<int, int> {
    var a := Address(ToInt(AddressToIndex(ptr)));
    if ptr == NULL then extents
    else if a in extents && extents[a] >= FRAME_SIZE then extents - {a}
    else extents - {ptr}
  }

  class Heap {
    const buddies: Buddies
    const frames: array<SlabFrame>
    const marks: array<PageMark>
    const classes: Links
    ghost var slabs: Slabs
    // Every byte extent handed out and not given back: start address to length.
    ghost var extents: map<int, int>

    ghost function Repr(): set<object> {
      {this, frames, marks, classes, classes.next, classes.prev, classes.head,
       buddies, buddies.status, buddies.allocatedOrder,
       buddies.links, buddies.links.next, buddies.links.prev, buddies.links.head}
    }

    /** No array of the class lists is one of the buddy system's. */
    ghost predicate Separate(a: array<int>) {
      && a != buddies.status && a != buddies.allocatedOrder
      && a != buddies.links.next && a != buddies.links.prev && a != buddies.links.head
    }

    ghost predicate Shape() {
      && buddies.Shape() && classes.Shape()
      && buddies.total < 0x8000_0000
      && frames.Length == buddies.total && marks.Length == buddies.total
      && classes.nodes == buddies.total && classes.count == SLAB_TYPE
      && classes != buddies.links
      && Separate(classes.next) && Separate(classes.prev) && Separate(classes.head)
    }

    ghost predicate Valid()
      reads Repr()
    {
      && Shape()
      && buddies.Valid() && classes.Valid() && classes.stale == {}
      && Described(frames[..], marks[..], classes.lists, slabs)
      && SlabsOk(buddies.live, slabs)
      && Listed(extents, buddies.live, slabs)
    }

    constructor (buddies: Buddies)
      requires buddies.Shape() && buddies.total < 0x8000_0000
      ensures this.buddies == buddies && Shape()
      ensures fresh({this, frames, marks, classes, classes.next, classes.prev, classes.head})
    {
      this.buddies := buddies;
      frames := new SlabFrame[buddies.total](i => UnusedSlab());
      marks := new PageMark[buddies.total](i => PageMark(NIL, false));
      classes := new Links(buddies.total, SLAB_TYPE);
      slabs, extents := map[], map[];
    }

    /** What belongs to the chunk layer is not part of the buddy system. */
    lemma Outside()
      requires Shape()
      ensures this !in buddies.Repr() && (frames as object) !in buddies.Repr() && (marks as object) !in buddies.Repr()
      ensures classes !in buddies.Repr() && classes.next !in buddies.Repr()
      ensures classes.prev !in buddies.Repr() && classes.head !in buddies.Repr()
    {
    }

    /** Boot: carves the unreserved frames and empties the chunk layer. */
    method Init()
      requires Shape()
      modifies Repr()
      ensures Valid() && extents == map[] && slabs == map[] && buddies.live == map[]
      ensures buddies.reserved == set f | 0 <= f < buddies.total && old(buddies.status[f]) == RESERVED
    {
      hide Buddies.Holding, Links.Valid, Canonical;
      Outside();
      buddies.Init();
      classes.Reset();
      for i := 0 to buddies.total
        invariant Shape() && buddies.Valid() && classes.Valid() && classes.stale == {}
        invariant classes.lists == seq(SLAB_TYPE, t => []) && buddies.live == map[]
        invariant buddies.reserved == set f | 0 <= f < buddies.total && old(buddies.status[f]) == RESERVED
        invariant forall p :: 0 <= p < i ==> frames[p] == UnusedSlab() && marks[p] == PageMark(NIL, false)
      {
        frames[i] := UnusedSlab();
        marks[i] := PageMark(NIL, false);
      }
      slabs, extents := map[], map[];
    }

    lemma Facts()
      requires Valid()
      ensures Canonical(buddies.total, buddies.maxOrder, buddies.reserved, buddies.live, buddies.free)
      ensures Apart(buddies.live) && SlabsOk(buddies.live, slabs)
      ensures forall a :: a in extents ==> IsExtent(buddies.live, slabs, a, extents[a])
    {
      FreeAreApart(buddies.live, buddies.free);
      hide Linked, Coupled, Described, IsExtent;
    }

    lemma ShapeOf()
      requires Valid()
      ensures Shape()
    {
    }

    lemma Bounded()
      requires Valid()
      ensures buddies.total < 0x8000_0000
    {
    }

    lemma InUse(p: int)
      requires Valid() && p in slabs
      ensures 0 <= p < buddies.total && p in buddies.live && buddies.live[p] == 0
    {
      buddies.InRange(p);
    }

    lemma PageFacts(p: int)
      requires Valid() && p in slabs
      ensures 0 <= p < buddies.total && p in buddies.live && buddies.live[p] == 0
      ensures Describes(frames[p], p, slabs[p]) && marks[p] == PageMark(p, true)
      ensures frames[p].startAddress == Address(p) && frames[p].slabSize == slabs[p].size
      ensures frames[p].totalSlabs == FRAME_SIZE / slabs[p].size
      ensures |frames[p].bitmap| == BITMAP_BYTES && Bits(frames[p].bitmap) == slabs[p].used
      ensures IsClass(slabs[p].size) && SlabOk(slabs[p])
      ensures slabs[p].used <= Upto(FRAME_SIZE / slabs[p].size)
      ensures 2 <= FRAME_SIZE / slabs[p].size <= 8 * BITMAP_BYTES
      ensures frames[p].freeSlabs >= 0
      ensures frames[p].freeSlabs == 0 <==> Full(slabs[p])
    {
      hide Linked, Canonical, Coupled, Listed;
      InUse(p);
      DescribedOne(frames[..], marks[..], classes.lists, slabs, p);
      ClassDivides(slabs[p].size);
      SomeUnused(slabs[p].used, FRAME_SIZE / slabs[p].size);
    }

    /** The lowest unused chunk of a cut page, or -1 if its count says there is none. */
    method FindInPage(p: nat) returns (c: int)
      requires Valid() && p in slabs
      ensures c == -1 ==> Full(slabs[p])
      ensures c != -1 ==> FirstUnused(slabs[p], c)
    {
      hide Linked, Canonical, Coupled, Described, Listed, SlabsOk;
      PageFacts(p);
      if frames[p].freeSlabs > 0 {
        AllUsedIsFull(slabs[p]);
        c := FirstClear(frames[p].bitmap, frames[p].totalSlabs);
        return;
      }
      return -1;
    }

    lemma OnClassList(t: nat, p: int)
      requires Valid() && t < SLAB_TYPE && p in classes.lists[t]
      ensures p in slabs && slabs[p].size == SLAB_SIZES[t] && 0 <= p < buddies.total
    {
      hide Linked, Canonical, Coupled, Listed;
      InUse(p);
    }

    /** The first page of the class that still has room and its first unused chunk. */
    method FindChunk(t: nat) returns (p: int, c: int)
      requires Valid() && t < SLAB_TYPE - 1
      ensures p == NIL ==> forall q :: q in classes.lists[t] ==> q in slabs && Full(slabs[q])
      ensures p != NIL ==> exists i: nat :: FirstWithRoom(classes.lists[t], slabs, i) && p == classes.lists[t][i]
      ensures p != NIL ==> p in classes.lists[t] && p in slabs && p >= 0 && FirstUnused(slabs[p], c)
    {
      hide Linked, Canonical, Coupled, Described, Listed, SlabsOk, Full, FirstUnused;
      p := classes.head[t];
      ghost var i := 0;
      classes.HeadIsFirst(t);
      while p != NIL
        invariant 0 <= i <= |classes.lists[t]| && p == At(classes.lists[t], i)
        invariant forall j :: 0 <= j < i ==> classes.lists[t][j] in slabs && Full(slabs[classes.lists[t][j]])
        decreases |classes.lists[t]| - i
      {
        OnClassList(t, p);
        c := FindInPage(p);
        if c != -1 {
          assert FirstWithRoom(classes.lists[t], slabs, i);
          return;
        }
        classes.NextIs(t, i);
        p := classes.next[p];
        i := i + 1;
      }
      if i < |classes.lists[t]| {
        classes.NextIs(t, i);
      }
      c := -1;
    }

    /** Marks an unused chunk of a cut page as used. */
    method TakeChunk(p: nat, c: nat) returns (addr: nat)
      requires Valid() && p in slabs && FirstUnused(slabs[p], c)
      modifies this`slabs, this`extents, frames
      ensures Valid() && addr == Address(p) + c * slabs[p].size
      ensures slabs == old(slabs)[p := Slab(old(slabs)[p].size, old(slabs)[p].used + {c})]
      ensures addr !in old(extents) && extents == old(extents)[addr := slabs[p].size]
    {
      hide Buddies.Valid, Links.Valid, Described, Listed, SlabsOk, Full, Describes, Upto, FirstUnused;
      Outside();
      TakeFacts(p, c);
      ghost var fs := frames[..];
      var d := frames[p];
      addr := d.startAddress + c * d.slabSize;
      frames[p] := d.(bitmap := SetBit(d.bitmap, c), freeSlabs := d.freeSlabs - 1);
      slabs := slabs[p := Slab(slabs[p].size, slabs[p].used + {c})];
      extents := extents[addr := slabs[p].size];
      assert frames[..] == fs[p := frames[p]];
    }

    lemma TakeFacts(p: nat, c: nat)
      requires Valid() && p in slabs && FirstUnused(slabs[p], c)
      ensures p < buddies.total && c / 8 < |frames[p].bitmap|
      ensures var s, d := slabs[p], frames[p];
        var slabs' := slabs[p := Slab(s.size, s.used + {c})];
        var d' := d.(bitmap := SetBit(d.bitmap, c), freeSlabs := d.freeSlabs - 1);
        var a := d.startAddress + c * d.slabSize;
        && a == Address(p) + c * s.size && a >= 0 && a !in extents
        && SlabsOk(buddies.live, slabs')
        && Described(frames[..][p := d'], marks[..], classes.lists, slabs')
        && Listed(extents[a := s.size], buddies.live, slabs')
    {
      hide Linked, Canonical, Coupled, Described, Describes, Upto, Full, Listed, IsExtent, SlabsOk, SetBit,
           Buddies.Holding, Links.Valid;
      PageFacts(p);
      var s, d := slabs[p], frames[p];
      DescribesTake(d, p, s, c);
      DescribedChunk(frames[..], marks[..], classes.lists, slabs, p,
                     d.(bitmap := SetBit(d.bitmap, c), freeSlabs := d.freeSlabs - 1), s.used + {c});
      TakeListed(p, c);
    }

    lemma TakeListed(p: nat, c: nat)
      requires Valid() && p in slabs && FirstUnused(slabs[p], c)
      ensures var slabs' := slabs[p := Slab(slabs[p].size, slabs[p].used + {c})];
        var a := Address(p) + c * slabs[p].size;
        && a >= 0 && a !in extents && SlabsOk(buddies.live, slabs')
        && Listed(extents[a := slabs[p].size], buddies.live, slabs')
    {
      hide Linked, Canonical, Coupled, Described;
      var s := slabs[p];
      var slabs' := slabs[p := Slab(s.size, s.used + {c})];
      var x := Address(p) + c * s.size;
      InUse(p);
      ChunkBounds(s.size, c);
      assert x !in extents by {
        if x in extents {
          ChunkIsFresh(buddies.live, slabs, p, c, extents[x]);
        }
      }
      forall a, n ensures IsExtent(buddies.live, slabs', a, n)
        <==> IsExtent(buddies.live, slabs, a, n) || (a == x && n == s.size)
      {
        AddChunk(buddies.live, slabs, p, c, a, n);
      }
      hide IsExtent;
      ListedAdd(extents, buddies.live, slabs, buddies.live, slabs', x, s.size);
    }

    /** Block r, of order k, has been taken from the buddy system but is not in use yet. */
    ghost predicate Pending(r: int, k: nat)
      reads Repr()
    {
      && Shape()
      && buddies.Valid() && classes.Valid() && classes.stale == {}
      && Described(frames[..], marks[..], classes.lists, slabs)
      && r in buddies.live && buddies.live[r] == k && r !in slabs
      && SlabsOk(buddies.live - {r}, slabs)
      && Listed(extents, buddies.live - {r}, slabs)
    }

    method TakeBlock(order: nat) returns (r: int)
      requires Valid()
      modifies Repr()
      ensures slabs == old(slabs) && extents == old(extents)
      ensures buddies.reserved == old(buddies.reserved)
      ensures r == -1 <==> order > buddies.maxOrder || forall i :: !FreeRun(old(buddies.Unused()), i, order)
      ensures r == -1 ==> Valid() && buddies.live == old(buddies.live)
      ensures r != -1 ==> Pending(r, order) && 0 <= r < buddies.total && r !in old(buddies.live)
      ensures r != -1 ==> FreeRun(old(buddies.Unused()), r, order)
      ensures r != -1 ==> buddies.live == old(buddies.live)[r := order]
    {
      hide Buddies.Holding, Links.Valid, Described, SlabsOk, Listed, FreeRun;
      ghost var live := buddies.live;
      r := buddies.Allocate(order);
      if r != -1 {
        FreeRunHead(buddies.total, old(buddies.reserved), live, r, order);
        assert live[r := order] - {r} == live;
        NoSlabAt(live, r);
      }
    }

    lemma NoSlabAt(live: Blocks, r: int)
      requires SlabsOk(live, slabs) && r !in live
      ensures r !in slabs
    {
    }

    /** Cuts the pending page into chunks of class t and hands out the first one. */
    method CutPage(r: nat, t: nat) returns (addr: nat)
      requires Pending(r, 0) && t < SLAB_TYPE - 1
      modifies this`slabs, this`extents, frames, marks, classes, classes.next, classes.prev, classes.head
      ensures Valid() && addr == Address(r)
      ensures slabs == old(slabs)[r := Slab(SLAB_SIZES[t], {0})]
      ensures addr !in old(extents) && extents == old(extents)[addr := SLAB_SIZES[t]]
    {
      hide Buddies.Holding, Links.Valid, Described, SlabsOk, Listed;
      Outside();
      CutFacts(r, t);
      ghost var fs, ms, lists := frames[..], marks[..], classes.lists;
      var address := IndexToAddress(r);
      if frames[r].available != 1 || frames[r].slabSize != -1 {
        assert false;
      }
      marks[r] := PageMark(r, true);
      var size := SLAB_SIZES[t];
      var d := SlabFrame(0, t, size, address, FRAME_SIZE / size, FRAME_SIZE / size, NoBits());
      classes.PushFront(t, r);
      d := d.(bitmap := SetBit(d.bitmap, 0), freeSlabs := d.freeSlabs - 1);
      frames[r] := d;
      addr := d.startAddress;
      slabs := slabs[r := Slab(size, {0})];
      extents := extents[addr := size];
      assert frames[..] == fs[r := frames[r]] && marks[..] == ms[r := marks[r]];
    }

    lemma CutFacts(r: nat, t: nat)
      requires Pending(r, 0) && t < SLAB_TYPE - 1
      ensures r < buddies.total && !OnSome(classes.lists, r) && frames[r] == UnusedSlab()
      ensures IndexToAddress(r) == Address(r) && Address(r) !in extents
      ensures SLAB_SIZES[t] > 0
      ensures var size := SLAB_SIZES[t];
        var n := FRAME_SIZE / size;
        var d := SlabFrame(0, t, size, Address(r), n, n - 1, SetBit(NoBits(), 0));
        var slabs' := slabs[r := Slab(size, {0})];
        && SlabsOk(buddies.live, slabs')
        && Described(frames[..][r := d], marks[..][r := PageMark(r, true)],
                     classes.lists[t := [r] + classes.lists[t]], slabs')
        && Listed(extents[Address(r) := size], buddies.live, slabs')
    {
      hide Linked, Canonical, Coupled, Described, Listed, IsExtent;
      buddies.InRange(r);
      IndexOfAddress(r, 0);
      DescribedOne(frames[..], marks[..], classes.lists, slabs, r);
      var size := SLAB_SIZES[t];
      assert IsClass(size);
      ClassDivides(size);
      FirstChunk(r, t);
      DescribedNew(frames[..], marks[..], classes.lists, slabs, r, t,
                   SlabFrame(0, t, size, Address(r), FRAME_SIZE / size, FRAME_SIZE / size - 1, SetBit(NoBits(), 0)),
                   Slab(size, {0}));
      CutListed(r, t);
    }

    lemma CutListed(r: nat, t: nat)
      requires Pending(r, 0) && t < SLAB_TYPE - 1
      ensures Address(r) !in extents
      ensures Listed(extents[Address(r) := SLAB_SIZES[t]], buddies.live, slabs[r := Slab(SLAB_SIZES[t], {0})])
    {
      hide Linked, Canonical, Coupled, Described;
      var live := buddies.live - {r};
      var size := SLAB_SIZES[t];
      var slabs' := slabs[r := Slab(size, {0})];
      assert live[r := 0] == buddies.live;
      assert Address(r) !in extents by {
        if Address(r) in extents {
          PageIsFresh(live, slabs, r, extents[Address(r)]);
        }
      }
      forall a, n ensures IsExtent(buddies.live, slabs', a, n)
        <==> IsExtent(live, slabs, a, n) || (a == Address(r) && n == size)
      {
        AddSlab(live, slabs, r, size, a, n);
      }
      hide IsExtent;
      ListedAdd(extents, live, slabs, buddies.live, slabs', Address(r), size);
    }

    /** Every cut page of the class has all its chunks in use. */
    ghost predicate NoRoom(t: nat)
      requires t < SLAB_TYPE
      reads this
    {
      forall q :: q in slabs && slabs[q].size == SLAB_SIZES[t] ==> Full(slabs[q])
    }

    lemma NoRoomOnList(t: nat)
      requires Valid() && t < SLAB_TYPE
      requires forall q :: q in classes.lists[t] ==> q in slabs && Full(slabs[q])
      ensures NoRoom(t)
    {
      hide Linked, Canonical, Coupled, Listed, Full;
      forall q | q in slabs && slabs[q].size == SLAB_SIZES[t] ensures Full(slabs[q]) {
        InUse(q);
        DescribedOne(frames[..], marks[..], classes.lists, slabs, q);
      }
    }

    /** A chunk from the first page of its class that has one, else from a new page. */
    method SlabAllocate(size: nat) returns (addr: int)
      requires Valid() && size < 0x1_0000_0000
      modifies Repr()
      ensures Valid() && buddies.reserved == old(buddies.reserved)
      ensures addr == -1 <==>
        size > 2048 || (old(NoRoom(ClassFrom(size, 0))) && forall f :: f !in old(buddies.Unused()))
      ensures addr == -1 ==> slabs == old(slabs) && extents == old(extents) && buddies.live == old(buddies.live)
      ensures addr != -1 ==> addr >= BASE && addr !in old(extents)
      ensures addr != -1 ==> extents == old(extents)[addr := SLAB_SIZES[ClassFrom(size, 0)]]
      ensures addr != -1 ==> if old(NoRoom(ClassFrom(size, 0)))
                             then buddies.live.Keys > old(buddies.live).Keys && slabs.Keys > old(slabs).Keys
                             else buddies.live == old(buddies.live) && slabs.Keys == old(slabs).Keys
      ensures KeepsBlocks(old(buddies.live), old(slabs), buddies.live, slabs)
    {
      hide Buddies.Holding, Links.Valid, Described, SlabsOk, Listed, Full, FirstUnused, FirstWithRoom;
      ClassFound(size);
      var t := FindClass(size);
      if t == -1 {
        return -1;
      }
      var p, c := FindChunk(t);
      if p != NIL {
        OnClassList(t, p);
        HasRoom(slabs[p], c);
        addr := TakeChunk(p, c);
        return;
      }
      NoRoomOnList(t);
      assert buddies.Unused() == old(buddies.Unused()) && NoRoom(t) == old(NoRoom(t));
      addr := ChunkFromNewPage(t);
    }

    /** The first class whose chunks are large enough, or -1. */
    static method FindClass(size: nat) returns (t: int)
      ensures t == ClassFrom(size, 0)
    {
      for i := 0 to SLAB_TYPE
        invariant ClassFrom(size, 0) == ClassFrom(size, i)
      {
        if SLAB_SIZES[i] >= size {
          return i;
        }
      }
      return -1;
    }

    method ChunkFromNewPage(t: nat) returns (addr: int)
      requires Valid() && t < SLAB_TYPE - 1
      modifies Repr()
      ensures Valid() && buddies.reserved == old(buddies.reserved)
      ensures addr == -1 <==> forall f :: f !in old(buddies.Unused())
      ensures addr == -1 ==> slabs == old(slabs) && extents == old(extents) && buddies.live == old(buddies.live)
      ensures addr != -1 ==> addr >= BASE && addr !in old(extents) && extents == old(extents)[addr := SLAB_SIZES[t]]
      ensures addr != -1 ==> buddies.live.Keys > old(buddies.live).Keys && slabs.Keys > old(slabs).Keys
      ensures KeepsBlocks(old(buddies.live), old(slabs), buddies.live, slabs)
    {
      hide Buddies.Holding, Links.Valid, Described, SlabsOk, Listed, FreeRun;
      NoFrameLeft(buddies.Unused());
      ghost var live, cut := buddies.live, slabs;
      var r := TakeBlock(0);
      if r == -1 {
        return -1;
      }
      assert r in buddies.live && r !in live;
      addr := CutPage(r, t);
      assert r in slabs && r !in cut;
    }

    lemma HasRoom(s: Slab, c: int)
      requires FirstUnused(s, c)
      ensures !Full(s) && c >= 0
    {
    }

    /** A chunk, or the null pointer. */
    method MallocS(size: nat) returns (ptr: nat)
      requires Valid() && size < 0x1_0000_0000
      modifies Repr()
      ensures Valid() && buddies.reserved == old(buddies.reserved)
      ensures ptr == NULL <==>
        size > 2048 || (old(NoRoom(ClassFrom(size, 0))) && forall f :: f !in old(buddies.Unused()))
      ensures ptr == NULL ==> slabs == old(slabs) && extents == old(extents) && buddies.live == old(buddies.live)
      ensures ptr != NULL ==> ptr >= BASE && ptr !in old(extents) && extents.Keys == old(extents).Keys + {ptr}
      ensures ptr != NULL ==> extents == old(extents)[ptr := SLAB_SIZES[ClassFrom(size, 0)]]
      ensures ptr != NULL ==> size <= extents[ptr] && (extents[ptr] == 8 || extents[ptr] / 2 < size)
      ensures ptr != NULL ==> extents[ptr] in [8, 16, 32, 64, 128, 256, 512, 1024, 2048]
      ensures KeepsBlocks(old(buddies.live), old(slabs), buddies.live, slabs)
    {
      hide Buddies.Holding, Links.Valid, Described, SlabsOk, Listed, Full;
      var addr := SlabAllocate(size);
      if addr == -1 {
        return NULL;
      }
      ClassIsLeast(size);
      ptr := addr;
    }

    /** A whole block, or the null pointer. The block is as long as requested unless
        rounding the request up to frames wrapped around. */
    method MallocB(size: nat) returns (ptr: nat)
      requires Valid() && size < 0x1_0000_0000
      modifies Repr()
      ensures Valid() && buddies.reserved == old(buddies.reserved) && slabs == old(slabs)
      ensures BlockGiven(size, ptr, buddies.maxOrder, old(buddies.Unused()), old(buddies.live), old(extents),
                         buddies.live, extents)
      ensures ptr != NULL ==> ptr >= BASE && ptr in extents
      ensures ptr != NULL ==> (size <= extents[ptr] <==> size <= 0x1_0000_0000 - FRAME_SIZE)
      ensures ptr != NULL ==> extents[ptr] <= 0x1_0000_0000
    {
      hide Buddies.Holding, Links.Valid, Described, SlabsOk, Listed, FreeRun, LeastOrder;
      Outside();
      var order := SizeToOrder(size);
      OrderSuffices(size);
      BlockIsBounded(size);
      assert buddies.Unused() == old(buddies.Unused());
      var r := TakeBlock(order);
      if r == -1 {
        return NULL;
      }
      IndexOfAddress(r, 0);
      ptr := IndexToAddress(r);
      BlockListed(r, order);
      extents := extents[ptr := Pow2(order) * FRAME_SIZE];
    }

    lemma BlockListed(r: int, k: nat)
      requires Pending(r, k)
      ensures Address(r) !in extents && SlabsOk(buddies.live, slabs)
      ensures Listed(extents[Address(r) := Pow2(k) * FRAME_SIZE], buddies.live, slabs)
    {
      hide Linked, Canonical, Coupled, Described;
      var live := buddies.live - {r};
      assert live[r := k] == buddies.live;
      assert Address(r) !in extents by {
        if Address(r) in extents {
          PageIsFresh(live, slabs, r, extents[Address(r)]);
        }
      }
      forall a, n ensures IsExtent(buddies.live, slabs, a, n)
        <==> IsExtent(live, slabs, a, n) || (a == Address(r) && n == Pow2(k) * FRAME_SIZE)
      {
        AddBlock(live, slabs, r, k, a, n);
      }
      hide IsExtent;
      ListedAdd(extents, live, slabs, buddies.live, slabs, Address(r), Pow2(k) * FRAME_SIZE);
    }

    /** Whether a request to the general entry will be met. */
    ghost predicate CanMalloc(size: nat)
      reads this, buddies
    {
      if size == 0 then
        !NoRoom(0) || exists f :: f in buddies.Unused()
      else
        var order := LeastOrder(FramesFor(size));
        order <= buddies.maxOrder && exists i :: FreeRun(buddies.Unused(), i, order)
    }

    /** The general entry. Its threshold is the last slot of the size table, zero, so
        only requests of no bytes ever get a chunk. */
    method KMalloc(size: nat) returns (ptr: nat)
      requires Valid() && size < 0x1_0000_0000
      modifies Repr()
      ensures Valid() && buddies.reserved == old(buddies.reserved)
      ensures size > 0 ==> slabs == old(slabs)
      ensures size > 0 ==> BlockGiven(size, ptr, buddies.maxOrder, old(buddies.Unused()), old(buddies.live),
                                      old(extents), buddies.live, extents)
      ensures ptr == NULL <==> !old(CanMalloc(size))
      ensures ptr == NULL ==> extents == old(extents)
      ensures ptr != NULL ==> ptr >= BASE && ptr !in old(extents) && ptr in extents
      ensures ptr != NULL ==> extents == old(extents)[ptr := extents[ptr]]
      ensures KeepsBlocks(old(buddies.live), old(slabs), buddies.live, slabs)
      ensures ptr != NULL ==> (size <= extents[ptr] <==> size <= 0x1_0000_0000 - FRAME_SIZE)
      ensures ptr != NULL ==> extents[ptr] <= 0x1_0000_0000 && (size == 0 ==> extents[ptr] == SLAB_SIZES[0])
    {
      hide Buddies.Holding, Links.Valid, Described, SlabsOk, Listed, FreeRun, LeastOrder, Full;
      if size <= SLAB_SIZES[SLAB_TYPE - 1] {
        assert ClassFrom(0, 0) == 0;
        ptr := MallocS(size);
      } else {
        ptr := MallocB(size);
      }
    }

    /** Gives chunk c of page p back; the page itself goes back to the buddy system
        exactly when this was its last chunk in use. */
    method ReleaseChunk(p: nat, c: nat)
      requires Valid() && p in slabs && c in slabs[p].used
      modifies Repr()
      ensures Valid() && buddies.reserved == old(buddies.reserved)
      ensures extents == old(extents) - {Address(p) + c * old(slabs)[p].size}
      ensures old(slabs)[p].used != {c} ==> buddies.live == old(buddies.live)
      ensures old(slabs)[p].used != {c} ==> slabs == old(slabs)[p := Slab(old(slabs)[p].size, old(slabs)[p].used - {c})]
      ensures old(slabs)[p].used == {c} ==> buddies.live == old(buddies.live) - {p} && slabs == old(slabs) - {p}
    {
      hide Buddies.Holding, Links.Valid, Described, SlabsOk, Listed;
      Outside();
      GiveFacts(p, c);
      ghost var s := slabs[p];
      ghost var fs := frames[..];
      var d := frames[p];
      var d' := d.(bitmap := ClearBit(d.bitmap, c), freeSlabs := d.freeSlabs + 1);
      if d'.freeSlabs == d'.totalSlabs {
        DropPage(p, c, d');
      } else {
        frames[p] := d';
        assert frames[..] == fs[p := d'];
        slabs := slabs[p := Slab(s.size, s.used - {c})];
        extents := extents - {Address(p) + c * s.size};
      }
    }

    lemma GiveFacts(p: nat, c: nat)
      requires Valid() && p in slabs && c in slabs[p].used
      ensures p < buddies.total && c / 8 < |frames[p].bitmap|
      ensures frames[p].freeSlabs + 1 == frames[p].totalSlabs <==> slabs[p].used == {c}
      ensures var s, d := slabs[p], frames[p];
        var slabs' := slabs[p := Slab(s.size, s.used - {c})];
        var d' := d.(bitmap := ClearBit(d.bitmap, c), freeSlabs := d.freeSlabs + 1);
        && (s.used != {c} ==> SlabsOk(buddies.live, slabs'))
        && Described(frames[..][p := d'], marks[..], classes.lists, slabs')
        && Listed(extents - {Address(p) + c * s.size}, buddies.live, slabs')
    {
      hide Linked, Canonical, Coupled, Described, Upto, Full, Listed, IsExtent;
      PageFacts(p);
      var s, d := slabs[p], frames[p];
      OneUsed(s.used, c);
      DescribesGive(d, p, s, c);
      DescribedChunk(frames[..], marks[..], classes.lists, slabs, p,
                     d.(bitmap := ClearBit(d.bitmap, c), freeSlabs := d.freeSlabs + 1), s.used - {c});
      GiveListed(p, c);
    }

    lemma OneUsed(used: set<int>, c: int)
      requires c in used
      ensures |used| == 1 <==> used == {c}
      ensures used != {c} ==> used - {c} != {}
    {
      assert |used| == |used - {c}| + 1;
    }

    lemma GiveListed(p: nat, c: nat)
      requires Valid() && p in slabs && c in slabs[p].used
      ensures Listed(extents - {Address(p) + c * slabs[p].size}, buddies.live,
                     slabs[p := Slab(slabs[p].size, slabs[p].used - {c})])
    {
      hide Linked, Canonical, Coupled, Described;
      var s := slabs[p];
      var slabs' := slabs[p := Slab(s.size, s.used - {c})];
      var x := Address(p) + c * s.size;
      forall a, n ensures IsExtent(buddies.live, slabs', a, n) <==> IsExtent(buddies.live, slabs, a, n) && a != x {
        RemoveChunk(buddies.live, slabs, p, c, a, n);
      }
      hide IsExtent;
      ListedRemove(extents, buddies.live, slabs, buddies.live, slabs', x);
    }

    /** The page of the last chunk leaves its class list and goes back. */
    method DropPage(p: nat, c: nat, d: SlabFrame)
      requires Valid() && p in slabs && slabs[p].used == {c}
      requires p < buddies.total && d.slabType == frames[p].slabType && d.startAddress == frames[p].startAddress
      modifies Repr()
      ensures Valid() && buddies.reserved == old(buddies.reserved)
      ensures extents == old(extents) - {Address(p) + c * old(slabs)[p].size}
      ensures buddies.live == old(buddies.live) - {p} && slabs == old(slabs) - {p}
    {
      hide Buddies.Holding, Links.Valid, Described, SlabsOk, Listed, Without, OnSome;
      ghost var x := Address(p) + c * slabs[p].size;
      ghost var i := DropFacts(p, c);
      ReturnPage(p, d, i);
      extents := extents - {x};
      slabs := slabs - {p};
    }

    /** Page p goes back to the buddy system and off its class list. */
    method ReturnPage(p: nat, d: SlabFrame, ghost i: nat)
      requires Shape() && buddies.Valid() && classes.Valid() && classes.stale == {}
      requires p < buddies.total && p in buddies.live && buddies.live[p] <= buddies.maxOrder
      requires d.startAddress >= 0 && AddressToIndex(d.startAddress) == p
      requires 0 <= d.slabType < SLAB_TYPE && i < |classes.lists[d.slabType]| && classes.lists[d.slabType][i] == p
      requires !OnSome(classes.lists[d.slabType := Without(classes.lists[d.slabType], i)], p)
      modifies frames, marks, buddies.Repr(), classes, classes.next, classes.prev, classes.head
      ensures Shape() && buddies.Valid() && classes.Valid() && classes.stale == {}
      ensures buddies.reserved == old(buddies.reserved) && buddies.live == old(buddies.live) - {p}
      ensures classes.lists == old(classes.lists)[d.slabType := Without(old(classes.lists)[d.slabType], i)]
      ensures frames[..] == old(frames[..])[p := UnusedSlab()] && marks[..] == old(marks[..])[p := PageMark(NIL, false)]
    {
      hide Buddies.Holding, Links.Valid, Without, OnSome;
      Outside();
      frames[p] := d;
      var block := AddressToIndex(d.startAddress);
      marks[block] := PageMark(NIL, false);
      buddies.Free(block);
      UnlinkPage(p, d.slabType, i);
    }

    /** Takes page p off its class list and resets its descriptor. */
    method UnlinkPage(p: nat, t: nat, ghost i: nat)
      requires Shape() && classes.Valid() && classes.stale == {}
      requires p < buddies.total && t < SLAB_TYPE && i < |classes.lists[t]| && classes.lists[t][i] == p
      requires !OnSome(classes.lists[t := Without(classes.lists[t], i)], p)
      modifies frames, classes, classes.next, classes.prev, classes.head
      ensures classes.Valid() && classes.stale == {}
      ensures classes.lists == old(classes.lists)[t := Without(old(classes.lists)[t], i)]
      ensures frames[..] == old(frames[..])[p := UnusedSlab()]
    {
      classes.Unlink(t, p, i);
      frames[p] := UnusedSlab();
      classes.Clear(p);
    }

    lemma DropFacts(p: nat, c: nat) returns (i: nat)
      requires Valid() && p in slabs && slabs[p].used == {c}
      ensures p < buddies.total && p in buddies.live && buddies.live[p] <= buddies.maxOrder
      ensures frames[p].startAddress >= 0 && AddressToIndex(frames[p].startAddress) == p
      ensures var t := frames[p].slabType;
        && 0 <= t < SLAB_TYPE && i < |classes.lists[t]| && classes.lists[t][i] == p
        && !OnSome(classes.lists[t := Without(classes.lists[t], i)], p)
        && SlabsOk(buddies.live - {p}, slabs - {p})
        && Described(frames[..][p := UnusedSlab()], marks[..][p := PageMark(NIL, false)],
                     classes.lists[t := Without(classes.lists[t], i)], slabs - {p})
        && Listed(extents - {Address(p) + c * slabs[p].size}, buddies.live - {p}, slabs - {p})
    {
      hide Linked, Canonical, Coupled, Described, Listed, IsExtent, Upto, Full;
      PageFacts(p);
      IndexOfAddress(p, 0);
      DescribedOne(frames[..], marks[..], classes.lists, slabs, p);
      var t := frames[p].slabType;
      i :| i < |classes.lists[t]| && classes.lists[t][i] == p;
      classes.NoneTwice(t);
      WithoutMembers(classes.lists[t], i);
      DescribedDrop(frames[..], marks[..], classes.lists, slabs, p, t, Without(classes.lists[t], i));
      DescribedOne(frames[..][p := UnusedSlab()], marks[..][p := PageMark(NIL, false)],
                   classes.lists[t := Without(classes.lists[t], i)], slabs - {p}, p);
      DropListed(p, c);
    }

    lemma DropListed(p: nat, c: nat)
      requires Valid() && p in slabs && slabs[p].used == {c}
      ensures Listed(extents - {Address(p) + c * slabs[p].size}, buddies.live - {p}, slabs - {p})
    {
      hide Linked, Canonical, Coupled, Described;
      var x := Address(p) + c * slabs[p].size;
      var live', slabs' := buddies.live - {p}, slabs - {p};
      forall a, n ensures IsExtent(live', slabs', a, n) <==> IsExtent(buddies.live, slabs, a, n) && a != x {
        RemoveSlab(buddies.live, slabs, p, c, a, n);
      }
      hide IsExtent;
      ListedRemove(extents, buddies.live, slabs, live', slabs', x);
    }

    /** Where an extent in use begins tells the frame it lies in, and what the frame holds. */
    lemma ExtentFrame(ptr: nat)
      requires Valid() && ptr in extents
      ensures BASE <= ptr < WORD
      ensures var i := ToInt(AddressToIndex(ptr));
        && 0 <= i < buddies.total && i in buddies.live && Address(i) <= ptr < Address(i) + FRAME_SIZE
        && (i !in slabs ==> ptr == Address(i) && extents[ptr] == Pow2(buddies.live[i]) * FRAME_SIZE)
        && (i in slabs ==> exists c :: ChunkExtent(slabs, i, c, ptr, extents[ptr]))
    {
      hide Linked, Canonical, Coupled, Described, IsExtent;
      assert IsExtent(buddies.live, slabs, ptr, extents[ptr]);
      var h := ExtentHome(buddies.live, slabs, ptr, extents[ptr]);
      buddies.InRange(h);
      IndexOfAddress(h, ptr - Address(h));
    }

    /** An address is that of a chunk in use exactly if it passes the checks made on release. */
    lemma ChunkChecks(p: nat, address: nat)
      requires Valid() && p in slabs && Address(p) <= address < Address(p) + FRAME_SIZE && slabs[p].size > 0
      ensures var offset := address - Address(p);
        && (address in extents <==> offset % slabs[p].size == 0 && offset / slabs[p].size in slabs[p].used)
        && (offset % slabs[p].size == 0 ==> address == Address(p) + (offset / slabs[p].size) * slabs[p].size)
    {
      hide Linked, Canonical, Coupled, Described, IsExtent;
      InUse(p);
      var size, offset := slabs[p].size, address - Address(p);
      var c := offset / size;
      Quotient(offset, size);
      if offset % size == 0 && c in slabs[p].used {
        assert ChunkExtent(slabs, p, c, address, size);
        InExtents(address, size);
      }
      if address in extents {
        ExtentFrame(address);
        IndexOfAddress(p, offset);
        var d :| ChunkExtent(slabs, p, d, address, extents[address]);
        ChunkBounds(size, d);
        QuotientOf(d, size);
      }
    }

    lemma InExtents(a: int, n: int)
      requires Valid() && exists p, c :: ChunkExtent(slabs, p, c, a, n)
      ensures a in extents
    {
      hide Linked, Canonical, Coupled, Described;
      assert IsExtent(buddies.live, slabs, a, n);
    }

    static lemma Quotient(x: nat, d: nat)
      requires d > 0
      ensures x % d == 0 ==> x == (x / d) * d
    {
    }

    static lemma QuotientOf(c: nat, d: nat)
      requires d > 0
      ensures (c * d) % d == 0 && (c * d) / d == c
    {
      var x := c * d;
      var q, r := x / d, x % d;
      assert x == q * d + r;
      if q < c {
        ProductOrder(q + 1, c, d);
      } else if c < q {
        ProductOrder(c + 1, q, d);
      }
    }

    /** Gives a chunk back; an address that is not that of a chunk in use is refused. */
    method SlabFree(p: nat, address: nat)
      requires Valid() && p in slabs
      modifies Repr()
      ensures Valid() && buddies.reserved == old(buddies.reserved)
      ensures ChunkFreed(old(slabs), old(buddies.live), old(extents), p, address, slabs, buddies.live, extents)
    {
      hide Buddies.Holding, Links.Valid, Described, SlabsOk, Listed, Full, Upto;
      PageFacts(p);
      var d := frames[p];
      if !(address >= d.startAddress && address < d.startAddress + FRAME_SIZE) {
        return;
      }
      ChunkChecks(p, address);
      var offset := address - d.startAddress;
      if offset % d.slabSize != 0 {
        return;
      }
      var index := offset / d.slabSize;
      if index >= d.totalSlabs {
        return;
      }
      assert Bit(d.bitmap, index) <==> index in slabs[p].used;
      if !Bit(d.bitmap, index) {
        return;
      }
      ReleaseChunk(p, index);
    }

    ghost predicate WholeBlock(i: int)
      reads this, buddies
    {
      i in buddies.live && i !in slabs
    }

    ghost predicate LeadsToBlock(ptr: nat)
      reads this, buddies
    {
      ptr != NULL && WholeBlock(ToInt(AddressToIndex(ptr)))
    }

    /** Gives a whole block back; a frame that is not the head of one is refused. */
    method FreeBlock(i: nat)
      requires Valid() && i < buddies.total && i !in slabs
      modifies Repr()
      ensures Valid() && buddies.reserved == old(buddies.reserved) && slabs == old(slabs)
      ensures old(WholeBlock(i)) ==> extents == old(extents) - {Address(i)} && buddies.live == old(buddies.live) - {i}
      ensures old(WholeBlock(i)) ==> Address(i) in old(extents)
      ensures !old(WholeBlock(i)) ==> extents == old(extents) && buddies.live == old(buddies.live)
    {
      hide Buddies.Holding, Links.Valid, Described, SlabsOk, Listed;
      Outside();
      buddies.LiveIsAllocated(i);
      if buddies.status[i] == ALLOCATED {
        FreeFacts(i);
        buddies.Free(i);
        extents := extents - {Address(i)};
      }
    }

    lemma FreeFacts(i: nat)
      requires Valid() && i in buddies.live && i !in slabs
      ensures Address(i) in extents && SlabsOk(buddies.live - {i}, slabs)
      ensures Listed(extents - {Address(i)}, buddies.live - {i}, slabs)
    {
      hide Linked, Canonical, Coupled, Described;
      var live' := buddies.live - {i};
      assert BlockExtent(buddies.live, slabs, i, Address(i), Pow2(buddies.live[i]) * FRAME_SIZE);
      assert IsExtent(buddies.live, slabs, Address(i), Pow2(buddies.live[i]) * FRAME_SIZE);
      forall a, n ensures IsExtent(live', slabs, a, n) <==> IsExtent(buddies.live, slabs, a, n) && a != Address(i) {
        RemoveBlock(buddies.live, slabs, i, a, n);
      }
      hide IsExtent;
      ListedRemove(extents, buddies.live, slabs, live', slabs, Address(i));
    }

    lemma NullIsFree()
      requires Valid()
      ensures NULL !in extents
    {
      if NULL in extents {
        ExtentFrame(NULL);
      }
    }

    /** A whole block is an extent in use, and its address leads back to its frame. */
    lemma BlockAddress(f: int)
      requires Valid() && WholeBlock(f)
      ensures 0 <= f < buddies.total && Address(f) in extents && Address(f) < WORD
      ensures ToInt(AddressToIndex(Address(f))) == f && LeadsToBlock(Address(f))
    {
      buddies.InRange(f);
      IndexOfAddress(f, 0);
      FreeFacts(f);
    }

    /** A frame holds a whole block exactly if an extent of a frame or more begins there. */
    lemma WholeBlockIff(i: nat)
      requires Valid() && i < 0x8000_0000
      ensures WholeBlock(i) <==> Address(i) in extents && extents[Address(i)] >= FRAME_SIZE
    {
      hide Linked, Canonical, Coupled, Described, Listed;
      IndexOfAddress(i, 0);
      if WholeBlock(i) {
        BlockAddress(i);
        ExtentFrame(Address(i));
      } else if Address(i) in extents {
        ExtentFrame(Address(i));
        PageFacts(i);
        ClassDivides(slabs[i].size);
      }
    }

    lemma FreeWhat(ptr: nat, block: nat)
      requires Valid() && block == ToInt(AddressToIndex(ptr))
      ensures block < buddies.total ==>
        marks[block] == if block in slabs then PageMark(block, true) else PageMark(NIL, false)
      ensures block >= buddies.total ==> !WholeBlock(block) && block !in slabs && ptr !in extents
      ensures ptr in extents ==> ptr != NULL && block in buddies.live
      ensures ptr in extents ==> Address(block) <= ptr < Address(block) + FRAME_SIZE
      ensures ptr in extents && block !in slabs ==> ptr == Address(block)
      ensures block in slabs ==> slabs[block].size > 0
    {
      hide Linked, Canonical, Coupled, Described, Listed;
      if block < buddies.total {
        DescribedOne(frames[..], marks[..], classes.lists, slabs, block);
      }
      if block in buddies.live {
        buddies.InRange(block);
      }
      if ptr in extents {
        ExtentFrame(ptr);
      }
    }

    /** Gives back whatever the pointer leads to: a whole block through any address
        in its first frame, a chunk through its own address only. */
    method KFree(ptr: nat)
      requires Valid() && ptr < WORD
      requires ptr == NULL || ToInt(AddressToIndex(ptr)) >= 0
      modifies Repr()
      ensures Valid() && buddies.reserved == old(buddies.reserved)
      ensures extents == Released(old(extents), ptr)
      ensures ptr in old(extents) ==> extents == old(extents) - {ptr}
      ensures ptr !in old(extents) ==> (extents == old(extents) <==> !old(LeadsToBlock(ptr)))
      ensures old(LeadsToBlock(ptr)) ==> var i := ToInt(AddressToIndex(ptr));
        extents == old(extents) - {Address(i)} && buddies.live == old(buddies.live) - {i} && slabs == old(slabs)
      ensures !old(LeadsToBlock(ptr)) ==>
        ChunkFreed(old(slabs), old(buddies.live), old(extents), ToInt(AddressToIndex(ptr)), ptr,
                   slabs, buddies.live, extents)
    {
      hide Buddies.Holding, Links.Valid, Described, SlabsOk, Listed;
      if ptr == NULL {
        NullIsFree();
        return;
      }
      var block := ToInt(AddressToIndex(ptr));
      FreeWhat(ptr, block);
      WholeBlockIff(block);
      if block < buddies.total {
        if marks[block].isSlabPage {
          SlabFree(marks[block].slabPtr, ptr);
        } else {
          FreeBlock(block);
        }
      }
    }
  }
}
