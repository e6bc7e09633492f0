/** Memory protection: what a process can reach is the memory of its own areas. */
module Protection {
  import opened Integers
  import opened PageFrames
  import opened Extents
  import opened KernelHeap
  import opened HeapRuns
  import opened PageTree
  import opened PageTables
  import opened AreaMaps
  import opened VirtualMemory
  import opened FirstTouches
  import opened AreaLists
  import opened Isolation

  /** Frame f lies in the memory of the area. */
  predicate InArea(a: Area, f: nat) {
    a.phys <= f * PAGE && f * PAGE + PAGE <= a.phys + a.size
  }

  predicate Held(areas: seq<Area>, f: nat) {
    exists i :: 0 <= i < |areas| && InArea(areas[i], f)
  }

  /** Every walk that finds a page finds one in the memory of an area. */
  ghost predicate Confined(areas: seq<Area>, walks: seq<Option<Descriptor>>) {
    forall w :: 0 <= w < |walks| && walks[w].Some? ==> Held(areas, walks[w].value.frame)
  }

  /** Areas that were given memory have enough of it, and the others lie over frames that
      are never handed out. */
  ghost predicate Backed(areas: seq<Area>, extents: map<int, int>, total: nat, reserved: set<int>) {
    forall i :: 0 <= i < |areas| ==> BackedArea(areas[i], extents, total, reserved)
  }

  ghost predicate BackedArea(a: Area, extents: map<int, int>, total: nat, reserved: set<int>) {
    && (a.alloced ==> BASE + a.phys in extents && a.size <= extents[BASE + a.phys])
    && (!a.alloced ==> forall f: nat :: InArea(a, f) ==> f >= total || f in reserved)
  }

  /** A process that reaches nothing but its own; nothing but its view decides. */
  ghost predicate Guarded(v: View, total: nat) {
    WellPlaced(v.areas) && Confined(v.areas, v.walks) && Backed(v.areas, v.extents, total, v.reserved)
  }

  // What areas map.

  lemma PageInIsHeld(a: Area, address: nat)
    requires PageAligned(a) && a.virt <= address < a.End()
    ensures InArea(a, PageIn(a, address).frame)
  {
    hide FlagsOf, LeafDescriptor;
    LeafParts(a.phys + PageOffset(a, address), a.phys + PageOffset(a, address), FlagsOf(a.rwx));
    WholePages(a.phys, a.size, address - a.virt);
  }

  lemma WholePages(phys: nat, size: nat, offset: nat)
    requires phys % PAGE == 0 && size % PAGE == 0 && offset < size
    ensures var f := (phys + (offset - offset % PAGE)) / PAGE; phys <= f * PAGE && f * PAGE + PAGE <= phys + size
  {
    var k := offset / PAGE;
    assert offset - offset % PAGE == k * PAGE && phys == (phys / PAGE) * PAGE && size == (size / PAGE) * PAGE;
    MoreMultiples(phys, PAGE, k);
  }

  /** The page behind an area is not in it. */
  lemma EndIsBehind(a: Area)
    requires PageAligned(a)
    ensures PageIn(a, a.End()).frame == (a.phys + a.size) / PAGE && !InArea(a, (a.phys + a.size) / PAGE)
  {
    hide FlagsOf;
    LeafAtEnd(a);
  }

  /** What eager mapping puts at a page lies in the memory of an area, or was there before. */
  lemma EagerIsHeld(areas: seq<Area>, w: nat, d: Descriptor)
    requires WellPlaced(areas) && w < PAGES
    ensures Eager(areas, w, d) == d || Held(areas, Eager(areas, w, d).frame)
  {
    hide Eager, PageIn, InArea, PageAligned, WellPlaced;
    var address := w * PAGE;
    AtPage(w);
    EagerMaps(areas, address, d);
    if i :| 0 <= i < |areas| && areas[i].virt <= address < areas[i].End() {
      AlignedAt(areas, i);
      PageInIsHeld(areas[i], address);
    }
  }

  lemma AtPage(w: nat)
    requires w < PAGES
    ensures w * PAGE < PAGES * PAGE && PageOf(w * PAGE) == w
  {
  }

  lemma AlignedAt(areas: seq<Area>, i: nat)
    requires WellPlaced(areas) && i < |areas|
    ensures PageAligned(areas[i])
  {
  }

  /** What a walk finds when the flat map has this descriptor. */
  function Found(d: Descriptor): Option<Descriptor> {
    if Present(d) then Some(d) else None
  }

  function FoundAll(flat: seq<Descriptor>): (r: seq<Option<Descriptor>>)
    ensures |r| == |flat| && forall w :: 0 <= w < |flat| ==> r[w] == Found(flat[w])
  {
    seq(|flat|, w requires 0 <= w < |flat| => Found(flat[w]))
  }

  lemma WalksFind(a: AddressSpace)
    requires a.Valid()
    ensures Walks(a.mem[..], a.root) == FoundAll(a.Flat())
  {
    hide Heap.Valid, Tree, Walk, Entry;
    a.TableFrames();
    a.FlatIsMapped();
    forall w: nat | w < PAGES ensures Walks(a.mem[..], a.root)[w] == Found(a.Flat()[w]) {
      WalkIsEntry(a.mem[..], a.tables, w);
    }
  }

  // What keeps pages confined.

  /** The address is not the end of the area that the search finds, or the page of memory behind
      that area is the process's, too. */
  predicate StaysInside(areas: seq<Area>, address: nat) {
    var h := FirstHit(areas, address);
    h >= 0 && address == areas[h].End() ==> Held(areas, (areas[h].phys + areas[h].size) / PAGE)
  }

  /** Exactly then a fault does. */
  lemma FaultConfinedIff(areas: seq<Area>, address: nat, translation: bool, outcome: Outcome,
                         before: seq<Descriptor>, after: seq<Descriptor>)
    requires WellPlaced(areas) && address < PAGES * PAGE && |before| == PAGES
    requires FaultEffect(areas, address, translation, outcome, before, after) && Confined(areas, FoundAll(before))
    ensures Confined(areas, FoundAll(after)) <==> outcome == Killed || StaysInside(areas, address)
  {
    hide PageIn, WellPlaced, PageAligned, Held, PageOf;
    if outcome == Handled {
      var h := FirstHit(areas, address);
      var a := areas[h];
      AlignedAt(areas, h);
      PageInIsThere(a, address);
      if address == a.End() {
        EndIsBehind(a);
      } else {
        PageInIsHeld(a, address);
        assert Held(areas, PageIn(a, address).frame) by { IsHeld(areas, h, PageIn(a, address).frame); }
      }
      OneChanged(areas, before, after, FaultPage(a, address), PageIn(a, address));
    }
  }

  lemma IsHeld(areas: seq<Area>, i: nat, f: nat)
    requires i < |areas| && InArea(areas[i], f)
    ensures Held(areas, f)
  {
  }

  lemma PageInIsThere(a: Area, address: nat)
    requires a.virt <= address
    ensures Present(PageIn(a, address))
  {
    LeafIsPresent(a.phys + PageOffset(a, address), FlagsOf(a.rwx));
  }

  lemma OneChanged(areas: seq<Area>, before: seq<Descriptor>, after: seq<Descriptor>, w: nat, d: Descriptor)
    requires w < |before| && after == before[w := d] && Present(d) && Confined(areas, FoundAll(before))
    ensures Confined(areas, FoundAll(after)) <==> Held(areas, d.frame)
  {
    hide Held;
    assert FoundAll(after)[w] == Some(d);
  }

  /** The page behind an area that is alone is not the process's: whatever lies there, a
      translation table perhaps, can be reached. */
  lemma EndEscapes()
    ensures var a := Area(0x1000, 0x8000, 0x1000, 7, true);
      WellPlaced([a]) && FirstHit([a], 0x2000) == 0 && !StaysInside([a], 0x2000) && PageIn(a, 0x2000).frame == 9
  {
    FaultAtEnd();
    LeafAtEnd(Area(0x1000, 0x8000, 0x1000, 7, true));
  }

  /** So does every sequence of faults that maps what eager mapping would. */
  lemma MappedConfined(areas: seq<Area>, pages: set<nat>, before: seq<Descriptor>, after: seq<Descriptor>)
    requires WellPlaced(areas) && |before| == PAGES
    requires MappedAsEager(areas, pages, before, after) && Confined(areas, FoundAll(before))
    ensures Confined(areas, FoundAll(after))
  {
    hide Eager, WellPlaced, Held;
    forall w | 0 <= w < PAGES && FoundAll(after)[w].Some? ensures Held(areas, after[w].frame) {
      if w in pages {
        EagerIsHeld(areas, w, ZERO);
      } else {
        assert FoundAll(before)[w] == FoundAll(after)[w];
      }
    }
  }

  /** And eager mapping itself. */
  lemma EagerConfined(areas: seq<Area>, before: seq<Descriptor>, after: seq<Descriptor>)
    requires WellPlaced(areas) && |before| == |after| == PAGES && Confined(areas, FoundAll(before))
    requires forall w: nat :: w < PAGES ==> after[w] == Eager(areas, w, before[w])
    ensures Confined(areas, FoundAll(after))
  {
    hide Eager, WellPlaced, Held;
    forall w | 0 <= w < PAGES && FoundAll(after)[w].Some? ensures Held(areas, after[w].frame) {
      EagerIsHeld(areas, w, before[w]);
      assert FoundAll(before)[w] == Found(before[w]);
    }
  }

  /** More areas hold more. */
  lemma MoreConfined(areas: seq<Area>, areas': seq<Area>, walks: seq<Option<Descriptor>>)
    requires |areas| <= |areas'| && areas'[..|areas|] == areas && Confined(areas, walks)
    ensures Confined(areas', walks)
  {
    forall w | 0 <= w < |walks| && walks[w].Some? ensures Held(areas', walks[w].value.frame) {
      var i :| 0 <= i < |areas| && InArea(areas[i], walks[w].value.frame);
      assert areas'[i] == areas'[..|areas|][i];
    }
  }

  // What guards.

  /** No walk of a guarded process finds a byte of an extent that is not its own: not a
      table, neither its own nor another's, nor the memory of another. */
  lemma OnlyOwnMemory(p: Process, w: nat, x: int)
    requires p.Valid() && Guarded(ViewOf(p), Total(p))
    requires w < PAGES && ViewOf(p).walks[w].Some? && x in p.InUse() && x !in Memories(p.Areas(), |p.Areas()|)
    ensures var f := ViewOf(p).walks[w].value.frame; x + p.InUse()[x] <= Address(f) || Address(f + 1) <= x
  {
    hide AddressSpace.Valid, Heap.Valid, Owns, WellPlaced, Walks, Memories, Holdings, Guarded, Safe, InArea, BackedArea;
    var heap := p.space.heap;
    HeapOf(p);
    HeapIsSafe(heap);
    GuardedParts(p, w);
    var f := ViewOf(p).walks[w].value.frame;
    var i :| 0 <= i < |p.Areas()| && InArea(p.Areas()[i], f);
    var a := p.Areas()[i];
    if a.alloced {
      IsMemory(p.Areas(), i);
    }
    ApartFrom(heap.extents, heap.buddies.total, heap.buddies.reserved, a, f, x);
  }

  lemma GuardedParts(p: Process, w: nat)
    requires p.Valid() && Guarded(ViewOf(p), Total(p)) && w < PAGES && ViewOf(p).walks[w].Some?
    ensures Held(p.Areas(), ViewOf(p).walks[w].value.frame)
    ensures forall i :: 0 <= i < |p.Areas()| ==> BackedArea(p.Areas()[i], p.InUse(), Total(p), p.Reserved())
  {
    hide AddressSpace.Valid, WellPlaced, Walks, FoundAll, Owns, Held, BackedArea;
    GuardedIff(p);
  }

  /** The memory of an area that is backed shares no byte with any other extent. */
  lemma ApartFrom(extents: map<int, int>, total: nat, reserved: set<int>, a: Area, f: nat, x: int)
    requires Safe(extents, total, reserved) && BackedArea(a, extents, total, reserved) && InArea(a, f)
    requires x in extents && (a.alloced ==> x != BASE + a.phys)
    ensures x + extents[x] <= Address(f) || Address(f + 1) <= x
  {
  }

  lemma HeapOf(p: Process)
    requires p.Valid()
    ensures p.space.heap.Valid()
  {
  }

  lemma IsMemory(areas: seq<Area>, i: nat)
    requires i < |areas| && areas[i].alloced
    ensures BASE + areas[i].phys in Memories(areas, |areas|)
  {
  }

  /** In particular it finds no table of its own and none of a stranger. */
  lemma NeverATable(p: Process, q: Process, w: nat, n: Node)
    requires Strangers(p, q) && Guarded(ViewOf(p), Total(p))
    requires w < PAGES && ViewOf(p).walks[w].Some?
    ensures var f := ViewOf(p).walks[w].value.frame;
      (n in p.space.tables ==> f != p.space.tables[n]) && (n in q.space.tables ==> f != q.space.tables[n])
  {
    hide AddressSpace.Valid, Heap.Valid, Owns, Guarded, ViewIn, Memories;
    IsSettled(p);
    IsSettled(q);
    hide Settled;
    MemoriesInUse(p.Areas(), p.space.Now());
    if n in p.space.tables {
      OnlyOwnMemory(p, w, Address(p.space.tables[n]));
    }
    if n in q.space.tables {
      TablesHeld(q.space.tables, q.Areas());
      TablesHeld(p.space.tables, p.Areas());
      OnlyOwnMemory(p, w, Address(q.space.tables[n]));
    }
  }

  // What keeps processes guarded. What a stranger does changes no view.

  ghost predicate InPieces(areas: seq<Area>, flat: seq<Descriptor>, extents: map<int, int>, total: nat,
                           reserved: set<int>)
  {
    WellPlaced(areas) && Confined(areas, FoundAll(flat)) && Backed(areas, extents, total, reserved)
  }

  lemma GuardedIff(p: Process)
    requires p.Valid()
    ensures Guarded(ViewOf(p), Total(p)) <==>
      InPieces(p.Areas(), p.space.Flat(), p.InUse(), Total(p), p.Reserved())
  {
    hide AddressSpace.Valid, WellPlaced, Confined, Walks, FoundAll, Holdings, Memories, Owns;
    WalksFind(p.space);
    assert Owns(p.Areas(), p.space.Now());
    SameBacked(p.Areas(), p.InUse(), Holdings(p.space.tables, p.Areas()), Total(p), p.Reserved(), p.space.tables);
  }

  lemma SameBacked(areas: seq<Area>, extents: map<int, int>, held: set<int>, total: nat, reserved: set<int>, t: Tables)
    requires held == Holdings(t, areas)
    ensures Backed(areas, Among(extents, held), total, reserved) <==> Backed(areas, extents, total, reserved)
  {
    hide Holdings, Memories;
    TablesHeld(t, areas);
    forall i | 0 <= i < |areas|
      ensures BackedArea(areas[i], Among(extents, held), total, reserved) <==>
        BackedArea(areas[i], extents, total, reserved)
    {
      if areas[i].alloced {
        IsMemory(areas, i);
      }
    }
  }

  lemma MoreBacked(areas: seq<Area>, extents: map<int, int>, extents': map<int, int>, total: nat, reserved: set<int>)
    requires Backed(areas, extents, total, reserved)
    requires forall x :: x in extents ==> x in extents' && extents'[x] == extents[x]
    ensures Backed(areas, extents', total, reserved)
  {
    forall i | 0 <= i < |areas| ensures BackedArea(areas[i], extents', total, reserved) {
      assert BackedArea(areas[i], extents, total, reserved);
    }
  }

  ghost function Total(p: Process): nat {
    p.space.heap.buddies.total
  }

  /** A new process is. */
  lemma EmptyIsGuarded(p: Process)
    requires p.Valid() && p.Areas() == [] && forall v: nat :: v < PAGES ==> p.space.Mapped(v) == ZERO
    ensures Guarded(ViewOf(p), Total(p))
  {
    hide AddressSpace.Valid, Walks;
    GuardedIff(p);
    p.space.FlatIsMapped();
    ZeroIsNothing();
  }

  lemma ZeroIsNothing()
    ensures Found(ZERO) == None
  {
  }

  /** A fault leaves it guarded exactly if what it maps stays inside. */
  method GuardedFault(p: Process, address: nat, translation: bool) returns (outcome: Outcome)
    requires p.Valid() && Guarded(ViewOf(p), Total(p)) && address < PAGES * PAGE
    requires p.space.RoomFor(NodesFor(PagesOfFault(p.Areas(), address, translation)))
    modifies p.space`tables, p.space.mem, p.space.heap.Repr()
    ensures p.Valid() && p.Areas() == old(p.Areas())
    ensures Guarded(ViewOf(p), Total(p)) <==> outcome == Killed || StaysInside(p.Areas(), address)
  {
    hide Process.Valid, AddressSpace.Valid, Heap.Repr, AreaList.Valid, Owns, FaultEffect, PagesOfFault,
         AddressSpace.Flat, NodesFor, RoomIn, WellPlaced, Confined, Backed, ViewIn, Held, FoundAll, Guarded,
         BlocksGrown, OthersKept, TablesGrown;
    Parts(p);
    ghost var flat, areas, extents := p.space.Flat(), p.Areas(), p.InUse();
    GuardedIff(p);
    outcome := p.Fault(address, translation);
    Parts(p);
    GuardedIff(p);
    MoreBacked(areas, extents, p.InUse(), Total(p), p.Reserved());
    FaultConfinedIff(areas, address, translation, outcome, flat, p.space.Flat());
  }

  /** Any sequence of faults for areas that the search finds rightly does. */
  method GuardedFaults(p: Process, addresses: seq<nat>, translations: seq<bool>) returns (outcomes: seq<Outcome>)
    requires p.Valid() && Guarded(ViewOf(p), Total(p)) && |translations| == |addresses|
    requires p.space.RoomFor(NodesFor(HandledPages(p.Areas(), addresses, translations, |addresses|)))
    requires forall j :: 0 <= j < |addresses| ==> addresses[j] < PAGES * PAGE
    requires forall j :: 0 <= j < |addresses| && translations[j] ==> Agrees(p.Areas(), addresses[j])
    modifies p.space`tables, p.space.mem, p.space.heap.Repr()
    ensures p.Valid() && p.Areas() == old(p.Areas()) && Guarded(ViewOf(p), Total(p))
  {
    hide Process.Valid, AddressSpace.Valid, Heap.Repr, AreaList.Valid, Owns, MappedAsEager, HandledPages, Agrees,
         AddressSpace.Flat, NodesFor, RoomIn, WellPlaced, Confined, Backed, ViewIn, FoundAll, Guarded,
         BlocksGrown, OthersKept, TablesGrown;
    Parts(p);
    ghost var flat, areas, extents := p.space.Flat(), p.Areas(), p.InUse();
    GuardedIff(p);
    outcomes := p.Faults(addresses, translations);
    Parts(p);
    GuardedIff(p);
    MoreBacked(areas, extents, p.InUse(), Total(p), p.Reserved());
    MappedConfined(areas, HandledPages(areas, addresses, translations, |addresses|), flat, p.space.Flat());
  }

  /** Mapping all areas does. */
  method GuardedMapAll(p: Process)
    requires p.Valid() && Guarded(ViewOf(p), Total(p)) && p.space.RoomFor(NodesFor(PagesOf(p.Areas())))
    modifies p.space`tables, p.space.mem, p.space.heap.Repr()
    ensures p.Valid() && p.Areas() == old(p.Areas()) && Guarded(ViewOf(p), Total(p))
  {
    hide Process.Valid, AddressSpace.Valid, Heap.Repr, AreaList.Valid, Owns, PagesOf, Eager,
         AddressSpace.Flat, NodesFor, RoomIn, WellPlaced, Confined, Backed, ViewIn, FoundAll, Guarded,
         BlocksGrown, OthersKept, TablesGrown;
    Parts(p);
    ghost var flat, areas, extents := p.space.Flat(), p.Areas(), p.InUse();
    GuardedIff(p);
    p.MapAll();
    Parts(p);
    GuardedIff(p);
    MoreBacked(areas, extents, p.InUse(), Total(p), p.Reserved());
    EagerConfined(areas, flat, p.space.Flat());
  }

  /** Placing an area whose length fits into 32 bits does exactly if the area lies inside the
      address space. */
  method GuardedMmap(p: Process, hint: nat, len: nat, prot: bv64) returns (start: nat)
    requires p.Valid() && Guarded(ViewOf(p), Total(p))
    requires RoundUp(len) < 0x1_0000_0000 && p.space.heap.CanMalloc(RoundUp(len))
    modifies p.vmas, p.vmas.repr, p.space.heap.Repr()
    ensures p.Valid() && (Guarded(ViewOf(p), Total(p)) <==> start + RoundUp(len) <= PAGES * PAGE)
  {
    hide Process.Valid, AddressSpace.Valid, Heap.Repr, Heap.CanMalloc, AreaList.Valid, Owns, LeastGap, NewArea, RoundUp,
         AddressSpace.Flat, WellPlaced, Confined, Backed, ViewIn, FoundAll, Guarded, AddressSpace.Mapped;
    Parts(p);
    ghost var flat, areas, extents := p.space.Flat(), p.Areas(), p.InUse();
    p.Outside();
    GuardedIff(p);
    start := p.Mmap(hint, len, prot);
    Parts(p);
    GuardedIff(p);
    PlacedInPieces(areas, p.Areas(), extents, p.InUse(), RoundUp(hint), start, RoundUp(len), prot, flat, Total(p),
      p.Reserved());
  }

  lemma PlacedInPieces(areas: seq<Area>, areas': seq<Area>, extents: map<int, int>, extents': map<int, int>,
                       from: nat, start: nat, len: nat, prot: bv64, flat: seq<Descriptor>, total: nat,
                       reserved: set<int>)
    requires InPieces(areas, flat, extents, total, reserved) && LeastGap(areas, from, len, start)
    requires NewArea(areas, areas', extents, extents', start, len, prot) && len < 0x1_0000_0000 && len % PAGE == 0
    ensures InPieces(areas', flat, extents', total, reserved) <==> start + len <= PAGES * PAGE
  {
    assert Disjoint(areas) by { OnlyDisjoint(areas); }
    hide WellPlaced, Disjoint, LeastGap, Confined, FoundAll, Backed, NewArea;
    PlacedStaysWell(areas, areas', extents, extents', from, start, len, prot);
    BackedPlaced(areas, areas', extents, extents', start, len, prot, total, reserved);
    MoreConfined(areas, areas', FoundAll(flat));
  }

  lemma BackedPlaced(areas: seq<Area>, areas': seq<Area>, extents: map<int, int>, extents': map<int, int>,
                     start: nat, len: nat, prot: bv64, total: nat, reserved: set<int>)
    requires Backed(areas, extents, total, reserved) && len < 0x1_0000_0000
    requires NewArea(areas, areas', extents, extents', start, len, prot)
    ensures |areas'| == |areas| + 1 && areas'[..|areas|] == areas && Backed(areas', extents', total, reserved)
  {
    MoreBacked(areas, extents, extents', total, reserved);
    hide InArea;
    forall i | 0 <= i < |areas'| ensures BackedArea(areas'[i], extents', total, reserved) {
      if i < |areas| {
        assert areas'[i] == areas'[..|areas|][i] && BackedArea(areas[i], extents', total, reserved);
      }
    }
  }

  /** Giving up the areas before the tables does exactly if no page is mapped. */
  method GuardedDelete(p: Process)
    requires p.Valid()
    modifies p.vmas, p.space.heap.Repr()
    ensures p.Valid() && ViewOf(p).walks == old(ViewOf(p).walks)
    ensures Guarded(ViewOf(p), Total(p)) <==> forall w :: 0 <= w < PAGES ==> ViewOf(p).walks[w] == None
  {
    hide Process.Valid, AddressSpace.Valid, Heap.Repr, AreaList.Valid, Owns, Memories, Walks, AddressSpace.Flat;
    p.Outside();
    p.DeleteAreas();
    NothingHeld(ViewOf(p), Total(p));
  }

  lemma NothingHeld(v: View, total: nat)
    requires v.areas == []
    ensures Guarded(v, total) <==> forall w :: 0 <= w < |v.walks| ==> v.walks[w] == None
  {
  }
}
