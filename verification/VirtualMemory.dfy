/** A process's areas and page tables together: the fault handler, eager mapping,
    and the placement of new areas. */
module VirtualMemory {
  import opened PageFrames
  import opened Extents
  import opened KernelHeap
  import opened PageTree
  import opened PageTables
  import opened AreaMaps
  import opened AreaLists

  // What areas own.

  /** An area that was given memory has an extent in use that holds no translation table. */
  ghost predicate Owned(a: Area, s: Snapshot) {
    BASE + a.phys in s.extents && forall n :: n in s.tables ==> Address(s.tables[n]) != BASE + a.phys
  }

  /** So have all areas from position i on, each its own. */
  ghost predicate OwnsFrom(areas: seq<Area>, i: nat, s: Snapshot) {
    && (forall j :: i <= j < |areas| && areas[j].alloced ==> Owned(areas[j], s))
    && (forall j, k :: i <= j < k < |areas| && areas[j].alloced && areas[k].alloced ==> areas[j].phys != areas[k].phys)
  }

  ghost predicate Owns(areas: seq<Area>, s: Snapshot) {
    OwnsFrom(areas, 0, s)
  }

  lemma OwnsGrown(areas: seq<Area>, a: Snapshot, b: Snapshot, wanted: set<Node>)
    requires Owns(areas, a) && Grown(a, b, wanted)
    ensures Owns(areas, b)
  {
    hide BlocksGrown, OthersKept;
    forall j | 0 <= j < |areas| && areas[j].alloced ensures Owned(areas[j], b) {
      assert Owned(areas[j], a);
    }
  }

  lemma OwnsShrunk(areas: seq<Area>, a: Snapshot, b: Snapshot)
    requires Owns(areas, a) && Shrunk(a, b)
    ensures Owns(areas, b)
  {
    hide BlocksShrunk, OthersKept;
    forall j | 0 <= j < |areas| && areas[j].alloced ensures Owned(areas[j], b) {
      assert Owned(areas[j], a);
    }
  }

  /** A new area with an extent of its own. */
  lemma OwnsOneMore(areas: seq<Area>, area: Area, s: Snapshot)
    requires Owns(areas, s) && (area.alloced ==> Owned(area, s) && BASE + area.phys !in Memories(areas, |areas|))
    ensures Owns(areas + [area], s)
  {
    var all := areas + [area];
    forall j | 0 <= j < |areas| && areas[j].alloced ensures BASE + areas[j].phys in Memories(areas, |areas|) {
    }
    forall j, k | 0 <= j < k < |all| && all[j].alloced && all[k].alloced ensures all[j].phys != all[k].phys {
      assert all[j] == areas[j] && (k < |areas| ==> all[k] == areas[k]);
    }
  }

  /** More extents come into use. */
  lemma OwnsMoreInUse(areas: seq<Area>, a: Snapshot, b: Snapshot)
    requires Owns(areas, a) && b.tables == a.tables && forall x :: x in a.extents ==> x in b.extents
    ensures Owns(areas, b)
  {
    forall j | 0 <= j < |areas| && areas[j].alloced ensures Owned(areas[j], b) {
      assert Owned(areas[j], a);
    }
  }

  lemma MemoriesInUse(areas: seq<Area>, s: Snapshot)
    requires Owns(areas, s)
    ensures Memories(areas, |areas|) <= s.extents.Keys
    ensures forall n :: n in s.tables ==> Address(s.tables[n]) !in Memories(areas, |areas|)
  {
    forall x | x in Memories(areas, |areas|)
      ensures x in s.extents && forall n :: n in s.tables ==> Address(s.tables[n]) != x
    {
      var j :| 0 <= j < |areas| && areas[j].alloced && x == BASE + areas[j].phys;
      assert Owned(areas[j], s);
    }
  }

  /** Process exit gives up the memory of area i. */
  lemma OwnsOneLess(areas: seq<Area>, i: nat, a: Snapshot, b: Snapshot)
    requires OwnsFrom(areas, i, a) && i < |areas| && b.tables == a.tables
    requires b.extents == if areas[i].alloced then a.extents - {BASE + areas[i].phys} else a.extents
    ensures OwnsFrom(areas, i + 1, b)
  {
    forall j | i + 1 <= j < |areas| && areas[j].alloced ensures Owned(areas[j], b) {
      assert Owned(areas[j], a);
    }
  }

  /** The addresses of the memory of the first n areas that were given any. */
  ghost function Memories(areas: seq<Area>, n: nat): set<int>
    requires n <= |areas|
  {
    set i | 0 <= i < n && areas[i].alloced :: BASE + areas[i].phys
  }

  lemma MemoriesNext(areas: seq<Area>, i: nat)
    requires i < |areas|
    ensures Memories(areas, 0) == {}
    ensures Memories(areas, i + 1) == Memories(areas, i) + if areas[i].alloced then {BASE + areas[i].phys} else {}
  {
  }

  class Process {
    const space: AddressSpace
    const vmas: AreaList

    constructor (space: AddressSpace)
      requires space.Valid()
      ensures this.space == space && Valid() && Areas() == [] && fresh(vmas) && vmas.repr == {}
    {
      hide AddressSpace.Valid, AreaList.Valid, Heap.Repr;
      this.space := space;
      assert allocated(space.heap.Repr());
      vmas := new AreaList();
      new;
    }

    ghost function Areas(): seq<Area>
      reads vmas
    {
      vmas.Areas()
    }

    /** What every operation keeps: tables and list are sound, and every area that was given
        memory has its own. */
    ghost predicate Valid()
      reads this, space, space.mem, space.heap.Repr(), vmas, vmas.repr
    {
      space.Valid() && vmas.Valid() && Owns(Areas(), space.Now())
    }

    lemma Outside()
      ensures space !in space.heap.Repr() && (space.mem as object) !in space.heap.Repr()
      ensures vmas !in space.heap.Repr() && forall n :: n in vmas.repr ==> n !in space.heap.Repr()
    {
    }

    /** A new area at the end of the list, its size rounded up to whole pages; its memory, if
        it gets any, must not belong to the process already. */
    method AddArea(va: nat, size: nat, pa: nat, rwx: bv64, alloced: bool)
      requires Valid()
      requires alloced ==> BASE + pa in InUse() && BASE + pa !in Memories(Areas(), |Areas()|)
      requires alloced ==> forall n :: n in space.tables ==> Address(space.tables[n]) != BASE + pa
      modifies vmas, vmas.repr
      ensures Valid() && fresh(vmas.repr - old(vmas.repr))
      ensures Areas() == old(Areas()) + [Area(va, pa, RoundUp(size), rwx, alloced)]
      ensures space.Now() == old(space.Now()) && space.Flat() == old(space.Flat())
    {
      hide AddressSpace.Valid, Owns, RoundUp, AddressSpace.Flat, AddressSpace.Mapped, Memories,
           Heap.Repr, AreaList.Valid;
      Outside();
      var area := Area(va, pa, RoundUp(size), rwx, alloced);
      OwnsOneMore(Areas(), area, space.Now());
      assert allocated(space.heap.Repr());
      vmas.Append(area);
    }

    /** The first area whose bounds, both inclusive, hold the address, and its position. */
    method FindArea(address: nat) returns (found: AreaNode?, ghost i: int)
      requires vmas.Valid()
      ensures i == FirstHit(Areas(), address) && (found == null <==> i < 0)
      ensures found != null ==> found.area == Areas()[i]
    {
      hide FirstHit;
      var current := vmas.head;
      i := 0;
      while current != null
        invariant i >= 0 && vmas.At(i, current)
        invariant forall j :: 0 <= j < i ==> !(Areas()[j].virt <= address <= Areas()[j].End())
        decreases |vmas.nodes| - i
      {
        vmas.Onward(i, current);
        if current.area.virt <= address && current.area.End() >= address {
          FirstHitIs(Areas(), address, i);
          return current, i;
        }
        current := current.next;
        i := i + 1;
      }
      FirstHitIs(Areas(), address, i);
      return null, -1;
    }

    /** A memory abort: a translation fault inside an area maps that one page,
        anything else ends the process. */
    method Fault(address: nat, translation: bool) returns (outcome: Outcome)
      requires Valid() && space.RoomFor(NodesFor(PagesOfFault(Areas(), address, translation)))
      modifies space`tables, space.mem, space.heap.Repr()
      ensures Valid() && Areas() == old(Areas())
      ensures Grown(old(space.Now()), space.Now(), NodesFor(PagesOfFault(Areas(), address, translation)))
      ensures FaultEffect(Areas(), address, translation, outcome, old(space.Flat()), space.Flat())
      ensures outcome == Handled ==> var a := Areas()[FirstHit(Areas(), address)];
        a.virt % 4096 == 0 && a.phys % 4096 == 0 ==> Serves(a, address, Found(address))
    {
      hide AddressSpace.Valid, Grown, FaultEffect, PagesOfFault, AddressSpace.Mapped, NodesFor, RoomIn, Owns,
           AddressSpace.Flat, Heap.Repr, Serves, Translate;
      assert allocated(space.heap.Repr());
      ghost var flat := space.Flat();
      var found, i := FindArea(address);
      outcome := Handle(found, i, address, translation);
      EffectServes(address, translation, outcome, flat);
    }

    /** What the hardware finds for an address. */
    ghost function Found(address: nat): Option<Descriptor>
      reads space, space.mem
    {
      Translate(space.mem[..], space.root, address)
    }

    lemma EffectServes(address: nat, translation: bool, outcome: Outcome, before: seq<Descriptor>)
      requires Valid() && |before| == PAGES
      requires FaultEffect(Areas(), address, translation, outcome, before, space.Flat())
      ensures outcome == Handled ==> FirstHit(Areas(), address) >= 0
      ensures outcome == Handled ==> var a := Areas()[FirstHit(Areas(), address)];
        a.virt % 4096 == 0 && a.phys % 4096 == 0 ==> Serves(a, address, Found(address))
    {
      hide AddressSpace.Valid, AddressSpace.Flat, AddressSpace.Mapped, Serves, Translate, Owns, PageIn, FaultPage,
           PageOf;
      if outcome == Handled {
        var a := Areas()[FirstHit(Areas(), address)];
        if a.virt % 4096 == 0 && a.phys % 4096 == 0 {
          FaultPageIsPage(a, address);
          Shown(a, address);
        }
      }
    }

    /** A page that is mapped as an area says serves the area. */
    lemma Shown(a: Area, address: nat)
      requires Valid() && a.virt <= address && a.phys % 4096 == 0
      requires space.Flat()[PageOf(address)] == PageIn(a, address)
      ensures Serves(a, address, Found(address))
    {
      hide AddressSpace.Valid, AddressSpace.Flat, AddressSpace.Mapped, Serves, Translate, Owns, PageIn, PageOf;
      space.FlatIsMapped();
      PageInServes(a, address);
      space.Finds(address, PageIn(a, address).frame, PageIn(a, address).bits);
    }

    /** So does every address of an area whose page is mapped as all areas up front would. */
    lemma EagerShown(i: nat, address: nat, d: Descriptor)
      requires Valid() && WellPlaced(Areas()) && i < |Areas()|
      requires Areas()[i].virt <= address < Areas()[i].End()
      requires space.Flat()[PageOf(address)] == Eager(Areas(), PageOf(address), d)
      ensures Serves(Areas()[i], address, Found(address))
    {
      hide AddressSpace.Valid, AddressSpace.Flat, AddressSpace.Mapped, Serves, Translate, Owns, PageIn, PageOf, Eager;
      InAligned(Areas(), i, address);
      EagerMaps(Areas(), address, d);
      Shown(Areas()[i], address);
    }

    static lemma InAligned(areas: seq<Area>, i: nat, address: nat)
      requires WellPlaced(areas) && i < |areas| && areas[i].virt <= address < areas[i].End()
      ensures address < PAGES * PAGE && areas[i].phys % 4096 == 0
    {
    }

    /** What is done about an abort once the search is over. */
    method Handle(found: AreaNode?, ghost i: int, address: nat, translation: bool) returns (outcome: Outcome)
      requires Valid() && space.RoomFor(NodesFor(PagesOfFault(Areas(), address, translation)))
      requires i == FirstHit(Areas(), address) && (found == null <==> i < 0)
      requires found != null ==> found.area == Areas()[i]
      modifies space`tables, space.mem, space.heap.Repr()
      ensures Valid() && Areas() == old(Areas())
      ensures Grown(old(space.Now()), space.Now(), NodesFor(PagesOfFault(Areas(), address, translation)))
      ensures FaultEffect(Areas(), address, translation, outcome, old(space.Flat()), space.Flat())
    {
      hide AddressSpace.Valid, Grown, FaultPage, PageIn, AddressSpace.Mapped, NodesFor, RoomIn, Owns, AddressSpace.Flat,
           Heap.Repr;
      if found == null || !translation {
        GrownByNone(space.Now());
        return Killed;
      }
      MapFault(found.area, address);
      return Handled;
    }

    method MapFault(a: Area, address: nat)
      requires Valid() && a.virt <= address && space.RoomFor(NodesFor({FaultPage(a, address)}))
      modifies space`tables, space.mem, space.heap.Repr()
      ensures Valid() && Areas() == old(Areas())
      ensures Grown(old(space.Now()), space.Now(), NodesFor({FaultPage(a, address)}))
      ensures space.Flat() == old(space.Flat())[FaultPage(a, address) := PageIn(a, address)]
    {
      hide AddressSpace.Valid, Grown, PageOf, FlagsOf, LeafDescriptor, AddressSpace.Mapped, PageOffset, FaultPage,
           PageIn, NodesFor, RoomIn, Owns, AddressSpace.Flat, Heap.Repr;
      FaultParts(a, address);
      var offset := PageOffset(a, address);
      MapPage(a.virt + offset, a.phys + offset, FlagsOf(a.rwx));
    }

    static lemma FaultParts(a: Area, address: nat)
      requires a.virt <= address
      ensures FaultPage(a, address) == PageOf(a.virt + PageOffset(a, address))
      ensures PageIn(a, address) == LeafDescriptor(a.phys + PageOffset(a, address), FlagsOf(a.rwx))
    {
      hide PageOf, PageOffset, LeafDescriptor, FlagsOf;
    }

    method MapPage(va: nat, pa: nat, flag: bv64)
      requires Valid() && space.RoomFor(NodesFor({PageOf(va)}))
      modifies space`tables, space.mem, space.heap.Repr()
      ensures Valid() && Areas() == old(Areas())
      ensures Grown(old(space.Now()), space.Now(), NodesFor({PageOf(va)}))
      ensures space.Flat() == old(space.Flat())[PageOf(va) := LeafDescriptor(pa, flag)]
    {
      hide AddressSpace.Valid, Grown, PageOf, LeafDescriptor, AddressSpace.Mapped, NodesFor, RoomIn, Owns, Path, Walk;
      Outside();
      ghost var start, flat, areas := space.Now(), space.Flat(), Areas();
      NodesForOne(PageOf(va));
      space.MapOnePage(va, pa, flag);
      OwnsGrown(areas, start, space.Now(), Path(PageOf(va)));
      assert space.Flat() == flat[PageOf(va) := LeafDescriptor(pa, flag)];
    }

    /** Any sequence of faults for areas that the search finds rightly: exactly the pages of the
        handled ones are mapped, each as mapping every area up front would. */
    method Faults(addresses: seq<nat>, translations: seq<bool>) returns (outcomes: seq<Outcome>)
      requires Valid() && WellPlaced(Areas()) && |translations| == |addresses|
      requires space.RoomFor(NodesFor(HandledPages(Areas(), addresses, translations, |addresses|)))
      requires forall j :: 0 <= j < |addresses| ==> addresses[j] < PAGES * PAGE
      requires forall j :: 0 <= j < |addresses| && translations[j] ==> Agrees(Areas(), addresses[j])
      modifies space`tables, space.mem, space.heap.Repr()
      ensures Valid() && Areas() == old(Areas()) && |outcomes| == |addresses|
      ensures forall j :: 0 <= j < |addresses| ==>
        (outcomes[j] == Handled <==> translations[j] && FirstHit(Areas(), addresses[j]) >= 0)
      ensures forall j :: 0 <= j < |addresses| && outcomes[j] == Handled ==>
        PageOf(addresses[j]) in HandledPages(Areas(), addresses, translations, |addresses|)
      ensures MappedAsEager(Areas(), HandledPages(Areas(), addresses, translations, |addresses|),
                            old(space.Flat()), space.Flat())
      ensures Grown(old(space.Now()), space.Now(),
        NodesFor(HandledPages(Areas(), addresses, translations, |addresses|)))
      ensures forall i, j :: 0 <= i < |Areas()| && 0 <= j < |addresses| && outcomes[j] == Handled ==>
        (Areas()[i].virt <= addresses[j] < Areas()[i].End() ==> Serves(Areas()[i], addresses[j], Found(addresses[j])))
    {
      hide AddressSpace.Valid, WellPlaced, Agrees, AddressSpace.Mapped, AddressSpace.Flat, Owns, HandledPages, NodesFor,
           RoomIn, Progress, MappedAsEager, PageOf, Heap.Repr, Serves, Translate;
      outcomes := [];
      ghost var start, flat, areas := space.Now(), space.Flat(), Areas();
      NoProgress(areas, addresses, translations, start, flat);
      for j := 0 to |addresses|
        invariant Valid() && Areas() == areas
        invariant Progress(areas, addresses, translations, outcomes, j, start, space.Now(), flat, space.Flat())
      {
        outcomes := FaultNext(addresses, translations, outcomes, j, start, flat);
      }
      Progressed(areas, addresses, translations, outcomes, start, space.Now(), flat, space.Flat());
      forall i, j | 0 <= i < |areas| && 0 <= j < |addresses| && outcomes[j] == Handled
          && areas[i].virt <= addresses[j] < areas[i].End()
        ensures Serves(areas[i], addresses[j], Found(addresses[j]))
      {
        HandledIsEager(areas, HandledPages(areas, addresses, translations, |addresses|), flat, space.Flat(),
                       PageOf(addresses[j]));
        EagerShown(i, addresses[j], ZERO);
      }
    }

    static lemma HandledIsEager(areas: seq<Area>, pages: set<nat>, before: seq<Descriptor>, after: seq<Descriptor>,
                                w: nat)
      requires MappedAsEager(areas, pages, before, after) && w in pages && w < |after|
      ensures after[w] == Eager(areas, w, ZERO)
    {
    }

    /** What has been done after j faults. */
    static ghost predicate Progress(areas: seq<Area>, addresses: seq<nat>, translations: seq<bool>,
                                    outcomes: seq<Outcome>, j: nat, a: Snapshot, b: Snapshot,
                                    before: seq<Descriptor>, after: seq<Descriptor>)
    {
      && j == |outcomes| <= |addresses| == |translations|
      && Grown(a, b, NodesFor(HandledPages(areas, addresses, translations, j)))
      && MappedAsEager(areas, HandledPages(areas, addresses, translations, j), before, after)
      && (forall i :: 0 <= i < j ==>
          (outcomes[i] == Handled <==> translations[i] && FirstHit(areas, addresses[i]) >= 0))
      && (forall i :: 0 <= i < j && outcomes[i] == Handled ==>
          PageOf(addresses[i]) in HandledPages(areas, addresses, translations, j))
    }

    static lemma NoProgress(areas: seq<Area>, addresses: seq<nat>, translations: seq<bool>, a: Snapshot,
                            flat: seq<Descriptor>)
      requires |addresses| == |translations|
      ensures Progress(areas, addresses, translations, [], 0, a, a, flat, flat)
    {
      GrownByNone(a);
    }

    static lemma Progressed(areas: seq<Area>, addresses: seq<nat>, translations: seq<bool>, outcomes: seq<Outcome>,
                            a: Snapshot, b: Snapshot, before: seq<Descriptor>, after: seq<Descriptor>)
      requires Progress(areas, addresses, translations, outcomes, |addresses|, a, b, before, after)
      ensures |outcomes| == |addresses| == |translations|
      ensures Grown(a, b, NodesFor(HandledPages(areas, addresses, translations, |addresses|)))
      ensures MappedAsEager(areas, HandledPages(areas, addresses, translations, |addresses|), before, after)
      ensures forall j :: 0 <= j < |addresses| ==>
        (outcomes[j] == Handled <==> translations[j] && FirstHit(areas, addresses[j]) >= 0)
      ensures forall j :: 0 <= j < |addresses| && outcomes[j] == Handled ==>
        PageOf(addresses[j]) in HandledPages(areas, addresses, translations, |addresses|)
    {
      hide HandledPages, NodesFor, MappedAsEager, Grown, PageOf, FirstHit;
    }

    /** One more fault of a sequence. */
    method FaultNext(addresses: seq<nat>, translations: seq<bool>, outcomes: seq<Outcome>, j: nat,
                     ghost start: Snapshot, ghost flat: seq<Descriptor>) returns (outcomes': seq<Outcome>)
      requires Valid() && WellPlaced(Areas()) && j < |addresses| == |translations|
      requires RoomIn(start, NodesFor(HandledPages(Areas(), addresses, translations, |addresses|)))
      requires addresses[j] < PAGES * PAGE && (translations[j] ==> Agrees(Areas(), addresses[j]))
      requires Progress(Areas(), addresses, translations, outcomes, j, start, space.Now(), flat, space.Flat())
      modifies space`tables, space.mem, space.heap.Repr()
      ensures Valid() && Areas() == old(Areas())
      ensures Progress(Areas(), addresses, translations, outcomes', j + 1, start, space.Now(), flat, space.Flat())
    {
      hide AddressSpace.Valid, WellPlaced, Agrees, FirstHit, AddressSpace.Mapped, AddressSpace.Flat, Owns, NodesFor,
           RoomIn, PageOf, PagesOfFault, FaultEffect, Heap.Repr, Progress;
      ghost var before, map', areas := space.Now(), space.Flat(), Areas();
      RoomForFault(areas, addresses, translations, outcomes, j, start, before, flat, map');
      var outcome := Fault(addresses[j], translations[j]);
      outcomes' := outcomes + [outcome];
      MoreProgress(areas, addresses, translations, outcomes, j, outcome, start, before, space.Now(), flat, map',
        space.Flat());
    }

    static lemma RoomForFault(areas: seq<Area>, addresses: seq<nat>, translations: seq<bool>, outcomes: seq<Outcome>,
                              j: nat, a: Snapshot, b: Snapshot, before: seq<Descriptor>, after: seq<Descriptor>)
      requires j < |addresses| == |translations|
      requires Progress(areas, addresses, translations, outcomes, j, a, b, before, after)
      requires RoomIn(a, NodesFor(HandledPages(areas, addresses, translations, |addresses|)))
      ensures RoomIn(b, NodesFor(PagesOfFault(areas, addresses[j], translations[j])))
    {
      hide HandledPages, NodesFor, MappedAsEager, Grown, PageOf, FirstHit, PagesOfFault, RoomIn;
      OneMoreHandled(areas, addresses, translations, j);
      HandledFewer(areas, addresses, translations, j + 1, |addresses|);
      RoomForPages(a, b, HandledPages(areas, addresses, translations, j),
                   PagesOfFault(areas, addresses[j], translations[j]),
                   HandledPages(areas, addresses, translations, |addresses|));
    }

    static lemma MoreProgress(areas: seq<Area>, addresses: seq<nat>, translations: seq<bool>, outcomes: seq<Outcome>,
                              j: nat, outcome: Outcome, a: Snapshot, b: Snapshot, c: Snapshot,
                              before: seq<Descriptor>, mid: seq<Descriptor>, after: seq<Descriptor>)
      requires WellPlaced(areas) && j < |addresses| == |translations| && |mid| == PAGES
      requires addresses[j] < PAGES * PAGE && (translations[j] ==> Agrees(areas, addresses[j]))
      requires Progress(areas, addresses, translations, outcomes, j, a, b, before, mid)
      requires Grown(b, c, NodesFor(PagesOfFault(areas, addresses[j], translations[j])))
      requires FaultEffect(areas, addresses[j], translations[j], outcome, mid, after)
      ensures Progress(areas, addresses, translations, outcomes + [outcome], j + 1, a, c, before, after)
    {
      hide HandledPages, NodesFor, MappedAsEager, Grown, PageOf, FirstHit, PagesOfFault, FaultEffect, WellPlaced,
           Agrees;
      var done := HandledPages(areas, addresses, translations, j);
      var page := PagesOfFault(areas, addresses[j], translations[j]);
      OneMoreHandled(areas, addresses, translations, j);
      GrownByPages(a, b, c, done, page);
      FaultIsEager(areas, addresses[j], translations[j], outcome, mid, after);
      EffectOutcome(areas, addresses[j], translations[j], outcome, mid, after);
      MappedAsEagerTwice(areas, done, page, before, mid, after);
    }

    static lemma OneMoreHandled(areas: seq<Area>, addresses: seq<nat>, translations: seq<bool>, j: nat)
      requires j < |addresses| == |translations|
      ensures HandledPages(areas, addresses, translations, j + 1)
        == HandledPages(areas, addresses, translations, j) + PagesOfFault(areas, addresses[j], translations[j])
    {
    }

    static lemma EffectOutcome(areas: seq<Area>, address: nat, translation: bool, outcome: Outcome,
                               before: seq<Descriptor>, after: seq<Descriptor>)
      requires |before| == PAGES && FaultEffect(areas, address, translation, outcome, before, after)
      ensures outcome == Handled <==> translation && FirstHit(areas, address) >= 0
    {
    }

    /** Maps every area as a whole. */
    method MapAll()
      requires Valid() && space.RoomFor(NodesFor(PagesOf(Areas())))
      modifies space`tables, space.mem, space.heap.Repr()
      ensures Valid() && Areas() == old(Areas()) && Grown(old(space.Now()), space.Now(), NodesFor(PagesOf(Areas())))
      ensures forall w: nat | w < PAGES :: space.Flat()[w] == Eager(Areas(), w, old(space.Flat())[w])
      ensures WellPlaced(Areas()) ==> forall i, address: nat :: 0 <= i < |Areas()| ==>
        (Areas()[i].virt <= address < Areas()[i].End() ==> Serves(Areas()[i], address, Found(address)))
    {
      hide AddressSpace.Valid, Grown, AreaMapped, AddressSpace.Mapped, AddressSpace.Flat, PagesOf, NodesFor, RoomIn,
           Owns, Eager, Heap.Repr, AreaList.Valid, Serves, Translate, WellPlaced, PageOf;
      Outside();
      ghost var start, flat, areas := space.Now(), space.Flat(), Areas();
      var current := vmas.head;
      ghost var i := 0;
      NoneMapped(areas, start, flat);
      vmas.AtStart();
      while current != null
        invariant Valid() && Areas() == areas && vmas.At(i, current) && vmas.nodes == old(vmas.nodes)
        invariant Grown(start, space.Now(), NodesFor(PagesOf(areas[..i])))
        invariant MappedUpTo(areas, i, flat, space.Flat())
        decreases |vmas.nodes| - i
      {
        vmas.Onward(i, current);
        MapArea(current.area, i, start, flat);
        current := current.next;
        i := i + 1;
      }
      assert areas[..i] == areas;
      if WellPlaced(areas) {
        forall i, address: nat | 0 <= i < |areas| && areas[i].virt <= address < areas[i].End()
          ensures Serves(areas[i], address, Found(address))
        {
          EagerShown(i, address, flat[PageOf(address)]);
        }
      }
    }

    /** After the first i areas have been mapped. */
    static ghost predicate MappedUpTo(areas: seq<Area>, i: nat, before: seq<Descriptor>, after: seq<Descriptor>) {
      i <= |areas| && |before| == |after| == PAGES
      && forall w: nat :: w < PAGES ==> after[w] == Eager(areas[..i], w, before[w])
    }

    static lemma NoneMapped(areas: seq<Area>, a: Snapshot, flat: seq<Descriptor>)
      requires |flat| == PAGES
      ensures Grown(a, a, NodesFor(PagesOf(areas[..0]))) && MappedUpTo(areas, 0, flat, flat)
    {
      GrownByNone(a);
      assert areas[..0] == [];
    }

    method MapArea(a: Area, ghost i: nat, ghost start: Snapshot, ghost flat: seq<Descriptor>)
      requires Valid() && i < |Areas()| && a == Areas()[i] && RoomIn(start, NodesFor(PagesOf(Areas())))
      requires Grown(start, space.Now(), NodesFor(PagesOf(Areas()[..i])))
      requires MappedUpTo(Areas(), i, flat, space.Flat())
      modifies space`tables, space.mem, space.heap.Repr()
      ensures Valid() && Areas() == old(Areas())
      ensures Grown(start, space.Now(), NodesFor(PagesOf(Areas()[..i + 1])))
      ensures MappedUpTo(Areas(), i + 1, flat, space.Flat()) && vmas.nodes == old(vmas.nodes)
    {
      hide AddressSpace.Valid, Grown, AfterMapping, AddressSpace.Mapped, PageCount, PageBase, FlagsOf, NodesFor, RoomIn,
           Owns, PagesOf, Eager, Visited;
      Outside();
      ghost var before, areas, map' := space.Now(), Areas(), space.Flat();
      ghost var pages := Visited(a.virt, PageCount(a.size));
      PagesOfNext(areas, i);
      PagesOfFewer(areas, i + 1);
      RoomForPages(start, before, PagesOf(areas[..i]), pages, PagesOf(areas));
      space.MapPages(a.virt, a.size, a.phys, FlagsOf(a.rwx));
      GrownByPages(start, before, space.Now(), PagesOf(areas[..i]), pages);
      OwnsGrown(areas, before, space.Now(), NodesFor(pages));
      MappedNext(areas, i, flat, map', space.Flat());
    }

    static lemma MappedNext(areas: seq<Area>, i: nat, a: seq<Descriptor>, b: seq<Descriptor>, c: seq<Descriptor>)
      requires i < |areas| && MappedUpTo(areas, i, a, b) && |c| == PAGES
      requires forall w: nat :: w < PAGES ==> c[w] == AreaMapped(areas[i], w, b[w])
      ensures MappedUpTo(areas, i + 1, a, c)
    {
      hide AreaMapped;
      assert areas[..i + 1][..i] == areas[..i];
    }

    /** The first area that overlaps [start, start + len), if one does. */
    method FindOverlap(start: nat, len: nat) returns (found: AreaNode?, ghost i: int)
      requires vmas.Valid()
      ensures found == null ==> forall j :: 0 <= j < |Areas()| ==> !Overlaps(Areas()[j], start, len)
      ensures found != null ==> 0 <= i < |Areas()| && found.area == Areas()[i]
      ensures found != null ==> Overlaps(Areas()[i], start, len) && start < Areas()[i].End()
    {
      var current := vmas.head;
      i := 0;
      while current != null
        invariant i >= 0 && vmas.At(i, current)
        invariant forall j :: 0 <= j < i ==> !Overlaps(Areas()[j], start, len)
        decreases |vmas.nodes| - i
      {
        vmas.Onward(i, current);
        if !(current.area.virt >= start + len || current.area.virt + current.area.size <= start) {
          return current, i;
        }
        current := current.next;
        i := i + 1;
      }
      return null, -1;
    }

    /** Fresh memory for an area: the length is cut to 32 bits, so the memory is as long as
        the area exactly if the length fits; nobody owns it yet. */
    method Obtain(len: nat) returns (ptr: nat)
      requires Valid() && len % PAGE == 0 && space.heap.CanMalloc(len % 0x1_0000_0000)
      modifies space.heap.Repr()
      ensures Valid() && space.Flat() == old(space.Flat()) && Reserved() == old(Reserved())
      ensures ptr >= BASE && ptr !in old(InUse()) && ptr in InUse() && InUse() == old(InUse())[ptr := InUse()[ptr]]
      ensures len <= InUse()[ptr] <==> len < 0x1_0000_0000
      ensures len % 0x1_0000_0000 != 0 ==> (ptr - BASE) % PAGE == 0
      ensures ptr !in Memories(Areas(), |Areas()|) && forall n :: n in space.tables ==> Address(space.tables[n]) != ptr
    {
      hide Heap.Valid, Tree, Entry, Owns, Memories, LeastOrder;
      Outside();
      ghost var before, flat := space.Now(), space.Flat();
      space.TablesInUse();
      MemoriesInUse(Areas(), before);
      ptr := space.heap.KMalloc(len % 0x1_0000_0000);
      CutLength(len, space.heap.extents[ptr]);
      OwnsMoreInUse(Areas(), before, space.Now());
      assert forall w :: 0 <= w < PAGES ==> space.Flat()[w] == flat[w];
    }

    static lemma CutLength(len: nat, size: int)
      requires len % PAGE == 0 && size <= 0x1_0000_0000
      requires len % 0x1_0000_0000 == 0 ==> size == SLAB_SIZES[0]
      requires len % 0x1_0000_0000 <= 0x1_0000_0000 - FRAME_SIZE ==> len % 0x1_0000_0000 <= size
      ensures len <= size <==> len < 0x1_0000_0000
    {
    }

    /** A new area at a place known to be free. */
    method Insert(addr: nat, length: nat, prot: bv64)
      requires Valid() && length % PAGE == 0 && space.heap.CanMalloc(length % 0x1_0000_0000)
      modifies vmas, vmas.repr, space.heap.Repr()
      ensures Valid() && fresh(vmas.repr - old(vmas.repr)) && space.Flat() == old(space.Flat())
      ensures NewArea(old(Areas()), Areas(), old(InUse()), InUse(), addr, length, prot) && Reserved() == old(Reserved())
    {
      hide AddressSpace.Valid, AddressSpace.Flat, AddressSpace.Mapped, Owns, Heap.Repr, AreaList.Valid, NewArea;
      var rwx: bv64 := 0;
      if prot & 1 != 0 { rwx := rwx | 1; }
      if prot & 2 != 0 { rwx := rwx | 2; }
      if prot & 4 != 0 { rwx := rwx | 4; }
      Rights(prot);
      Outside();
      ghost var extents, areas := InUse(), Areas();
      var ptr := Obtain(length);
      AddArea(addr, length, ptr - BASE, rwx, true);
      AreaAdded(areas, extents, InUse(), addr, length, prot, ptr);
    }

    static lemma AreaAdded(areas: seq<Area>, extents: map<int, int>, extents': map<int, int>, addr: nat, length: nat,
                           prot: bv64, ptr: nat)
      requires length % PAGE == 0 && ptr >= BASE && ptr !in extents && ptr in extents'
      requires extents' == extents[ptr := extents'[ptr]]
      requires length <= extents'[ptr] <==> length < 0x1_0000_0000
      requires length % 0x1_0000_0000 != 0 ==> (ptr - BASE) % PAGE == 0
      ensures NewArea(areas, areas + [Area(addr, ptr - BASE, RoundUp(length), prot & 7, true)], extents, extents',
                      addr, length, prot)
    {
    }

    static lemma Rights(prot: bv64)
      ensures ((0 | (if prot & 1 != 0 then 1 else 0)) | (if prot & 2 != 0 then 2 else 0))
              | (if prot & 4 != 0 then 4 else 0) == prot & 7
    {
    }

    /** The system call: the first free place at or after the hint, backed by fresh memory. */
    method Mmap(hint: nat, len: nat, prot: bv64) returns (start: nat)
      requires Valid() && space.heap.CanMalloc(RoundUp(len) % 0x1_0000_0000)
      modifies vmas, vmas.repr, space.heap.Repr()
      ensures Valid() && fresh(vmas.repr - old(vmas.repr)) && space.Flat() == old(space.Flat())
      ensures LeastGap(old(Areas()), RoundUp(hint), RoundUp(len), start)
      ensures NewArea(old(Areas()), Areas(), old(InUse()), InUse(), start, RoundUp(len), prot)
      ensures Reserved() == old(Reserved())
      decreases CountBeyond(Areas(), hint)
    {
      hide AddressSpace.Valid, AddressSpace.Flat, LeastGap, NewArea, AddressSpace.Mapped, RoundUp, Overlaps, Owns,
           Heap.Repr, Heap.CanMalloc, AreaList.Valid;
      var length := RoundUp(len);
      var addr := RoundUp(hint);
      RoundUpTwice(len);
      assert allocated(space.heap.Repr());
      var found, i := FindOverlap(addr, length);
      if found != null {
        var end := found.area.virt + found.area.size;
        CountMonotone(Areas(), hint, addr);
        CountDrops(Areas(), i, addr, end);
        ghost var before := Areas();
        start := Mmap(end, length, prot);
        GapBeyond(before, addr, length, i, start);
      } else {
        GapHere(Areas(), addr, length);
        Insert(addr, length, prot);
        start := addr;
      }
    }

    /** A length of 2^32 + 4096 gets one page of memory, for an area that is recorded as long
        as was asked for. */
    method MmapTooLong(hint: nat, prot: bv64) returns (start: nat)
      requires Valid() && space.heap.CanMalloc(PAGE)
      modifies vmas, vmas.repr, space.heap.Repr()
      ensures Valid() && TooShort(old(Areas()), Areas(), InUse(), start, 0x1_0000_1000)
    {
      hide AddressSpace.Valid, AddressSpace.Flat, LeastGap, AddressSpace.Mapped, Overlaps, Owns, Heap.Repr,
           AreaList.Valid;
      assert RoundUp(0x1_0000_1000) == 0x1_0000_1000 && 0x1_0000_1000 % 0x1_0000_0000 == PAGE;
      start := Mmap(hint, 0x1_0000_1000, prot);
    }

    ghost function InUse(): map<int, int>
      reads space.heap
    {
      space.heap.extents
    }

    ghost function Reserved(): set<int>
      reads space.heap.buddies
    {
      space.heap.buddies.reserved
    }

    /** Process exit: the memory of every area goes back to the heap, and nothing else does. */
    method DeleteAreas()
      requires Valid()
      modifies vmas, space.heap.Repr()
      ensures Valid() && Areas() == [] && space.Flat() == old(space.Flat()) && space.tables == old(space.tables)
      ensures InUse() == old(InUse() - Memories(Areas(), |Areas()|))
      ensures old(Memories(Areas(), |Areas()|) <= InUse().Keys) && vmas.repr == old(vmas.repr)
      ensures Reserved() == old(Reserved())
    {
      hide AddressSpace.Valid, AddressSpace.Flat, AddressSpace.Mapped, OwnsFrom, Memories, AreaList.Valid, Heap.Repr;
      Outside();
      ReleaseAreas();
      OwnsNothing(space.Now());
      assert allocated(space.heap.Repr());
      vmas.Clear();
    }

    /** The walk along the list, area by area. */
    method ReleaseAreas()
      requires Valid()
      modifies space.heap.Repr()
      ensures space.Valid() && vmas.Valid() && space.Flat() == old(space.Flat()) && space.tables == old(space.tables)
      ensures InUse() == old(InUse() - Memories(Areas(), |Areas()|))
      ensures old(Memories(Areas(), |Areas()|) <= InUse().Keys) && Reserved() == old(Reserved())
    {
      hide AddressSpace.Valid, AddressSpace.Flat, AddressSpace.Mapped, OwnsFrom, Memories, AreaList.Valid, Heap.Repr,
           Given;
      Outside();
      ghost var extents, areas, i := InUse(), Areas(), 0;
      var current := vmas.head;
      vmas.AtStart();
      GivenNone(areas, extents);
      while current != null
        invariant Areas() == areas && vmas.nodes == old(vmas.nodes) && vmas.At(i, current) && vmas.Valid()
        invariant space.Valid() && space.Flat() == old(space.Flat()) && space.tables == old(space.tables)
        invariant OwnsFrom(areas, i, space.Now()) && Given(areas, i, extents, InUse()) && Reserved() == old(Reserved())
        decreases |vmas.nodes| - i
      {
        vmas.Onward(i, current);
        ghost var before := InUse();
        ReleaseArea(current.area, i);
        vmas.Onward(i, current);
        GivenNext(areas, i, extents, before, InUse());
        current := current.next;
        i := i + 1;
      }
      GivenAll(areas, extents, InUse());
    }

    /** The memory of the first i areas has been given back. */
    static ghost predicate Given(areas: seq<Area>, i: nat, before: map<int, int>, after: map<int, int>) {
      i <= |areas| && after == before - Memories(areas, i) && Memories(areas, i) <= before.Keys
    }

    static lemma GivenNone(areas: seq<Area>, extents: map<int, int>)
      ensures Given(areas, 0, extents, extents)
    {
      assert Memories(areas, 0) == {};
    }

    static lemma GivenNext(areas: seq<Area>, i: nat, a: map<int, int>, b: map<int, int>, c: map<int, int>)
      requires i < |areas| && Given(areas, i, a, b)
      requires areas[i].alloced ==> BASE + areas[i].phys in b
      requires c == if areas[i].alloced then b - {BASE + areas[i].phys} else b
      ensures Given(areas, i + 1, a, c)
    {
      MemoriesNext(areas, i);
    }

    static lemma GivenAll(areas: seq<Area>, a: map<int, int>, b: map<int, int>)
      requires Given(areas, |areas|, a, b)
      ensures b == a - Memories(areas, |areas|) && Memories(areas, |areas|) <= a.Keys
    {
    }

    static lemma OwnsNothing(s: Snapshot)
      ensures Owns([], s)
    {
    }

    method ReleaseArea(a: Area, ghost i: nat)
      requires space.Valid() && vmas.Valid() && i < |Areas()| && a == Areas()[i]
      requires OwnsFrom(Areas(), i, space.Now())
      modifies space.heap.Repr()
      ensures space.Valid() && vmas.Valid() && Areas() == old(Areas()) && vmas.nodes == old(vmas.nodes)
      ensures space.Flat() == old(space.Flat()) && OwnsFrom(Areas(), i + 1, space.Now())
      ensures a.alloced ==> BASE + a.phys in old(InUse())
      ensures InUse() == if a.alloced then old(InUse()) - {BASE + a.phys} else old(InUse())
      ensures Reserved() == old(Reserved())
    {
      hide AddressSpace.Valid, AddressSpace.Flat, AddressSpace.Mapped;
      Outside();
      ghost var before, areas := space.Now(), Areas();
      if a.alloced {
        assert Owned(areas[i], before);
        space.ReleaseExtent(BASE + a.phys);
      }
      OwnsOneLess(areas, i, before, space.Now());
    }

    /** What is given back is exactly the memory of the areas and all tables but the root. */
    static ghost predicate Reaped(t: Tables, areas: seq<Area>, before: map<int, int>, after: map<int, int>) {
      && (forall x :: x in before ==>
          (x in after <==> x !in Memories(areas, |areas|)
                           && forall n :: n in t && Address(t[n]) == x ==> n == ROOT))
      && (forall x :: x in after ==> x in before && after[x] == before[x])
    }

    /** The tables of a process that has ended, and then its areas: what it had is given back,
        the root apart, nothing else is, and no page is mapped any more. */
    method Reap()
      requires Valid()
      modifies space`tables, space.mem, vmas, space.heap.Repr()
      ensures Valid() && Areas() == [] && space.tables == map[ROOT := space.root]
      ensures forall w: nat :: w < PAGES ==> space.Flat()[w] == ZERO
      ensures Reaped(old(space.tables), old(Areas()), old(InUse()), InUse())
      ensures OthersKept(old(space.Now()), space.Now()) && vmas.repr == old(vmas.repr) && Reserved() == old(Reserved())
    {
      hide AddressSpace.Valid, AddressSpace.Flat, OwnsFrom, Memories, AreaList.Valid, Heap.Repr, BlocksShrunk,
           Walk, AddressSpace.Mapped;
      Outside();
      ghost var before, areas := space.Now(), Areas();
      space.FreeAllTables();
      OwnsShrunk(areas, before, space.Now());
      space.FlatIsMapped();
      assert allocated(space.heap.Repr());
      DeleteAreas();
    }
  }
}
