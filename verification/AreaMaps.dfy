/** Virtual memory areas: where a new one is placed, and what mapping areas eagerly
    or page by page on demand leaves in the page tables. */
module AreaMaps {
  import opened Integers
  import opened PageFrames
  import opened PageTree
  import opened PageTables

  datatype Area = Area(virt: nat, phys: nat, size: nat, rwx: bv64, alloced: bool) {
    function End(): nat {
      virt + size
    }
  }

  /** Attribute bits for the access rights of an area: 4 executable, 2 writable, 1 accessible. */
  function FlagsOf(rwx: bv64): bv64 {
    (if rwx & 4 == 0 then PD_UNX else 0)
    | (if rwx & 2 == 0 then PD_RDONLY else 0)
    | (if rwx & 1 != 0 then PD_UK_ACCESS else 0)
  }

  /** Whole pages inside the 48-bit address space; where the memory of an empty area lies
      does not matter. */
  predicate PageAligned(a: Area) {
    a.virt % PAGE == 0 && a.size % PAGE == 0 && a.End() <= PAGES * PAGE && (a.size > 0 ==> a.phys % PAGE == 0)
  }

  predicate Overlaps(a: Area, start: nat, len: nat) {
    a.virt < start + len && start < a.End()
  }

  ghost predicate Disjoint(areas: seq<Area>) {
    forall i, j :: 0 <= i < j < |areas| ==> !Overlaps(areas[i], areas[j].virt, areas[j].size)
  }

  ghost predicate WellPlaced(areas: seq<Area>) {
    Disjoint(areas) && forall i :: 0 <= i < |areas| ==> PageAligned(areas[i])
  }

  // Mapping every area up front.

  /** The descriptor of page w after the whole area has been mapped, if it was d before. */
  function AreaMapped(a: Area, w: nat, d: Descriptor): Descriptor {
    AfterMapping(a.virt, PageCount(a.size), PageBase(a.phys), FlagsOf(a.rwx), w, d)
  }

  /** The descriptor of page w after all areas have been mapped in turn, if it was d before. */
  function Eager(areas: seq<Area>, w: nat, d: Descriptor): Descriptor {
    if areas == [] then d
    else
      var a := areas[|areas| - 1];
      AreaMapped(a, w, Eager(areas[..|areas| - 1], w, d))
  }

  /** How far into the area the page of an address begins. */
  function PageOffset(a: Area, address: nat): nat
    requires a.virt <= address
  {
    var offset := address - a.virt;
    offset - offset % PAGE
  }

  /** What an area says about the page of an address inside it. */
  function PageIn(a: Area, address: nat): Descriptor
    requires a.virt <= address
  {
    LeafDescriptor(a.phys + PageOffset(a, address), FlagsOf(a.rwx))
  }

  lemma PageNumber(a: Area, address: nat)
    requires PageAligned(a) && a.virt <= address < a.End()
    ensures var k := (address - a.virt) / PAGE;
      && k < PageCount(a.size) <= PAGES
      && PageOf(address) == PageOf(a.virt + k * PAGE) && PageOf(address) == address / PAGE
      && PageOffset(a, address) == k * PAGE
  {
    QuotientOfSum(a.virt, address - a.virt);
    PageAt(a.virt, (address - a.virt) / PAGE);
  }

  /** Mapping one area gives its pages their frames. */
  lemma AreaMaps(a: Area, address: nat, d: Descriptor)
    requires PageAligned(a) && a.virt <= address < a.End()
    ensures AreaMapped(a, PageOf(address), d) == PageIn(a, address)
  {
    hide PageOf, LeafDescriptor, FlagsOf, AfterMapping;
    PageNumber(a, address);
    EveryPageMapped(a.virt, PageCount(a.size), PageBase(a.phys), FlagsOf(a.rwx), PageOf(address), d);
  }

  lemma PageOutside(a: Area, address: nat, k: nat)
    requires PageAligned(a) && address < PAGES * PAGE && !(a.virt <= address < a.End())
    requires k < PageCount(a.size)
    ensures PageOf(address) != PageOf(a.virt + k * PAGE)
  {
    PageAt(a.virt, k);
    CountBound(k, a.size);
    var first, page := a.virt / PAGE, address / PAGE;
    assert a.virt == first * PAGE && a.size == (a.size / PAGE) * PAGE;
    NotThatPage(first, a.size / PAGE, k, page, address);
  }

  lemma NotThatPage(first: nat, n: nat, k: nat, page: nat, address: nat)
    requires k * PAGE < n * PAGE && page == address / PAGE && page < PAGES && first + n <= PAGES
    requires !(first * PAGE <= address < first * PAGE + n * PAGE)
    ensures page % PAGES == page && (first + k) % PAGES == first + k && page != first + k
  {
  }

  /** Mapping one area leaves the pages outside it alone. */
  lemma AreaSpares(a: Area, address: nat, d: Descriptor)
    requires PageAligned(a) && address < PAGES * PAGE && !(a.virt <= address < a.End())
    ensures AreaMapped(a, PageOf(address), d) == d
  {
    var n := PageCount(a.size);
    forall k: nat | k < n ensures PageOf(address) != PageOf(a.virt + k * PAGE) {
      PageOutside(a, address, k);
    }
    assert n <= PAGES;
    hide PageOf, LeafDescriptor, PageCount, PageBase, FlagsOf;
    EveryPageMapped(a.virt, n, PageBase(a.phys), FlagsOf(a.rwx), PageOf(address), d);
  }

  /** After mapping disjoint areas up front, a page of an area is mapped as the area
      says, and a page of none is left alone. */
  lemma {:induction false} EagerMaps(areas: seq<Area>, address: nat, d: Descriptor)
    requires WellPlaced(areas) && address < PAGES * PAGE
    ensures forall i :: 0 <= i < |areas| && areas[i].virt <= address < areas[i].End() ==>
      Eager(areas, PageOf(address), d) == PageIn(areas[i], address)
    ensures (forall i :: 0 <= i < |areas| ==> !(areas[i].virt <= address < areas[i].End())) ==>
      Eager(areas, PageOf(address), d) == d
  {
    hide PageOf, AreaMapped, PageIn;
    if areas != [] {
      var n := |areas| - 1;
      var a, rest := areas[n], areas[..n];
      EagerMaps(rest, address, d);
      if a.virt <= address < a.End() {
        AreaMaps(a, address, Eager(rest, PageOf(address), d));
        assert forall i :: 0 <= i < n ==> !Overlaps(areas[i], a.virt, a.size);
      } else {
        AreaSpares(a, address, Eager(rest, PageOf(address), d));
        assert forall i :: 0 <= i < n ==> rest[i] == areas[i];
      }
    }
  }

  /** The pages of all areas. */
  function PagesOf(areas: seq<Area>): set<nat> {
    if areas == [] then {}
    else
      var a := areas[|areas| - 1];
      PagesOf(areas[..|areas| - 1]) + Visited(a.virt, PageCount(a.size))
  }

  lemma {:induction false} PagesOfFewer(areas: seq<Area>, i: nat)
    requires i <= |areas|
    ensures PagesOf(areas[..i]) <= PagesOf(areas)
  {
    if i < |areas| {
      var front := areas[..|areas| - 1];
      PagesOfFewer(front, i);
      assert front[..i] == areas[..i];
    } else {
      assert areas[..i] == areas;
    }
  }

  lemma PagesOfNext(areas: seq<Area>, i: nat)
    requires i < |areas|
    ensures PagesOf(areas[..i + 1]) == PagesOf(areas[..i]) + Visited(areas[i].virt, PageCount(areas[i].size))
  {
    assert areas[..i + 1][..i] == areas[..i];
  }

  // The search of the fault handler.

  /** The first area whose bounds, both inclusive, hold the address; -1 if none does. */
  function FirstHit(areas: seq<Area>, address: nat): (i: int)
    ensures -1 <= i < |areas|
    ensures i >= 0 ==> areas[i].virt <= address <= areas[i].End()
    ensures forall j :: 0 <= j < i ==> !(areas[j].virt <= address <= areas[j].End())
    ensures i < 0 ==> forall j :: 0 <= j < |areas| ==> !(areas[j].virt <= address <= areas[j].End())
  {
    if areas == [] then -1
    else if areas[0].virt <= address <= areas[0].End() then 0
    else
      var i := FirstHit(areas[1..], address);
      if i < 0 then -1 else i + 1
  }

  lemma {:induction false} FirstHitIs(areas: seq<Area>, address: nat, i: nat)
    requires i <= |areas| && forall j :: 0 <= j < i ==> !(areas[j].virt <= address <= areas[j].End())
    requires i < |areas| ==> areas[i].virt <= address <= areas[i].End()
    ensures FirstHit(areas, address) == if i < |areas| then i else -1
  {
  }

  /** If the search stops at an area that ends at the address, another area begins there and
      goes on with the same memory and the same attributes. */
  predicate Agrees(areas: seq<Area>, address: nat) {
    var h := FirstHit(areas, address);
    h >= 0 && address == areas[h].End() ==> exists j :: 0 <= j < |areas| && Continues(areas[h], areas[j])
  }

  /** Exactly then the page mapped for a fault is that of eager mapping. */
  lemma FaultAgreesIff(areas: seq<Area>, address: nat)
    requires WellPlaced(areas) && address < PAGES * PAGE && FirstHit(areas, address) >= 0
    ensures PageIn(areas[FirstHit(areas, address)], address) == Eager(areas, PageOf(address), ZERO)
      <==> Agrees(areas, address)
  {
    hide PageOf, LeafDescriptor, FlagsOf, Eager, PageAligned, PageIn, Continues;
    EagerMaps(areas, address, ZERO);
    var h := FirstHit(areas, address);
    var a := areas[h];
    PageInIsMapped(a, address);
    if address == a.End() {
      AtTheEnd(areas, h);
    }
  }

  lemma AtTheEnd(areas: seq<Area>, h: nat)
    requires WellPlaced(areas) && h < |areas| && areas[h].End() < PAGES * PAGE
    requires areas[h].virt <= areas[h].End()
    ensures PageIn(areas[h], areas[h].End()) == Eager(areas, PageOf(areas[h].End()), ZERO)
      <==> exists j :: 0 <= j < |areas| && Continues(areas[h], areas[j])
  {
    hide PageOf, LeafDescriptor, FlagsOf, Eager, WellPlaced, PageIn, Continues;
    var a, address := areas[h], areas[h].End();
    EagerMaps(areas, address, ZERO);
    if j :| 0 <= j < |areas| && areas[j].virt <= address < areas[j].End() {
      ContinuesIff(areas, h, j);
      assert Eager(areas, PageOf(address), ZERO) == PageIn(areas[j], address);
      if k :| 0 <= k < |areas| && Continues(a, areas[k]) {
        ContinuesIff(areas, h, k);
        assert Eager(areas, PageOf(address), ZERO) == PageIn(areas[k], address);
      }
    } else {
      PageInIsMapped(a, address);
      NoneContinues(areas, a);
    }
  }

  /** The attribute bits of an area's pages: low bits of its address in memory get into them. */
  function AttributesOf(a: Area): bv64 {
    LeafDescriptor(a.phys, FlagsOf(a.rwx)).bits
  }

  /** b begins where a ends, in address space and in memory, with the same attributes. */
  predicate Continues(a: Area, b: Area) {
    b.virt == a.End() && b.size > 0 && b.phys == PageBase(a.phys + a.size) && AttributesOf(b) == AttributesOf(a)
  }

  /** For areas in whole pages of memory these are the access rights. */
  lemma SameAttributes(a: Area, b: Area)
    requires a.phys % PAGE == 0 && b.phys % PAGE == 0
    ensures AttributesOf(a) == AttributesOf(b) <==> FlagsOf(a.rwx) == FlagsOf(b.rwx)
  {
    hide FlagsOf, LeafDescriptor, WithCommon, WithoutCommon;
    AlignedLeaf(a.phys, FlagsOf(a.rwx));
    AlignedLeaf(b.phys, FlagsOf(b.rwx));
    FlagsApart(a.rwx);
    FlagsApart(b.rwx);
    FlagsTaken(FlagsOf(a.rwx));
    FlagsTaken(FlagsOf(b.rwx));
  }

  lemma ContinuesWhole(a: Area, b: Area)
    requires a.phys % PAGE == 0 && a.size % PAGE == 0 && b.phys % PAGE == 0
    ensures Continues(a, b)
      <==> b.virt == a.End() && b.size > 0 && b.phys == a.phys + a.size && FlagsOf(b.rwx) == FlagsOf(a.rwx)
  {
    hide FlagsOf, AttributesOf;
    SameAttributes(a, b);
  }

  lemma NoneContinues(areas: seq<Area>, a: Area)
    requires forall j :: 0 <= j < |areas| ==> !(areas[j].virt <= a.End() < areas[j].End())
    ensures forall j :: 0 <= j < |areas| ==> !Continues(a, areas[j])
  {
  }

  lemma PageInIsMapped(a: Area, address: nat)
    requires a.virt <= address
    ensures PageIn(a, address) != ZERO
  {
    LeafIsPresent(a.phys + PageOffset(a, address), FlagsOf(a.rwx));
  }

  lemma ContinuesIff(areas: seq<Area>, h: nat, j: nat)
    requires WellPlaced(areas) && h < |areas| && j < |areas| && areas[h].End() < PAGES * PAGE
    requires areas[j].virt <= areas[h].End() < areas[j].End() || Continues(areas[h], areas[j])
    ensures areas[h].virt <= areas[h].End() && areas[j].virt == areas[h].End() < areas[j].End()
    ensures Continues(areas[h], areas[j]) <==> PageIn(areas[j], areas[h].End()) == PageIn(areas[h], areas[h].End())
  {
    hide FlagsOf, LeafDescriptor, AttributesOf;
    var a, b := areas[h], areas[j];
    Meeting(areas, h, j);
    SamePlace(b.phys, a.phys + a.size);
    LeafAtEnd(a);
    LeafAtStart(b);
  }

  lemma SamePlace(p: nat, q: nat)
    requires p % PAGE == 0
    ensures p == PageBase(q) <==> p / PAGE == q / PAGE
  {
  }

  lemma LeafAtEnd(a: Area)
    requires a.size % PAGE == 0
    ensures PageIn(a, a.End()) == Descriptor((a.phys + a.size) / PAGE, AttributesOf(a))
  {
    hide FlagsOf, LeafDescriptor;
    SameOffset(a.phys, a.size);
    LeafParts(a.phys + a.size, a.phys, FlagsOf(a.rwx));
  }

  lemma LeafAtStart(b: Area)
    ensures PageIn(b, b.virt) == Descriptor(b.phys / PAGE, AttributesOf(b))
  {
    hide FlagsOf, LeafDescriptor;
    LeafParts(b.phys, b.phys, FlagsOf(b.rwx));
  }

  lemma SameOffset(p: nat, size: nat)
    requires size % PAGE == 0
    ensures (p + size) % PAGE == p % PAGE
  {
  }

  /** The frame is the address's, and the bits depend on its offset in the page. */
  lemma LeafParts(p: nat, q: nat, flag: bv64)
    requires p % PAGE == q % PAGE
    ensures LeafDescriptor(p, flag) == Descriptor(p / PAGE, LeafDescriptor(q, flag).bits)
  {
  }

  lemma Meeting(areas: seq<Area>, h: nat, j: nat)
    requires WellPlaced(areas) && h < |areas| && j < |areas|
    requires areas[j].virt <= areas[h].End() < areas[j].End() || Continues(areas[h], areas[j])
    ensures areas[j].virt == areas[h].End() < areas[j].End()
    ensures PageAligned(areas[h]) && PageAligned(areas[j])
  {
    hide FlagsOf, PageAligned;
    if h < j {
      assert !Overlaps(areas[h], areas[j].virt, areas[j].size);
    } else if j < h {
      assert !Overlaps(areas[j], areas[h].virt, areas[h].size);
    }
  }

  /** The attribute bits that every page has. */
  const COMMON: bv64 := PD_ACCESS | PD_TABLE | NORMAL_NOCACHE | PD_KNX

  lemma FlagsApart(rwx: bv64)
    ensures FlagsOf(rwx) & COMMON == 0
  {
  }

  function WithCommon(f: bv64): bv64 {
    COMMON | f
  }

  function WithoutCommon(b: bv64): bv64 {
    b ^ COMMON
  }

  lemma FlagsTaken(f: bv64)
    requires f & COMMON == 0
    ensures WithoutCommon(WithCommon(f)) == f
  {
  }

  lemma AlignedLeaf(pa: nat, flag: bv64)
    requires pa % PAGE == 0
    ensures LeafDescriptor(pa, flag) == Descriptor(pa / PAGE, WithCommon(flag))
  {
    var low := (pa % PAGE) as bv64;
    assert low == 0;
    assert 0 | PD_ACCESS | PD_TABLE | NORMAL_NOCACHE | PD_KNX | flag == COMMON | flag;
  }

  /** What is found for an address in an area: its place in memory and the access rights of the
      area. Bit 54 bars executing at EL0, bit 7 writing, and bit 6 lets EL0 in. */
  predicate Serves(a: Area, address: nat, found: Option<Descriptor>)
    requires a.virt <= address
  {
    && found.Some? && found.value.frame == (a.phys + (address - a.virt)) / 4096
    && (found.value.bits & 0x0040_0000_0000_0000 != 0 <==> a.rwx & 4 == 0)
    && (found.value.bits & 0x80 != 0 <==> a.rwx & 2 == 0)
    && (found.value.bits & 0x40 != 0 <==> a.rwx & 1 != 0)
    && found.value.bits & 0xffbf_ffff_ffff_ff3f == 0x0020_0000_0000_0407
  }

  lemma PageInServes(a: Area, address: nat)
    requires a.virt <= address && a.phys % 4096 == 0
    ensures Serves(a, address, Some(PageIn(a, address))) && PageIn(a, address).bits & 3 == 3
  {
    hide FlagsOf, LeafDescriptor;
    var k := (address - a.virt) / 4096;
    assert PageOffset(a, address) == k * PAGE;
    PageBits(a.phys, k, FlagsOf(a.rwx));
    QuotientOfSum(a.phys, address - a.virt);
    RightsInBits(a.rwx);
  }

  lemma RightsInBits(rwx: bv64)
    ensures var b := 0x0020_0000_0000_0407 | FlagsOf(rwx);
      (b & 0x0040_0000_0000_0000 != 0 <==> rwx & 4 == 0) && (b & 0x80 != 0 <==> rwx & 2 == 0)
      && (b & 0x40 != 0 <==> rwx & 1 != 0) && b & 0xffbf_ffff_ffff_ff3f == 0x0020_0000_0000_0407 && b & 3 == 3
  {
  }

  /** An area found by the inclusive bound alone: the page after its last one is
      mapped although no area holds it. */
  lemma FaultAtEnd()
    ensures var a := Area(0x1000, 0x8000, 0x1000, 7, true);
      && WellPlaced([a]) && FirstHit([a], 0x2000) == 0
      && Eager([a], PageOf(0x2000), ZERO) == ZERO && PageIn(a, 0x2000) != ZERO
  {
    var a := Area(0x1000, 0x8000, 0x1000, 7, true);
    assert PageAligned(a);
    EagerMaps([a], 0x2000, ZERO);
    LeafIsPresent(0x9000, FlagsOf(7));
  }

  datatype Outcome = Handled | Killed

  /** What a fault does to the flat map. */
  ghost predicate FaultEffect(areas: seq<Area>, address: nat, translation: bool, outcome: Outcome,
                              before: seq<Descriptor>, after: seq<Descriptor>)
    requires |before| == PAGES
  {
    var i := FirstHit(areas, address);
    && (outcome == Handled <==> i >= 0 && translation)
    && (outcome == Killed ==> after == before)
    && (outcome == Handled ==> after == before[FaultPage(areas[i], address) := PageIn(areas[i], address)])
  }

  /** The page mapped for an address, counted from the start of its area. */
  function FaultPage(a: Area, address: nat): nat
    requires a.virt <= address
  {
    PageOf(a.virt + PageOffset(a, address))
  }

  /** In a page-aligned area that is the page of the address itself. */
  lemma FaultPageIsPage(a: Area, address: nat)
    requires a.virt <= address && a.virt % PAGE == 0
    ensures FaultPage(a, address) == PageOf(address)
  {
    var offset := address - a.virt;
    QuotientOfSum(a.virt, offset);
    PageAt(a.virt, offset / PAGE);
    assert PageOffset(a, address) == offset / PAGE * PAGE;
    assert PageOf(address) == (a.virt / PAGE + offset / PAGE) % PAGES;
  }

  lemma QuotientOfSum(x: nat, y: nat)
    requires x % PAGE == 0
    ensures (x + y) / PAGE == x / PAGE + y / PAGE
  {
    MoreMultiples(y, PAGE, x / PAGE);
  }

  /** The pages of the first n faults that are handled. */
  function HandledPages(areas: seq<Area>, addresses: seq<nat>, translations: seq<bool>, n: nat): set<nat>
    requires n <= |addresses| == |translations|
  {
    if n == 0 then {}
    else
      HandledPages(areas, addresses, translations, n - 1)
      + PagesOfFault(areas, addresses[n - 1], translations[n - 1])
  }

  /** The page that is mapped for a fault, if one is. */
  function PagesOfFault(areas: seq<Area>, address: nat, translation: bool): set<nat> {
    var i := FirstHit(areas, address);
    if i >= 0 && translation then {FaultPage(areas[i], address)} else {}
  }

  lemma {:induction false} HandledFewer(areas: seq<Area>, addresses: seq<nat>, translations: seq<bool>, j: nat, n: nat)
    requires j <= n <= |addresses| == |translations|
    ensures HandledPages(areas, addresses, translations, j) <= HandledPages(areas, addresses, translations, n)
  {
    if j < n {
      HandledFewer(areas, addresses, translations, j, n - 1);
    }
  }

  /** Exactly these pages have been mapped, each as mapping all areas up front would. */
  ghost predicate MappedAsEager(areas: seq<Area>, pages: set<nat>, before: seq<Descriptor>, after: seq<Descriptor>) {
    && |before| == |after|
    && (forall w: nat :: w < |after| && w in pages ==> after[w] == Eager(areas, w, ZERO) && after[w] != ZERO)
    && (forall w: nat :: w < |after| && w !in pages ==> after[w] == before[w])
  }

  /** A fault maps at most the page of its address, and exactly if the two agree there as
      mapping all areas up front would. */
  lemma FaultIsEager(areas: seq<Area>, address: nat, translation: bool, outcome: Outcome,
                     before: seq<Descriptor>, after: seq<Descriptor>)
    requires WellPlaced(areas) && address < PAGES * PAGE
    requires |before| == PAGES && FaultEffect(areas, address, translation, outcome, before, after)
    ensures MappedAsEager(areas, PagesOfFault(areas, address, translation), before, after)
      <==> outcome == Killed || Agrees(areas, address)
    ensures outcome == Handled ==> PagesOfFault(areas, address, translation) == {PageOf(address)}
  {
    hide Eager, PageIn, FaultPage, WellPlaced, PageOf, Agrees;
    var i := FirstHit(areas, address);
    if outcome == Handled {
      FaultAgreesIff(areas, address);
      AlignedArea(areas, i);
      FaultPageIsPage(areas[i], address);
      PageInIsMapped(areas[i], address);
    }
  }

  lemma AlignedArea(areas: seq<Area>, i: nat)
    requires WellPlaced(areas) && i < |areas|
    ensures areas[i].virt % PAGE == 0
  {
  }

  lemma MappedAsEagerTwice(areas: seq<Area>, p: set<nat>, q: set<nat>, a: seq<Descriptor>, b: seq<Descriptor>,
                           c: seq<Descriptor>)
    requires MappedAsEager(areas, p, a, b) && MappedAsEager(areas, q, b, c)
    ensures MappedAsEager(areas, p + q, a, c)
  {
    hide Eager;
  }

  // Placement.

  function RoundUp(x: nat): (r: nat)
    ensures r % 4096 == 0 && x <= r < x + 4096
  {
    if x % PAGE != 0 then x + (PAGE - x % PAGE) else x
  }

  lemma RoundUpTwice(x: nat)
    ensures RoundUp(RoundUp(x)) == RoundUp(x)
  {
  }

  /** The number of areas that end beyond an address. */
  function CountBeyond(areas: seq<Area>, address: nat): nat {
    if areas == [] then 0
    else (if areas[0].End() > address then 1 else 0) + CountBeyond(areas[1..], address)
  }

  lemma {:induction false} CountMonotone(areas: seq<Area>, a: nat, b: nat)
    requires a <= b
    ensures CountBeyond(areas, b) <= CountBeyond(areas, a)
  {
    if areas != [] {
      CountMonotone(areas[1..], a, b);
    }
  }

  /** Moving past the end of an area leaves fewer areas to move past. */
  lemma {:induction false} CountDrops(areas: seq<Area>, i: nat, a: nat, b: nat)
    requires i < |areas| && a < areas[i].End() <= b
    ensures CountBeyond(areas, b) < CountBeyond(areas, a)
  {
    if i == 0 {
      CountMonotone(areas[1..], a, b);
    } else {
      CountDrops(areas[1..], i - 1, a, b);
    }
  }

  /** The least page-aligned address from `from` on whose range meets no area. */
  ghost predicate LeastGap(areas: seq<Area>, from: nat, len: nat, start: nat) {
    && from <= start && start % PAGE == 0
    && (forall i :: 0 <= i < |areas| ==> !Overlaps(areas[i], start, len))
    && (forall s :: from <= s < start && s % PAGE == 0 ==> exists i :: 0 <= i < |areas| && Overlaps(areas[i], s, len))
  }

  lemma GapHere(areas: seq<Area>, from: nat, len: nat)
    requires from % PAGE == 0 && forall i :: 0 <= i < |areas| ==> !Overlaps(areas[i], from, len)
    ensures LeastGap(areas, from, len, from)
  {
  }

  /** Everything between an overlapping try and the end of the area it met is taken, too. */
  lemma GapBeyond(areas: seq<Area>, from: nat, len: nat, i: nat, start: nat)
    requires i < |areas| && Overlaps(areas[i], from, len)
    requires LeastGap(areas, RoundUp(areas[i].End()), len, start)
    ensures LeastGap(areas, from, len, start)
  {
    forall s | from <= s < start && s % PAGE == 0 ensures exists j :: 0 <= j < |areas| && Overlaps(areas[j], s, len) {
      if s < areas[i].End() {
        assert Overlaps(areas[i], s, len);
      }
    }
  }

  /** One area has been appended, backed by an extent that was not in use before and that is
      large enough exactly if the length fits into 32 bits. It begins at a page unless the
      request had length zero in 32 bits. */
  ghost predicate NewArea(areas: seq<Area>, areas': seq<Area>, extents: map<int, int>, extents': map<int, int>,
                          start: nat, len: nat, prot: bv64)
  {
    |areas'| == |areas| + 1 && areas'[..|areas|] == areas
    && var a := areas'[|areas|];
       var ptr := a.phys + BASE;
       && a == Area(start, a.phys, len, prot & 7, true)
       && ptr !in extents && ptr in extents' && extents' == extents[ptr := extents'[ptr]]
       && (len <= extents'[ptr] <==> len < 0x1_0000_0000)
       && (len % 0x1_0000_0000 != 0 ==> a.phys % PAGE == 0)
  }

  /** The area just added is longer than the memory behind it. */
  ghost predicate TooShort(areas: seq<Area>, areas': seq<Area>, extents: map<int, int>, start: nat, len: nat) {
    |areas'| == |areas| + 1
    && var a := areas'[|areas|];
       a.virt == start && a.size == len && BASE + a.phys in extents && extents[BASE + a.phys] < len
  }

  /** Placing an area in a gap keeps disjoint areas disjoint, and areas in whole pages exactly
      if the new one lies inside the address space and, when it has pages, begins at a page in
      memory, as it does when its length fits into 32 bits. */
  lemma PlacedStaysWell(areas: seq<Area>, areas': seq<Area>, extents: map<int, int>, extents': map<int, int>,
                        from: nat, start: nat, len: nat, prot: bv64)
    requires Disjoint(areas) && LeastGap(areas, from, len, start) && len % PAGE == 0
    requires NewArea(areas, areas', extents, extents', start, len, prot)
    ensures Disjoint(areas')
    ensures WellPlaced(areas') <==>
      WellPlaced(areas) && start + len <= PAGES * PAGE && (len > 0 ==> areas'[|areas|].phys % PAGE == 0)
    ensures len < 0x1_0000_0000 ==> (len > 0 ==> areas'[|areas|].phys % PAGE == 0)
  {
    hide PageAligned;
    assert forall i :: 0 <= i < |areas| ==> areas'[i] == areas[i];
    var a := areas'[|areas|];
    assert PageAligned(a) <==> start + len <= PAGES * PAGE && (len > 0 ==> a.phys % PAGE == 0) by {
      AlignedIff(a);
    }
  }

  lemma AlignedIff(a: Area)
    requires a.virt % PAGE == 0 && a.size % PAGE == 0
    ensures PageAligned(a) <==> a.virt + a.size <= PAGES * PAGE && (a.size > 0 ==> a.phys % PAGE == 0)
  {
  }
}
