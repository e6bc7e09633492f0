/** What the first access to an area maps: after an area has been placed by the system call,
    and in the areas that a process starts with. */
module FirstTouches {
  import opened PageTree
  import opened PageTables
  import opened KernelHeap
  import opened AreaMaps
  import opened AreaLists
  import opened VirtualMemory

  /** The first area that ends at an address; -1 if none does. */
  function EndingAt(areas: seq<Area>, address: nat): (i: int)
    ensures -1 <= i < |areas|
    ensures i >= 0 ==> areas[i].End() == address && forall j :: 0 <= j < i ==> areas[j].End() != address
    ensures i < 0 ==> forall j :: 0 <= j < |areas| ==> areas[j].End() != address
  {
    if areas == [] then -1
    else if areas[0].End() == address then 0
    else
      var i := EndingAt(areas[1..], address);
      if i < 0 then -1 else i + 1
  }

  /** A fault at the start of the last area maps that area's own first page exactly if no
      earlier area ends there, or the first that does goes on into the new one. */
  lemma FirstTouch(areas: seq<Area>, a: Area)
    requires WellPlaced(areas + [a]) && a.size > 0
    ensures var all, h := areas + [a], EndingAt(areas, a.virt);
      && FirstHit(all, a.virt) == (if h < 0 then |areas| else h)
      && (PageIn(all[FirstHit(all, a.virt)], a.virt) == PageIn(a, a.virt) <==> h < 0 || Continues(areas[h], a))
      && (Agrees(all, a.virt) <==> h < 0 || Continues(areas[h], a))
  {
    var all, h := areas + [a], EndingAt(areas, a.virt);
    assert all[|areas|] == a && a.virt < PAGES * PAGE && Disjoint(all);
    hide PageIn, Continues, PageOf, Eager, WellPlaced, Disjoint, Agrees;
    TouchFinds(areas, a);
    OnlyOneBegins(areas, a, h);
    FaultAgreesIff(all, a.virt);
    EagerMaps(all, a.virt, ZERO);
    AgreesAt(all, a.virt);
  }

  lemma AgreesAt(areas: seq<Area>, address: nat)
    requires FirstHit(areas, address) >= 0
    ensures var a := areas[FirstHit(areas, address)];
      Agrees(areas, address) <==> address != a.End() || exists j :: 0 <= j < |areas| && Continues(a, areas[j])
  {
    hide Continues, FirstHit;
  }

  lemma TouchFinds(areas: seq<Area>, a: Area)
    requires Disjoint(areas + [a]) && a.size > 0
    ensures FirstHit(areas + [a], a.virt) == if EndingAt(areas, a.virt) < 0 then |areas| else EndingAt(areas, a.virt)
  {
    hide FirstHit, EndingAt;
    var all, h := areas + [a], EndingAt(areas, a.virt);
    forall i | 0 <= i < |areas|
      ensures areas[i].virt <= a.virt <= areas[i].End() <==> areas[i].End() == a.virt
    {
      assert all[i] == areas[i] && !Overlaps(all[i], all[|areas|].virt, all[|areas|].size);
    }
    FirstHitIs(all, a.virt, if h < 0 then |areas| else h);
  }

  /** Of disjoint areas that hold something only one begins at an address. */
  lemma OnlyOneBegins(areas: seq<Area>, a: Area, h: int)
    requires Disjoint(areas + [a]) && a.size > 0 && -1 <= h < |areas|
    requires h >= 0 ==> areas[h].End() == a.virt
    ensures h >= 0 ==>
      (Continues(areas[h], a) <==> exists j :: 0 <= j < |areas + [a]| && Continues(areas[h], (areas + [a])[j]))
  {
    hide PageBase, AttributesOf;
    var all := areas + [a];
    assert all[|areas|] == a;
    if h >= 0 {
      forall j | 0 <= j < |areas| ensures !Continues(areas[h], all[j]) {
        assert all[j] == areas[j] && !Overlaps(all[j], all[|areas|].virt, all[|areas|].size);
      }
    }
  }

  /** The same for what the system call has placed. */
  lemma TouchAfterMmap(areas: seq<Area>, areas': seq<Area>, extents: map<int, int>, extents': map<int, int>,
                       from: nat, start: nat, len: nat, prot: bv64, outcome: Outcome,
                       before: seq<Descriptor>, after: seq<Descriptor>)
    requires WellPlaced(areas) && LeastGap(areas, from, len, start)
    requires NewArea(areas, areas', extents, extents', start, len, prot)
    requires 0 < len < 0x1_0000_0000 && len % PAGE == 0 && start + len <= PAGES * PAGE
    requires |before| == PAGES && FaultEffect(areas', start, true, outcome, before, after)
    ensures WellPlaced(areas') && outcome == Handled
    ensures var a, h := areas'[|areas|], EndingAt(areas, start);
      after[PageOf(start)] == PageIn(a, start) <==> h < 0 || Continues(areas[h], a)
  {
    hide PageIn, Continues, PageOf, FaultPage, WellPlaced, LeastGap, NewArea, EndingAt, FirstHit, Disjoint, Agrees;
    OnlyDisjoint(areas);
    PlacedStaysWell(areas, areas', extents, extents', from, start, len, prot);
    LastIsNew(areas, areas', extents, extents', start, len, prot);
    FirstTouch(areas, areas'[|areas|]);
    AlignedArea(areas', FirstHit(areas', start));
    FaultPageIsPage(areas'[FirstHit(areas', start)], start);
  }

  lemma OnlyDisjoint(areas: seq<Area>)
    requires WellPlaced(areas)
    ensures Disjoint(areas)
  {
  }

  lemma LastIsNew(areas: seq<Area>, areas': seq<Area>, extents: map<int, int>, extents': map<int, int>,
                  start: nat, len: nat, prot: bv64)
    requires NewArea(areas, areas', extents, extents', start, len, prot)
    ensures |areas'| == |areas| + 1 && areas' == areas + [areas'[|areas|]]
    ensures areas'[|areas|].virt == start && areas'[|areas|].size == len
  {
  }

  predicate OnlyProgram(areas: seq<Area>) {
    |areas| == 1 && PageAligned(areas[0]) && areas[0].virt == 0 && areas[0].size > 0 && areas[0].rwx == 7
  }

  /** The second of two areas begins where the first ends, and touching it maps a page of the first. */
  predicate MissesOwnPage(areas: seq<Area>, start: nat) {
    && |areas| == 2 && start == areas[0].End() == areas[1].virt
    && FirstHit(areas, start) == 0 && PageIn(areas[0], start) != PageIn(areas[1], start)
  }

  /** A process that has its program at 0 and nothing else asks for memory anywhere: it gets the
      place behind the program, and touching that maps what lies behind the program in memory. */
  method MmapBehindProgram(p: Process, len: nat) returns (start: nat)
    requires p.Valid() && 0 < RoundUp(len) < 0x1_0000_0000 && p.space.heap.CanMalloc(RoundUp(len))
    requires OnlyProgram(p.Areas())
    modifies p.vmas, p.vmas.repr, p.space.heap.Repr()
    ensures p.Valid() && MissesOwnPage(p.Areas(), start)
  {
    hide Heap.CanMalloc, Heap.Repr, AreaList.Valid, Process.Valid, AddressSpace.Valid, AddressSpace.Flat,
         AddressSpace.Mapped, RoundUp, LeastGap, NewArea, OnlyProgram, MissesOwnPage;
    ghost var areas, extents := p.Areas(), p.InUse();
    NothingToRound();
    start := p.Mmap(0, len, 3);
    BehindProgram(areas, p.Areas(), extents, p.InUse(), start, RoundUp(len));
  }

  lemma NothingToRound()
    ensures RoundUp(0) == 0
  {
  }

  lemma BehindProgram(areas: seq<Area>, areas': seq<Area>, extents: map<int, int>, extents': map<int, int>,
                      start: nat, len: nat)
    requires OnlyProgram(areas)
    requires LeastGap(areas, 0, len, start) && NewArea(areas, areas', extents, extents', start, len, 3)
    requires 0 < len < 0x1_0000_0000 && len % PAGE == 0
    ensures MissesOwnPage(areas', start)
  {
    var a, b := areas[0], areas'[1];
    assert areas' == [a, b];
    assert start >= a.End() by {
      assert !Overlaps(a, start, len);
    }
    assert !Overlaps(areas[0], a.End(), len);
    FirstHitIs(areas', start, 0);
    hide LeafDescriptor, FlagsOf, AttributesOf, PageIn;
    SameAttributes(a, b);
    ReadWriteIsLess();
    LeafAtEnd(a);
    LeafAtStart(b);
  }

  lemma ReadWriteIsLess()
    ensures FlagsOf(7) != FlagsOf(3 & 7) && 3 & 7 == 3 as bv64
  {
  }

  // The areas of a new process.

  const PERIPHERAL_START := 0x3c00_0000
  const PERIPHERAL_END := 0x3f00_0000
  const USER_STACK_BASE := 0xffff_ffff_f000
  const USTACK_SIZE := 0x4000
  const USER_SIGNAL_WRAPPER_VA := 0xffff_ffff_9000
  const USER_SIGNAL_STKSTART_VA := 0xffff_ffff_8000

  /** Program, stack, devices, signal wrapper and signal stack, in the order of the list. */
  function ExecAreas(size: nat, program: nat, stack: nat, wrapper: nat, signals: nat): seq<Area> {
    [Area(0, program, RoundUp(size), 7, true),
     Area(USER_STACK_BASE - USTACK_SIZE, stack, USTACK_SIZE, 7, true),
     Area(PERIPHERAL_START, PERIPHERAL_START, PERIPHERAL_END - PERIPHERAL_START, 3, false),
     Area(USER_SIGNAL_WRAPPER_VA, wrapper, 0x2000, 5, false),
     Area(USER_SIGNAL_STKSTART_VA, signals, PAGE, 7, true)]
  }

  /** The signal wrapper lies behind the signal stack and the user stack behind the wrapper,
      and each is listed before what it lies behind: only the ends of the program, of the
      devices and of the user stack are served wrongly. */
  lemma ExecAgreesIff(size: nat, program: nat, stack: nat, wrapper: nat, signals: nat, address: nat)
    requires RoundUp(size) < 0x3c00_0000
    ensures Agrees(ExecAreas(size, program, stack, wrapper, signals), address)
      <==> address != RoundUp(size) && address != 0x3f00_0000 && address != 0xffff_ffff_f000
    ensures FirstHit(ExecAreas(size, program, stack, wrapper, signals), 0xffff_ffff_9000) == 3
    ensures FirstHit(ExecAreas(size, program, stack, wrapper, signals), 0xffff_ffff_b000) == 1
  {
    hide RoundUp, PageBase, AttributesOf, FirstHit;
    FirstHitIs(ExecAreas(size, program, stack, wrapper, signals), 0xffff_ffff_9000, 3);
    FirstHitIs(ExecAreas(size, program, stack, wrapper, signals), 0xffff_ffff_b000, 1);
    var areas := ExecAreas(size, program, stack, wrapper, signals);
    if address == RoundUp(size) {
      FirstHitIs(areas, address, 0);
    } else if address == USER_SIGNAL_WRAPPER_VA {
      FirstHitIs(areas, address, 3);
    } else if address == USER_STACK_BASE - USTACK_SIZE || address == USER_STACK_BASE {
      FirstHitIs(areas, address, 1);
    } else if address == PERIPHERAL_END {
      FirstHitIs(areas, address, 2);
    }
  }
}
