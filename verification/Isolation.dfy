/** Several processes on one heap: what one of them does leaves the others alone. */
module Isolation {
  import opened PageFrames
  import opened Extents
  import opened KernelHeap
  import opened PageTree
  import opened PageTables
  import opened AreaMaps
  import opened AreaLists
  import opened VirtualMemory

  /** What belongs to a process: the addresses of its tables and of its areas' memory. */
  ghost function Holdings(t: Tables, areas: seq<Area>): set<int> {
    (set n | n in t :: Address(t[n])) + Memories(areas, |areas|)
  }

  /** Two processes on one heap neither of which has a table or memory of the other. */
  ghost predicate Strangers(p: Process, q: Process)
    reads p, p.space, p.space.mem, p.space.heap.Repr(), p.vmas, p.vmas.repr
    reads q, q.space, q.space.mem, q.space.heap.Repr(), q.vmas, q.vmas.repr
  {
    && p.space != q.space && p.space.heap == q.space.heap && p.space.mem == q.space.mem
    && p.vmas != q.vmas && p.vmas.repr !! q.vmas.repr
    && p.Valid() && q.Valid()
    && Holdings(p.space.tables, p.Areas()) !! Holdings(q.space.tables, q.Areas())
  }

  /** All that there is to a process: its tables and areas, how long its memory is, what walks
      through its tables find, and which frames are nobody's for good. */
  datatype View = View(tables: Tables, areas: seq<Area>, extents: map<int, int>, walks: seq<Option<Descriptor>>,
    reserved: set<int>)

  /** The extents that begin at one of the addresses. */
  ghost function Among(extents: map<int, int>, addresses: set<int>): map<int, int> {
    map x | x in addresses && x in extents :: extents[x]
  }

  lemma SameAmong(extents: map<int, int>, extents': map<int, int>, addresses: set<int>)
    requires forall x :: x in addresses ==> x in extents && x in extents' && extents'[x] == extents[x]
    ensures Among(extents', addresses) == Among(extents, addresses)
  {
    var a, b := Among(extents', addresses), Among(extents, addresses);
    assert forall x :: x in a <==> x in b;
    assert forall x :: x in a ==> a[x] == b[x];
    assert a == b;
  }

  ghost function ViewIn(s: Snapshot, areas: seq<Area>, root: nat): View {
    View(s.tables, areas, Among(s.extents, Holdings(s.tables, areas)), Walks(s.mem, root), s.reserved)
  }

  ghost function ViewOf(q: Process): View
    reads q, q.space, q.space.mem, q.space.heap, q.space.heap.buddies, q.vmas
  {
    ViewIn(q.space.Now(), q.Areas(), q.space.root)
  }

  /** From one moment to another a process has given back and written to only what was its
      own, and has taken only what was nobody's. */
  ghost predicate KeepsToItself(s: Snapshot, areas: seq<Area>, s': Snapshot, areas': seq<Area>) {
    && (forall x :: x in s.extents && x !in Holdings(s.tables, areas) ==>
        x in s'.extents && s'.extents[x] == s.extents[x])
    && (forall x :: x in Holdings(s'.tables, areas') && x in s.extents ==> x in Holdings(s.tables, areas))
    && OthersKept(s, s') && s'.reserved == s.reserved
  }

  /** What a process is like, said by what is in use alone. */
  ghost predicate Settled(s: Snapshot, areas: seq<Area>, root: nat) {
    && Tree(s.mem, s.tables) && s.tables[ROOT] == root && Owns(areas, s)
    && forall n :: n in s.tables ==>
      Address(s.tables[n]) in s.extents && s.extents[Address(s.tables[n])] == FRAME_SIZE
  }

  lemma IsSettled(q: Process)
    requires q.Valid()
    ensures Settled(q.space.Now(), q.Areas(), q.space.root)
    ensures forall n :: n in q.space.tables ==> q.space.tables[n] in q.space.heap.buddies.live
  {
    hide Heap.Valid, Tree, Owns;
    q.space.TableFrames();
    forall n | n in q.space.tables
      ensures var x := Address(q.space.tables[n]); x in q.space.heap.extents && q.space.heap.extents[x] == FRAME_SIZE
    {
      q.space.PageIff(q.space.tables[n]);
    }
  }

  lemma SettledIsValid(q: Process)
    requires q.space.Shape() && q.space.heap.Valid() && q.vmas.Valid()
    requires Settled(q.space.Now(), q.Areas(), q.space.root)
    ensures q.Valid()
  {
    hide Heap.Valid, Owns;
    forall n | n in q.space.tables ensures q.space.IsPage(q.space.tables[n]) {
      q.space.PageIff(q.space.tables[n]);
    }
  }

  /** Where the holdings stay in use and the tables hold what they held, all is as before. */
  lemma StaysSettled(s: Snapshot, s': Snapshot, areas: seq<Area>, root: nat)
    requires Settled(s, areas, root) && s'.tables == s.tables && s'.reserved == s.reserved
    requires Pages512(s'.mem) && |s'.mem| == |s.mem|
    requires forall x :: x in Holdings(s.tables, areas) && x in s.extents ==>
      x in s'.extents && s'.extents[x] == s.extents[x]
    requires forall n :: n in s.tables && s.tables[n] < |s.mem| ==> s'.mem[s.tables[n]] == s.mem[s.tables[n]]
    ensures Settled(s', areas, root) && ViewIn(s', areas, root) == ViewIn(s, areas, root)
  {
    hide Tree, Owns, Memories, Holdings, OthersKept;
    HoldingsInUse(s, areas, root);
    TablesHeld(s.tables, areas);
    OwnsElsewhere(areas, s, s');
    SameWalks(s.mem, s'.mem, s.tables, root);
    SameAmong(s.extents, s'.extents, Holdings(s.tables, areas));
  }

  lemma HoldingsInUse(s: Snapshot, areas: seq<Area>, root: nat)
    requires Settled(s, areas, root)
    ensures forall x :: x in Holdings(s.tables, areas) ==> x in s.extents
  {
    hide Tree, Owns, Memories;
    MemoriesInUse(areas, s);
  }

  lemma TablesHeld(t: Tables, areas: seq<Area>)
    ensures forall n :: n in t ==> Address(t[n]) in Holdings(t, areas)
    ensures forall x :: x in Memories(areas, |areas|) ==> x in Holdings(t, areas)
  {
  }

  /** All that walks through a tree find. */
  ghost function Walks(mem: Memory, root: nat): (r: seq<Option<Descriptor>>)
    ensures |r| == PAGES
  {
    seq(PAGES, v requires 0 <= v => Walk(mem, root, 0, v))
  }

  lemma SameWalks(mem: Memory, mem': Memory, t: Tables, root: nat)
    requires Tree(mem, t) && t[ROOT] == root && |mem'| == |mem| && Pages512(mem')
    requires forall n :: n in t && t[n] < |mem| ==> mem'[t[n]] == mem[t[n]]
    ensures Tree(mem', t) && Walks(mem', root) == Walks(mem, root)
  {
    SameTables(mem, mem', t);
    hide Tree, Walk, Entry;
    forall v: nat | v < PAGES ensures Walk(mem', root, 0, v) == Walk(mem, root, 0, v) {
      WalkIsEntry(mem, t, v);
      WalkIsEntry(mem', t, v);
    }
  }

  lemma OwnsElsewhere(areas: seq<Area>, s: Snapshot, s': Snapshot)
    requires Owns(areas, s) && s'.tables == s.tables
    requires forall x :: x in Memories(areas, |areas|) && x in s.extents ==> x in s'.extents
    ensures Owns(areas, s')
  {
    forall j | 0 <= j < |areas| && areas[j].alloced ensures Owned(areas[j], s') {
      assert Owned(areas[j], s) && BASE + areas[j].phys in Memories(areas, |areas|);
    }
  }

  // What each operation does.

  /** A process that keeps to itself leaves every other as it was. */
  lemma Undisturbed(p: Process, q: Process, s: Snapshot, areas: seq<Area>, t: Snapshot, others: seq<Area>)
    requires t == s.(tables := t.tables) && Settled(t, others, q.space.root) && InBlocks(t)
    requires forall n :: n in s.tables ==> s.tables[n] < |s.mem|
    requires Holdings(s.tables, areas) !! Holdings(t.tables, others)
    requires p.space != q.space && p.space.heap == q.space.heap && p.space.mem == q.space.mem
    requires p.vmas != q.vmas && p.vmas.repr !! q.vmas.repr && p.Valid() && q.vmas.Valid()
    requires q.space.tables == t.tables && q.Areas() == others
    requires KeepsToItself(s, areas, p.space.Now(), p.Areas())
    ensures Strangers(p, q) && ViewOf(q) == ViewIn(t, others, q.space.root)
  {
    hide Heap.Valid, Tree, Owns, Holdings, Memories, Walks;
    var s' := p.space.Now();
    p.space.TableFrames();
    HoldingsInUse(t, others, q.space.root);
    StillApart(Holdings(s.tables, areas), Holdings(s'.tables, p.Areas()), Holdings(t.tables, others), s.extents);
    TablesSpared(s, areas, s', t, others);
    StaysSettled(t, q.space.Now(), others, q.space.root);
    SettledIsValid(q);
    assert ViewOf(q) == ViewIn(t, others, q.space.root);
    assert Strangers(p, q);
  }

  lemma StillApart(a: set<int>, a': set<int>, b: set<int>, extents: map<int, int>)
    requires a !! b && forall x :: x in b ==> x in extents
    requires forall x :: x in a' && x in extents ==> x in a
    ensures a' !! b
  {
    forall x | x in a' ensures x !in b {
    }
  }

  /** Tables lie in live blocks. */
  ghost predicate InBlocks(s: Snapshot) {
    forall n :: n in s.tables ==> s.tables[n] in s.live
  }

  lemma TablesSpared(s: Snapshot, areas: seq<Area>, s': Snapshot, t: Snapshot, others: seq<Area>)
    requires t == s.(tables := t.tables) && InBlocks(t) && OthersKept(s, s')
    requires Holdings(s.tables, areas) !! Holdings(t.tables, others)
    ensures forall n :: n in t.tables && t.tables[n] < |t.mem| ==> s'.mem[t.tables[n]] == t.mem[t.tables[n]]
  {
    hide Holdings;
    TablesHeld(s.tables, areas);
    TablesHeld(t.tables, others);
    forall n | n in t.tables ensures t.tables[n] !in s.tables.Values {
      forall m | m in s.tables ensures s.tables[m] != t.tables[n] {
        assert Address(s.tables[m]) in Holdings(s.tables, areas);
        assert Address(t.tables[n]) in Holdings(t.tables, others);
      }
    }
  }

  lemma GrownKeeps(s: Snapshot, s': Snapshot, wanted: set<Node>, areas: seq<Area>)
    requires Grown(s, s', wanted)
    ensures KeepsToItself(s, areas, s', areas)
  {
    hide BlocksGrown, OthersKept, Memories;
    TablesHeld(s.tables, areas);
    forall x | x in Holdings(s'.tables, areas) && x in s.extents ensures x in Holdings(s.tables, areas) {
      if x !in Memories(areas, |areas|) {
        var n :| n in s'.tables && Address(s'.tables[n]) == x;
        assert n in s.tables;
      }
    }
  }

  lemma ShrunkKeeps(s: Snapshot, s': Snapshot, areas: seq<Area>)
    requires Shrunk(s, s')
    ensures KeepsToItself(s, areas, s', areas)
  {
    hide BlocksShrunk, OthersKept, Memories;
    TablesHeld(s.tables, areas);
    forall x | x in Holdings(s'.tables, areas) ensures x in Holdings(s.tables, areas) {
      if x !in Memories(areas, |areas|) {
        var n :| n in s'.tables && Address(s'.tables[n]) == x;
        assert s.tables[n] == s'.tables[n];
      }
    }
  }

  lemma MmapKeeps(s: Snapshot, s': Snapshot, areas: seq<Area>, areas': seq<Area>, start: nat, len: nat, prot: bv64)
    requires NewArea(areas, areas', s.extents, s'.extents, start, len, prot)
    requires s'.tables == s.tables && s'.mem == s.mem && s'.reserved == s.reserved
    ensures KeepsToItself(s, areas, s', areas')
  {
    forall x | x in Memories(areas', |areas'|) && x in s.extents ensures x in Memories(areas, |areas|) {
      var j :| 0 <= j < |areas'| && areas'[j].alloced && x == BASE + areas'[j].phys;
      assert j < |areas| ==> areas'[j] == areas'[..|areas|][j];
    }
  }

  lemma ReleaseKeeps(s: Snapshot, s': Snapshot, areas: seq<Area>)
    requires s'.extents == s.extents - Memories(areas, |areas|)
    requires s'.tables == s.tables && s'.mem == s.mem && s'.reserved == s.reserved
    ensures KeepsToItself(s, areas, s', [])
  {
  }

  lemma ReapKeeps(s: Snapshot, s': Snapshot, areas: seq<Area>)
    requires ROOT in s.tables && s'.tables == map[ROOT := s.tables[ROOT]] && OthersKept(s, s')
    requires s'.reserved == s.reserved
    requires Process.Reaped(s.tables, areas, s.extents, s'.extents)
    ensures KeepsToItself(s, areas, s', [])
  {
    hide OthersKept, Memories;
    TablesHeld(s.tables, areas);
    assert Memories([], 0) == {} by { NoMemories(); }
  }

  lemma NoMemories()
    ensures Memories([], 0) == {}
  {
  }

  /** What a process consists of apart from heap and memory is no part of the heap. */
  ghost predicate Elsewhere(p: Process, q: Process)
    reads q.vmas, p.vmas
  {
    && p.space !in p.space.heap.Repr() && q.space !in p.space.heap.Repr()
    && (p.space.mem as object) !in p.space.heap.Repr()
    && p.vmas !in p.space.heap.Repr() && q.vmas !in p.space.heap.Repr()
    && (forall n :: n in p.vmas.repr ==> n !in p.space.heap.Repr())
    && (forall n :: n in q.vmas.repr ==> n !in p.space.heap.Repr())
  }

  /** What holds of two strangers before one of them does something. */
  lemma Beforehand(p: Process, q: Process)
    requires Strangers(p, q)
    ensures Settled(q.space.Now(), q.Areas(), q.space.root) && InBlocks(q.space.Now())
    ensures forall n :: n in p.space.tables ==> p.space.tables[n] < p.space.mem.Length
    ensures Holdings(p.space.tables, p.Areas()) !! Holdings(q.space.tables, q.Areas())
    ensures q.space.Now() == p.space.Now().(tables := q.space.tables)
    ensures ROOT in p.space.tables && p.space.tables[ROOT] == p.space.root && p.Valid() && q.vmas.Valid()
    ensures p.space != q.space && p.space.heap == q.space.heap && p.space.mem == q.space.mem
    ensures p.vmas != q.vmas && p.vmas.repr !! q.vmas.repr && q.Valid() && Elsewhere(p, q)
  {
    hide Heap.Valid, Tree, Owns, Holdings;
    p.Outside();
    q.Outside();
    IsSettled(q);
    p.space.TableFrames();
  }

  // The operations.

  /** Placing an area. */
  method MmapBeside(p: Process, q: Process, hint: nat, len: nat, prot: bv64) returns (start: nat)
    requires Strangers(p, q) && p.space.heap.CanMalloc(RoundUp(len) % 0x1_0000_0000)
    modifies p.vmas, p.vmas.repr, p.space.heap.Repr()
    ensures Strangers(p, q) && ViewOf(q) == old(ViewOf(q))
  {
    hide Strangers, Process.Valid, AreaList.Valid, Heap.Repr, AddressSpace.Valid, AddressSpace.Flat, Owns, Settled,
         InBlocks, KeepsToItself, Holdings, ViewIn, NewArea,
         RoundUp, LeastGap, AddressSpace.Mapped;
    Beforehand(p, q);
    ghost var s, areas, t, others := p.space.Now(), p.Areas(), q.space.Now(), q.Areas();
    start := p.Mmap(hint, len, prot);
    MmapKeeps(s, p.space.Now(), areas, p.Areas(), start, RoundUp(len), prot);
    Undisturbed(p, q, s, areas, t, others);
  }

  /** A fault, whatever it maps. */
  method FaultBeside(p: Process, q: Process, address: nat, translation: bool) returns (outcome: Outcome)
    requires Strangers(p, q) && p.space.RoomFor(NodesFor(PagesOfFault(p.Areas(), address, translation)))
    modifies p.space`tables, p.space.mem, p.space.heap.Repr()
    ensures Strangers(p, q) && ViewOf(q) == old(ViewOf(q))
  {
    hide Strangers, Process.Valid, AreaList.Valid, Heap.Repr, AddressSpace.Valid, AddressSpace.Flat, Owns, Settled,
         InBlocks, KeepsToItself, Holdings, ViewIn, Grown,
         AddressSpace.Mapped, PagesOfFault, NodesFor, FaultEffect, RoomIn;
    Beforehand(p, q);
    ghost var s, areas, t, others := p.space.Now(), p.Areas(), q.space.Now(), q.Areas();
    outcome := p.Fault(address, translation);
    GrownKeeps(s, p.space.Now(), NodesFor(PagesOfFault(areas, address, translation)), areas);
    Undisturbed(p, q, s, areas, t, others);
  }

  /** Any sequence of faults. */
  method FaultsBeside(p: Process, q: Process, addresses: seq<nat>, translations: seq<bool>)
    requires Strangers(p, q) && WellPlaced(p.Areas()) && |translations| == |addresses|
    requires p.space.RoomFor(NodesFor(HandledPages(p.Areas(), addresses, translations, |addresses|)))
    requires forall j :: 0 <= j < |addresses| ==> addresses[j] < PAGES * PAGE
    requires forall j :: 0 <= j < |addresses| && translations[j] ==> Agrees(p.Areas(), addresses[j])
    modifies p.space`tables, p.space.mem, p.space.heap.Repr()
    ensures Strangers(p, q) && ViewOf(q) == old(ViewOf(q))
  {
    hide Strangers, Process.Valid, AreaList.Valid, Heap.Repr, AddressSpace.Valid, AddressSpace.Flat, Owns, Settled,
         InBlocks, KeepsToItself, Holdings, ViewIn, Grown, AddressSpace.Mapped, HandledPages, NodesFor, MappedAsEager,
         RoomIn, Agrees, WellPlaced;
    Beforehand(p, q);
    ghost var s, areas, t, others := p.space.Now(), p.Areas(), q.space.Now(), q.Areas();
    var outcomes := p.Faults(addresses, translations);
    GrownKeeps(s, p.space.Now(), NodesFor(HandledPages(areas, addresses, translations, |addresses|)), areas);
    Undisturbed(p, q, s, areas, t, others);
  }

  /** Mapping a range, in an area or not. */
  method MapBeside(p: Process, q: Process, va: nat, size: nat, pa: nat, flag: bv64)
    requires Strangers(p, q) && p.space.RoomFor(NodesFor(Visited(va, PageCount(size))))
    modifies p.space`tables, p.space.mem, p.space.heap.Repr()
    ensures Strangers(p, q) && ViewOf(q) == old(ViewOf(q))
  {
    hide Strangers, AreaList.Valid, Heap.Repr, AddressSpace.Valid, AddressSpace.Flat, Owns, Settled, InBlocks,
         KeepsToItself, Holdings, ViewIn, Grown, AddressSpace.Mapped, NodesFor, RoomIn, Visited, AfterMapping;
    Beforehand(p, q);
    ghost var s, areas, t, others := p.space.Now(), p.Areas(), q.space.Now(), q.Areas();
    ghost var wanted := NodesFor(Visited(va, PageCount(size)));
    p.space.MapPages(va, size, pa, flag);
    OwnsGrown(areas, s, p.space.Now(), wanted);
    GrownKeeps(s, p.space.Now(), wanted, areas);
    Undisturbed(p, q, s, areas, t, others);
  }

  /** Tearing the tables down, and keeping the areas. */
  method FreeBeside(p: Process, q: Process)
    requires Strangers(p, q)
    modifies p.space`tables, p.space.mem, p.space.heap.Repr()
    ensures Strangers(p, q) && ViewOf(q) == old(ViewOf(q))
    ensures p.space.tables == map[ROOT := p.space.root] && p.Areas() == old(p.Areas())
  {
    hide Strangers, AreaList.Valid, Heap.Repr, AddressSpace.Valid, AddressSpace.Flat, Owns, Settled, InBlocks,
         KeepsToItself, Holdings, ViewIn, Shrunk, AddressSpace.Mapped, Walk;
    Beforehand(p, q);
    ghost var s, areas, t, others := p.space.Now(), p.Areas(), q.space.Now(), q.Areas();
    p.space.FreeAllTables();
    OwnsShrunk(areas, s, p.space.Now());
    ShrunkKeeps(s, p.space.Now(), areas);
    Undisturbed(p, q, s, areas, t, others);
  }

  /** Mapping all areas as a whole. */
  method MapAllBeside(p: Process, q: Process)
    requires Strangers(p, q) && p.space.RoomFor(NodesFor(PagesOf(p.Areas())))
    modifies p.space`tables, p.space.mem, p.space.heap.Repr()
    ensures Strangers(p, q) && ViewOf(q) == old(ViewOf(q))
  {
    hide Strangers, Process.Valid, AreaList.Valid, Heap.Repr, AddressSpace.Valid, AddressSpace.Flat, Owns, Settled,
         InBlocks, KeepsToItself, Holdings, ViewIn, Grown, AddressSpace.Mapped, NodesFor, RoomIn, PagesOf, Eager;
    Beforehand(p, q);
    ghost var s, areas, t, others := p.space.Now(), p.Areas(), q.space.Now(), q.Areas();
    p.MapAll();
    GrownKeeps(s, p.space.Now(), NodesFor(PagesOf(areas)), areas);
    Undisturbed(p, q, s, areas, t, others);
  }

  /** Process exit: the areas. */
  method DeleteAreasBeside(p: Process, q: Process)
    requires Strangers(p, q)
    modifies p.vmas, p.space.heap.Repr()
    ensures Strangers(p, q) && ViewOf(q) == old(ViewOf(q))
  {
    hide Strangers, Process.Valid, AreaList.Valid, Heap.Repr, AddressSpace.Valid, AddressSpace.Flat, Owns, Settled,
         InBlocks, KeepsToItself, Holdings, ViewIn, AddressSpace.Mapped, Memories;
    Beforehand(p, q);
    ghost var s, areas, t, others := p.space.Now(), p.Areas(), q.space.Now(), q.Areas();
    p.DeleteAreas();
    ReleaseKeeps(s, p.space.Now(), areas);
    Undisturbed(p, q, s, areas, t, others);
  }

  /** Process exit: tables and areas. */
  method ReapBeside(p: Process, q: Process)
    requires Strangers(p, q)
    modifies p.space`tables, p.space.mem, p.vmas, p.space.heap.Repr()
    ensures Strangers(p, q) && ViewOf(q) == old(ViewOf(q))
  {
    hide Strangers, Process.Valid, AreaList.Valid, Heap.Repr, AddressSpace.Valid, AddressSpace.Flat, Owns, Settled,
         InBlocks, KeepsToItself, Holdings, ViewIn, AddressSpace.Mapped, Memories, OthersKept, Process.Reaped;
    Beforehand(p, q);
    ghost var s, areas, t, others := p.space.Now(), p.Areas(), q.space.Now(), q.Areas();
    p.Reap();
    ReapKeeps(s, p.space.Now(), areas);
    Undisturbed(p, q, s, areas, t, others);
  }

  /** A new area over memory that is the other's neither. */
  method AddAreaBeside(p: Process, q: Process, va: nat, size: nat, pa: nat, rwx: bv64, alloced: bool)
    requires Strangers(p, q)
    requires alloced ==> BASE + pa in p.InUse() && Nobodys(BASE + pa, p) && Nobodys(BASE + pa, q)
    modifies p.vmas, p.vmas.repr
    ensures Strangers(p, q) && ViewOf(q) == old(ViewOf(q))
    ensures p.Areas() == old(p.Areas()) + [Area(va, pa, RoundUp(size), rwx, alloced)]
  {
    hide Strangers, Process.Valid, AreaList.Valid, Heap.Repr, AddressSpace.Valid, AddressSpace.Flat, Owns, ViewIn,
         RoundUp, AddressSpace.Mapped, Holdings, Memories, Settled, InBlocks;
    Beforehand(p, q);
    if alloced {
      NobodysFacts(BASE + pa, p);
    }
    ghost var areas, area := p.Areas(), Area(va, pa, RoundUp(size), rwx, alloced);
    assert allocated(p.space.heap.Repr());
    p.AddArea(va, size, pa, rwx, alloced);
    MoreButNobodys(p.space.tables, areas, area, q);
    Meet(p, q);
  }

  lemma Meet(p: Process, q: Process)
    requires p.space != q.space && p.space.heap == q.space.heap && p.space.mem == q.space.mem
    requires p.vmas != q.vmas && p.vmas.repr !! q.vmas.repr && p.Valid() && q.Valid()
    requires Holdings(p.space.tables, p.Areas()) !! Holdings(q.space.tables, q.Areas())
    ensures Strangers(p, q)
  {
  }

  ghost predicate Nobodys(x: int, p: Process)
    reads p, p.space, p.vmas
  {
    x !in Holdings(p.space.tables, p.Areas())
  }

  lemma NobodysFacts(x: int, p: Process)
    requires Nobodys(x, p)
    ensures x !in Memories(p.Areas(), |p.Areas()|)
    ensures forall n :: n in p.space.tables ==> Address(p.space.tables[n]) != x
  {
  }

  lemma MoreButNobodys(t: Tables, areas: seq<Area>, a: Area, q: Process)
    requires Holdings(t, areas) !! Holdings(q.space.tables, q.Areas()) && (a.alloced ==> Nobodys(BASE + a.phys, q))
    ensures Holdings(t, areas + [a]) !! Holdings(q.space.tables, q.Areas())
  {
    MemoriesMore(areas, a);
  }

  lemma MemoriesMore(areas: seq<Area>, a: Area)
    ensures Memories(areas + [a], |areas| + 1) == Memories(areas, |areas|) + if a.alloced then {BASE + a.phys} else {}
  {
    var all := areas + [a];
    MemoriesNext(all, |areas|);
    assert forall i :: 0 <= i < |areas| ==> all[i] == areas[i];
    assert Memories(all, |areas|) == Memories(areas, |areas|);
  }

  /** A new process: its root table comes from the heap, so it is nobody's, and it maps nothing. */
  method Create(q: Process) returns (p: Process)
    requires q.Valid() && |q.space.Unused()| >= 1
    modifies q.space.mem, q.space.heap.Repr()
    ensures fresh(p) && Strangers(p, q) && ViewOf(q) == old(ViewOf(q))
    ensures p.Areas() == [] && forall v: nat :: v < PAGES ==> p.space.Mapped(v) == ZERO
  {
    hide AreaList.Valid, Heap.Repr, Heap.Valid, AddressSpace.Flat, Owns, Walks, Tree, Holdings, Memories, Entry;
    var r := NewRoot(q);
    q.Outside();
    assert allocated(q.space.heap.Repr());
    q.space.TableFrames();
    var space := new AddressSpace(q.space.heap, q.space.mem, r);
    p := new Process(space);
    OnlyRoot(p);
    Meet(p, q);
  }

  /** An empty page that is nobody's. */
  method NewRoot(q: Process) returns (r: nat)
    requires q.Valid() && |q.space.Unused()| >= 1
    modifies q.space.mem, q.space.heap.Repr()
    ensures q.Valid() && ViewOf(q) == old(ViewOf(q)) && q.vmas.repr == old(q.vmas.repr)
    ensures r < q.space.mem.Length && q.space.mem[r] == NoEntries() && q.space.IsPage(r)
    ensures Address(r) !in Holdings(q.space.tables, q.Areas())
  {
    hide AreaList.Valid, Process.Valid, Heap.Repr, Heap.Valid, AddressSpace.Valid, AddressSpace.Flat, Owns, Walks, Tree,
         Holdings, Memories, Entry, ViewIn, Settled;
    q.Outside();
    Parts(q);
    IsSettled(q);
    ghost var t, others, root := q.space.Now(), q.Areas(), q.space.root;
    HoldingsInUse(t, others, root);
    q.space.TableFrames();
    r := q.space.NewPage();
    SpaceParts(q.space);
    q.space.mem[r] := NoEntries();
    StaysSettled(t, q.space.Now(), others, root);
    SettledIsValid(q);
  }

  lemma Parts(q: Process)
    requires q.Valid()
    ensures q.space.Valid() && q.vmas.Valid()
  {
  }

  lemma SpaceParts(a: AddressSpace)
    requires a.Valid()
    ensures a.Shape() && a.heap.Valid()
  {
  }

  lemma OnlyRoot(p: Process)
    requires p.Areas() == [] && p.space.tables == map[ROOT := p.space.root]
    ensures Holdings(p.space.tables, p.Areas()) == {Address(p.space.root)}
  {
    NoMemories();
    var t, x := p.space.tables, Address(p.space.root);
    assert ROOT in t && Address(t[ROOT]) == x;
    assert (set n | n in t :: Address(t[n])) == {x};
  }
}
