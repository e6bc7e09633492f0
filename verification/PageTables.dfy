/** Mapping pages into a tree of translation tables whose frames come from the kernel
    heap, and tearing the tree down again. */
module PageTables {
  import opened Dyadic
  import opened Blocks
  import opened Integers
  import opened PageFrames
  import opened Carving
  import opened Extents
  import opened KernelHeap
  import opened PageTree

  const PAGE := 0x1000

  /** The page number of a virtual address; bits above 47 play no part. */
  function PageOf(va: nat): (v: nat)
    ensures v < PAGES
  {
    va / PAGE % PAGES
  }

  /** How far an address is shifted right for the index of a level, as a divisor. */
  function Shift(level: nat): (d: nat)
    requires level < 4
    ensures d > 0
  {
    match level
    case 0 => 0x80_0000_0000
    case 1 => 0x4000_0000
    case 2 => 0x20_0000
    case 3 => 0x1000
  }

  /** The index for a level is the digit of the page number. */
  lemma IndexIsDigit(va: nat, level: nat)
    requires level < 4
    ensures va / Shift(level) % ENTRIES == Digit(PageOf(va), level)
  {
    var x := va / PAGE;
    match level {
      case 0 => ShiftTwice0(va); LowDigits0(x);
      case 1 => ShiftTwice1(va); LowDigits1(x);
      case 2 => ShiftTwice2(va); LowDigits2(x);
      case 3 => LowDigits3(x);
    }
  }

  lemma ShiftTwice0(x: nat)
    ensures x / 0x1000 / 0x800_0000 == x / 0x80_0000_0000
  {
  }

  lemma ShiftTwice1(x: nat)
    ensures x / 0x1000 / 0x4_0000 == x / 0x4000_0000
  {
  }

  lemma ShiftTwice2(x: nat)
    ensures x / 0x1000 / 0x200 == x / 0x20_0000
  {
  }

  lemma LowDigits0(x: nat)
    ensures (x % PAGES) / 0x800_0000 % ENTRIES == x / 0x800_0000 % ENTRIES
  {
    var q, r := x / PAGES, x % PAGES;
    MoreMultiples(r, 0x800_0000, ENTRIES * q);
    MoreMultiples(r / 0x800_0000, ENTRIES, q);
  }

  lemma LowDigits1(x: nat)
    ensures (x % PAGES) / 0x4_0000 % ENTRIES == x / 0x4_0000 % ENTRIES
  {
    var q, r := x / PAGES, x % PAGES;
    MoreMultiples(r, 0x4_0000, ENTRIES * (0x200 * q));
    MoreMultiples(r / 0x4_0000, ENTRIES, 0x200 * q);
  }

  lemma LowDigits2(x: nat)
    ensures (x % PAGES) / 0x200 % ENTRIES == x / 0x200 % ENTRIES
  {
    var q, r := x / PAGES, x % PAGES;
    MoreMultiples(r, 0x200, ENTRIES * (0x4_0000 * q));
    MoreMultiples(r / 0x200, ENTRIES, 0x4_0000 * q);
  }

  lemma LowDigits3(x: nat)
    ensures (x % PAGES) % ENTRIES == x % ENTRIES
  {
    MoreMultiples(x % PAGES, ENTRIES, 0x800_0000 * (x / PAGES));
  }

  /** One descriptor: bits 1 and 0 are both set, or there is nothing. */
  function Fetch(mem: Memory, frame: nat, i: nat): Option<Descriptor> {
    if frame < |mem| && i < |mem[frame]| && mem[frame][i].bits & 3 == 3 then Some(mem[frame][i]) else None
  }

  /** What the hardware finds for a virtual address: four tables in turn, indexed by bits 47
      to 39, 38 to 30, 29 to 21 and 20 to 12. */
  function Translate(mem: Memory, root: nat, va: nat): Option<Descriptor> {
    var first := Fetch(mem, root, va / 0x80_0000_0000 % 512);
    if first.None? then None
    else
      var second := Fetch(mem, first.value.frame, va / 0x4000_0000 % 512);
      if second.None? then None
      else
        var third := Fetch(mem, second.value.frame, va / 0x20_0000 % 512);
        if third.None? then None else Fetch(mem, third.value.frame, va / 0x1000 % 512)
  }

  lemma TranslateIsWalk(mem: Memory, root: nat, va: nat)
    ensures Translate(mem, root, va) == Walk(mem, root, 0, PageOf(va))
  {
    hide Digit, PageOf;
    IndexIsDigit(va, 0);
    IndexIsDigit(va, 1);
    IndexIsDigit(va, 2);
    IndexIsDigit(va, 3);
  }

  /** The descriptor of a page, in numbers: valid, a page, accessed, normal memory without
      caching, and not executable at EL1. */
  lemma LeafBits(pa: nat, flag: bv64)
    ensures LeafDescriptor(pa, flag)
      == Descriptor(pa / 4096, (pa % 4096) as bv64 | 0x0020_0000_0000_0407 | flag)
  {
    var low := (pa % 4096) as bv64;
    OrBits(low, flag);
  }

  lemma OrBits(low: bv64, flag: bv64)
    ensures low | PD_ACCESS | PD_TABLE | NORMAL_NOCACHE | PD_KNX | flag == low | 0x0020_0000_0000_0407 | flag
  {
  }

  lemma PageBits(base: nat, k: nat, flag: bv64)
    requires base % 4096 == 0
    ensures LeafDescriptor(base + k * PAGE, flag) == Descriptor(base / 4096 + k, 0x0020_0000_0000_0407 | flag)
  {
    hide LeafDescriptor;
    LeafBits(base + k * PAGE, flag);
    MoreMultiples(base, 4096, k);
    assert 0 | 0x0020_0000_0000_0407 | flag == 0x0020_0000_0000_0407 | flag;
  }

  /** A request for one page is a request for a block of order 0. */
  lemma OnePageIsOrderZero()
    ensures LeastOrder(FramesFor(PAGE)) == 0
  {
  }

  function PageBase(pa: nat): nat {
    pa - pa % PAGE
  }

  /** The number of pages that a range of this size is mapped with. */
  function PageCount(size: nat): nat {
    (size + PAGE - 1) / PAGE
  }

  lemma CountBound(k: nat, size: nat)
    ensures k * PAGE < size <==> k < PageCount(size)
  {
  }

  /** The descriptor of page w after the first n pages from va on have been mapped to
      consecutive frames, if it was d before. */
  function AfterMapping(va: nat, n: nat, base: nat, flag: bv64, w: nat, d: Descriptor): Descriptor {
    if n == 0 then d
    else if w == PageOf(va + (n - 1) * PAGE) then LeafDescriptor(base + (n - 1) * PAGE, flag)
    else AfterMapping(va, n - 1, base, flag, w, d)
  }

  lemma MappedOneMore(va: nat, k: nat, base: nat, flag: bv64, w: nat, d: Descriptor)
    ensures AfterMapping(va, 0, base, flag, w, d) == d
    ensures AfterMapping(va, k + 1, base, flag, w, d)
      == (if w == PageOf(va + k * PAGE) then LeafDescriptor(base + k * PAGE, flag)
          else AfterMapping(va, k, base, flag, w, d))
  {
  }

  /** In a range shorter than the address space every page gets its own frame, and
      pages outside keep theirs. */
  lemma {:induction false} EveryPageMapped(va: nat, n: nat, base: nat, flag: bv64, w: nat, d: Descriptor)
    requires n <= PAGES
    ensures forall k: nat :: k < n && w == PageOf(va + k * PAGE) ==>
      AfterMapping(va, n, base, flag, w, d) == LeafDescriptor(base + k * PAGE, flag)
    ensures (forall k: nat :: k < n ==> w != PageOf(va + k * PAGE)) ==> AfterMapping(va, n, base, flag, w, d) == d
  {
    hide PageOf, LeafDescriptor;
    if n > 0 {
      EveryPageMapped(va, n - 1, base, flag, w, d);
      forall k: nat | k < n && w == PageOf(va + k * PAGE)
        ensures AfterMapping(va, n, base, flag, w, d) == LeafDescriptor(base + k * PAGE, flag)
      {
        PagesDiffer(va, k, n - 1);
      }
    }
  }

  /** Pages less than the address space apart have different numbers. */
  lemma PagesDiffer(va: nat, j: nat, k: nat)
    requires j <= k < j + PAGES
    ensures PageOf(va + j * PAGE) == PageOf(va + k * PAGE) <==> j == k
  {
    PageAt(va, j);
    PageAt(va, k);
    var a := va / PAGE + j;
    if a % PAGES == (a + (k - j)) % PAGES {
      Congruent(a, k - j);
    }
  }

  lemma PageAt(va: nat, k: nat)
    ensures PageOf(va + k * PAGE) == (va / PAGE + k) % PAGES
  {
    MoreMultiples(va, PAGE, k);
  }

  lemma Congruent(a: nat, d: nat)
    requires d < PAGES && a % PAGES == (a + d) % PAGES
    ensures d == 0
  {
  }

  /** The pages that are visited when the first n pages from va on are mapped. */
  function Visited(va: nat, n: nat): set<nat> {
    if n == 0 then {} else Visited(va, n - 1) + {PageOf(va + (n - 1) * PAGE)}
  }

  lemma VisitedNone(va: nat)
    ensures Visited(va, 0) == {} && NodesFor({}) == {}
  {
  }

  lemma VisitedOneMore(va: nat, k: nat)
    ensures NodesFor(Visited(va, k + 1)) == NodesFor(Visited(va, k)) + Path(PageOf(va + k * PAGE))
  {
    hide Path, NodesFor, PageOf;
    var v := PageOf(va + k * PAGE);
    NodesForMore(Visited(va, k), {v});
    NodesForOne(v);
  }

  lemma {:induction false} VisitedLess(va: nat, j: nat, k: nat)
    requires j <= k
    ensures Visited(va, j) <= Visited(va, k)
  {
    hide PageOf;
    if j < k {
      VisitedLess(va, j, k - 1);
    }
  }

  /** The state of the heap and of one tree of tables: blocks, cut pages and extents in
      use, reserved frames, the tables, memory, and the number of free frames. */
  datatype Snapshot = Snapshot(live: Blocks, slabs: Slabs, extents: map<int, int>, reserved: set<int>,
    tables: Tables, mem: Memory, room: nat)

  /** Exactly the wanted tables that were missing have been added, each on a frame of its
      own; tables, blocks and extents stay, and so does what any other frame in use holds. */
  ghost predicate Grown(a: Snapshot, b: Snapshot, wanted: set<Node>) {
    && b.reserved == a.reserved && b.slabs == a.slabs
    && TablesGrown(a, b, wanted) && BlocksGrown(a, b) && ExtentsGrown(a, b) && OthersKept(a, b)
  }

  ghost predicate TablesGrown(a: Snapshot, b: Snapshot, wanted: set<Node>) {
    && b.tables.Keys == a.tables.Keys + wanted && b.room + |wanted - a.tables.Keys| == a.room
    && Extends(a.tables, b.tables)
  }

  ghost predicate Extends(t: Tables, t': Tables) {
    forall n :: n in t ==> n in t' && t'[n] == t[n]
  }

  ghost predicate BlocksGrown(a: Snapshot, b: Snapshot) {
    && (forall f :: f in a.live ==> f in b.live && b.live[f] == a.live[f])
    && (forall f :: f in b.live && f !in a.live ==> exists n :: n in b.tables && n !in a.tables && b.tables[n] == f)
    && (forall n :: n in b.tables && n !in a.tables ==> b.tables[n] in b.live && b.tables[n] !in a.live)
  }

  ghost predicate ExtentsGrown(a: Snapshot, b: Snapshot) {
    && (forall x :: x in a.extents ==> x in b.extents && b.extents[x] == a.extents[x])
    && (forall n :: n in b.tables && n !in a.tables ==> Address(b.tables[n]) !in a.extents)
    && (forall x :: x in b.extents && x !in a.extents ==>
        exists n :: n in b.tables && n !in a.tables && Address(b.tables[n]) == x)
  }

  /** Frames in use that hold no table of the tree hold what they held. */
  ghost predicate OthersKept(a: Snapshot, b: Snapshot) {
    |b.mem| == |a.mem|
    && forall f :: 0 <= f < |a.mem| && f in a.live && f !in a.tables.Values ==> b.mem[f] == a.mem[f]
  }

  lemma GrownTwice(a: Snapshot, b: Snapshot, c: Snapshot, v: set<Node>, w: set<Node>)
    requires Grown(a, b, v) && Grown(b, c, w)
    ensures Grown(a, c, v + w)
  {
    hide TablesGrown, BlocksGrown, ExtentsGrown, OthersKept, Extends;
    TablesGrownTwice(a, b, c, v, w);
    BlocksGrownTwice(a, b, c);
    ExtentsGrownTwice(a, b, c);
    OthersKeptTwice(a, b, c);
  }

  lemma TablesGrownTwice(a: Snapshot, b: Snapshot, c: Snapshot, v: set<Node>, w: set<Node>)
    requires TablesGrown(a, b, v) && TablesGrown(b, c, w)
    ensures TablesGrown(a, c, v + w)
    ensures Extends(a.tables, b.tables) && Extends(b.tables, c.tables)
  {
    MissingApart(a.tables.Keys, v, w);
  }

  lemma BlocksGrownTwice(a: Snapshot, b: Snapshot, c: Snapshot)
    requires BlocksGrown(a, b) && BlocksGrown(b, c)
    requires Extends(a.tables, b.tables) && Extends(b.tables, c.tables)
    ensures BlocksGrown(a, c)
  {
    forall f | f in c.live && f !in a.live ensures exists n :: n in c.tables && n !in a.tables && c.tables[n] == f {
      if f in b.live {
        var n :| n in b.tables && n !in a.tables && b.tables[n] == f;
        assert c.tables[n] == f;
      }
    }
  }

  lemma ExtentsGrownTwice(a: Snapshot, b: Snapshot, c: Snapshot)
    requires ExtentsGrown(a, b) && ExtentsGrown(b, c)
    requires Extends(a.tables, b.tables) && Extends(b.tables, c.tables)
    ensures ExtentsGrown(a, c)
  {
    forall x | x in c.extents && x !in a.extents
      ensures exists n :: n in c.tables && n !in a.tables && Address(c.tables[n]) == x
    {
      if x in b.extents {
        var n :| n in b.tables && n !in a.tables && Address(b.tables[n]) == x;
        assert Address(c.tables[n]) == x;
      }
    }
  }

  lemma OthersKeptTwice(a: Snapshot, b: Snapshot, c: Snapshot)
    requires OthersKept(a, b) && OthersKept(b, c) && BlocksGrown(a, b)
    requires Extends(a.tables, b.tables)
    ensures OthersKept(a, c)
  {
    forall f | 0 <= f < |a.mem| && f in a.live && f !in a.tables.Values ensures c.mem[f] == a.mem[f] {
      assert forall n :: n in a.tables ==> b.tables[n] == a.tables[n] && a.tables[n] in a.tables.Values;
      assert f !in b.tables.Values;
    }
  }

  /** The state after frame r has become the table below entry i of table n. */
  ghost function AfterNewTable(a: Snapshot, n: Node, i: nat, r: nat, size: int): Snapshot
    requires n in a.tables && a.tables[n] < |a.mem| && r < |a.mem| && r != a.tables[n]
    requires i < |a.mem[a.tables[n]]| && a.room > 0
  {
    Snapshot(a.live[r := 0], a.slabs, a.extents[Address(r) := size], a.reserved, a.tables[Child(n, i) := r],
      WithTable(a.mem, a.tables[n], i, r), a.room - 1)
  }

  lemma GrownByOne(a: Snapshot, n: Node, i: nat, r: nat, size: int)
    requires n in a.tables && a.tables[n] < |a.mem| && r < |a.mem| && r != a.tables[n]
    requires i < |a.mem[a.tables[n]]| && a.room > 0
    requires Child(n, i) !in a.tables && r !in a.live && Address(r) !in a.extents
    ensures Grown(a, AfterNewTable(a, n, i, r, size), {Child(n, i)})
  {
    var c, b := Child(n, i), AfterNewTable(a, n, i, r, size);
    assert {c} - a.tables.Keys == {c} && b.tables.Keys == a.tables.Keys + {c};
    assert b.tables[c] == r;
    assert BlocksGrown(a, b) && ExtentsGrown(a, b);
    assert a.tables[n] in a.tables.Values;
  }

  lemma GrownNothing(a: Snapshot)
    ensures Grown(a, a, {})
  {
  }

  /** Whether there is a free frame for every table that is wanted and missing. */
  ghost predicate RoomIn(a: Snapshot, wanted: set<Node>) {
    a.room >= |wanted - a.tables.Keys|
  }

  /** Room for two sets of tables is room for the second after the first. */
  lemma RoomLeft(a: Snapshot, b: Snapshot, v: set<Node>, w: set<Node>)
    requires Grown(a, b, v) && RoomIn(a, v + w)
    ensures RoomIn(b, w)
  {
    hide BlocksGrown, ExtentsGrown, OthersKept;
    MissingApart(a.tables.Keys, v, w);
  }

  /** The same for the tables of two sets of pages. */
  lemma RoomForPages(a: Snapshot, b: Snapshot, p: set<nat>, q: set<nat>, pages: set<nat>)
    requires Grown(a, b, NodesFor(p)) && RoomIn(a, NodesFor(pages)) && p + q <= pages
    ensures RoomIn(b, NodesFor(q))
  {
    hide Grown, NodesFor, RoomIn;
    NodesForMore(p, q);
    NodesForLess(p + q, pages);
    RoomForFewer(a, NodesFor(p + q), NodesFor(pages));
    RoomLeft(a, b, NodesFor(p), NodesFor(q));
  }

  lemma GrownByPages(a: Snapshot, b: Snapshot, c: Snapshot, p: set<nat>, q: set<nat>)
    requires Grown(a, b, NodesFor(p)) && Grown(b, c, NodesFor(q))
    ensures Grown(a, c, NodesFor(p + q))
  {
    hide Grown, NodesFor;
    NodesForMore(p, q);
    GrownTwice(a, b, c, NodesFor(p), NodesFor(q));
  }

  lemma GrownByNone(a: Snapshot)
    ensures Grown(a, a, NodesFor({}))
  {
    GrownNothing(a);
    assert NodesFor({}) == {};
  }

  lemma RoomForFewer(a: Snapshot, v: set<Node>, w: set<Node>)
    requires v <= w && RoomIn(a, w)
    ensures RoomIn(a, v)
  {
    FewerMissing(a.tables.Keys, v, w);
  }

  /** Of the tables t those are left in t' that are not below the first i entries of n. */
  ghost predicate Left(t: Tables, t': Tables, n: Node, i: nat) {
    && (forall m :: m in t' ==> m in t && t'[m] == t[m])
    && (forall m :: m in t ==> (m in t' <==> !Below(m, n, i)))
  }

  /** One more entry done, by freeing everything below its table and then the table. */
  lemma LeftAfterChild(t: Tables, before: Tables, mid: Tables, n: Node, i: nat)
    requires i < ENTRIES && Left(t, before, n, i) && Left(before, mid, Child(n, i), ENTRIES)
    ensures Left(t, mid - {Child(n, i)}, n, i + 1)
  {
    forall m | m in t ensures m in mid - {Child(n, i)} <==> !Below(m, n, i + 1) {
      BelowOneMore(m, n, i);
    }
  }

  /** One more entry done, because it points nowhere. */
  lemma LeftAfterZero(mem: Memory, t: Tables, before: Tables, n: Node, i: nat)
    requires Placed(mem, t) && i < ENTRIES && Left(t, before, n, i) && Child(n, i) !in before
    ensures Left(t, before, n, i + 1)
  {
    BelowOneMore(Child(n, i), n, i);
    forall m | m in t ensures Below(m, n, i + 1) <==> Below(m, n, i) {
      NoneBelowZero(mem, t, n, i, m);
    }
  }

  lemma LeftAtStart(t: Tables, n: Node)
    ensures Left(t, t, n, 0)
  {
  }

  /** Last-level tables have no tables below. */
  lemma LeftOfLastLevel(mem: Memory, t: Tables, c: Node)
    requires Placed(mem, t) && c.level == 3
    ensures Left(t, t, c, ENTRIES)
  {
  }

  lemma NodeIsLeft(t: Tables, t': Tables, n: Node, i: nat, m: Node)
    requires Left(t, t', n, i) && m in t && m.level <= n.level
    ensures m in t' && t'[m] == t[m]
  {
  }

  lemma NoneLeftBelow(t: Tables, t': Tables, n: Node)
    requires Left(t, t', n, ENTRIES)
    ensures forall m :: m in t' ==> !Below(m, n, ENTRIES)
  {
  }

  /** Teardown only takes tables away: the others stay, exactly the blocks and extents of
      the tables taken away are no longer in use, and other frames hold what they held. */
  ghost predicate Shrunk(a: Snapshot, b: Snapshot) {
    && b.reserved == a.reserved && b.slabs == a.slabs
    && (forall n :: n in b.tables ==> n in a.tables && a.tables[n] == b.tables[n])
    && BlocksShrunk(a, b) && ExtentsShrunk(a, b) && OthersKept(a, b)
  }

  ghost predicate BlocksShrunk(a: Snapshot, b: Snapshot) {
    && (forall f :: f in b.live ==> f in a.live && b.live[f] == a.live[f])
    && (forall f :: f in a.live ==> (f in b.live <==> forall n :: n in a.tables && a.tables[n] == f ==> n in b.tables))
  }

  ghost predicate ExtentsShrunk(a: Snapshot, b: Snapshot) {
    && (forall x :: x in b.extents ==> x in a.extents && b.extents[x] == a.extents[x])
    && (forall x :: x in a.extents ==>
        (x in b.extents <==> forall n :: n in a.tables && Address(a.tables[n]) == x ==> n in b.tables))
  }

  lemma ShrunkTwice(a: Snapshot, b: Snapshot, c: Snapshot)
    requires Shrunk(a, b) && Shrunk(b, c)
    ensures Shrunk(a, c)
  {
    forall f | f in a.live
      ensures f in c.live <==> forall n :: n in a.tables && a.tables[n] == f ==> n in c.tables
    {
      if f in b.live {
        assert forall n :: n in a.tables && a.tables[n] == f ==> n in b.tables && b.tables[n] == f;
      }
    }
    ExtentsShrunkTwice(a, b, c);
    forall f | 0 <= f < |a.mem| && f in a.live && f !in a.tables.Values ensures c.mem[f] == a.mem[f] {
      assert forall n :: n in b.tables ==> b.tables[n] in a.tables.Values;
      assert forall n :: n in a.tables && a.tables[n] == f ==> f in a.tables.Values;
      assert f in b.live && f !in b.tables.Values;
    }
  }

  lemma ExtentsShrunkTwice(a: Snapshot, b: Snapshot, c: Snapshot)
    requires ExtentsShrunk(a, b) && ExtentsShrunk(b, c)
    requires forall n :: n in b.tables ==> n in a.tables && a.tables[n] == b.tables[n]
    requires forall n :: n in c.tables ==> n in b.tables
    ensures ExtentsShrunk(a, c)
  {
    forall x | x in a.extents
      ensures x in c.extents <==> forall n :: n in a.tables && Address(a.tables[n]) == x ==> n in c.tables
    {
      if x in b.extents {
        assert forall n :: n in a.tables && Address(a.tables[n]) == x ==> n in b.tables && Address(b.tables[n]) == x;
      }
    }
  }

  lemma ShrunkByOne(a: Snapshot, b: Snapshot, c: Node)
    requires Unshared(a.tables) && c in a.tables
    requires b.reserved == a.reserved && b.slabs == a.slabs && OthersKept(a, b)
    requires b.tables == a.tables - {c} && b.live == a.live - {a.tables[c]}
    requires b.extents == a.extents - {Address(a.tables[c])}
    ensures Shrunk(a, b)
  {
    assert forall n :: n in a.tables && Address(a.tables[n]) == Address(a.tables[c]) ==> n == c;
  }

  class AddressSpace {
    const heap: Heap
    const mem: array<seq<Descriptor>>
    const root: nat
    ghost var tables: Tables

    ghost predicate Shape() {
      && heap.Shape() && mem.Length == heap.buddies.total
    }

    /** The frame is a live block of one frame, and no cut page. */
    ghost predicate IsPage(f: int)
      reads heap, heap.buddies
    {
      heap.WholeBlock(f) && heap.buddies.live[f] == 0
    }

    ghost predicate Valid()
      reads this, mem, heap.Repr()
    {
      && Shape() && heap.Valid()
      && Tree(mem[..], tables)
      && tables[ROOT] == root
      && (forall n :: n in tables ==> IsPage(tables[n]))
    }

    ghost function Mapped(v: nat): Descriptor
      requires Valid()
      reads this, mem, heap.Repr()
    {
      Entry(mem[..], tables, v)
    }

    /** The flat map as a whole: the descriptor of every page. */
    ghost function Flat(): (r: seq<Descriptor>)
      requires Valid()
      reads this, mem, heap.Repr()
      ensures |r| == PAGES && forall w :: 0 <= w < PAGES ==> r[w] == Mapped(w)
    {
      seq(PAGES, w requires 0 <= w < PAGES && Valid() reads this, mem, heap.Repr() => Mapped(w))
    }

    lemma FlatIsMapped()
      requires Valid()
      ensures forall w: nat :: w < PAGES ==> Flat()[w] == Mapped(w)
    {
    }

    ghost function Unused(): set<int>
      reads heap.buddies
    {
      heap.buddies.Unused()
    }

    constructor (heap: Heap, mem: array<seq<Descriptor>>, root: nat)
      requires heap.Valid() && mem.Length == heap.buddies.total
      requires forall f :: 0 <= f < mem.Length ==> |mem[f]| == ENTRIES
      requires heap.WholeBlock(root) && heap.buddies.live[root] == 0
      requires root < mem.Length && mem[root] == NoEntries()
      ensures this.heap == heap && this.mem == mem && this.root == root && tables == map[ROOT := root]
      ensures Valid() && forall v: nat :: v < PAGES ==> Mapped(v) == ZERO
    {
      hide Heap.Valid, Heap.Repr, Tree, Entry;
      assert allocated(heap.Repr());
      this.heap, this.mem, this.root := heap, mem, root;
      tables := map[ROOT := root];
      new;
      heap.ShapeOf();
      TreeOfRoot(mem[..], root);
    }

    static lemma TreeOfRoot(mem: Memory, root: nat)
      requires Pages512(mem) && root < |mem| && mem[root] == NoEntries()
      ensures var t: Tables := map[ROOT := root];
        Tree(mem, t) && forall v: nat :: v < PAGES ==> Entry(mem, t, v) == ZERO
    {
    }

    lemma Outside()
      requires Shape()
      ensures this !in heap.Repr() && (mem as object) !in heap.Repr()
    {
    }

    /** A fresh page for a table. */
    method NewPage() returns (r: nat)
      requires Valid() && |Unused()| >= 1
      modifies heap.Repr()
      ensures Valid() && heap.buddies.reserved == old(heap.buddies.reserved) && heap.slabs == old(heap.slabs)
      ensures r < mem.Length && r !in old(heap.buddies.live) && IsPage(r)
      ensures heap.buddies.live == old(heap.buddies.live)[r := 0]
      ensures Address(r) !in old(heap.extents) && Address(r) in heap.extents
      ensures heap.extents == old(heap.extents)[Address(r) := heap.extents[Address(r)]]
      ensures |Unused()| == old(|Unused()|) - 1
    {
      hide Heap.Valid, Tree, FreeRun, LeastOrder;
      Outside();
      ghost var live, unused, slabs := heap.buddies.live, Unused(), heap.slabs;
      OnePageIsOrderZero();
      ghost var f :| f in unused;
      NoFrameLeft(unused);
      heap.Facts();
      var ptr := heap.KMalloc(PAGE);
      ghost var i := ToInt(AddressToIndex(ptr));
      FreeRunHead(heap.buddies.total, heap.buddies.reserved, live, i, 0);
      r := ToInt(AddressToIndex(ptr));
      OneLess(heap.buddies.total, heap.buddies.reserved, live, r);
    }

    static lemma OneLess(total: nat, reserved: set<int>, live: Blocks, r: int)
      requires FreeRun(FreeFrames(total, reserved, live), r, 0) && r !in live
      ensures |FreeFrames(total, reserved, live[r := 0])| == |FreeFrames(total, reserved, live)| - 1
    {
      UncutAfter(total, reserved, live, 0, r);
      assert In(r, r, 0);
      assert Frames(r, 0) == {r};
    }

    ghost function Now(): Snapshot
      reads this, mem, heap, heap.buddies
    {
      Snapshot(heap.buddies.live, heap.slabs, heap.extents, heap.buddies.reserved, tables, mem[..], |Unused()|)
    }

    /** Whether there is a free frame for every table that is wanted and missing. */
    ghost predicate RoomFor(wanted: set<Node>)
      reads this, mem, heap, heap.buddies
    {
      RoomIn(Now(), wanted)
    }

    /** A new empty table below entry i of the table at frame f. */
    method NewTable(ghost n: Node, f: nat, i: nat)
      requires Valid() && n in tables && tables[n] == f && n.level < 3 && i < ENTRIES && Child(n, i) !in tables
      requires |Unused()| >= 1
      modifies this`tables, mem, heap.Repr()
      ensures Valid() && Grown(old(Now()), Now(), {Child(n, i)})
      ensures Child(n, i) in tables && tables == old(tables)[Child(n, i) := tables[Child(n, i)]]
      ensures forall w: nat :: w < PAGES ==> Mapped(w) == old(Mapped(w))
    {
      hide Heap.Valid, Heap.Repr, Tree, Grown;
      Outside();
      ghost var start, t, m := Now(), tables, mem[..];
      TableFrames();
      var r := NewPage();
      GrownByOne(start, n, i, r, heap.extents[Address(r)]);
      AddTable(m, t, n, i, r);
      mem[r] := NoEntries();
      mem[f] := mem[f][i := TableDescriptor(r)];
      tables := tables[Child(n, i) := r];
      assert mem[..] == WithTable(m, f, i, r);
      assert Now() == AfterNewTable(start, n, i, r, heap.extents[Address(r)]);
    }

    lemma TableFrames()
      requires Valid()
      ensures forall n :: n in tables ==> tables[n] < mem.Length && IsPage(tables[n])
      ensures forall f :: 0 <= f < mem.Length ==> |mem[f]| == ENTRIES
      ensures ROOT in tables && tables[ROOT] == root
    {
    }

    /** What is in use tells whether a frame is a page. */
    lemma PageIff(f: nat)
      requires Shape() && heap.Valid() && f < mem.Length
      ensures IsPage(f) <==> Address(f) in heap.extents && heap.extents[Address(f)] == FRAME_SIZE
    {
      assert f < 0x8000_0000;
      hide Heap.Valid;
      heap.WholeBlockIff(f);
      if heap.WholeBlock(f) {
        heap.BlockAddress(f);
        heap.ExtentFrame(Address(f));
        OnlyOneFrame(heap.buddies.live[f]);
      }
    }

    static lemma OnlyOneFrame(k: nat)
      ensures Pow2(k) == 1 <==> k == 0
    {
    }

    /** One step down the tables on the way to the page of va, with a new table if there is none yet. */
    method Descend(va: nat, level: nat, f: nat, ghost start: Snapshot) returns (next: nat)
      requires Valid() && level < 3
      requires On(PageOf(va), level) in tables && tables[On(PageOf(va), level)] == f
      requires Grown(start, Now(), PathTo(PageOf(va), level)) && RoomIn(start, Path(PageOf(va)))
      modifies this`tables, mem, heap.Repr()
      ensures Valid() && Grown(start, Now(), PathTo(PageOf(va), level + 1))
      ensures On(PageOf(va), level + 1) in tables && tables[On(PageOf(va), level + 1)] == next
      ensures forall w: nat :: w < PAGES ==> Mapped(w) == old(Mapped(w))
    {
      hide Heap.Valid, Tree, Grown, PathTo, Path, PageOf, RoomIn;
      ghost var before, v := Now(), PageOf(va);
      ghost var n := On(v, level);
      var i := va / Shift(level) % ENTRIES;
      IndexIsDigit(va, level);
      OnNext(v, level);
      TableFrames();
      EntryIsZero(mem[..], tables, n, i);
      if mem[f][i] == ZERO {
        RoomForNext(start, before, v, level);
        NewTable(n, f, i);
        TableFrames();
        EntryIsZero(mem[..], tables, n, i);
        GrownToNext(start, before, Now(), v, level);
      } else {
        GrownAlready(start, before, v, level);
      }
      next := mem[f][i].frame;
    }

    static lemma RoomForNext(a: Snapshot, b: Snapshot, v: nat, level: nat)
      requires level < 3 && Grown(a, b, PathTo(v, level)) && RoomIn(a, Path(v)) && On(v, level + 1) !in b.tables
      ensures b.room > 0
    {
      hide Grown, PathTo, Path, On, RoomIn;
      PathStep(v, level);
      RoomForFewer(a, PathTo(v, level + 1), Path(v));
      RoomLeft(a, b, PathTo(v, level), {On(v, level + 1)});
      OneMissing(b, On(v, level + 1));
    }

    static lemma OneMissing(a: Snapshot, n: Node)
      requires n !in a.tables && RoomIn(a, {n})
      ensures a.room > 0
    {
      assert {n} - a.tables.Keys == {n};
    }

    static lemma GrownToNext(a: Snapshot, b: Snapshot, c: Snapshot, v: nat, level: nat)
      requires level < 3 && Grown(a, b, PathTo(v, level)) && Grown(b, c, {On(v, level + 1)})
      ensures Grown(a, c, PathTo(v, level + 1))
    {
      hide Grown;
      PathStep(v, level);
      GrownTwice(a, b, c, PathTo(v, level), {On(v, level + 1)});
    }

    static lemma GrownAlready(a: Snapshot, b: Snapshot, v: nat, level: nat)
      requires level < 3 && Grown(a, b, PathTo(v, level)) && On(v, level + 1) in b.tables
      ensures Grown(a, b, PathTo(v, level + 1))
    {
      hide Grown, PathTo, On;
      GrownAnyway(b, {On(v, level + 1)});
      GrownToNext(a, b, b, v, level);
    }

    static lemma GrownAnyway(a: Snapshot, wanted: set<Node>)
      ensures wanted <= a.tables.Keys ==> Grown(a, a, wanted)
    {
      assert wanted <= a.tables.Keys ==> wanted - a.tables.Keys == {} && a.tables.Keys + wanted == a.tables.Keys;
    }

    static lemma EntryIsZero(mem: Memory, t: Tables, n: Node, i: nat)
      requires Tree(mem, t) && n in t && n.level < 3 && i < ENTRIES
      ensures Child(n, i) in t ==> mem[t[n]][i] == TableDescriptor(t[Child(n, i)]) && mem[t[n]][i] != ZERO
      ensures Child(n, i) !in t ==> mem[t[n]][i] == ZERO
    {
      ChildParent(n, i);
    }

    /** Maps the page of va to the frame of pa: a walk for it finds that descriptor, no other
        page changes, and exactly the tables on the way that were missing are new. */
    method MapOnePage(va: nat, pa: nat, flag: bv64)
      requires Valid() && RoomFor(Path(PageOf(va)))
      modifies this`tables, mem, heap.Repr()
      ensures Valid() && Grown(old(Now()), Now(), Path(PageOf(va)))
      ensures forall w: nat :: w < PAGES ==>
        Mapped(w) == if w == PageOf(va) then LeafDescriptor(pa, flag) else old(Mapped(w))
      ensures Walk(mem[..], root, 0, PageOf(va)) == Some(LeafDescriptor(pa, flag))
      ensures Translate(mem[..], root, va)
        == Some(Descriptor(pa / 4096, (pa % 4096) as bv64 | 0x0020_0000_0000_0407 | flag))
    {
      hide Heap.Valid, Tree, Grown, Entry, Path, RoomIn, LeafDescriptor, Translate;
      ghost var start, v := Now(), PageOf(va);
      var f := FindTable(va);
      ghost var mid := Now();
      WriteLeaf(va, pa, flag, f);
      GrownLeaf(start, mid, Now(), Path(v), On(v, 3));
      TableFrames();
      assert Mapped(v) == LeafDescriptor(pa, flag);
      WalkIsEntry(mem[..], tables, v);
      LeafIsPresent(pa, flag);
      LeafBits(pa, flag);
      TranslateIsWalk(mem[..], root, va);
    }

    /** The last table on the way to the page of va. */
    method FindTable(va: nat) returns (f: nat)
      requires Valid() && RoomFor(Path(PageOf(va)))
      modifies this`tables, mem, heap.Repr()
      ensures Valid() && Grown(old(Now()), Now(), Path(PageOf(va)))
      ensures On(PageOf(va), 3) in tables && tables[On(PageOf(va), 3)] == f
      ensures forall w: nat :: w < PAGES ==> Mapped(w) == old(Mapped(w))
    {
      hide Heap.Valid, Tree, Grown, Entry, PathTo, PageOf, RoomIn;
      ghost var start, v := Now(), PageOf(va);
      f := root;
      var level := 0;
      PathStart(start, v);
      TableFrames();
      while level < 3
        invariant 0 <= level <= 3 && Valid()
        invariant Grown(start, Now(), PathTo(v, level))
        invariant On(v, level) in tables && tables[On(v, level)] == f
        invariant forall w: nat :: w < PAGES ==> Mapped(w) == old(Mapped(w))
      {
        f := Descend(va, level, f, start);
        level := level + 1;
      }
    }

    static lemma PathStart(a: Snapshot, v: nat)
      requires v < PAGES
      ensures On(v, 0) == ROOT && Grown(a, a, PathTo(v, 0))
    {
      GrownNothing(a);
    }

    static lemma PathStep(v: nat, level: nat)
      requires level < 3
      ensures PathTo(v, level) + {On(v, level + 1)} == PathTo(v, level + 1) <= Path(v)
    {
      assert PathTo(v, 3) == PathTo(v, 2) + {On(v, 3)};
      assert PathTo(v, 2) == PathTo(v, 1) + {On(v, 2)};
    }

    static lemma GrownLeaf(a: Snapshot, b: Snapshot, c: Snapshot, wanted: set<Node>, n: Node)
      requires Grown(a, b, wanted) && n in b.tables && c == b.(mem := c.mem) && |c.mem| == |b.mem|
      requires forall f :: 0 <= f < |b.mem| && f != b.tables[n] ==> c.mem[f] == b.mem[f]
      ensures Grown(a, c, wanted)
    {
      hide Extends, BlocksGrown, ExtentsGrown;
      assert BlocksGrown(a, c) by { SameBlocks(a, b, c); }
      assert ExtentsGrown(a, c) by { SameBlocks(a, b, c); }
      assert OthersKept(a, c) by { LeafOthersKept(a, b, c, n); }
    }

    static lemma SameBlocks(a: Snapshot, b: Snapshot, c: Snapshot)
      requires c.tables == b.tables && c.live == b.live && c.extents == b.extents
      requires BlocksGrown(a, b) && ExtentsGrown(a, b)
      ensures BlocksGrown(a, c) && ExtentsGrown(a, c)
    {
    }

    static lemma LeafOthersKept(a: Snapshot, b: Snapshot, c: Snapshot, n: Node)
      requires OthersKept(a, b) && BlocksGrown(a, b) && Extends(a.tables, b.tables) && n in b.tables
      requires |c.mem| == |b.mem| && forall f :: 0 <= f < |b.mem| && f != b.tables[n] ==> c.mem[f] == b.mem[f]
      ensures OthersKept(a, c)
    {
      if n in a.tables {
        assert a.tables[n] in a.tables.Values;
      }
    }

    method WriteLeaf(va: nat, pa: nat, flag: bv64, f: nat)
      requires Valid() && On(PageOf(va), 3) in tables && tables[On(PageOf(va), 3)] == f
      modifies mem
      ensures Valid() && Now() == old(Now()).(mem := mem[..])
      ensures forall g :: 0 <= g < mem.Length && g != f ==> mem[g] == old(mem[g])
      ensures forall w: nat :: w < PAGES ==>
        Mapped(w) == if w == PageOf(va) then LeafDescriptor(pa, flag) else old(Mapped(w))
    {
      hide Heap.Valid, Tree;
      Outside();
      TableFrames();
      IndexIsDigit(va, 3);
      ghost var m := mem[..];
      SetLeaf(m, tables, PageOf(va), LeafDescriptor(pa, flag));
      var i := va / Shift(3) % ENTRIES;
      mem[f] := mem[f][i := LeafDescriptor(pa, flag)];
      assert mem[..] == WithLeaf(m, f, i, LeafDescriptor(pa, flag));
    }

    /** Maps every page of [va, va + size) in turn; if the range is so long that it
        comes back to a page, the last visit counts. */
    method MapPages(va: nat, size: nat, pa: nat, flag: bv64)
      requires Valid() && RoomFor(NodesFor(Visited(va, PageCount(size))))
      modifies this`tables, mem, heap.Repr()
      ensures Valid() && Grown(old(Now()), Now(), NodesFor(Visited(va, PageCount(size))))
      ensures forall w: nat :: w < PAGES ==>
        Mapped(w) == AfterMapping(va, PageCount(size), PageBase(pa), flag, w, old(Mapped(w)))
      ensures size <= 0x1_0000_0000_0000 ==> forall k: nat :: k * 4096 < size ==>
        Translate(mem[..], root, va + k * 4096) == Some(Descriptor(pa / 4096 + k, 0x0020_0000_0000_0407 | flag))
    {
      hide Translate, Heap.Valid, Tree, Grown, Entry, AfterMapping, PageOf, PageCount, PageBase, LeafDescriptor,
           NodesFor, Visited, Path, Walk, RoomIn;
      ghost var start := Now();
      GrownNothing(start);
      VisitedNone(va);
      var base := PageBase(pa);
      var s := 0;
      ghost var k := 0;
      forall w: nat | w < PAGES
        ensures Mapped(w) == AfterMapping(va, 0, base, flag, w, old(Mapped(w)))
      {
        MappedOneMore(va, 0, base, flag, w, old(Mapped(w)));
      }
      CountBound(0, size);
      while s < size
        invariant s == k * PAGE && k <= PageCount(size) && (s < size <==> k < PageCount(size))
        invariant Valid() && Grown(start, Now(), NodesFor(Visited(va, k)))
        invariant forall w: nat :: w < PAGES ==> Mapped(w) == AfterMapping(va, k, base, flag, w, old(Mapped(w)))
        decreases size - s
      {
        ghost var before := Now();
        VisitedRoom(start, before, va, k, PageCount(size));
        MapOnePage(va + s, base + s, flag);
        VisitedGrown(start, before, Now(), va, k);
        forall w: nat | w < PAGES
          ensures Mapped(w) == AfterMapping(va, k + 1, base, flag, w, old(Mapped(w)))
        {
          MappedOneMore(va, k, base, flag, w, old(Mapped(w)));
        }
        k := k + 1;
        s := s + PAGE;
        CountBound(k, size);
      }
      forall k: nat | k * 4096 < size && size <= 0x1_0000_0000_0000
        ensures Translate(mem[..], root, va + k * 4096) == Some(Descriptor(pa / 4096 + k, 0x0020_0000_0000_0407 | flag))
      {
        RangePage(va, size, pa, flag, k, old(Mapped(PageOf(va + k * PAGE))));
        Finds(va + k * PAGE, pa / 4096 + k, 0x0020_0000_0000_0407 | flag);
      }
    }

    /** Page k of a range that is not longer than the address space. */
    static lemma RangePage(va: nat, size: nat, pa: nat, flag: bv64, k: nat, d: Descriptor)
      requires k * 4096 < size <= 0x1_0000_0000_0000
      ensures AfterMapping(va, PageCount(size), PageBase(pa), flag, PageOf(va + k * PAGE), d)
        == Descriptor(pa / 4096 + k, 0x0020_0000_0000_0407 | flag)
    {
      hide PageOf, LeafDescriptor, AfterMapping, PageCount;
      CountBound(k, size);
      CountBound(PAGES, size);
      EveryPageMapped(va, PageCount(size), PageBase(pa), flag, PageOf(va + k * PAGE), d);
      PageBits(PageBase(pa), k, flag);
      BaseFrame(pa);
    }

    static lemma BaseFrame(pa: nat)
      ensures PageBase(pa) % 4096 == 0 && PageBase(pa) / 4096 == pa / 4096
    {
    }

    /** A descriptor of the flat map that is valid is what the hardware finds. */
    lemma Finds(va: nat, frame: nat, bits: bv64)
      requires Valid() && Mapped(PageOf(va)) == Descriptor(frame, bits) && bits & 3 == 3
      ensures Translate(mem[..], root, va) == Some(Descriptor(frame, bits))
    {
      hide Heap.Valid, Tree, Entry, Walk, Translate;
      TableFrames();
      WalkIsEntry(mem[..], tables, PageOf(va));
      TranslateIsWalk(mem[..], root, va);
    }

    /** Every table but the root is pointed at by the entry above it, with these bits. */
    lemma TablesAreLinked()
      requires Valid()
      ensures forall n :: n in tables && n.level > 0 ==>
        var above := PageTree.Parent(n);
        && above in tables && tables[above] < mem.Length && |mem[tables[above]]| == 512
        && mem[tables[above]][Slot(n)] == Descriptor(tables[n], 0x407)
    {
      hide Heap.Valid;
    }

    static lemma VisitedRoom(a: Snapshot, b: Snapshot, va: nat, k: nat, n: nat)
      requires k < n && Grown(a, b, NodesFor(Visited(va, k))) && RoomIn(a, NodesFor(Visited(va, n)))
      ensures RoomIn(b, Path(PageOf(va + k * PAGE)))
    {
      hide Grown, NodesFor, Path, PageOf, RoomIn, Visited;
      VisitedOneMore(va, k);
      VisitedLess(va, k + 1, n);
      NodesForLess(Visited(va, k + 1), Visited(va, n));
      RoomForFewer(a, NodesFor(Visited(va, k + 1)), NodesFor(Visited(va, n)));
      RoomLeft(a, b, NodesFor(Visited(va, k)), Path(PageOf(va + k * PAGE)));
    }

    static lemma VisitedGrown(a: Snapshot, b: Snapshot, c: Snapshot, va: nat, k: nat)
      requires Grown(a, b, NodesFor(Visited(va, k))) && Grown(b, c, Path(PageOf(va + k * PAGE)))
      ensures Grown(a, c, NodesFor(Visited(va, k + 1)))
    {
      hide Grown, NodesFor, Path, PageOf, Visited;
      VisitedOneMore(va, k);
      GrownTwice(a, b, c, NodesFor(Visited(va, k)), Path(PageOf(va + k * PAGE)));
    }

    /** Clears an entry and frees its table, below which there is nothing. */
    method FreeChild(ghost n: Node, f: nat, i: nat, next: nat)
      requires Valid() && n in tables && tables[n] == f && i < ENTRIES
      requires Child(n, i) in tables && tables[Child(n, i)] == next
      requires forall m :: m in tables ==> !Below(m, Child(n, i), ENTRIES)
      modifies this`tables, mem, heap.Repr()
      ensures Valid() && Shrunk(old(Now()), Now()) && tables == old(tables) - {Child(n, i)}
    {
      hide Heap.Valid, Heap.Repr, Tree, Below;
      Outside();
      TableFrames();
      ghost var m, t, c := mem[..], tables, Child(n, i);
      RemoveTable(m, t, n, i);
      mem[f] := mem[f][i := ZERO];
      assert mem[..] == WithLeaf(m, f, i, ZERO);
      OnlyThisFrame(m, t, c);
      FreePage(next);
      tables := t - {c};
      ShrunkByOne(old(Now()), Now(), c);
    }

    method FreePage(f: nat)
      requires heap.Valid() && heap.WholeBlock(f) && f < heap.buddies.total
      modifies heap.Repr()
      ensures heap.Valid() && heap.buddies.reserved == old(heap.buddies.reserved) && heap.slabs == old(heap.slabs)
      ensures heap.buddies.live == old(heap.buddies.live) - {f} && heap.extents == old(heap.extents) - {Address(f)}
    {
      hide Heap.Valid;
      heap.Bounded();
      IndexOfAddress(f, 0);
      heap.KFree(Address(f));
    }

    static lemma OnlyThisFrame(mem: Memory, t: Tables, c: Node)
      requires Tree(mem, t) && c in t
      ensures Unshared(t) && forall m :: m in t - {c} ==> t[m] != t[c]
    {
    }

    /** Empties one entry of an upper table, if it is not empty already. */
    method FreeEntry(ghost n: Node, f: nat, i: nat, level: nat, ghost start: Snapshot, ghost m: Memory)
      requires Valid() && n in tables && tables[n] == f && n.level == level < 3 && i < ENTRIES
      requires Shrunk(start, Now()) && Left(start.tables, tables, n, i) && Placed(m, start.tables)
      modifies this`tables, mem, heap.Repr()
      ensures Valid() && n in tables && tables[n] == f
      ensures Shrunk(start, Now()) && Left(start.tables, tables, n, i + 1)
      decreases 3 - level, 0
    {
      hide Heap.Valid, Tree, Shrunk, Below, Left, Placed;
      TableFrames();
      EntryIsZero(mem[..], tables, n, i);
      ghost var before, c := Now(), Child(n, i);
      if mem[f][i] != ZERO {
        var next := mem[f][i].frame;
        TableBits();
        if mem[f][i].bits & PD_TABLE != 0 {
          if level != 2 {
            FreeTables(c, next, level + 1);
            ShrunkTwice(start, before, Now());
          } else {
            TreeIsPlaced(mem[..], tables);
            LeftOfLastLevel(mem[..], tables, c);
          }
          ghost var mid := Now();
          NodeIsLeft(before.tables, mid.tables, c, ENTRIES, c);
          NodeIsLeft(before.tables, mid.tables, c, ENTRIES, n);
          NoneLeftBelow(before.tables, mid.tables, c);
          FreeChild(n, f, i, next);
          ShrunkTwice(start, mid, Now());
          LeftAfterChild(start.tables, before.tables, mid.tables, n, i);
        }
      } else {
        LeftAfterZero(m, start.tables, tables, n, i);
      }
    }

    static lemma TableBits()
      ensures forall f: nat {:trigger TableDescriptor(f)} :: TableDescriptor(f).bits & PD_TABLE != 0
    {
    }

    static lemma TreeIsPlaced(mem: Memory, t: Tables)
      requires Tree(mem, t)
      ensures Placed(mem, t)
    {
    }

    static lemma NothingFreed(a: Snapshot)
      ensures Shrunk(a, a)
    {
    }

    /** Frees every table below table n, which lies at frame f, and clears its entries.
        Pages of the last level are neither visited nor freed. */
    method FreeTables(ghost n: Node, f: nat, level: nat)
      requires Valid() && n in tables && tables[n] == f && n.level == level < 3
      modifies this`tables, mem, heap.Repr()
      ensures Valid() && Shrunk(old(Now()), Now()) && Left(old(tables), tables, n, ENTRIES)
      decreases 3 - level, 1
    {
      hide Heap.Valid, Tree, Shrunk, Below, Left, Placed;
      ghost var start, m := Now(), mem[..];
      NothingFreed(start);
      LeftAtStart(tables, n);
      TreeIsPlaced(m, tables);
      var i := 0;
      while i < ENTRIES
        invariant 0 <= i <= ENTRIES && Valid()
        invariant Shrunk(start, Now()) && Left(start.tables, tables, n, i)
        invariant n in tables && tables[n] == f
      {
        FreeEntry(n, f, i, level, start, m);
        i := i + 1;
      }
    }

    /** Tearing down from the root: every other table is freed, exactly once, nothing
        else is, and no page is mapped any more. */
    method FreeAllTables()
      requires Valid()
      modifies this`tables, mem, heap.Repr()
      ensures Valid() && tables == map[ROOT := root]
      ensures Shrunk(old(Now()), Now())
      ensures forall v: nat :: v < PAGES ==> Mapped(v) == ZERO && Walk(mem[..], root, 0, v) == None
    {
      hide Heap.Valid, Tree, Shrunk, Left, Entry;
      TableFrames();
      ghost var t := tables;
      FreeTables(ROOT, root, 0);
      NoneLeftBelow(t, tables, ROOT);
      TableFrames();
      RootAlone(mem[..], tables, 0);
      assert tables == map[ROOT := root];
      forall v: nat | v < PAGES ensures Mapped(v) == ZERO && Walk(mem[..], root, 0, v) == None {
        RootAlone(mem[..], tables, v);
        WalkIsEntry(mem[..], tables, v);
        ZeroIsAbsent();
      }
    }

    /** Every table's frame is an extent in use. */
    lemma TablesInUse()
      requires Valid()
      ensures forall n :: n in tables ==> Address(tables[n]) in heap.extents
    {
      hide Heap.Valid, Tree;
      forall n | n in tables ensures Address(tables[n]) in heap.extents {
        heap.BlockAddress(tables[n]);
      }
    }

    static lemma StaysWhole(slabs: Slabs, live: Blocks, extents: map<int, int>, p: int, ptr: int,
                            slabs': Slabs, live': Blocks, extents': map<int, int>, f: int)
      requires ChunkFreed(slabs, live, extents, p, ptr, slabs', live', extents')
      requires p in slabs && f in live && f !in slabs
      ensures f in live' && live'[f] == live[f] && f !in slabs'
    {
    }

    /** An extent in use that is no table is given back: chunks and blocks alike. */
    method ReleaseExtent(ptr: nat)
      requires Valid() && ptr in heap.extents && forall n :: n in tables ==> Address(tables[n]) != ptr
      modifies heap.Repr()
      ensures Valid() && Flat() == old(Flat()) && heap.extents == old(heap.extents) - {ptr}
      ensures heap.buddies.reserved == old(heap.buddies.reserved)
    {
      hide Heap.Valid, Heap.Repr, Tree, Entry, ChunkFreed;
      Outside();
      ghost var flat := Flat();
      heap.ExtentFrame(ptr);
      ghost var live, slabs, extents, i := heap.buddies.live, heap.slabs, heap.extents, ToInt(AddressToIndex(ptr));
      heap.KFree(ptr);
      forall n | n in tables ensures IsPage(tables[n]) {
        if old(heap.LeadsToBlock(ptr)) {
          assert tables[n] != i;
        } else {
          StaysWhole(slabs, live, extents, i, ptr, heap.slabs, heap.buddies.live, heap.extents, tables[n]);
        }
      }
      assert forall w :: 0 <= w < PAGES ==> Flat()[w] == flat[w];
    }

    static lemma ZeroIsAbsent()
      ensures !Present(ZERO)
    {
    }
  }
}
