/** Four-level translation tables as they lie in memory, and the flat map from page
    numbers to descriptors that they stand for. */
module PageTree {

  const ENTRIES := 512
  const PAGES := 0x10_0000_0000

  const PD_TABLE: bv64 := 3
  const PD_UK_ACCESS: bv64 := 1 << 6
  const PD_RDONLY: bv64 := 1 << 7
  const PD_ACCESS: bv64 := 1 << 10
  const PD_KNX: bv64 := 1 << 53
  const PD_UNX: bv64 := 1 << 54
  const NORMAL_NOCACHE: bv64 := 1 << 2

  /** A 64-bit descriptor: the frame number in bits 47 to 12, and the other bits. */
  datatype Descriptor = Descriptor(frame: nat, bits: bv64)

  const ZERO := Descriptor(0, 0)

  function TableDescriptor(frame: nat): Descriptor {
    Descriptor(frame, PD_ACCESS | PD_TABLE | NORMAL_NOCACHE)
  }

  /** The descriptor for a page: bits of the address below the frame number are not
      masked away but end up among the attribute bits. */
  function LeafDescriptor(pa: nat, flag: bv64): Descriptor {
    Descriptor(pa / 4096, (pa % 4096) as bv64 | PD_ACCESS | PD_TABLE | NORMAL_NOCACHE | PD_KNX | flag)
  }

  /** Bits 1 and 0 both set: a table at levels 0 to 2, a page at level 3. */
  predicate Present(d: Descriptor) {
    d.bits & PD_TABLE == PD_TABLE
  }

  lemma LeafIsPresent(pa: nat, flag: bv64)
    ensures Present(LeafDescriptor(pa, flag)) && LeafDescriptor(pa, flag) != ZERO
  {
    var low := (pa % 4096) as bv64;
    assert (low | PD_ACCESS | PD_TABLE | NORMAL_NOCACHE | PD_KNX | flag) & PD_TABLE == PD_TABLE;
  }

  type Memory = seq<seq<Descriptor>>

  function NoEntries(): (r: seq<Descriptor>)
    ensures |r| == ENTRIES && forall i :: 0 <= i < ENTRIES ==> r[i] == ZERO
  {
    seq(ENTRIES, i => ZERO)
  }

  /** A table, named by its level and the page-number digits above it. */
  datatype Node = Node(level: nat, prefix: nat)

  const ROOT := Node(0, 0)

  type Tables = map<Node, nat>

  function Child(n: Node, i: nat): Node {
    Node(n.level + 1, n.prefix * ENTRIES + i)
  }

  function Parent(n: Node): Node
    requires n.level > 0
  {
    Node(n.level - 1, n.prefix / ENTRIES)
  }

  /** The index of a table's entry in the table above. */
  function Slot(n: Node): (i: nat)
    ensures i < ENTRIES
  {
    n.prefix % ENTRIES
  }

  /** The digit of a page number that indexes the table of a level. */
  function Digit(v: nat, level: nat): (i: nat)
    requires level < 4
    ensures i < ENTRIES
  {
    match level
    case 0 => v / 0x800_0000 % ENTRIES
    case 1 => v / 0x4_0000 % ENTRIES
    case 2 => v / 0x200 % ENTRIES
    case 3 => v % ENTRIES
  }

  /** The table of a level that a walk for page v goes through. */
  function On(v: nat, level: nat): Node
    requires level < 4
  {
    match level
    case 0 => Node(0, v / PAGES)
    case 1 => Node(1, v / 0x800_0000)
    case 2 => Node(2, v / 0x4_0000)
    case 3 => Node(3, v / 0x200)
  }

  /** The tables below the root that a walk for page v goes through, down to a level. */
  function PathTo(v: nat, level: nat): set<Node>
    requires level < 4
  {
    if level == 0 then {} else PathTo(v, level - 1) + {On(v, level)}
  }

  function Path(v: nat): set<Node> {
    PathTo(v, 3)
  }

  /** The tables that walks for these pages go through. */
  function NodesFor(pages: set<nat>): set<Node> {
    set v, n | v in pages && n in Path(v) :: n
  }

  lemma NodesForMore(pages: set<nat>, more: set<nat>)
    ensures NodesFor(pages + more) == NodesFor(pages) + NodesFor(more)
  {
  }

  lemma NodesForLess(pages: set<nat>, more: set<nat>)
    requires pages <= more
    ensures NodesFor(pages) <= NodesFor(more)
  {
  }

  lemma FewerMissing(have: set<Node>, a: set<Node>, b: set<Node>)
    requires a <= b
    ensures |a - have| <= |b - have|
  {
    assert b - have == (a - have) + (b - a - have);
  }

  lemma NodesForOne(v: nat)
    ensures NodesFor({v}) == Path(v)
  {
  }

  /** What is missing of two sets is missing of the first, and of the second once the
      first is there. */
  lemma MissingApart(have: set<Node>, a: set<Node>, b: set<Node>)
    ensures |a + b - have| == |a - have| + |b - (have + a)|
  {
    assert a + b - have == (a - have) + (b - (have + a));
  }

  lemma OnNext(v: nat, level: nat)
    requires level < 3
    ensures On(v, level + 1) == Child(On(v, level), Digit(v, level))
    ensures Parent(On(v, level + 1)) == On(v, level) && Slot(On(v, level + 1)) == Digit(v, level)
  {
  }

  lemma ParentChild(m: Node)
    requires m.level > 0
    ensures Child(Parent(m), Slot(m)) == m && Parent(m).level == m.level - 1
  {
  }

  lemma ChildParent(n: Node, i: nat)
    requires i < ENTRIES
    ensures Parent(Child(n, i)) == n && Slot(Child(n, i)) == i && Child(n, i).level == n.level + 1
  {
  }

  ghost predicate Pages512(mem: Memory) {
    forall f :: 0 <= f < |mem| ==> |mem[f]| == ENTRIES
  }

  ghost predicate Unshared(t: Tables) {
    forall m, n :: m in t && n in t && t[m] == t[n] ==> m == n
  }

  ghost predicate Placed(mem: Memory, t: Tables) {
    && ROOT in t
    && (forall n :: n in t ==> n.level < 4 && t[n] < |mem|)
    && (forall n :: n in t && n.level == 0 ==> n == ROOT)
    && (forall n :: n in t && n.level > 0 ==> Parent(n) in t)
  }

  /** Every table but the root is pointed at by its entry in the table above. */
  ghost predicate PointedAt(mem: Memory, t: Tables)
    requires Pages512(mem) && Placed(mem, t)
  {
    forall n :: n in t && n.level > 0 ==> mem[t[Parent(n)]][Slot(n)] == TableDescriptor(t[n])
  }

  /** Entries of upper levels that point nowhere are zero. */
  ghost predicate NothingElse(mem: Memory, t: Tables)
    requires Pages512(mem) && Placed(mem, t)
  {
    forall n, i :: n in t && n.level < 3 && 0 <= i < ENTRIES && Child(n, i) !in t ==> mem[t[n]][i] == ZERO
  }

  /** The tables form a tree in memory, and no frame serves as two tables. */
  ghost predicate Tree(mem: Memory, t: Tables) {
    Pages512(mem) && Placed(mem, t) && PointedAt(mem, t) && NothingElse(mem, t) && Unshared(t)
  }

  /** The flat map: the descriptor of page v, zero where nothing is mapped. */
  ghost function Entry(mem: Memory, t: Tables, v: nat): Descriptor
    requires Tree(mem, t)
  {
    if On(v, 3) in t then mem[t[On(v, 3)]][Digit(v, 3)] else ZERO
  }

  datatype Option<T> = None | Some(value: T)

  /** The hardware's walk for page v from a table of the given level. */
  function Walk(mem: Memory, frame: nat, level: nat, v: nat): Option<Descriptor>
    requires level < 4
    decreases 4 - level
  {
    if frame >= |mem| || Digit(v, level) >= |mem[frame]| then None
    else
      var d := mem[frame][Digit(v, level)];
      if !Present(d) then None
      else if level == 3 then Some(d)
      else Walk(mem, d.frame, level + 1, v)
  }

  /** The walk from the root agrees with the flat map. */
  lemma WalkIsEntry(mem: Memory, t: Tables, v: nat)
    requires Tree(mem, t) && v < PAGES
    ensures Walk(mem, t[ROOT], 0, v) == (if Present(Entry(mem, t, v)) then Some(Entry(mem, t, v)) else None)
  {
    assert On(v, 0) == ROOT;
    WalkFrom(mem, t, v, 0);
  }

  lemma {:induction false} WalkFrom(mem: Memory, t: Tables, v: nat, level: nat)
    requires Tree(mem, t) && v < PAGES && level < 4
    requires On(v, level) in t
    ensures Walk(mem, t[On(v, level)], level, v)
      == (if Present(Entry(mem, t, v)) then Some(Entry(mem, t, v)) else None)
    decreases 4 - level
  {
    if level < 3 {
      OnNext(v, level);
      var c := On(v, level + 1);
      if c in t {
        assert Present(TableDescriptor(t[c]));
        WalkFrom(mem, t, v, level + 1);
      } else {
        assert mem[t[On(v, level)]][Digit(v, level)] == ZERO;
        NothingBelow(mem, t, v, level + 1);
      }
    }
  }

  lemma {:induction false} NothingBelow(mem: Memory, t: Tables, v: nat, level: nat)
    requires Tree(mem, t) && 0 < level < 4 && On(v, level) !in t
    ensures On(v, 3) !in t
    decreases 4 - level
  {
    if level < 3 {
      OnNext(v, level);
      NothingBelow(mem, t, v, level + 1);
    }
  }

  /** A new, empty table at frame r below entry i of table n. */
  function WithTable(mem: Memory, f: nat, i: nat, r: nat): Memory
    requires f < |mem| && r < |mem| && f != r && i < |mem[f]|
  {
    mem[r := NoEntries()][f := mem[f][i := TableDescriptor(r)]]
  }

  lemma AddTable(mem: Memory, t: Tables, n: Node, i: nat, r: nat)
    requires Tree(mem, t) && n in t && n.level < 3 && i < ENTRIES && Child(n, i) !in t
    requires r < |mem| && forall m :: m in t ==> t[m] != r
    ensures Tree(WithTable(mem, t[n], i, r), t[Child(n, i) := r])
    ensures forall v: nat :: v < PAGES ==>
      Entry(WithTable(mem, t[n], i, r), t[Child(n, i) := r], v) == Entry(mem, t, v)
  {
    var mem' := WithTable(mem, t[n], i, r);
    var t' := t[Child(n, i) := r];
    ChildParent(n, i);
    assert Placed(mem', t');
    AddTablePointedAt(mem, t, n, i, r);
    AddTableNothingElse(mem, t, n, i, r);
    hide PointedAt, NothingElse, Unshared;
    forall v: nat | v < PAGES ensures Entry(mem', t', v) == Entry(mem, t, v) {
      AddTableEntry(mem, t, n, i, r, v);
    }
  }

  lemma AddTablePointedAt(mem: Memory, t: Tables, n: Node, i: nat, r: nat)
    requires Tree(mem, t) && n in t && n.level < 3 && i < ENTRIES && Child(n, i) !in t
    requires r < |mem| && forall m :: m in t ==> t[m] != r
    ensures Pages512(WithTable(mem, t[n], i, r)) && Placed(WithTable(mem, t[n], i, r), t[Child(n, i) := r])
    ensures PointedAt(WithTable(mem, t[n], i, r), t[Child(n, i) := r])
  {
    hide NothingElse, Slot, Parent, Child;
    ChildParent(n, i);
    NoOrphans(mem, t, Child(n, i));
    var mem', t' := WithTable(mem, t[n], i, r), t[Child(n, i) := r];
    forall m | m in t' && m.level > 0
      ensures mem'[t'[Parent(m)]][Slot(m)] == TableDescriptor(t'[m])
    {
      if m != Child(n, i) {
        ParentChild(m);
        assert Parent(m) in t;
      }
    }
  }

  lemma AddTableNothingElse(mem: Memory, t: Tables, n: Node, i: nat, r: nat)
    requires Tree(mem, t) && n in t && n.level < 3 && i < ENTRIES && Child(n, i) !in t
    requires r < |mem| && forall m :: m in t ==> t[m] != r
    requires Placed(WithTable(mem, t[n], i, r), t[Child(n, i) := r])
    ensures NothingElse(WithTable(mem, t[n], i, r), t[Child(n, i) := r])
  {
    hide PointedAt;
    var mem', t' := WithTable(mem, t[n], i, r), t[Child(n, i) := r];
    forall m, j | m in t' && m.level < 3 && 0 <= j < ENTRIES && Child(m, j) !in t'
      ensures mem'[t'[m]][j] == ZERO
    {
    }
  }

  lemma AddTableEntry(mem: Memory, t: Tables, n: Node, i: nat, r: nat, v: nat)
    requires Tree(mem, t) && n in t && n.level < 3 && i < ENTRIES && Child(n, i) !in t
    requires r < |mem| && forall m :: m in t ==> t[m] != r
    requires Tree(WithTable(mem, t[n], i, r), t[Child(n, i) := r]) && v < PAGES
    ensures Entry(WithTable(mem, t[n], i, r), t[Child(n, i) := r], v) == Entry(mem, t, v)
  {
    hide PointedAt, NothingElse;
  }

  lemma NoOrphans(mem: Memory, t: Tables, c: Node)
    requires Placed(mem, t) && c !in t
    ensures forall m :: m in t && m.level > 0 ==> Parent(m) != c
  {
  }

  function WithLeaf(mem: Memory, f: nat, i: nat, d: Descriptor): Memory
    requires f < |mem| && i < |mem[f]|
  {
    mem[f := mem[f][i := d]]
  }

  /** Writing one entry of a last-level table changes the map at that page only. */
  lemma SetLeaf(mem: Memory, t: Tables, v: nat, d: Descriptor)
    requires Tree(mem, t) && v < PAGES && On(v, 3) in t
    ensures Tree(WithLeaf(mem, t[On(v, 3)], Digit(v, 3), d), t)
    ensures forall w: nat :: w < PAGES ==>
      Entry(WithLeaf(mem, t[On(v, 3)], Digit(v, 3), d), t, w) == if w == v then d else Entry(mem, t, w)
  {
    var mem' := WithLeaf(mem, t[On(v, 3)], Digit(v, 3), d);
    SetLeafKeepsTree(mem, t, On(v, 3), Digit(v, 3), d);
    hide PointedAt, NothingElse, Placed, Unshared, On, WithLeaf;
    forall w: nat | w < PAGES ensures Entry(mem', t, w) == if w == v then d else Entry(mem, t, w) {
      SamePage(v, w);
      if On(w, 3) in t {
        LeafAt(mem, t, On(v, 3), On(w, 3), Digit(v, 3), Digit(w, 3), d);
      }
    }
  }

  lemma LeafAt(mem: Memory, t: Tables, n: Node, m: Node, i: nat, j: nat, d: Descriptor)
    requires Pages512(mem) && Placed(mem, t) && Unshared(t) && n in t && m in t && i < ENTRIES && j < ENTRIES
    ensures Pages512(WithLeaf(mem, t[n], i, d)) && Placed(WithLeaf(mem, t[n], i, d), t)
    ensures WithLeaf(mem, t[n], i, d)[t[m]][j] == if m == n && j == i then d else mem[t[m]][j]
  {
  }

  lemma SamePage(v: nat, w: nat)
    ensures On(w, 3) == On(v, 3) && Digit(w, 3) == Digit(v, 3) <==> w == v
  {
  }

  lemma SetLeafKeepsTree(mem: Memory, t: Tables, n: Node, i: nat, d: Descriptor)
    requires Tree(mem, t) && n in t && n.level == 3 && i < ENTRIES
    ensures Tree(WithLeaf(mem, t[n], i, d), t)
  {
    hide Slot, Parent, Child;
    var mem' := WithLeaf(mem, t[n], i, d);
    assert forall m :: m in t && t[m] == t[n] ==> m == n;
    forall m | m in t && m.level > 0 ensures mem'[t[Parent(m)]][Slot(m)] == TableDescriptor(t[m]) {
      ParentChild(m);
      assert Parent(m) in t;
    }
    assert NothingElse(mem', t);
  }

  /** A tree is as before when the frames of its tables are. */
  lemma SameTables(mem: Memory, mem': Memory, t: Tables)
    requires Tree(mem, t) && |mem'| == |mem| && Pages512(mem')
    requires forall n :: n in t ==> mem'[t[n]] == mem[t[n]]
    ensures Tree(mem', t) && forall v: nat :: v < PAGES ==> Entry(mem', t, v) == Entry(mem, t, v)
  {
    hide Slot, Parent, Child;
    forall n | n in t && n.level > 0 ensures mem'[t[Parent(n)]][Slot(n)] == TableDescriptor(t[n]) {
      assert Parent(n) in t;
    }
    assert NothingElse(mem', t);
  }

  // Taking tables away.

  /** The table of a given level that m hangs below, or m itself. */
  function Up(m: Node, level: nat): (u: Node)
    requires level <= m.level
    ensures u.level == level
    decreases m.level
  {
    if m.level == level then m else Up(Parent(m), level)
  }

  /** m lies below one of the first i entries of table n. */
  predicate Below(m: Node, n: Node, i: nat) {
    m.level > n.level && Parent(Up(m, n.level + 1)) == n && Slot(Up(m, n.level + 1)) < i
  }

  lemma {:induction false} UpIsThere(mem: Memory, t: Tables, m: Node, level: nat)
    requires Placed(mem, t) && m in t && level <= m.level
    ensures Up(m, level) in t
    decreases m.level
  {
    if m.level > level {
      UpIsThere(mem, t, Parent(m), level);
    }
  }

  lemma {:induction false} UpStep(m: Node, level: nat)
    requires level < m.level
    ensures Up(m, level) == Parent(Up(m, level + 1))
    decreases m.level
  {
    if m.level > level + 1 {
      UpStep(Parent(m), level);
    }
  }

  /** Going one entry further takes in that entry's table and everything below it. */
  lemma BelowOneMore(m: Node, n: Node, i: nat)
    requires i < ENTRIES
    ensures var c := Child(n, i);
      Below(m, n, i + 1) <==> Below(m, n, i) || m == c || Below(m, c, ENTRIES)
    ensures !(Below(m, n, i) && (m == Child(n, i) || Below(m, Child(n, i), ENTRIES)))
  {
    var c := Child(n, i);
    ChildParent(n, i);
    if m.level > n.level {
      var u := Up(m, n.level + 1);
      assert Parent(u) == n && Slot(u) == i <==> u == c;
      if m.level > c.level {
        UpStep(m, c.level);
      }
    }
  }

  /** A table below an entry that points nowhere does not exist. */
  lemma NoneBelowZero(mem: Memory, t: Tables, n: Node, i: nat, m: Node)
    requires Placed(mem, t) && i < ENTRIES && Child(n, i) !in t && m in t
    ensures Below(m, n, i + 1) <==> Below(m, n, i)
  {
    BelowOneMore(m, n, i);
    if m.level > n.level {
      UpIsThere(mem, t, m, n.level + 1);
      if m.level > n.level + 1 {
        UpStep(m, n.level + 1);
      }
    }
  }

  lemma NoParent(t: Tables, c: Node)
    requires forall m :: m in t ==> !Below(m, c, ENTRIES)
    ensures forall m :: m in t && m.level > 0 ==> Parent(m) != c
  {
    forall m | m in t && m.level > 0 ensures Parent(m) != c {
      BelowParent(m);
    }
  }

  lemma BelowParent(m: Node)
    requires m.level > 0
    ensures Below(m, Parent(m), ENTRIES)
  {
    assert Up(m, Parent(m).level + 1) == m;
  }

  /** Clearing the entry of a table with nothing below it leaves a tree without it. */
  lemma RemoveTable(mem: Memory, t: Tables, n: Node, i: nat)
    requires Tree(mem, t) && n in t && i < ENTRIES && Child(n, i) in t
    requires forall m :: m in t ==> !Below(m, Child(n, i), ENTRIES)
    ensures Tree(WithLeaf(mem, t[n], i, ZERO), t - {Child(n, i)})
  {
    hide Below, Placed, PointedAt, NothingElse;
    ChildParent(n, i);
    NoParent(t, Child(n, i));
    RemovePointedAt(mem, t, n, i);
    RemoveNothingElse(mem, t, n, i);
  }

  lemma RemovePointedAt(mem: Memory, t: Tables, n: Node, i: nat)
    requires Tree(mem, t) && n in t && i < ENTRIES && Child(n, i) in t
    requires forall m :: m in t && m.level > 0 ==> Parent(m) != Child(n, i)
    ensures Pages512(WithLeaf(mem, t[n], i, ZERO)) && Placed(WithLeaf(mem, t[n], i, ZERO), t - {Child(n, i)})
    ensures PointedAt(WithLeaf(mem, t[n], i, ZERO), t - {Child(n, i)})
  {
    RemovePlaced(mem, t, n, i);
    hide NothingElse, Placed, Slot, Parent, Child, WithLeaf;
    var mem', t' := WithLeaf(mem, t[n], i, ZERO), t - {Child(n, i)};
    ChildParent(n, i);
    LeafAt(mem, t, n, n, i, i, ZERO);
    forall m | m in t' && m.level > 0 ensures mem'[t'[Parent(m)]][Slot(m)] == TableDescriptor(t'[m]) {
      ParentChild(m);
      ParentStays(mem, t, t', m);
      LeafAt(mem, t, n, Parent(m), i, Slot(m), ZERO);
    }
  }

  lemma ParentStays(mem: Memory, t: Tables, t': Tables, m: Node)
    requires Placed(mem, t') && m in t' && m.level > 0 && forall k :: k in t' ==> k in t && t'[k] == t[k]
    ensures Parent(m) in t' && Parent(m) in t && t'[Parent(m)] == t[Parent(m)]
  {
  }

  lemma RemovePlaced(mem: Memory, t: Tables, n: Node, i: nat)
    requires Pages512(mem) && Placed(mem, t) && n in t && i < ENTRIES && Child(n, i) in t
    requires forall m :: m in t && m.level > 0 ==> Parent(m) != Child(n, i)
    ensures Pages512(WithLeaf(mem, t[n], i, ZERO)) && Placed(WithLeaf(mem, t[n], i, ZERO), t - {Child(n, i)})
  {
    hide Slot, Parent;
  }

  lemma RemoveNothingElse(mem: Memory, t: Tables, n: Node, i: nat)
    requires Tree(mem, t) && n in t && i < ENTRIES && Child(n, i) in t
    requires Placed(WithLeaf(mem, t[n], i, ZERO), t - {Child(n, i)})
    ensures NothingElse(WithLeaf(mem, t[n], i, ZERO), t - {Child(n, i)})
  {
    hide PointedAt, WithLeaf, Child, Parent, Slot;
    var mem', t' := WithLeaf(mem, t[n], i, ZERO), t - {Child(n, i)};
    LeafAt(mem, t, n, n, i, i, ZERO);
    ChildParent(n, i);
    forall m, j | m in t' && m.level < 3 && 0 <= j < ENTRIES && Child(m, j) !in t'
      ensures mem'[t'[m]][j] == ZERO
    {
      LeafAt(mem, t, n, m, i, j, ZERO);
      if Child(m, j) in t {
        ChildParent(m, j);
      }
    }
  }

  /** With the root alone nothing is mapped. */
  lemma RootAlone(mem: Memory, t: Tables, v: nat)
    requires Tree(mem, t) && forall m :: m in t ==> !Below(m, ROOT, ENTRIES)
    ensures Entry(mem, t, v) == ZERO
    ensures forall m :: m in t ==> m == ROOT
  {
    forall m | m in t ensures m == ROOT {
      RootOrBelow(mem, t, m);
    }
  }

  lemma RootOrBelow(mem: Memory, t: Tables, m: Node)
    requires Placed(mem, t) && m in t
    ensures m == ROOT || Below(m, ROOT, ENTRIES)
  {
    if m.level > 0 {
      UpStep(m, 0);
      UpIsThere(mem, t, m, 0);
    }
  }
}
