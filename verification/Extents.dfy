/** What a heap of whole blocks and of pages cut into equal chunks has handed out,
    seen as byte extents. */
module Extents {
  import opened Dyadic
  import opened Blocks
  import opened PageFrames

  /** A page cut into chunks of one size, and the numbers of the chunks in use. */
  datatype Slab = Slab(size: nat, used: set<int>)

  type Slabs = map<int, Slab>

  function Address(i: int): (a: int)
    ensures a == 0xffff_0000_0000_0000 + i * 4096
  {
    BASE + i * FRAME_SIZE
  }

  ghost predicate BlockExtent(live: Blocks, slabs: Slabs, h: int, a: int, n: int) {
    h in live && h !in slabs && a == Address(h) && n == Pow2(live[h]) * FRAME_SIZE
  }

  ghost predicate ChunkExtent(slabs: Slabs, p: int, c: int, a: int, n: int) {
    p in slabs && c in slabs[p].used && a == Address(p) + c * slabs[p].size && n == slabs[p].size
  }

  /** [a, a + n) is in use: a whole block, or a chunk of a cut page. */
  ghost predicate IsExtent(live: Blocks, slabs: Slabs, a: int, n: int) {
    (exists h :: BlockExtent(live, slabs, h, a, n)) || (exists p, c :: ChunkExtent(slabs, p, c, a, n))
  }

  ghost predicate SlabOk(s: Slab) {
    0 < s.size && s.used != {} && forall c :: c in s.used ==> 0 <= c < FRAME_SIZE / s.size
  }

  /** Cut pages are live one-frame blocks, and each has a chunk in use. */
  ghost predicate SlabsOk(live: Blocks, slabs: Slabs) {
    forall p :: p in slabs ==> p in live && live[p] == 0 && SlabOk(slabs[p])
  }

  ghost predicate Listed(extents: map<int, int>, live: Blocks, slabs: Slabs) {
    forall a, n :: (a in extents && extents[a] == n) <==> IsExtent(live, slabs, a, n)
  }

  lemma {:induction false} ChunkBounds(size: nat, c: nat)
    requires size > 0 && c < FRAME_SIZE / size
    ensures 0 <= c * size && c * size + size <= FRAME_SIZE
  {
    assert (c + 1) * size <= (FRAME_SIZE / size) * size by {
      ProductOrder(c + 1, FRAME_SIZE / size, size);
    }
    assert (FRAME_SIZE / size) * size <= FRAME_SIZE;
  }

  lemma {:induction false} ProductOrder(a: nat, b: nat, d: nat)
    requires a <= b
    ensures a * d <= b * d
    decreases b - a
  {
    if a < b {
      ProductOrder(a, b - 1, d);
      assert b * d == (b - 1) * d + d;
    }
  }

  lemma ChunksApart(size: nat, c: nat, d: nat)
    requires c < d
    ensures c * size + size <= d * size
  {
    ProductOrder(c + 1, d, size);
  }

  /** The block whose first frame an extent begins in. */
  ghost predicate Home(live: Blocks, slabs: Slabs, h: int, a: int, n: int) {
    h in live && Address(h) <= a < Address(h) + FRAME_SIZE && a + n <= Address(h) + Pow2(live[h]) * FRAME_SIZE
  }

  lemma ExtentHome(live: Blocks, slabs: Slabs, a: int, n: int) returns (h: int)
    requires SlabsOk(live, slabs) && IsExtent(live, slabs, a, n)
    ensures Home(live, slabs, h, a, n)
    ensures h !in slabs ==> BlockExtent(live, slabs, h, a, n)
    ensures h in slabs ==> exists c :: ChunkExtent(slabs, h, c, a, n)
  {
    if g :| BlockExtent(live, slabs, g, a, n) {
      h := g;
    } else {
      var p, c :| ChunkExtent(slabs, p, c, a, n);
      h := p;
      ChunkBounds(slabs[p].size, c);
      assert Pow2(0) == 1;
    }
  }

  /** Two extents in use are the same or do not overlap. */
  lemma ExtentsDisjoint(live: Blocks, slabs: Slabs, a: int, n: int, b: int, m: int)
    requires SlabsOk(live, slabs) && Apart(live)
    requires IsExtent(live, slabs, a, n) && IsExtent(live, slabs, b, m)
    ensures (a == b && n == m) || a + n <= b || b + m <= a
  {
    var h := ExtentHome(live, slabs, a, n);
    var g := ExtentHome(live, slabs, b, m);
    if h == g && h in slabs {
      var c :| ChunkExtent(slabs, h, c, a, n);
      var d :| ChunkExtent(slabs, h, d, b, m);
      if c < d {
        ChunksApart(slabs[h].size, c, d);
      } else if d < c {
        ChunksApart(slabs[h].size, d, c);
      }
    } else if h != g {
      var lo, hi := if h < g then h else g, if h < g then g else h;
      assert lo + Pow2(live[lo]) <= hi;
    }
  }

  /** No extent begins where an unused chunk does. */
  lemma ChunkIsFresh(live: Blocks, slabs: Slabs, p: int, c: int, n: int)
    requires SlabsOk(live, slabs) && p in slabs && 0 <= c < FRAME_SIZE / slabs[p].size && c !in slabs[p].used
    ensures !IsExtent(live, slabs, Address(p) + c * slabs[p].size, n)
  {
    var a := Address(p) + c * slabs[p].size;
    ChunkBounds(slabs[p].size, c);
    forall h ensures !BlockExtent(live, slabs, h, a, n) {
    }
    forall q, d ensures !ChunkExtent(slabs, q, d, a, n) {
      if q in slabs && d in slabs[q].used {
        ChunkBounds(slabs[q].size, d);
        OtherChunk(slabs[p].size, c, d);
      }
    }
  }

  /** No extent begins at a frame that is not the head of a live block. */
  lemma PageIsFresh(live: Blocks, slabs: Slabs, p: int, n: int)
    requires SlabsOk(live, slabs) && p !in live
    ensures !IsExtent(live, slabs, Address(p), n)
  {
    forall q, d ensures !ChunkExtent(slabs, q, d, Address(p), n) {
      if q in slabs && d in slabs[q].used {
        ChunkBounds(slabs[q].size, d);
      }
    }
  }

  // What each change of the heap does to the extents in use.

  lemma AddBlock(live: Blocks, slabs: Slabs, r: int, k: nat, a: int, n: int)
    requires SlabsOk(live, slabs) && r !in live
    ensures IsExtent(live[r := k], slabs, a, n)
      <==> IsExtent(live, slabs, a, n) || (a == Address(r) && n == Pow2(k) * FRAME_SIZE)
  {
    var live' := live[r := k];
    forall h ensures BlockExtent(live', slabs, h, a, n)
      <==> BlockExtent(live, slabs, h, a, n) || (h == r && a == Address(r) && n == Pow2(k) * FRAME_SIZE)
    {
    }
    assert BlockExtent(live', slabs, r, Address(r), Pow2(k) * FRAME_SIZE);
  }

  lemma RemoveBlock(live: Blocks, slabs: Slabs, r: int, a: int, n: int)
    requires SlabsOk(live, slabs) && r in live && r !in slabs
    ensures IsExtent(live - {r}, slabs, a, n)
      <==> IsExtent(live, slabs, a, n) && a != Address(r)
  {
    var live' := live - {r};
    forall h ensures BlockExtent(live', slabs, h, a, n) <==> BlockExtent(live, slabs, h, a, n) && h != r {
    }
    if IsExtent(live, slabs, a, n) {
      var h := ExtentHome(live, slabs, a, n);
      assert h != r ==> a != Address(r);
    }
  }

  lemma AddChunk(live: Blocks, slabs: Slabs, p: int, c: int, a: int, n: int)
    requires p in slabs
    ensures var s := slabs[p];
      IsExtent(live, slabs[p := Slab(s.size, s.used + {c})], a, n)
      <==> IsExtent(live, slabs, a, n) || (a == Address(p) + c * s.size && n == s.size)
  {
    var s := slabs[p];
    var slabs' := slabs[p := Slab(s.size, s.used + {c})];
    forall h ensures BlockExtent(live, slabs', h, a, n) <==> BlockExtent(live, slabs, h, a, n) {
    }
    forall q, d ensures ChunkExtent(slabs', q, d, a, n)
      <==> ChunkExtent(slabs, q, d, a, n) || (q == p && d == c && a == Address(p) + c * s.size && n == s.size)
    {
    }
    assert ChunkExtent(slabs', p, c, Address(p) + c * s.size, s.size);
  }

  lemma RemoveChunk(live: Blocks, slabs: Slabs, p: int, c: int, a: int, n: int)
    requires SlabsOk(live, slabs) && p in slabs && c in slabs[p].used
    ensures var s := slabs[p];
      IsExtent(live, slabs[p := Slab(s.size, s.used - {c})], a, n)
      <==> IsExtent(live, slabs, a, n) && a != Address(p) + c * s.size
  {
    var s := slabs[p];
    var slabs' := slabs[p := Slab(s.size, s.used - {c})];
    ChunkBounds(s.size, c);
    forall h ensures BlockExtent(live, slabs', h, a, n) <==> BlockExtent(live, slabs, h, a, n) && h != p {
    }
    forall h ensures BlockExtent(live, slabs, h, a, n) ==> a != Address(p) + c * s.size {
    }
    forall q, d ensures ChunkExtent(slabs', q, d, a, n)
      <==> ChunkExtent(slabs, q, d, a, n) && a != Address(p) + c * s.size
    {
      if ChunkExtent(slabs, q, d, a, n) {
        ChunkBounds(slabs[q].size, d);
        OtherChunk(s.size, c, d);
      }
    }
  }

  lemma OtherChunk(size: nat, c: nat, d: nat)
    requires size > 0
    ensures c * size == d * size <==> c == d
  {
    if c < d {
      ChunksApart(size, c, d);
    } else if d < c {
      ChunksApart(size, d, c);
    }
  }

  /** A fresh page becomes a cut page with chunk 0 in use. */
  lemma AddSlab(live: Blocks, slabs: Slabs, p: int, size: nat, a: int, n: int)
    requires SlabsOk(live, slabs) && p !in live
    ensures IsExtent(live[p := 0], slabs[p := Slab(size, {0})], a, n)
      <==> IsExtent(live, slabs, a, n) || (a == Address(p) && n == size)
  {
    var live', slabs' := live[p := 0], slabs[p := Slab(size, {0})];
    forall h ensures BlockExtent(live', slabs', h, a, n) <==> BlockExtent(live, slabs, h, a, n) {
    }
    forall q, d ensures ChunkExtent(slabs', q, d, a, n)
      <==> ChunkExtent(slabs, q, d, a, n) || (q == p && d == 0 && a == Address(p) && n == size)
    {
    }
    assert ChunkExtent(slabs', p, 0, Address(p), size);
  }

  /** The last chunk of a cut page goes, and the page with it. */
  lemma RemoveSlab(live: Blocks, slabs: Slabs, p: int, c: int, a: int, n: int)
    requires SlabsOk(live, slabs) && p in slabs && slabs[p].used == {c}
    ensures IsExtent(live - {p}, slabs - {p}, a, n)
      <==> IsExtent(live, slabs, a, n) && a != Address(p) + c * slabs[p].size
  {
    var s := slabs[p];
    var live', slabs' := live - {p}, slabs - {p};
    ChunkBounds(s.size, c);
    forall h ensures BlockExtent(live', slabs', h, a, n) <==> BlockExtent(live, slabs, h, a, n) {
    }
    forall h ensures BlockExtent(live, slabs, h, a, n) ==> a != Address(p) + c * s.size {
    }
    forall q, d ensures ChunkExtent(slabs', q, d, a, n)
      <==> ChunkExtent(slabs, q, d, a, n) && a != Address(p) + c * s.size
    {
      if ChunkExtent(slabs, q, d, a, n) {
        ChunkBounds(slabs[q].size, d);
      }
    }
  }

  lemma ListedAdd(extents: map<int, int>, live: Blocks, slabs: Slabs, live': Blocks, slabs': Slabs, x: int, z: int)
    requires Listed(extents, live, slabs) && x !in extents
    requires forall a, n :: IsExtent(live', slabs', a, n) <==> IsExtent(live, slabs, a, n) || (a == x && n == z)
    ensures Listed(extents[x := z], live', slabs')
  {
  }

  lemma ListedRemove(extents: map<int, int>, live: Blocks, slabs: Slabs, live': Blocks, slabs': Slabs, x: int)
    requires Listed(extents, live, slabs)
    requires forall a, n :: IsExtent(live', slabs', a, n) <==> IsExtent(live, slabs, a, n) && a != x
    ensures Listed(extents - {x}, live', slabs')
  {
    var extents' := extents - {x};
    forall a, n ensures (a in extents' && extents'[a] == n) <==> IsExtent(live', slabs', a, n) {
      assert a in extents' && extents'[a] == n <==> a in extents && extents[a] == n && a != x;
    }
  }
}
