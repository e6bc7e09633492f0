/** Frames and the kernel virtual addresses at which they are seen. */
module PageFrames {
  import opened Dyadic
  import opened Integers

  const FRAME_SIZE := 4096
  const WORD := 0x1_0000_0000_0000_0000
  const BASE := 0xffff_0000_0000_0000
  const TOTAL_FRAME := 0x3C000
  const MAX_ORDER := 20

  /** Both conversions work on 64-bit unsigned words. */
  function IndexToAddress(i: nat): nat {
    (BASE + i * FRAME_SIZE) % WORD
  }

  function AddressToIndex(a: nat): nat {
    ((a - BASE) % WORD) / FRAME_SIZE
  }

  /** Any address inside a frame leads back to the frame. */
  lemma IndexOfAddress(i: nat, offset: nat)
    requires i < 0x8000_0000 && offset < FRAME_SIZE
    ensures IndexToAddress(i) == BASE + i * FRAME_SIZE == 0xffff_0000_0000_0000 + i * 4096
    ensures AddressToIndex(IndexToAddress(i) + offset) == i
    ensures ToInt(AddressToIndex(IndexToAddress(i) + offset)) == i
  {
  }

  /** The address that a word is taken for: of the index only 32 bits are kept, so addresses
      2^44 apart are taken for the same. */
  function TakenFor(a: nat): nat {
    BASE + (a - BASE) % WORD % 0x1000_0000_0000
  }

  /** An address leads to a frame exactly if the address it is taken for lies in the frame. */
  lemma AddressOfIndex(a: nat, i: nat)
    requires a < WORD && i < 0x8000_0000
    ensures ToInt(AddressToIndex(a)) == i <==> IndexToAddress(i) <= TakenFor(a) < IndexToAddress(i) + 4096
    ensures 0xffff_0000_0000_0000 <= a < 0xffff_1000_0000_0000 ==> TakenFor(a) == a
  {
    var x := (a - BASE) % WORD;
    CutIndex(x);
    assert IndexToAddress(i) == BASE + i * FRAME_SIZE;
  }

  lemma CutIndex(x: nat)
    ensures x / FRAME_SIZE % 0x1_0000_0000 == x % 0x1000_0000_0000 / FRAME_SIZE
  {
    var q, r := x / 0x1000_0000_0000, x % 0x1000_0000_0000;
    assert x == q * 0x1000_0000_0000 + r;
    assert x / FRAME_SIZE == q * 0x1_0000_0000 + r / FRAME_SIZE;
  }

  /** An address far beyond all memory that leads to the first frame. */
  lemma Aliased()
    ensures ToInt(AddressToIndex(BASE + 0x1000_0000_0000)) == 0
  {
  }

  /** Some byte of [begin, end) lies in frame f. */
  predicate Touches(begin: nat, end: nat, f: nat) {
    begin < end && begin < 0xffff_0000_0000_0000 + (f + 1) * 4096 && 0xffff_0000_0000_0000 + f * 4096 < end
  }

  /** The frames from the first to the last index of a reservation, as both are stored in ints. */
  predicate Reserves(begin: nat, end: nat, f: int) {
    ToInt(AddressToIndex(begin)) <= f < ToInt(AddressToIndex((end + FRAME_SIZE - 1) % WORD))
  }

  /** These are exactly the frames that it touches, and for an empty one that begins inside
      a frame that frame, too. */
  lemma ReservedFramesAreTouched(begin: nat, end: nat, f: nat)
    requires BASE <= begin <= end <= BASE + 0x800_0000_0000 - FRAME_SIZE
    ensures Reserves(begin, end, f)
      <==> Touches(begin, end, f) || (begin == end && BASE + f * FRAME_SIZE < begin < BASE + (f + 1) * FRAME_SIZE)
  {
    hide ToInt, AddressToIndex;
    var x, y := begin - BASE, end - BASE;
    assert (end + FRAME_SIZE - 1) % WORD == BASE + (y + FRAME_SIZE - 1);
    IndexOf(x);
    IndexOf(y + FRAME_SIZE - 1);
    RoundedIndex(x, y, f);
  }

  lemma IndexOf(x: nat)
    requires x < 0x800_0000_0000
    ensures ToInt(AddressToIndex(BASE + x)) == x / FRAME_SIZE
  {
    var i := x / FRAME_SIZE;
    assert x == i * FRAME_SIZE + x % FRAME_SIZE;
    IndexOfAddress(i, x % FRAME_SIZE);
  }

  lemma RoundedIndex(x: nat, y: nat, f: nat)
    requires x <= y
    ensures x / FRAME_SIZE <= f < (y + FRAME_SIZE - 1) / FRAME_SIZE <==> x < (f + 1) * FRAME_SIZE && f * FRAME_SIZE < y
  {
    IndexBound(x, f + 1);
    IndexBound(y + FRAME_SIZE - 1, f + 1);
  }

  lemma IndexBound(x: nat, k: nat)
    ensures x / FRAME_SIZE < k <==> x < k * FRAME_SIZE
  {
  }

  /** The least k with n <= 2^k. */
  function LeastOrder(n: nat): (k: nat)
    ensures n <= Pow2(k)
    ensures k > 0 ==> Pow2(k - 1) < n
  {
    if n <= 1 then 0 else LeastOrder((n + 1) / 2) + 1
  }

  /** The number of frames for a request, as unsigned 32-bit arithmetic rounds it up. */
  function FramesFor(size: nat): nat {
    ((size + FRAME_SIZE - 1) % 0x1_0000_0000) / FRAME_SIZE
  }

  lemma {:induction false} LeastOrderBelow(n: nat, k: nat)
    requires n <= Pow2(k)
    ensures LeastOrder(n) <= k
  {
    if k < LeastOrder(n) {
      Pow2Grows(k, LeastOrder(n) - 1);
    }
  }

  lemma Pow2Of20()
    ensures Pow2(20) == 0x10_0000
  {
    assert Pow2(5) == 32;
    assert Pow2(10) == 1024;
    assert Pow2(15) == 32768;
  }

  /** The order found for a request is enough exactly if rounding the size up did
      not wrap around, and then no smaller order is. */
  lemma OrderSuffices(size: nat)
    requires size < 0x1_0000_0000
    ensures LeastOrder(FramesFor(size)) <= 20
    ensures size <= Pow2(LeastOrder(FramesFor(size))) * 4096 <==> size <= 0xffff_f000
    ensures size <= 0xffff_f000 ==>
      forall k: nat :: size <= Pow2(k) * 4096 ==> LeastOrder(FramesFor(size)) <= k
  {
    hide Pow2, LeastOrder;
    var n := FramesFor(size);
    Pow2Of20();
    LeastOrderBelow(n, MAX_ORDER);
    if size <= 0x1_0000_0000 - FRAME_SIZE {
      FramesCover(size, Pow2(LeastOrder(n)));
      forall k: nat | size <= Pow2(k) * FRAME_SIZE
        ensures LeastOrder(n) <= k
      {
        FramesCover(size, Pow2(k));
        LeastOrderBelow(n, k);
      }
    } else {
      NoFramesWhenWrapped(size);
    }
  }

  lemma FramesCover(size: nat, n: nat)
    requires size <= 0x1_0000_0000 - FRAME_SIZE
    ensures FramesFor(size) <= n <==> size <= n * FRAME_SIZE
  {
    IndexBound(size + FRAME_SIZE - 1, n + 1);
  }

  lemma NoFramesWhenWrapped(size: nat)
    requires 0x1_0000_0000 - FRAME_SIZE < size < 0x1_0000_0000
    ensures Pow2(LeastOrder(FramesFor(size))) == 1
  {
  }

  /** No block is longer than 4 GB. */
  lemma BlockIsBounded(size: nat)
    ensures Pow2(LeastOrder(FramesFor(size))) * FRAME_SIZE <= 0x1_0000_0000
  {
    Pow2Of20();
    LeastOrderBelow(FramesFor(size), MAX_ORDER);
    Pow2Grows(LeastOrder(FramesFor(size)), MAX_ORDER);
  }

  /** The order of a request. */
  method SizeToOrder(size: nat) returns (order: nat)
    requires size < 0x1_0000_0000
    ensures order == LeastOrder(FramesFor(size))
  {
    if size == 0 {
      return 0;
    }
    var adjusted := ((size + FRAME_SIZE - 1) % 0x1_0000_0000) / FRAME_SIZE;
    order := 0;
    while Pow2(order) < adjusted
      invariant order <= LeastOrder(adjusted)
      decreases LeastOrder(adjusted) - order
    {
      if order == LeastOrder(adjusted) {
        assert false;
      }
      order := order + 1;
    }
    LeastOrderBelow(adjusted, order);
  }
}
