/** Powers of two, naturally aligned runs of frames, and the exclusive-or that
    turns the index of such a run into the index of its buddy. Everything is
    proved bit by bit, by halving. */
module Dyadic {

  function Pow2(k: nat): (p: nat)
    ensures p > 0
  {
    if k == 0 then 1 else 2 * Pow2(k - 1)
  }

  /** Bitwise exclusive-or of two non-negative integers. */
  function Xor(a: nat, b: nat): nat
    decreases a + b
  {
    if a == 0 then b
    else if b == 0 then a
    else (if a % 2 == b % 2 then 0 else 1) + 2 * Xor(a / 2, b / 2)
  }

  /** The index `i ^ (1 << k)`. */
  function Buddy(i: nat, k: nat): nat {
    Xor(i, Pow2(k))
  }

  /** The k low bits of i are zero: i is a multiple of 2^k. */
  predicate Aligned(i: nat, k: nat) {
    k == 0 || (i % 2 == 0 && Aligned(i / 2, k - 1))
  }

  /** Frame f lies in the run of 2^k frames that starts at i. */
  predicate In(f: int, i: int, k: nat) {
    i <= f < i + Pow2(k)
  }

  lemma {:induction false} Pow2Grows(j: nat, k: nat)
    requires j <= k
    ensures Pow2(j) <= Pow2(k)
    ensures j < k ==> 2 * Pow2(j) <= Pow2(k)
  {
    if j < k {
      Pow2Grows(j, k - 1);
    }
  }

  lemma {:induction false} AlignedLess(i: nat, j: nat, k: nat)
    requires j <= k && Aligned(i, k)
    ensures Aligned(i, j)
  {
    if j > 0 {
      AlignedLess(i / 2, j - 1, k - 1);
    }
  }

  lemma {:induction false} AlignedZero(k: nat)
    ensures Aligned(0, k)
  {
    if k > 0 {
      AlignedZero(k - 1);
    }
  }

  /** One length further is again aligned. */
  lemma {:induction false} AlignedNext(i: nat, k: nat)
    requires Aligned(i, k)
    ensures Aligned(i + Pow2(k), k)
  {
    if k > 0 {
      AlignedNext(i / 2, k - 1);
      assert (i + Pow2(k)) / 2 == i / 2 + Pow2(k - 1);
    }
  }

  /** Of two aligned runs that meet, the one of smaller order lies inside the other. */
  lemma {:induction false} Nested(i: nat, k: nat, j: nat, m: nat, f: nat)
    requires k <= m && Aligned(i, k) && Aligned(j, m)
    requires In(f, i, k) && In(f, j, m)
    ensures j <= i && i + Pow2(k) <= j + Pow2(m)
  {
    if k > 0 {
      Nested(i / 2, k - 1, j / 2, m - 1, f / 2);
    }
  }

  lemma XorOfDoubles(a: nat, b: nat)
    ensures Xor(2 * a, 2 * b) == 2 * Xor(a, b)
  {
    if a > 0 && b > 0 {
      assert 2 * a % 2 == 2 * b % 2 == 0 && 2 * a / 2 == a && 2 * b / 2 == b;
    }
  }

  lemma BuddyOfDouble(a: nat, k: nat)
    ensures Buddy(2 * a, k + 1) == 2 * Buddy(a, k)
  {
    hide Xor;
    XorOfDoubles(a, Pow2(k));
  }

  lemma BuddyAtZero(a: nat)
    ensures Buddy(a, 0) == if a % 2 == 0 then a + 1 else a - 1
  {
    assert Xor(a / 2, 0) == a / 2;
  }

  /** The two halves of an aligned run are aligned, and they are each other's buddy. */
  lemma {:induction false} Halves(i: nat, k: nat)
    requires Aligned(i, k + 1)
    ensures Aligned(i, k) && Aligned(i + Pow2(k), k)
    ensures Buddy(i, k) == i + Pow2(k)
    ensures Buddy(i + Pow2(k), k) == i
  {
    AlignedLess(i, k, k + 1);
    AlignedNext(i, k);
    if k == 0 {
      BuddyAtZero(i);
      BuddyAtZero(i + 1);
    } else {
      Halves(i / 2, k - 1);
      BuddyOfDouble(i / 2, k - 1);
      BuddyOfDouble(i / 2 + Pow2(k - 1), k - 1);
    }
  }

  /** The buddy of an aligned run is plus or minus one length away, and the two
      together are the aligned run of the next order. */
  lemma {:induction false} BuddyCases(i: nat, k: nat)
    requires Aligned(i, k)
    ensures Aligned(Buddy(i, k), k) && Buddy(Buddy(i, k), k) == i
    ensures (Buddy(i, k) == i + Pow2(k) && Aligned(i, k + 1))
         || (Buddy(i, k) == i - Pow2(k) && Aligned(Buddy(i, k), k + 1))
  {
    if Aligned(i, k + 1) {
      Halves(i, k);
    } else {
      OddRun(i, k);
      Halves(i - Pow2(k), k);
    }
  }

  lemma {:induction false} OddRun(i: nat, k: nat)
    requires Aligned(i, k) && !Aligned(i, k + 1)
    ensures i >= Pow2(k) && Aligned(i - Pow2(k), k + 1)
  {
    if k > 0 {
      OddRun(i / 2, k - 1);
      assert (i - Pow2(k)) / 2 == i / 2 - Pow2(k - 1);
    }
  }
}
