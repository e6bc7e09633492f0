/** Alignment by masking, and the order of the bytes of a word. */
module Words {
  import opened Dyadic

  /** The number of values of an unsigned long. */
  function Size(): nat {
    Pow2(64)
  }

  /** Bitwise conjunction of two non-negative integers. */
  function And(a: nat, b: nat): nat
    decreases a
  {
    if a == 0 || b == 0 then 0
    else (if a % 2 == 1 && b % 2 == 1 then 1 else 0) + 2 * And(a / 2, b / 2)
  }

  /** The expression `(size + mask) & ~mask` on 64 bits, for masks that are powers of
      two less one; any other alignment is ignored. */
  function Align(size: nat, s: nat): nat
    requires size < Size() && s < Size()
  {
    if s == 0 || And(s, s - 1) != 0 then size
    else And((size + (s - 1)) % Size(), Size() - 1 - (s - 1))
  }

  lemma {:induction false} AndSelf(a: nat)
    ensures And(a, a) == a
  {
    if a > 0 {
      AndSelf(a / 2);
    }
  }

  lemma DoublePower(k: nat)
    requires k > 0
    ensures Pow2(k) == 2 * Pow2(k - 1)
  {
  }

  lemma HalfPower(s: nat, k: nat)
    requires s == Pow2(k) && s != 1
    ensures k > 0 && s / 2 == Pow2(k - 1)
  {
  }

  /** The test for a power of two. */
  lemma {:induction false} PowersOfTwo(s: nat)
    requires s > 0
    ensures And(s, s - 1) == 0 <==> exists k: nat :: s == Pow2(k)
  {
    if s == 1 {
      assert s == Pow2(0);
    } else if s % 2 == 1 {
      AndSelf(s / 2);
      assert (s - 1) / 2 == s / 2;
      forall k: nat
        ensures s != Pow2(k)
      {
      }
    } else {
      PowersOfTwo(s / 2);
      assert (s - 1) / 2 == s / 2 - 1;
      assert And(s, s - 1) == 2 * And(s / 2, s / 2 - 1);
      if And(s, s - 1) == 0 {
        var k: nat :| s / 2 == Pow2(k);
        assert s == Pow2(k + 1);
      }
      if k: nat :| s == Pow2(k) {
        HalfPower(s, k);
      }
    }
  }

  lemma {:induction false} AndOnes(x: nat, w: nat)
    requires x < Pow2(w)
    ensures And(x, Pow2(w) - 1) == x
  {
    if w > 0 {
      AndOnes(x / 2, w - 1);
      assert (Pow2(w) - 1) / 2 == Pow2(w - 1) - 1;
    }
  }

  lemma AndEven(x: nat, m: nat)
    ensures And(x, 2 * m) == 2 * And(x / 2, m)
  {
    if x > 0 && m > 0 {
      assert 2 * m / 2 == m && 2 * m % 2 == 0;
      assert And(x, 2 * m) == 2 * And(x / 2, 2 * m / 2);
    }
  }

  lemma AlignedDouble(r: nat, k: nat)
    requires Aligned(r, k)
    ensures Aligned(2 * r, k + 1)
  {
  }

  predicate Below(r: nat, x: nat, k: nat) {
    Aligned(r, k) && r <= x < r + Pow2(k)
  }

  lemma BelowDouble(q: nat, x: nat, k: nat)
    requires Below(q, x / 2, k)
    ensures Below(2 * q, x, k + 1)
  {
    AlignedDouble(q, k);
    assert Pow2(k + 1) == 2 * Pow2(k);
  }

  lemma NoBitCleared(x: nat, w: nat)
    requires x < Pow2(w)
    ensures Below(And(x, Pow2(w) - Pow2(0)), x, 0)
  {
    AndOnes(x, w);
  }

  /** Clearing the k low bits goes down to the next multiple of 2^k. */
  lemma {:induction false} AndHigh(x: nat, k: nat, w: nat)
    requires k <= w && x < Pow2(w)
    ensures Pow2(k) <= Pow2(w)
    ensures Below(And(x, Pow2(w) - Pow2(k)), x, k)
  {
    hide And, Pow2, Below;
    Pow2Grows(k, w);
    if k == 0 {
      NoBitCleared(x, w);
    } else {
      DoublePower(k);
      DoublePower(w);
      AndHigh(x / 2, k - 1, w - 1);
      var m := Pow2(w - 1) - Pow2(k - 1);
      AndEven(x, m);
      BelowDouble(And(x / 2, m), x, k - 1);
    }
  }

  /** Alignment to a power of two is the least multiple at or above, exactly when the
      sum does not wrap around. */
  lemma AlignIs(size: nat, k: nat)
    requires size < Size() && k < 64
    ensures Pow2(k) < Size()
    ensures var r := Align(size, Pow2(k));
      Aligned(r, k) && r < size + Pow2(k) && (size <= r <==> size + (Pow2(k) - 1) < Size())
  {
    hide Pow2, And, Aligned;
    Pow2Grows(k, 64);
    var p := Pow2(k);
    assert And(p, p - 1) == 0 by { PowersOfTwo(p); }
    var x := (size + (p - 1)) % Pow2(64);
    Wrapped(size + (p - 1), Pow2(64));
    AndHigh(x, k, 64);
    var r := And(x, Pow2(64) - p);
    if size + (p - 1) >= Pow2(64) {
      LowerThanOne(r, k);
    }
    assert Align(size, p) == r;
  }

  lemma Wrapped(a: nat, m: nat)
    requires a < 2 * m
    ensures a % m == if a < m then a else a - m
  {
    if a >= m {
      assert a == m + (a - m);
    }
  }

  lemma LowerThanOne(r: nat, k: nat)
    requires Aligned(r, k) && r < Pow2(k)
    ensures r == 0
  {
    AlignedZero(k);
    Nested(r, k, 0, k, r);
  }

  // Byte order.

  function SwapEndian(v: bv32): bv32 {
    ((v >> 24) & 0x0000_00FF) | ((v >> 8) & 0x0000_FF00) | ((v << 8) & 0x00FF_0000) | ((v << 24) & 0xFF00_0000)
  }

  /** A word as the processor loads it, least significant byte first. */
  function Load(s: seq<bv8>): bv32
    requires |s| == 4
  {
    (s[0] as bv32) | ((s[1] as bv32) << 8) | ((s[2] as bv32) << 16) | ((s[3] as bv32) << 24)
  }

  /** The four bytes of a word, most significant first. */
  function Big(v: bv32): (s: seq<bv8>)
    ensures |s| == 4
  {
    [(v >> 24) as bv8, ((v >> 16) & 0xFF) as bv8, ((v >> 8) & 0xFF) as bv8, (v & 0xFF) as bv8]
  }

  lemma LoadBig(v: bv32)
    ensures SwapEndian(Load(Big(v))) == v
  {
  }

  /** The number that a word stands for. */
  function Number(w: bv32): nat {
    w as nat
  }
}
