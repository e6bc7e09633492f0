/** Pieces of sequences and of memory: what is left without an element, what lies at a
    position, null-terminated strings, and padding. */
module Slices {

  /** All but the element at p. */
  function Without<T>(s: seq<T>, p: nat): seq<T>
    requires p < |s|
  {
    s[..p] + s[p + 1..]
  }

  /** The elements from p onwards begin with s. */
  predicate HasAt<T(==)>(memory: seq<T>, p: nat, s: seq<T>) {
    p + |s| <= |memory| && memory[p..p + |s|] == s
  }

  lemma Inside<T>(memory: seq<T>, p: nat, s: seq<T>, i: nat, j: nat)
    requires HasAt(memory, p, s) && i <= j <= |s|
    ensures memory[p + i..p + j] == s[i..j] && HasAt(memory, p + i, s[i..j])
  {
    forall k | 0 <= k < |s|
      ensures memory[p + k] == s[k]
    {
      assert memory[p..p + |s|][k] == s[k];
    }
  }

  lemma AtOf<T>(before: seq<T>, s: seq<T>, after: seq<T>)
    ensures HasAt(before + s + after, |before|, s)
  {
  }

  lemma Regroup<T>(a: seq<T>, b: seq<T>, c: seq<T>, d: seq<T>, e: seq<T>)
    ensures a + (b + c) + d + e == a + b + (c + d + e) == (a + b) + c + d + e
  {
  }

  /** The string at p: the elements before the first terminator. */
  function StringAt<T(==)>(memory: seq<T>, p: nat, end: T): seq<T>
    decreases |memory| - p
  {
    if p >= |memory| || memory[p] == end then [] else [memory[p]] + StringAt(memory, p + 1, end)
  }

  lemma {:induction false} StringAtIs<T>(memory: seq<T>, p: nat, s: seq<T>, end: T)
    requires end !in s && HasAt(memory, p, s + [end])
    ensures StringAt(memory, p, end) == s
    decreases |s|
  {
    var t := s + [end];
    Inside(memory, p, t, 0, 1);
    Inside(memory, p, t, 1, |t|);
    assert memory[p] == memory[p..p + 1][0] == t[0];
    if s != [] {
      assert t[1..|t|] == s[1..] + [end];
      assert s == [s[0]] + s[1..];
      StringAtIs(memory, p + 1, s[1..], end);
    }
  }

  function PadTo4(n: nat): (r: nat)
    ensures n <= r < n + 4 && r % 4 == 0
  {
    if n % 4 == 0 then n else n + 4 - n % 4
  }

  lemma PadAfter(p: nat, n: nat)
    requires p % 4 == 0
    ensures PadTo4(p + n) == p + PadTo4(n) && (p + PadTo4(n)) % 4 == 0
  {
  }

  function Filled<T>(n: nat, x: T): (s: seq<T>)
    ensures |s| == n
  {
    seq(n, i => x)
  }
}
