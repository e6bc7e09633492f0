/** Bitmaps packed into bytes, bit i of the map being bit i % 8 of byte i / 8. */
module Bitmaps {

  function Mask(p: nat): bv8
    requires p < 8
  {
    1 << p
  }

  /** Bit p of a byte, and the byte with it on or off. */
  predicate IsOn(b: bv8, p: nat)
    requires p < 8
  {
    b & Mask(p) != 0
  }

  function TurnedOn(b: bv8, p: nat): bv8
    requires p < 8
  {
    b | Mask(p)
  }

  function TurnedOff(b: bv8, p: nat): bv8
    requires p < 8
  {
    b & !Mask(p)
  }

  predicate Bit(bytes: seq<bv8>, i: nat)
    requires i / 8 < |bytes|
  {
    IsOn(bytes[i / 8], i % 8)
  }

  function SetBit(bytes: seq<bv8>, i: nat): (r: seq<bv8>)
    requires i / 8 < |bytes|
    ensures |r| == |bytes|
  {
    bytes[i / 8 := TurnedOn(bytes[i / 8], i % 8)]
  }

  function ClearBit(bytes: seq<bv8>, i: nat): (r: seq<bv8>)
    requires i / 8 < |bytes|
    ensures |r| == |bytes|
  {
    bytes[i / 8 := TurnedOff(bytes[i / 8], i % 8)]
  }

  /** The set of bits that are on. */
  function Bits(bytes: seq<bv8>): set<int> {
    set i | 0 <= i < 8 * |bytes| && Bit(bytes, i)
  }

  lemma MaskCases(p: nat)
    requires p < 8
    ensures Mask(p) == [1, 2, 4, 8, 16, 32, 64, 128][p]
  {
  }

  lemma ByteSet(b: bv8, p: nat, q: nat)
    requires p < 8 && q < 8
    ensures IsOn(TurnedOn(b, p), q) <==> p == q || IsOn(b, q)
  {
    MaskCases(p);
    MaskCases(q);
  }

  lemma ByteClear(b: bv8, p: nat, q: nat)
    requires p < 8 && q < 8
    ensures IsOn(TurnedOff(b, p), q) <==> p != q && IsOn(b, q)
  {
    MaskCases(p);
    MaskCases(q);
  }

  lemma SameBit(i: nat, j: nat)
    ensures i == j <==> i / 8 == j / 8 && i % 8 == j % 8
  {
  }

  lemma BitAfterSet(bytes: seq<bv8>, i: nat, j: nat)
    requires i / 8 < |bytes| && j / 8 < |bytes|
    ensures Bit(SetBit(bytes, i), j) <==> j == i || Bit(bytes, j)
  {
    hide IsOn, TurnedOn, TurnedOff;
    SameBit(i, j);
    ByteSet(bytes[i / 8], i % 8, j % 8);
  }

  lemma BitAfterClear(bytes: seq<bv8>, i: nat, j: nat)
    requires i / 8 < |bytes| && j / 8 < |bytes|
    ensures Bit(ClearBit(bytes, i), j) <==> j != i && Bit(bytes, j)
  {
    hide IsOn, TurnedOn, TurnedOff;
    SameBit(i, j);
    ByteClear(bytes[i / 8], i % 8, j % 8);
  }

  lemma SetBitAdds(bytes: seq<bv8>, i: nat)
    requires i / 8 < |bytes|
    ensures Bits(SetBit(bytes, i)) == Bits(bytes) + {i}
  {
    hide SetBit, Bit;
    forall j: nat | j < 8 * |bytes| ensures Bit(SetBit(bytes, i), j) <==> j == i || Bit(bytes, j) {
      BitAfterSet(bytes, i, j);
    }
  }

  lemma ClearBitRemoves(bytes: seq<bv8>, i: nat)
    requires i / 8 < |bytes|
    ensures Bits(ClearBit(bytes, i)) == Bits(bytes) - {i}
  {
    hide ClearBit, Bit;
    forall j: nat | j < 8 * |bytes| ensures Bit(ClearBit(bytes, i), j) <==> j != i && Bit(bytes, j) {
      BitAfterClear(bytes, i, j);
    }
  }

  lemma ZeroHasNoBits(bytes: seq<bv8>)
    requires forall k :: 0 <= k < |bytes| ==> bytes[k] == 0
    ensures Bits(bytes) == {}
  {
  }

  /** The lowest of the first n bits that is off, or -1. */
  method FirstClear(bytes: seq<bv8>, n: nat) returns (c: int)
    requires n <= 8 * |bytes|
    ensures c == -1 ==> forall j :: 0 <= j < n ==> j in Bits(bytes)
    ensures c != -1 ==> 0 <= c < n && c !in Bits(bytes) && forall j :: 0 <= j < c ==> j in Bits(bytes)
  {
    c := 0;
    while c < n
      invariant 0 <= c <= n
      invariant forall j :: 0 <= j < c ==> j in Bits(bytes)
    {
      if bytes[c / 8] & Mask(c % 8) == 0 {
        return;
      }
      assert Bit(bytes, c);
      c := c + 1;
    }
    c := -1;
  }
}
