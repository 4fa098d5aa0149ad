/** A bitmap packed eight bits to a byte, least significant bit first. */
module Bitmap {

  function Mask(k: nat): bv8
    requires k < 8
  {
    if k == 0 then 1 else if k == 1 then 2 else if k == 2 then 4 else if k == 3 then 8
    else if k == 4 then 16 else if k == 5 then 32 else if k == 6 then 64 else 128
  }

  predicate BitOf(b: bv8, k: nat)
    requires k < 8
  {
    b & Mask(k) != 0
  }

  lemma SetOne(b: bv8, k: nat, j: nat)
    requires k < 8 && j < 8
    ensures BitOf(b | Mask(k), j) <==> j == k || BitOf(b, j)
  {
  }

  lemma ClearOne(b: bv8, k: nat, j: nat)
    requires k < 8 && j < 8
    ensures BitOf(b & !Mask(k), j) <==> j != k && BitOf(b, j)
  {
  }

  predicate Bit(a: array<bv8>, i: nat)
    requires i < 8 * a.Length
    reads a
  {
    BitOf(a[i / 8], i % 8)
  }

  method SetBit(a: array<bv8>, i: nat)
    requires i < 8 * a.Length
    modifies a
    ensures forall j: nat | j < 8 * a.Length :: Bit(a, j) <==> j == i || old(Bit(a, j))
  {
    a[i / 8] := a[i / 8] | Mask(i % 8);
    forall j: nat | j < 8 * a.Length
      ensures Bit(a, j) <==> j == i || old(Bit(a, j))
    {
      SetOne(old(a[i / 8]), i % 8, j % 8);
    }
  }

  method ClearBit(a: array<bv8>, i: nat)
    requires i < 8 * a.Length
    modifies a
    ensures forall j: nat | j < 8 * a.Length :: Bit(a, j) <==> j != i && old(Bit(a, j))
  {
    a[i / 8] := a[i / 8] & !Mask(i % 8);
    forall j: nat | j < 8 * a.Length
      ensures Bit(a, j) <==> j != i && old(Bit(a, j))
    {
      ClearOne(old(a[i / 8]), i % 8, j % 8);
    }
  }

  /** Set the bits of `n` consecutive pages. */
  method SetRange(a: array<bv8>, first: nat, n: nat)
    requires first + n <= 8 * a.Length
    modifies a
    ensures forall j: nat | j < 8 * a.Length :: Bit(a, j) <==> first <= j < first + n || old(Bit(a, j))
  {
    for i := 0 to n
      invariant forall j: nat | j < 8 * a.Length :: Bit(a, j) <==> first <= j < first + i || old(Bit(a, j))
    {
      SetBit(a, first + i);
    }
  }

  /** Clear the bits of `n` consecutive pages. */
  method ClearRange(a: array<bv8>, first: nat, n: nat)
    requires first + n <= 8 * a.Length
    modifies a
    ensures forall j: nat | j < 8 * a.Length :: Bit(a, j) <==> !(first <= j < first + n) && old(Bit(a, j))
  {
    for i := 0 to n
      invariant forall j: nat | j < 8 * a.Length :: Bit(a, j) <==> !(first <= j < first + i) && old(Bit(a, j))
    {
      ClearBit(a, first + i);
    }
  }
}
