/** Single bits of a byte, as the bitmap and the interrupt masks use them. */
module Bits {

  /** The byte with only bit k set: (uint8_t)(1U << k). */
  function Mask(k: nat): bv8
    requires k < 8
  {
    if k < 4 then (if k < 2 then (if k == 0 then 1 else 2) else (if k == 2 then 4 else 8))
    else if k < 6 then (if k == 4 then 16 else 32)
    else if k == 6 then 64
    else 128
  }

  lemma MaskIsShift(k: nat)
    requires k < 8
    ensures Mask(k) == 1 << k
  {
  }

  lemma ShiftForms(b: bv8, k: nat)
    requires k < 8
    ensures b | (1 << k) == b | Mask(k) && b & !(1 << k) == b & !Mask(k)
  {
    MaskIsShift(k);
  }

  predicate Bit(b: bv8, k: nat)
    requires k < 8
  {
    b & Mask(k) != 0
  }

  /** Or-ing a mask in sets that bit and no other. */
  lemma OrMask(b: bv8, k: nat, j: nat)
    requires k < 8 && j < 8
    ensures Bit(b | Mask(k), j) <==> j == k || Bit(b, j)
  {
  }

  /** And-ing the complement of a mask clears that bit and no other. */
  lemma AndNotMask(b: bv8, k: nat, j: nat)
    requires k < 8 && j < 8
    ensures Bit(b & !Mask(k), j) <==> j != k && Bit(b, j)
  {
  }

  /** The byte with bit k switched on or off. */
  function WithBit(b: bv8, k: nat, on: bool): bv8
    requires k < 8
  {
    if on then b | Mask(k) else b & !Mask(k)
  }

  lemma WithBitChangesOne(b: bv8, k: nat, on: bool, j: nat)
    requires k < 8 && j < 8
    ensures Bit(WithBit(b, k, on), j) == if j == k then on else Bit(b, j)
  {
    OrMask(b, k, j);
    AndNotMask(b, k, j);
  }

  /** A byte is its eight bits. */
  lemma ByteIsItsBits(a: bv8, b: bv8)
    requires forall k :: 0 <= k < 8 ==> Bit(a, k) == Bit(b, k)
    ensures a == b
  {
    assert Bit(a, 0) == Bit(b, 0) && Bit(a, 1) == Bit(b, 1) && Bit(a, 2) == Bit(b, 2) && Bit(a, 3) == Bit(b, 3);
    assert Bit(a, 4) == Bit(b, 4) && Bit(a, 5) == Bit(b, 5) && Bit(a, 6) == Bit(b, 6) && Bit(a, 7) == Bit(b, 7);
  }
}
