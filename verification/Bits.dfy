/** Single bits of a byte, as the bit-mask arithmetic of the sources sees them. */
module Bits {
  predicate OneBit(k: bv8) {
    k == 1 || k == 2 || k == 4 || k == 8 || k == 16 || k == 32 || k == 64 || k == 128
  }

  /** The byte with only bit `j` set. */
  function Mask(j: int): (m: bv8)
    requires 0 <= j < 8
    ensures OneBit(m)
  {
    if j == 0 then 1 else if j == 1 then 2 else if j == 2 then 4 else if j == 3 then 8
    else if j == 4 then 16 else if j == 5 then 32 else if j == 6 then 64 else 128
  }

  lemma MaskIsShift(j: int)
    requires 0 <= j < 8
    ensures Mask(j) == (1 as bv8) << j
  {
  }

  predicate Has(b: bv8, k: bv8) {
    b & k != 0
  }

  predicate Bit(b: bv8, j: int)
    requires 0 <= j < 8
  {
    Has(b, Mask(j))
  }

  /** A byte is determined by its eight bits. */
  lemma SameBits(a: bv8, b: bv8)
    requires forall j :: 0 <= j < 8 ==> Bit(a, j) == Bit(b, j)
    ensures a == b
  {
    assert Bit(a, 0) == Bit(b, 0) && Bit(a, 1) == Bit(b, 1) && Bit(a, 2) == Bit(b, 2) && Bit(a, 3) == Bit(b, 3);
    assert Bit(a, 4) == Bit(b, 4) && Bit(a, 5) == Bit(b, 5) && Bit(a, 6) == Bit(b, 6) && Bit(a, 7) == Bit(b, 7);
  }

  /** What `|=`, `&= ~` and `^=` with a mask do to each bit. */
  lemma MaskedBits(b: bv8, mask: bv8, j: int)
    requires 0 <= j < 8
    ensures Bit(b | mask, j) == (Bit(b, j) || Bit(mask, j))
    ensures Bit(b & !mask, j) == (Bit(b, j) && !Bit(mask, j))
    ensures Bit(b ^ mask, j) == (Bit(b, j) != Bit(mask, j))
  {
    hide Mask, Has;
    MaskedHas(b, mask, Mask(j));
  }

  lemma MaskedHas(b: bv8, mask: bv8, k: bv8)
    requires OneBit(k)
    ensures Has(b | mask, k) == (Has(b, k) || Has(mask, k))
    ensures Has(b & !mask, k) == (Has(b, k) && !Has(mask, k))
    ensures Has(b ^ mask, k) == (Has(b, k) != Has(mask, k))
  {
  }

  lemma MaskBits(i: int, j: int)
    requires 0 <= i < 8 && 0 <= j < 8
    ensures Bit(Mask(i), j) == (i == j)
  {
  }

  lemma ZeroByte(j: int)
    requires 0 <= j < 8
    ensures !Bit(0, j)
  {
  }

  lemma AndBits(a: bv8, b: bv8, j: int)
    requires 0 <= j < 8
    ensures Bit(a & b, j) == (Bit(a, j) && Bit(b, j))
  {
    hide Mask, Has;
    AndHas(a, b, Mask(j));
  }

  lemma AndHas(a: bv8, b: bv8, k: bv8)
    requires OneBit(k)
    ensures Has(a & b, k) == (Has(a, k) && Has(b, k))
  {
  }
}
