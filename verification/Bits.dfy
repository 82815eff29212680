/** Single bits of the bitmap bytes (src/OSMMMap.cpp, the bitmap helpers). */
module Bits {

  /** `1u << k` */
  function Mask(k: nat): bv8
    requires k < 8
  {
    if k == 0 then 0x01 else if k == 1 then 0x02 else if k == 2 then 0x04 else if k == 3 then 0x08
    else if k == 4 then 0x10 else if k == 5 then 0x20 else if k == 6 then 0x40 else 0x80
  }

  /** `(b >> k) & 1u` */
  predicate Bit(b: bv8, k: nat)
    requires k < 8
  {
    b & Mask(k) != 0
  }

  function With(b: bv8, k: nat): bv8
    requires k < 8
  {
    b | Mask(k)
  }

  function Without(b: bv8, k: nat): bv8
    requires k < 8
  {
    b & !Mask(k)
  }

  lemma SameMask(b: bv8, m: bv8)
    requires m != 0
    ensures (b | m) & m != 0 && (b & !m) & m == 0
  {}

  lemma OtherMask(b: bv8, m: bv8, n: bv8)
    requires m & n == 0
    ensures (b | m) & n == b & n && (b & !m) & n == b & n
  {}

  lemma MasksApart(k: nat, j: nat)
    requires k < 8 && j < 8
    ensures Mask(k) != 0
    ensures k != j ==> Mask(k) & Mask(j) == 0
  {}

  /** Setting or clearing one bit changes that bit and no other. */
  lemma OneBit(b: bv8, k: nat, j: nat)
    requires k < 8 && j < 8
    ensures Bit(With(b, k), j) <==> j == k || Bit(b, j)
    ensures Bit(Without(b, k), j) <==> j != k && Bit(b, j)
  {
    hide Mask;
    MasksApart(k, j);
    if k == j {
      SameMask(b, Mask(k));
    } else {
      OtherMask(b, Mask(k), Mask(j));
    }
  }

  /** The masks are the shifted ones the helpers compute. */
  lemma MaskIsShift(b: bv8, k: nat)
    requires k < 8
    ensures Bit(b, k) <==> (b >> k) & 1 == 1
  {
    if k == 0 { assert (b >> 0) & 1 == 1 <==> b & 1 != 0; }
    else if k == 1 { assert (b >> 1) & 1 == 1 <==> b & 2 != 0; }
    else if k == 2 { assert (b >> 2) & 1 == 1 <==> b & 4 != 0; }
    else if k == 3 { assert (b >> 3) & 1 == 1 <==> b & 8 != 0; }
    else if k == 4 { assert (b >> 4) & 1 == 1 <==> b & 16 != 0; }
    else if k == 5 { assert (b >> 5) & 1 == 1 <==> b & 32 != 0; }
    else if k == 6 { assert (b >> 6) & 1 == 1 <==> b & 64 != 0; }
    else { assert (b >> 7) & 1 == 1 <==> b & 128 != 0; }
  }

  /** A byte is zero exactly when it has no bit. */
  lemma ZeroByte(b: bv8)
    ensures b == 0 <==> (forall k :: 0 <= k < 8 ==> !Bit(b, k))
  {
    if forall k :: 0 <= k < 8 ==> !Bit(b, k) {
      assert !Bit(b, 0) && !Bit(b, 1) && !Bit(b, 2) && !Bit(b, 3);
      assert !Bit(b, 4) && !Bit(b, 5) && !Bit(b, 6) && !Bit(b, 7);
    }
  }
}
