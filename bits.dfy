/**
 * set_bit, clear_bit and change_bit: single-bit updates of a byte, with the
 * shift amount given as a C `int`.
 */
module Bits {

  /** `1 << n` as a byte, for a shift below 8. */
  function Mask(n: int): bv8
    requires 0 <= n < 8
  {
    if n == 0 then 1 else if n == 1 then 2 else if n == 2 then 4 else if n == 3 then 8
    else if n == 4 then 16 else if n == 5 then 32 else if n == 6 then 64 else 128
  }

  /** Bit `n` (0 = least significant) of `b` is 1. */
  predicate Bit(b: bv8, n: int)
    requires 0 <= n < 8
  {
    b & Mask(n) != 0
  }

  /**
   * `(uint8_t)(byte | (1 << n))`: for a shift below 8 bit `n` becomes 1 and
   * the other bits are kept; a shift of 8 to 30 sets a bit the cast drops, so
   * the byte is unchanged (31 and above overflow `int` and are excluded).
   */
  function SetBit(n: int, b: bv8): (r: bv8)
    requires 0 <= n < 31
    ensures 8 <= n ==> r == b
    ensures n < 8 ==> Bit(r, n) && forall i :: 0 <= i < 8 && i != n ==> (Bit(r, i) <==> Bit(b, i))
  {
    if n < 8 then b | Mask(n) else b
  }

  /** `(uint8_t)(byte & ~(1 << n))`: bit `n` becomes 0, the others are kept; a shift of 8 to 30 changes nothing. */
  function ClearBit(n: int, b: bv8): (r: bv8)
    requires 0 <= n < 31
    ensures 8 <= n ==> r == b
    ensures n < 8 ==> !Bit(r, n) && forall i :: 0 <= i < 8 && i != n ==> (Bit(r, i) <==> Bit(b, i))
  {
    if n < 8 then b & !Mask(n) else b
  }

  /** change_bit: bit `n` becomes 1 exactly when `val` is non-zero; the other bits are kept. */
  function ChangeBit(n: int, b: bv8, val: int): (r: bv8)
    requires 0 <= n < 31
    ensures n < 8 ==> (Bit(r, n) <==> val != 0)
    ensures n < 8 ==> forall i :: 0 <= i < 8 && i != n ==> (Bit(r, i) <==> Bit(b, i))
    ensures 8 <= n ==> r == b
  {
    if val == 0 then ClearBit(n, b) else SetBit(n, b)
  }

  /** A byte is determined by its eight bits. */
  lemma BitsDetermine(a: bv8, b: bv8)
    requires forall i :: 0 <= i < 8 ==> (Bit(a, i) <==> Bit(b, i))
    ensures a == b
  {
    assert Bit(a, 0) == Bit(b, 0) && Bit(a, 1) == Bit(b, 1) && Bit(a, 2) == Bit(b, 2) && Bit(a, 3) == Bit(b, 3);
    assert Bit(a, 4) == Bit(b, 4) && Bit(a, 5) == Bit(b, 5) && Bit(a, 6) == Bit(b, 6) && Bit(a, 7) == Bit(b, 7);
  }

  /** Setting a bit twice is setting it once. */
  lemma SetBitIdempotent(n: int, b: bv8)
    requires 0 <= n < 31
    ensures SetBit(n, SetBit(n, b)) == SetBit(n, b)
  {
    if n < 8 {
      BitsDetermine(SetBit(n, SetBit(n, b)), SetBit(n, b));
    }
  }

  /** Clearing a bit twice is clearing it once. */
  lemma ClearBitIdempotent(n: int, b: bv8)
    requires 0 <= n < 31
    ensures ClearBit(n, ClearBit(n, b)) == ClearBit(n, b)
  {
    if n < 8 {
      BitsDetermine(ClearBit(n, ClearBit(n, b)), ClearBit(n, b));
    }
  }

  /** Changing the same bit twice keeps only the second value. */
  lemma ChangeBitOverwrite(n: int, b: bv8, v1: int, v2: int)
    requires 0 <= n < 8
    ensures ChangeBit(n, ChangeBit(n, b, v1), v2) == ChangeBit(n, b, v2)
  {
    if v2 == 0 {
      assert ChangeBit(n, ChangeBit(n, b, v1), v2) == ChangeBit(n, b, v1) & !Mask(n);
    } else {
      assert ChangeBit(n, ChangeBit(n, b, v1), v2) == ChangeBit(n, b, v1) | Mask(n);
    }
  }

  /** Changing a bit to the value it already holds changes nothing. */
  lemma ChangeBitKeep(n: int, b: bv8, val: int)
    requires 0 <= n < 8
    requires Bit(b, n) <==> val != 0
    ensures ChangeBit(n, b, val) == b
  {
    BitsDetermine(ChangeBit(n, b, val), b);
  }
}
