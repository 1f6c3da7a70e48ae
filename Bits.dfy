/** Single-bit masks over bytes, most significant bit first. */
module Bits {

  /** The mask that selects column `x` inside its byte: bit 7 for x % 8 == 0,
      down to bit 0 for x % 8 == 7 (most significant bit first). */
  function Mask(x: nat): bv8
  {
    match x % 8
    case 0 => 0x80
    case 1 => 0x40
    case 2 => 0x20
    case 3 => 0x10
    case 4 => 0x08
    case 5 => 0x04
    case 6 => 0x02
    case _ => 0x01
  }

  /** The mask is the shift `0x80 >> (x % 8)`. */
  lemma MaskIsShift(x: nat)
    ensures Mask(x) == (0x80 as bv8) >> (x % 8)
  {
    var k := x % 8;
    assert k == 0 || k == 1 || k == 2 || k == 3 || k == 4 || k == 5 || k == 6 || k == 7;
  }

  /** Is the bit of column `x` set in byte `b`? */
  predicate BitSet(b: bv8, x: nat)
  {
    b & Mask(x) != 0
  }

  /** A bit of `a | b` is set exactly when it is set in `a` or in `b`. */
  lemma OrBit(a: bv8, b: bv8, x: nat)
    ensures BitSet(a | b, x) <==> BitSet(a, x) || BitSet(b, x)
  {
  }

  /** The mask of column `x` has exactly the bit of `x`'s position set. */
  lemma MaskBit(x: nat, x': nat)
    ensures BitSet(Mask(x), x') <==> x % 8 == x' % 8
  {
  }

  /** OR-ing in the mask of column `x` sets that bit and leaves every other bit as it was. */
  lemma OrMaskBit(b: bv8, x: nat, x': nat)
    ensures BitSet(b | Mask(x), x') <==> BitSet(b, x') || x % 8 == x' % 8
  {
    OrBit(b, Mask(x), x');
    MaskBit(x, x');
  }

  /** The zero byte has no bit set. */
  lemma ZeroNoBit(x: nat)
    ensures !BitSet(0, x)
  {
  }

  /** A byte is determined by its eight bits. */
  lemma ByteExtensional(a: bv8, b: bv8)
    requires forall k: nat :: k < 8 ==> (BitSet(a, k) <==> BitSet(b, k))
    ensures a == b
  {
    assert BitSet(a, 0) == BitSet(b, 0) && BitSet(a, 1) == BitSet(b, 1);
    assert BitSet(a, 2) == BitSet(b, 2) && BitSet(a, 3) == BitSet(b, 3);
    assert BitSet(a, 4) == BitSet(b, 4) && BitSet(a, 5) == BitSet(b, 5);
    assert BitSet(a, 6) == BitSet(b, 6) && BitSet(a, 7) == BitSet(b, 7);
  }
}
