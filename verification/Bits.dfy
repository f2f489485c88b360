/** Single bits of a byte. */
module Bits {

  function Bit(k: nat): bv8
    requires k < 8
  {
    1 << k
  }

  predicate BitSet(b: bv8, k: nat)
    requires k < 8
  {
    b & Bit(k) != 0
  }

  lemma BitValues()
    ensures Bit(0) == 1 && Bit(1) == 2 && Bit(2) == 4 && Bit(3) == 8
    ensures Bit(4) == 16 && Bit(5) == 32 && Bit(6) == 64 && Bit(7) == 128
  {
  }

  lemma SetBit(b: bv8, k: nat, j: nat)
    requires k < 8 && j < 8
    ensures BitSet(b | Bit(k), j) <==> BitSet(b, j) || j == k
  {
    BitValues();
  }

  lemma NoBitSet(j: nat)
    requires j < 8
    ensures !BitSet(0, j)
  {
  }

  lemma ClearBit(b: bv8, k: nat, j: nat)
    requires k < 8 && j < 8
    ensures BitSet(b & !Bit(k), j) <==> BitSet(b, j) && j != k
  {
    BitValues();
  }

  lemma AllBitsSet(j: nat)
    requires j < 8
    ensures BitSet(0xFF, j)
  {
    BitValues();
  }
}
