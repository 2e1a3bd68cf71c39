/** Bits of a byte, indexed from the least significant one, as the driver
    addresses the eight pixels of a display byte. */
module Bits {

  /** Bit k of a byte; the bit index is a byte as well, like the driver's
      `uint8_t` bit offsets. */
  predicate Bit(b: bv8, k: bv8)
    requires k < 8
  {
    (b >> k) & 1 == 1
  }

  /** The bit index n as a byte, `(uint8_t) n`. Written as a chain of
      literals rather than `n as bv8` so that the proofs never meet an
      integer-to-bit-vector conversion, which the solver handles poorly. */
  function BitIndex(n: nat): (k: bv8)
    requires n < 8
    ensures k < 8
  {
    if n == 0 then 0 else if n == 1 then 1 else if n == 2 then 2 else if n == 3 then 3
    else if n == 4 then 4 else if n == 5 then 5 else if n == 6 then 6 else 7
  }

  lemma BitIndexInjective(m: nat, n: nat)
    requires m < 8 && n < 8
    ensures (BitIndex(m) == BitIndex(n)) == (m == n)
  {
  }

  /** A dark byte has no bit set. */
  lemma DarkByte(k: bv8)
    requires k < 8
    ensures !Bit(0, k)
  {
  }

  /** A byte below 0x80 has bit 7 clear. */
  lemma HighBitClear(b: bv8)
    requires b < 0x80
    ensures !Bit(b, 7)
  {
  }

  /** Bytes are determined by their eight bits. */
  lemma BitsDetermineByte(u: bv8, v: bv8)
    requires forall k: nat | k < 8 :: Bit(u, BitIndex(k)) == Bit(v, BitIndex(k))
    ensures u == v
  {
    assert Bit(u, BitIndex(0)) == Bit(v, BitIndex(0)) && Bit(u, BitIndex(1)) == Bit(v, BitIndex(1));
    assert Bit(u, BitIndex(2)) == Bit(v, BitIndex(2)) && Bit(u, BitIndex(3)) == Bit(v, BitIndex(3));
    assert Bit(u, BitIndex(4)) == Bit(v, BitIndex(4)) && Bit(u, BitIndex(5)) == Bit(v, BitIndex(5));
    assert Bit(u, BitIndex(6)) == Bit(v, BitIndex(6)) && Bit(u, BitIndex(7)) == Bit(v, BitIndex(7));
  }

  /** Sets (on) or clears bit k of a byte: `b |= 1 << k` or `b &= ~(1 << k)`. */
  function SetBit(b: bv8, k: bv8, on: bool): (r: bv8)
    requires k < 8
    ensures Bit(r, k) == on
    ensures forall j: bv8 | j < 8 && j != k :: Bit(r, j) == Bit(b, j)
  {
    var r := if on then b | (1 << k) else b & !(1 << k);
    SetBitHits(b, k, on);
    forall j: bv8 | j < 8 && j != k
      ensures Bit(r, j) == Bit(b, j)
    {
      SetBitMisses(b, k, j, on);
    }
    r
  }

  lemma SetBitHits(b: bv8, k: bv8, on: bool)
    requires k < 8
    ensures Bit(if on then b | (1 << k) else b & !(1 << k), k) == on
  {
  }

  lemma SetBitMisses(b: bv8, k: bv8, j: bv8, on: bool)
    requires k < 8 && j < 8 && j != k
    ensures Bit(if on then b | (1 << k) else b & !(1 << k), j) == Bit(b, j)
  {
  }
}
