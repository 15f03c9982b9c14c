/**
 * Project-wide sizes and the endian swap macros (user/constants.h).
 *
 * The firmware runs on a little-endian Cortex-M, so a multi-byte field of
 * a packed structure holds its least significant byte first, while every
 * protocol the driver speaks (W5500 SPI frames, UDP/DHCP, MQTT) puts the
 * most significant byte first. The swap macros bridge the two; the lemmas
 * here say that they reverse the bytes, undo themselves, and turn a field
 * read in host order into the value the wire carries.
 */
module Constants {
  import opened BitOps

  const MAC_BYTES: nat := 6
  const IPV4_BYTES: nat := 4
  const PORT_BYTES: nat := 2

  /** Host (little-endian) reading of two consecutive bytes. */
  function Le16(b0: u8, b1: u8): u16
  {
    b0 + 0x100 * b1
  }

  /** Network (big-endian) reading of two consecutive bytes. */
  function Be16(b0: u8, b1: u8): u16
  {
    0x100 * b0 + b1
  }

  function Le32(b0: u8, b1: u8, b2: u8, b3: u8): u32
  {
    b0 + 0x100 * b1 + 0x1_0000 * b2 + 0x100_0000 * b3
  }

  function Be32(b0: u8, b1: u8, b2: u8, b3: u8): u32
  {
    0x100_0000 * b0 + 0x1_0000 * b1 + 0x100 * b2 + b3
  }

  /**
   * BYTE_SWAP_16 applied to a uint16 and stored back into one (every use
   * in the driver does so, which discards the bits shifted past bit 15).
   */
  function ByteSwap16(x: u16): (r: u16)
    ensures r == x % 0x100 * 0x100 + x / 0x100
  {
    Pow2Values();
    OrDisjoint(x, 8, x / 0x100);
    DivModUnique(x * 0x100 + x / 0x100, 0x1_0000, x / 0x100, x % 0x100 * 0x100 + x / 0x100);
    Or(Shl(x, 8), Shr(x, 8)) % 0x1_0000
  }

  /** BYTE_SWAP_32 on a uint32: the four masked, shifted bytes or-ed together. */
  function ByteSwap32(x: u32): (r: u32)
    ensures r == Be32(x % 0x100, x / 0x100 % 0x100, x / 0x1_0000 % 0x100, x / 0x100_0000)
  {
    SwapTerms(x);
    Or(Or(Or(Shr(And(x, 0xFF00_0000), 24), Shr(And(x, 0x00FF_0000), 8)),
          Shl(And(x, 0x0000_FF00), 8)),
       Shl(And(x, 0x0000_00FF), 24))
  }

  /** Each masked and shifted term of BYTE_SWAP_32 is one byte in its new place. */
  lemma SwapTerms(x: u32)
    ensures Shr(And(x, 0xFF00_0000), 24) == x / 0x100_0000
    ensures Shr(And(x, 0x00FF_0000), 8) == x / 0x1_0000 % 0x100 * 0x100
    ensures Shl(And(x, 0x0000_FF00), 8) == x / 0x100 % 0x100 * 0x1_0000
    ensures Shl(And(x, 0x0000_00FF), 24) == x % 0x100 * 0x100_0000
    ensures Or(Or(Or(x / 0x100_0000, x / 0x1_0000 % 0x100 * 0x100), x / 0x100 % 0x100 * 0x1_0000),
               x % 0x100 * 0x100_0000)
            == Be32(x % 0x100, x / 0x100 % 0x100, x / 0x1_0000 % 0x100, x / 0x100_0000)
  {
    Pow2Values();
    TopByte(x);
    MiddleBytes(x);
    OrBytes(x / 0x100_0000, x / 0x1_0000 % 0x100, x / 0x100 % 0x100, x % 0x100);
  }

  lemma TopByte(x: u32)
    ensures Shr(And(x, 0xFF00_0000), 24) == x / 0x100_0000
  {
    Pow2Values();
    var b3 := x / 0x100_0000;
    AndField(x, 8, 24);
    DivModUnique(b3, 0x100, 0, b3);
    DivModUnique(b3 * 0x100_0000, 0x100_0000, b3, 0);
  }

  lemma MiddleBytes(x: u32)
    ensures Shr(And(x, 0x00FF_0000), 8) == x / 0x1_0000 % 0x100 * 0x100
    ensures Shl(And(x, 0x0000_FF00), 8) == x / 0x100 % 0x100 * 0x1_0000
    ensures Shl(And(x, 0x0000_00FF), 24) == x % 0x100 * 0x100_0000
  {
    Pow2Values();
    var b2 := x / 0x1_0000 % 0x100;
    AndField(x, 8, 16);
    DivModUnique(b2 * 0x1_0000, 0x100, b2 * 0x100, 0);
    AndField(x, 8, 8);
    AndField(x, 8, 0);
    DivModUnique(x, 1, x, 0);
  }

  /** Or-ing four bytes placed in disjoint positions adds them up. */
  lemma OrBytes(b3: u8, b2: u8, b1: u8, b0: u8)
    ensures Or(Or(Or(b3, b2 * 0x100), b1 * 0x1_0000), b0 * 0x100_0000) == Be32(b0, b1, b2, b3)
  {
    Pow2Values();
    OrDisjointLowFirst(b3, b2, 8);
    OrDisjointLowFirst(b3 + b2 * 0x100, b1, 16);
    OrDisjointLowFirst(b3 + b2 * 0x100 + b1 * 0x1_0000, b0, 24);
  }

  /** Swapping twice gives the original value back. */
  lemma ByteSwap16Involution(x: u16)
    ensures ByteSwap16(ByteSwap16(x)) == x
  {
    var y := ByteSwap16(x);
    DivModUnique(y, 0x100, x % 0x100, x / 0x100);
  }

  /** A big-endian 16-bit field read in host order and swapped is its wire value. */
  lemma ByteSwap16Decodes(b0: u8, b1: u8)
    ensures ByteSwap16(Le16(b0, b1)) == Be16(b0, b1)
  {
    DivModUnique(Le16(b0, b1), 0x100, b1, b0);
  }

  lemma ByteSwap32Involution(x: u32)
    ensures ByteSwap32(ByteSwap32(x)) == x
  {
    var b0, b1, b2, b3 := x % 0x100, x / 0x100 % 0x100, x / 0x1_0000 % 0x100, x / 0x100_0000;
    assert x == Le32(b0, b1, b2, b3) by {
      DivModUnique(x, 0x100, x / 0x100, b0);
      DivModUnique(x / 0x100, 0x100, x / 0x1_0000, b1);
      DivDiv(x, 0x100, 0x100);
      DivModUnique(x / 0x1_0000, 0x100, b3, b2);
      DivDiv(x, 0x1_0000, 0x100);
    }
    assert ByteSwap32(x) == Le32(b3, b2, b1, b0);
    Le32Digits(b3, b2, b1, b0);
  }

  lemma ByteSwap32Decodes(b0: u8, b1: u8, b2: u8, b3: u8)
    ensures ByteSwap32(Le32(b0, b1, b2, b3)) == Be32(b0, b1, b2, b3)
  {
    Le32Digits(b0, b1, b2, b3);
  }

  /** The four bytes of a little-endian 32-bit value are recovered by / and %. */
  lemma Le32Digits(b0: u8, b1: u8, b2: u8, b3: u8)
    ensures var x := Le32(b0, b1, b2, b3);
      x % 0x100 == b0 && x / 0x100 % 0x100 == b1 && x / 0x1_0000 % 0x100 == b2 && x / 0x100_0000 == b3
    ensures Be32(b3, b2, b1, b0) == Le32(b0, b1, b2, b3)
  {
    var x := Le32(b0, b1, b2, b3);
    DivModUnique(x, 0x100, b1 + 0x100 * b2 + 0x1_0000 * b3, b0);
    DivModUnique(x / 0x100, 0x100, b2 + 0x100 * b3, b1);
    DivModUnique(x, 0x1_0000, b2 + 0x100 * b3, b0 + 0x100 * b1);
    DivModUnique(x / 0x1_0000, 0x100, b3, b2);
    DivModUnique(x, 0x100_0000, b3, b0 + 0x100 * b1 + 0x1_0000 * b2);
  }
}
