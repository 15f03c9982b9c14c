/**
 * The SPI framing of the W5500 (user/w5500/w5500_ll.c): block-select
 * arithmetic, the 3-byte frame header, the big-endian 16-bit register
 * encoding used by every 16-bit accessor, and W5500_Transfer's sequence
 * of bus actions.
 */
module W5500Transport {
  import opened BitOps
  import opened Constants
  import opened W5500Regs

  const SPI_FRAME_BYTES: nat := 3
  const COMMON_BLOCK: nat := 0x00
  const SOCKET_BLOCK: nat := 0x01
  const SOCKET_TX_BUF: nat := 0x02
  const SOCKET_RX_BUF: nat := 0x03
  const SOCKET_SPACING: nat := 0x04

  /** w5500_spi_rw_t */
  const SPI_RD: u8 := 0
  const SPI_WR: u8 := 1
  /** Variable data length mode, the only output mode the driver uses. */
  const SPI_VDM: nat := 0

  /** The register or buffer block an access addresses. */
  datatype Block = Common | SocketReg(sn: nat) | TxBuffer(sn: nat) | RxBuffer(sn: nat)

  predicate ValidBlock(b: Block)
  {
    !b.Common? ==> b.sn < NUM_SOCKETS
  }

  /**
   * The bsb argument each accessor passes: COMMON_BLOCK for common
   * registers and base + sn * SOCKET_SPACING for a socket's blocks. It fits
   * the 5-bit field, and decoding it gives the block back, so distinct
   * blocks never share a select value.
   */
  function Bsb(b: Block): (r: nat)
    requires ValidBlock(b)
    ensures r < 32
    ensures BlockOf(r) == Some(b)
  {
    match b
    case Common => COMMON_BLOCK
    case SocketReg(sn) => SOCKET_BLOCK + sn * SOCKET_SPACING
    case TxBuffer(sn) => SOCKET_TX_BUF + sn * SOCKET_SPACING
    case RxBuffer(sn) => SOCKET_RX_BUF + sn * SOCKET_SPACING
  }

  /** Reads a select value back: bsb div 4 is the socket, bsb mod 4 the kind of block. */
  function BlockOf(bsb: nat): Option<Block>
  {
    if bsb == 0 then Some(Common)
    else if bsb >= 32 then None
    else if bsb % 4 == 1 then Some(SocketReg(bsb / 4))
    else if bsb % 4 == 2 then Some(TxBuffer(bsb / 4))
    else if bsb % 4 == 3 then Some(RxBuffer(bsb / 4))
    else None
  }

  lemma BsbInjective(a: Block, b: Block)
    requires ValidBlock(a) && ValidBlock(b) && a != b
    ensures Bsb(a) != Bsb(b)
  {
  }

  /**
   * The control byte of w5500_spi_header_t: om in bits 0..1, rw in bit 2,
   * bsb in bits 3..7 (bit-fields allocated from the least significant bit).
   */
  function ControlByte(om: nat, rw: nat, bsb: nat): (c: u8)
    requires om < 4 && rw < 2 && bsb < 32
    ensures c % 4 == om && c / 4 % 2 == rw && c / 8 == bsb
  {
    om + 4 * rw + 8 * bsb
  }

  /**
   * The three header bytes as they sit in memory: the address field holds
   * BYTE_SWAP_16(addr) in host (little-endian) order, then the control byte.
   * The result is the address big-endian followed by (bsb << 3) | (rw << 2).
   */
  function FrameHeader(addr: u16, bsb: nat, rw: nat): (h: seq<u8>)
    requires bsb < 32 && rw < 2
    ensures |h| == SPI_FRAME_BYTES
    ensures h[0] == addr / 0x100 && h[1] == addr % 0x100
    ensures h[2] == bsb * 8 + rw * 4
  {
    var swapped := ByteSwap16(addr);
    DivModUnique(swapped, 0x100, addr % 0x100, addr / 0x100);
    [swapped % 0x100, swapped / 0x100, ControlByte(SPI_VDM, rw, bsb)]
  }

  datatype Header = Header(addr: u16, bsb: nat, rw: nat, om: nat)

  /** How the W5500 reads a frame header. */
  function ParseFrameHeader(h: seq<u8>): Header
    requires |h| == SPI_FRAME_BYTES
  {
    Header(Be16(h[0], h[1]), h[2] / 8, h[2] / 4 % 2, h[2] % 4)
  }

  /** The chip reads back exactly the address, block, direction and VDM mode sent. */
  lemma FrameHeaderParses(addr: u16, bsb: nat, rw: nat)
    requires bsb < 32 && rw < 2
    ensures ParseFrameHeader(FrameHeader(addr, bsb, rw)) == Header(addr, bsb, rw, SPI_VDM)
  {
    var h := FrameHeader(addr, bsb, rw);
    DivModUnique(h[2], 8, bsb, rw * 4);
    DivModUnique(h[2], 4, bsb * 2 + rw, 0);
  }

  // ---------------------------------------------------------------------
  // 16-bit registers

  /** The two bytes a 16-bit setter sends: (v & 0xFF00) >> 8, then (v & 0x00FF) >> 0. */
  function Encode16(v: u16): (b: seq<u8>)
    ensures |b| == 2 && b[0] == v / 0x100 && b[1] == v % 0x100
  {
    Pow2Values();
    AndField(v, 8, 8);
    AndField(v, 8, 0);
    DivModUnique(v / 0x100 % 0x100 * 0x100, 0x100, v / 0x100 % 0x100, 0);
    DivModUnique(v / 0x100, 0x100, 0, v / 0x100);
    [Shr(And(v, 0xFF00), 8), Shr(And(v, 0x00FF), 0)]
  }

  /** A 16-bit getter's value: (buf[0] << 8) | buf[1]. */
  function Decode16(b0: u8, b1: u8): (v: u16)
    ensures v == Be16(b0, b1)
  {
    Pow2Values();
    OrDisjoint(b0, 8, b1);
    Or(Shl(b0, 8), b1)
  }

  lemma Decode16Encode16(v: u16)
    ensures Decode16(Encode16(v)[0], Encode16(v)[1]) == v
  {
  }

  lemma Encode16Decode16(b0: u8, b1: u8)
    ensures Encode16(Decode16(b0, b1)) == [b0, b1]
  {
    DivModUnique(Be16(b0, b1), 0x100, b0, b1);
  }

  // ---------------------------------------------------------------------
  // W5500_Transfer

  /** What the transfer does on the bus and to the scheduler. */
  datatype BusAction =
    | EnterCritical | ExitCritical
    | ChipSelect(low: bool)
    | Transmit(bytes: seq<u8>)
    | Receive(count: nat)

  /**
   * One transfer: header, then the data phase in the access direction.
   * `headerRc` and `dataRc` are what HAL_SPI_Transmit/Receive return and
   * `incoming` what the chip clocks out during a read.
   */
  method Transfer(data: seq<u8>, len: u16, addr: u16, bsb: nat, access: u8,
                  headerRc: Hal, dataRc: Hal, incoming: seq<u8>)
    returns (rc: Status, received: seq<u8>, trace: seq<BusAction>)
    requires bsb < 32
    requires access == SPI_WR ==> |data| >= len
    requires access == SPI_RD ==> |incoming| >= len
    ensures |trace| >= 5
    ensures trace[0] == EnterCritical && trace[1] == ChipSelect(true)
    ensures trace[2] == Transmit(FrameHeader(addr, bsb, access as nat % 2))
    ensures trace[|trace| - 2] == ChipSelect(false) && trace[|trace| - 1] == ExitCritical
    ensures headerRc != HalOk ==> |trace| == 5 && rc == FromHal(headerRc) && received == []
    ensures headerRc == HalOk && access == SPI_RD ==>
              |trace| == 6 && trace[3] == Receive(len) && rc == FromHal(dataRc) && received == incoming[..len]
    ensures headerRc == HalOk && access == SPI_WR ==>
              |trace| == 6 && trace[3] == Transmit(data[..len]) && rc == FromHal(dataRc) && received == []
    ensures headerRc == HalOk && access > SPI_WR ==> |trace| == 5 && rc == Ok
  {
    // the rw bit-field keeps the low bit of `access`
    var header := FrameHeader(addr, bsb, access as nat % 2);
    trace := [EnterCritical, ChipSelect(true), Transmit(header)];
    received := [];
    var hal := headerRc;
    if hal == HalOk {
      if access == SPI_RD {
        hal := dataRc;
        received := incoming[..len];
        trace := trace + [Receive(len)];
      } else if access == SPI_WR {
        hal := dataRc;
        trace := trace + [Transmit(data[..len])];
      }
    }
    trace := trace + [ChipSelect(false), ExitCritical];
    rc := FromHal(hal);
  }
}
