/**
 * The 25AA02E48 EEPROM driver of user/eeprom/eeprom.c: reading a run of
 * bytes over SPI, reading the factory EUI-48 MAC address and rejecting the
 * readings that betray a failed transfer, and naming the status codes.
 *
 * The SPI transfers themselves are not visible here: their HAL outcomes
 * and the bytes the chip clocks out are parameters.
 */
module Eeprom {
  import opened BitOps

  const EEPROM_MAC_ADDRESS_BYTES: nat := 6
  const EEPROM_MAC_MEMORY_START: u8 := 0xFA

  /** eeprom_status_t; the first four share their values with HAL_StatusTypeDef. */
  const EEPROM_OK: nat := 0
  const EEPROM_SPI_ERROR: nat := 1
  const EEPROM_SPI_BUSY: nat := 2
  const EEPROM_SPI_TIMEOUT: nat := 3
  const EEPROM_MAC_ALL_ONE: nat := 4
  const EEPROM_MAC_ALL_ZERO: nat := 5
  const EEPROM_MAC_MIRROR: nat := 6

  /** The READ instruction of eeprom_cmd_e. */
  const EEPROM_READ: u8 := 3

  /** HAL_OK, HAL_ERROR, HAL_BUSY or HAL_TIMEOUT. */
  type HalStatus = x: nat | x <= 3

  /** Every one of the six MAC bytes is v. */
  predicate AllBytes(mac: seq<u8>, v: u8)
    requires |mac| == EEPROM_MAC_ADDRESS_BYTES
  {
    forall i :: 0 <= i < EEPROM_MAC_ADDRESS_BYTES ==> mac[i] == v
  }

  /** The bytes repeat their own addresses FA FB FC FD FE FF: the chip echoed the address. */
  predicate Mirrored(mac: seq<u8>)
    requires |mac| == EEPROM_MAC_ADDRESS_BYTES
  {
    forall i :: 0 <= i < EEPROM_MAC_ADDRESS_BYTES ==> mac[i] == EEPROM_MAC_MEMORY_START + i
  }

  /** The verdict the header's status codes describe: one code per mode of failure. */
  function MacVerdict(mac: seq<u8>): (rc: nat)
    requires |mac| == EEPROM_MAC_ADDRESS_BYTES
    ensures rc == EEPROM_OK || rc == EEPROM_MAC_ALL_ONE || rc == EEPROM_MAC_ALL_ZERO || rc == EEPROM_MAC_MIRROR
  {
    if AllBytes(mac, 0xFF) then EEPROM_MAC_ALL_ONE
    else if AllBytes(mac, 0x00) then EEPROM_MAC_ALL_ZERO
    else if Mirrored(mac) then EEPROM_MAC_MIRROR
    else EEPROM_OK
  }

  /** The verdict EEPROM_ReadMAC computes: every failure pattern reports EEPROM_MAC_ALL_ONE. */
  function MacVerdictAsWritten(mac: seq<u8>): (rc: nat)
    requires |mac| == EEPROM_MAC_ADDRESS_BYTES
    ensures rc == EEPROM_OK || rc == EEPROM_MAC_ALL_ONE
  {
    if AllBytes(mac, 0xFF) || AllBytes(mac, 0x00) || Mirrored(mac) then EEPROM_MAC_ALL_ONE
    else EEPROM_OK
  }

  /** The three failure patterns exclude one another, so each code names exactly one of them. */
  lemma PatternsDisjoint(mac: seq<u8>)
    requires |mac| == EEPROM_MAC_ADDRESS_BYTES
    ensures !(AllBytes(mac, 0xFF) && AllBytes(mac, 0x00))
    ensures !(AllBytes(mac, 0xFF) && Mirrored(mac))
    ensures !(AllBytes(mac, 0x00) && Mirrored(mac))
  {
    if AllBytes(mac, 0xFF) || AllBytes(mac, 0x00) {
      assert mac[0] == 0xFF || mac[0] == 0x00;
      assert mac[0] != EEPROM_MAC_MEMORY_START;
    }
  }

  /** Each code of the intended verdict holds exactly when its pattern was read. */
  lemma MacVerdictMeaning(mac: seq<u8>)
    requires |mac| == EEPROM_MAC_ADDRESS_BYTES
    ensures MacVerdict(mac) == EEPROM_MAC_ALL_ONE <==> AllBytes(mac, 0xFF)
    ensures MacVerdict(mac) == EEPROM_MAC_ALL_ZERO <==> AllBytes(mac, 0x00)
    ensures MacVerdict(mac) == EEPROM_MAC_MIRROR <==> Mirrored(mac)
    ensures MacVerdict(mac) == EEPROM_OK <==> !AllBytes(mac, 0xFF) && !AllBytes(mac, 0x00) && !Mirrored(mac)
  {
    PatternsDisjoint(mac);
  }

  /** The as-written verdict rejects the same readings the intended one does, under a single code. */
  lemma AsWrittenMergesCodes(mac: seq<u8>)
    requires |mac| == EEPROM_MAC_ADDRESS_BYTES
    ensures MacVerdictAsWritten(mac) == EEPROM_OK <==> MacVerdict(mac) == EEPROM_OK
    ensures MacVerdictAsWritten(mac) == EEPROM_MAC_ALL_ONE <==> MacVerdict(mac) != EEPROM_OK
  {
  }

  /** An all-zero reading and an echoed address are both reported as all ones. */
  lemma ZeroAndMirrorReportedAllOne()
    ensures MacVerdictAsWritten([0, 0, 0, 0, 0, 0]) == EEPROM_MAC_ALL_ONE
    ensures MacVerdict([0, 0, 0, 0, 0, 0]) == EEPROM_MAC_ALL_ZERO
    ensures MacVerdictAsWritten([0xFA, 0xFB, 0xFC, 0xFD, 0xFE, 0xFF]) == EEPROM_MAC_ALL_ONE
    ensures MacVerdict([0xFA, 0xFB, 0xFC, 0xFD, 0xFE, 0xFF]) == EEPROM_MAC_MIRROR
  {
    var zero: seq<u8> := [0, 0, 0, 0, 0, 0];
    var echo: seq<u8> := [0xFA, 0xFB, 0xFC, 0xFD, 0xFE, 0xFF];
    assert !AllBytes(zero, 0xFF) by {
      assert zero[0] != 0xFF;
    }
    assert AllBytes(zero, 0x00);
    assert !AllBytes(echo, 0xFF) && !AllBytes(echo, 0x00) by {
      assert echo[0] == 0xFA;
    }
    assert Mirrored(echo);
  }

  /**
   * EEPROM_ReadMemory: the READ instruction and the address go out, then
   * `num` bytes come in. The HAL outcome of each transfer is a parameter,
   * and so are the bytes the receive leaves in the buffer, whether or not
   * it reports success (a failed receive may have written some of them); a
   * failed transmit skips the receive.
   */
  method ReadMemory(addr: u8, buf: array<u8>, num: u16, transmit: HalStatus, receive: HalStatus, received: seq<u8>)
    returns (rc: nat, command: seq<u8>)
    requires num <= buf.Length && |received| == num
    modifies buf
    ensures command == [EEPROM_READ, addr]
    ensures transmit != EEPROM_OK ==> rc == transmit && buf[..] == old(buf[..])
    ensures transmit == EEPROM_OK ==>
              rc == receive && buf[..num] == received && buf[num..] == old(buf[num..])
  {
    command := [EEPROM_READ, addr];
    rc := transmit;
    if rc != EEPROM_OK {
      return;
    }
    var i := 0;
    while i < num
      invariant 0 <= i <= num
      invariant buf[..i] == received[..i] && buf[i..] == old(buf[i..])
    {
      buf[i] := received[i];
      i := i + 1;
    }
    rc := receive;
  }

  /**
   * EEPROM_ReadMAC: read the six bytes at EEPROM_MAC_MEMORY_START into
   * `mac`; a read error is returned before anything is checked, otherwise
   * the bytes are judged by the loops as written, which report all three
   * failure patterns as EEPROM_MAC_ALL_ONE.
   */
  method ReadMac(mac: array<u8>, transmit: HalStatus, receive: HalStatus, received: seq<u8>) returns (rc: nat)
    requires mac.Length >= EEPROM_MAC_ADDRESS_BYTES && |received| == EEPROM_MAC_ADDRESS_BYTES
    modifies mac
    ensures transmit != EEPROM_OK ==> rc == transmit && mac[..] == old(mac[..])
    ensures transmit == EEPROM_OK ==>
              mac[..EEPROM_MAC_ADDRESS_BYTES] == received
              && mac[EEPROM_MAC_ADDRESS_BYTES..] == old(mac[EEPROM_MAC_ADDRESS_BYTES..])
    ensures transmit == EEPROM_OK && receive != EEPROM_OK ==> rc == receive
    ensures transmit == EEPROM_OK && receive == EEPROM_OK ==> rc == MacVerdictAsWritten(received)
  {
    var command;
    rc, command := ReadMemory(EEPROM_MAC_MEMORY_START, mac, EEPROM_MAC_ADDRESS_BYTES as u16, transmit, receive, received);
    if rc != EEPROM_OK {
      return;
    }
    rc := CheckMacAsWritten(mac);
  }

  /** The loops of EEPROM_ReadMAC with each pattern reporting its own code. */
  method CheckMac(mac: array<u8>) returns (rc: nat)
    requires mac.Length >= EEPROM_MAC_ADDRESS_BYTES
    ensures rc == MacVerdict(mac[..EEPROM_MAC_ADDRESS_BYTES])
  {
    var found := ScanFor(mac, 0xFF);
    if found {
      return EEPROM_MAC_ALL_ONE;
    }
    found := ScanFor(mac, 0x00);
    if found {
      return EEPROM_MAC_ALL_ZERO;
    }
    found := ScanMirror(mac);
    if found {
      return EEPROM_MAC_MIRROR;
    }
    return EEPROM_OK;
  }

  /** The loops of EEPROM_ReadMAC as written: all three patterns return EEPROM_MAC_ALL_ONE. */
  method CheckMacAsWritten(mac: array<u8>) returns (rc: nat)
    requires mac.Length >= EEPROM_MAC_ADDRESS_BYTES
    ensures rc == MacVerdictAsWritten(mac[..EEPROM_MAC_ADDRESS_BYTES])
  {
    var found := ScanFor(mac, 0xFF);
    if found {
      return EEPROM_MAC_ALL_ONE;
    }
    found := ScanFor(mac, 0x00);
    if found {
      return EEPROM_MAC_ALL_ONE;
    }
    found := ScanMirror(mac);
    if found {
      return EEPROM_MAC_ALL_ONE;
    }
    return EEPROM_OK;
  }

  /**
   * One of the first two loops: stop at the first byte that is not v, and
   * report a match when the last byte also is.
   */
  method ScanFor(mac: array<u8>, v: u8) returns (found: bool)
    requires mac.Length >= EEPROM_MAC_ADDRESS_BYTES
    ensures found <==> AllBytes(mac[..EEPROM_MAC_ADDRESS_BYTES], v)
  {
    var i := 0;
    while i < EEPROM_MAC_ADDRESS_BYTES
      invariant 0 <= i < EEPROM_MAC_ADDRESS_BYTES
      invariant forall j :: 0 <= j < i ==> mac[j] == v
    {
      if mac[i] != v {
        break;
      }
      if i + 1 == EEPROM_MAC_ADDRESS_BYTES {
        return true;
      }
      i := i + 1;
    }
    return false;
  }

  /** The third loop: byte i against the address it was read from, EEPROM_MAC_MEMORY_START + i. */
  method ScanMirror(mac: array<u8>) returns (found: bool)
    requires mac.Length >= EEPROM_MAC_ADDRESS_BYTES
    ensures found <==> Mirrored(mac[..EEPROM_MAC_ADDRESS_BYTES])
  {
    var i := 0;
    while i < EEPROM_MAC_ADDRESS_BYTES
      invariant 0 <= i < EEPROM_MAC_ADDRESS_BYTES
      invariant forall j :: 0 <= j < i ==> mac[j] == EEPROM_MAC_MEMORY_START + j
    {
      if mac[i] != EEPROM_MAC_MEMORY_START + i {
        break;
      }
      if i + 1 == EEPROM_MAC_ADDRESS_BYTES {
        return true;
      }
      i := i + 1;
    }
    return false;
  }

  /** EEPROM_StatusString: the enumerator's name without its prefix, "UNKNOWN" for any other value. */
  function StatusString(status: nat): (name: string)
    ensures status > EEPROM_MAC_MIRROR <==> name == "UNKNOWN"
    ensures |name| > 0
  {
    match status
    case 0 => "OK"
    case 1 => "SPI_ERROR"
    case 2 => "SPI_BUSY"
    case 3 => "SPI_TIMEOUT"
    case 4 => "MAC_ALL_ONE"
    case 5 => "MAC_ALL_ZERO"
    case 6 => "MAC_MIRROR"
    case _ => "UNKNOWN"
  }

  /** Distinct codes get distinct names, so a logged name identifies its code. */
  lemma StatusStringsDistinct(a: nat, b: nat)
    requires a <= EEPROM_MAC_MIRROR && b <= EEPROM_MAC_MIRROR && a != b
    ensures StatusString(a) != StatusString(b)
  {
  }
}
