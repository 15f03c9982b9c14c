/**
 * W5500 driver vocabulary: status codes, HAL results, socket event bits,
 * protocol/command/status codes and the Sn_MR / Sn_IR bit layouts
 * (user/w5500/w5500_ll.h, user/w5500/w5500_socket_regs.h), together with
 * W5500_StatusString (user/w5500/w5500_ll.c).
 */
module W5500Regs {
  import opened BitOps

  const NUM_SOCKETS: nat := 8

  /** w5500_status_t, in declaration order (codes 0..19). */
  datatype Status =
    | Ok | SpiError | SpiBusy | SpiTimeout | RdError | LinkError
    | TxOverflow | RxOverflow | StatusTimeout | ConTimeout | SendTimeout | RecvTimeout
    | DhcpNoCookie | DhcpBadOpcode | DhcpCorruptOption | DhcpMissingType
    | OsMemoryError | SocketDisconnected | MqttBadPacket | MqttConRefused

  const STATUS_COUNT: nat := 20

  function Code(s: Status): (c: nat)
    ensures c < STATUS_COUNT
    ensures (c == 0) == (s == Ok)
  {
    match s
    case Ok => 0
    case SpiError => 1
    case SpiBusy => 2
    case SpiTimeout => 3
    case RdError => 4
    case LinkError => 5
    case TxOverflow => 6
    case RxOverflow => 7
    case StatusTimeout => 8
    case ConTimeout => 9
    case SendTimeout => 10
    case RecvTimeout => 11
    case DhcpNoCookie => 12
    case DhcpBadOpcode => 13
    case DhcpCorruptOption => 14
    case DhcpMissingType => 15
    case OsMemoryError => 16
    case SocketDisconnected => 17
    case MqttBadPacket => 18
    case MqttConRefused => 19
  }

  /** The enumerator a numeric code names, if any. */
  function FromCode(c: nat): (r: Option<Status>)
    ensures r.Some? <==> c < STATUS_COUNT
    ensures r.Some? ==> Code(r.value) == c
  {
    if c == 0 then Some(Ok) else if c == 1 then Some(SpiError)
    else if c == 2 then Some(SpiBusy) else if c == 3 then Some(SpiTimeout)
    else if c == 4 then Some(RdError) else if c == 5 then Some(LinkError)
    else if c == 6 then Some(TxOverflow) else if c == 7 then Some(RxOverflow)
    else if c == 8 then Some(StatusTimeout) else if c == 9 then Some(ConTimeout)
    else if c == 10 then Some(SendTimeout) else if c == 11 then Some(RecvTimeout)
    else if c == 12 then Some(DhcpNoCookie) else if c == 13 then Some(DhcpBadOpcode)
    else if c == 14 then Some(DhcpCorruptOption) else if c == 15 then Some(DhcpMissingType)
    else if c == 16 then Some(OsMemoryError) else if c == 17 then Some(SocketDisconnected)
    else if c == 18 then Some(MqttBadPacket) else if c == 19 then Some(MqttConRefused)
    else None
  }

  datatype Option<T> = None | Some(value: T)

  /** The twenty codes are distinct: decoding a status's code gives it back. */
  lemma CodeRoundTrip(s: Status)
    ensures FromCode(Code(s)) == Some(s)
  {
  }

  lemma CodeInjective(s: Status, t: Status)
    ensures Code(s) == Code(t) ==> s == t
  {
    CodeRoundTrip(s);
    CodeRoundTrip(t);
  }

  /** HAL_StatusTypeDef as returned by the SPI driver. */
  datatype Hal = HalOk | HalError | HalBusy | HalTimeout

  function HalCode(h: Hal): nat
  {
    match h
    case HalOk => 0
    case HalError => 1
    case HalBusy => 2
    case HalTimeout => 3
  }

  /** W5500_Transfer returns the HAL status cast to w5500_status_t. */
  function FromHal(h: Hal): (s: Status)
    ensures (s == Ok) == (h == HalOk)
    ensures s != Ok ==> IsSpiFault(s)
  {
    match h
    case HalOk => Ok
    case HalError => SpiError
    case HalBusy => SpiBusy
    case HalTimeout => SpiTimeout
  }

  /** The cast keeps the numeric value: HAL_ERROR, HAL_BUSY and HAL_TIMEOUT are 1, 2 and 3 in both enums. */
  lemma FromHalKeepsCode(h: Hal)
    ensures Code(FromHal(h)) == HalCode(h)
  {
  }

  predicate IsSpiFault(s: Status)
  {
    s == SpiError || s == SpiBusy || s == SpiTimeout
  }

  /** Any SPI fault status is the cast of a failing HAL result. */
  lemma SpiFaultIsCastHal(s: Status)
    requires IsSpiFault(s)
    ensures exists h :: h != HalOk && FromHal(h) == s
  {
    if s == SpiError {
      assert FromHal(HalError) == s;
    } else if s == SpiBusy {
      assert FromHal(HalBusy) == s;
    } else {
      assert FromHal(HalTimeout) == s;
    }
  }

  /** W5500_StatusString: the enumerator name without its prefix. */
  function StatusString(c: nat): (name: string)
    ensures c < STATUS_COUNT ==> StatusNamed(name) == FromCode(c)
    ensures name == "UNKNOWN" <==> c >= STATUS_COUNT
  {
    match FromCode(c)
    case None => "UNKNOWN"
    case Some(s) => NameReadsBack(s); Name(s)
  }

  /** Every status name reads back as its status, and none is "UNKNOWN". */
  lemma NameReadsBack(s: Status)
    ensures StatusNamed(Name(s)) == Some(s) && Name(s) != "UNKNOWN"
  {
    NamesReadBack0();
    NamesReadBack5();
    NamesReadBack10();
    NamesReadBack15();
  }

  lemma NamesReadBack0()
    ensures StatusNamed(Name(Ok)) == Some(Ok) && Name(Ok) != "UNKNOWN"
    ensures StatusNamed(Name(SpiError)) == Some(SpiError) && Name(SpiError) != "UNKNOWN"
    ensures StatusNamed(Name(SpiBusy)) == Some(SpiBusy) && Name(SpiBusy) != "UNKNOWN"
    ensures StatusNamed(Name(SpiTimeout)) == Some(SpiTimeout) && Name(SpiTimeout) != "UNKNOWN"
    ensures StatusNamed(Name(RdError)) == Some(RdError) && Name(RdError) != "UNKNOWN"
  {
  }

  lemma NamesReadBack5()
    ensures StatusNamed(Name(LinkError)) == Some(LinkError) && Name(LinkError) != "UNKNOWN"
    ensures StatusNamed(Name(TxOverflow)) == Some(TxOverflow) && Name(TxOverflow) != "UNKNOWN"
    ensures StatusNamed(Name(RxOverflow)) == Some(RxOverflow) && Name(RxOverflow) != "UNKNOWN"
    ensures StatusNamed(Name(StatusTimeout)) == Some(StatusTimeout) && Name(StatusTimeout) != "UNKNOWN"
    ensures StatusNamed(Name(ConTimeout)) == Some(ConTimeout) && Name(ConTimeout) != "UNKNOWN"
  {
  }

  lemma NamesReadBack10()
    ensures StatusNamed(Name(SendTimeout)) == Some(SendTimeout) && Name(SendTimeout) != "UNKNOWN"
    ensures StatusNamed(Name(RecvTimeout)) == Some(RecvTimeout) && Name(RecvTimeout) != "UNKNOWN"
    ensures StatusNamed(Name(DhcpNoCookie)) == Some(DhcpNoCookie) && Name(DhcpNoCookie) != "UNKNOWN"
    ensures StatusNamed(Name(DhcpBadOpcode)) == Some(DhcpBadOpcode) && Name(DhcpBadOpcode) != "UNKNOWN"
    ensures StatusNamed(Name(DhcpCorruptOption)) == Some(DhcpCorruptOption) && Name(DhcpCorruptOption) != "UNKNOWN"
  {
  }

  lemma NamesReadBack15()
    ensures StatusNamed(Name(DhcpMissingType)) == Some(DhcpMissingType) && Name(DhcpMissingType) != "UNKNOWN"
    ensures StatusNamed(Name(OsMemoryError)) == Some(OsMemoryError) && Name(OsMemoryError) != "UNKNOWN"
    ensures StatusNamed(Name(SocketDisconnected)) == Some(SocketDisconnected) && Name(SocketDisconnected) != "UNKNOWN"
    ensures StatusNamed(Name(MqttBadPacket)) == Some(MqttBadPacket) && Name(MqttBadPacket) != "UNKNOWN"
    ensures StatusNamed(Name(MqttConRefused)) == Some(MqttConRefused) && Name(MqttConRefused) != "UNKNOWN"
  {
  }

  function Name(s: Status): string
  {
    match s
    case Ok => "OK"
    case SpiError => "SPI_ERROR"
    case SpiBusy => "SPI_BUSY"
    case SpiTimeout => "SPI_TIMEOUT"
    case RdError => "RD_ERROR"
    case LinkError => "LINK_ERROR"
    case TxOverflow => "TX_OVERFLOW"
    case RxOverflow => "RX_OVERFLOW"
    case StatusTimeout => "STATUS_TIMEOUT"
    case ConTimeout => "CON_TIMEOUT"
    case SendTimeout => "SEND_TIMEOUT"
    case RecvTimeout => "RECV_TIMEOUT"
    case DhcpNoCookie => "DHCP_NO_COOKIE"
    case DhcpBadOpcode => "DHCP_BAD_OPCODE"
    case DhcpCorruptOption => "DHCP_CORRUPT_OPTION"
    case DhcpMissingType => "DHCP_MISSING_TYPE"
    case OsMemoryError => "OS_MEMORY_ERROR"
    case SocketDisconnected => "SOCKET_DISCONNECTED"
    case MqttBadPacket => "MQTT_BAD_PACKET"
    case MqttConRefused => "MQTT_CON_REFUSED"
  }

  /** Reads a name back; it inverts StatusString on the twenty codes. */
  function StatusNamed(name: string): Option<Status>
  {
    if name == "OK" then Some(Ok)
    else if name == "SPI_ERROR" then Some(SpiError)
    else if name == "SPI_BUSY" then Some(SpiBusy)
    else if name == "SPI_TIMEOUT" then Some(SpiTimeout)
    else if name == "RD_ERROR" then Some(RdError)
    else if name == "LINK_ERROR" then Some(LinkError)
    else if name == "TX_OVERFLOW" then Some(TxOverflow)
    else if name == "RX_OVERFLOW" then Some(RxOverflow)
    else if name == "STATUS_TIMEOUT" then Some(StatusTimeout)
    else if name == "CON_TIMEOUT" then Some(ConTimeout)
    else if name == "SEND_TIMEOUT" then Some(SendTimeout)
    else if name == "RECV_TIMEOUT" then Some(RecvTimeout)
    else if name == "DHCP_NO_COOKIE" then Some(DhcpNoCookie)
    else if name == "DHCP_BAD_OPCODE" then Some(DhcpBadOpcode)
    else if name == "DHCP_CORRUPT_OPTION" then Some(DhcpCorruptOption)
    else if name == "DHCP_MISSING_TYPE" then Some(DhcpMissingType)
    else if name == "OS_MEMORY_ERROR" then Some(OsMemoryError)
    else if name == "SOCKET_DISCONNECTED" then Some(SocketDisconnected)
    else if name == "MQTT_BAD_PACKET" then Some(MqttBadPacket)
    else if name == "MQTT_CON_REFUSED" then Some(MqttConRefused)
    else None
  }

  /** Distinct codes get distinct names. */
  lemma StatusStringInjective(a: nat, b: nat)
    requires a < STATUS_COUNT && b < STATUS_COUNT && a != b
    ensures StatusString(a) != StatusString(b)
  {
    assert StatusNamed(StatusString(a)) == FromCode(a);
    assert StatusNamed(StatusString(b)) == FromCode(b);
    CodeRoundTrip(FromCode(a).value);
  }

  // ---------------------------------------------------------------------
  // Socket interrupt register (Sn_IR) and the event-group bits

  /** Sn_IR fields, allocated from bit 0 upwards; bits 5..7 are reserved. */
  datatype IrBits = IrBits(con: bool, discon: bool, recv: bool, timeout: bool, sendok: bool)

  function B(b: bool): nat
  {
    if b then 1 else 0
  }

  /** The byte a w5500_sn_ir_t holds, with the reserved bits zero. */
  function IrByte(f: IrBits): (r: bv8)
    ensures r & 0xE0 == 0
    ensures (r & EVENT_CON != 0) == f.con && (r & EVENT_DISCON != 0) == f.discon
    ensures (r & EVENT_RECV != 0) == f.recv && (r & EVENT_TIMEOUT != 0) == f.timeout
    ensures (r & EVENT_SENDOK != 0) == f.sendok
  {
    (B(f.con) + 2 * B(f.discon) + 4 * B(f.recv) + 8 * B(f.timeout) + 16 * B(f.sendok)) as bv8
  }

  /** w5500_sn_event_t. */
  const EVENT_CON: bv8 := 1
  const EVENT_DISCON: bv8 := 2
  const EVENT_RECV: bv8 := 4
  const EVENT_TIMEOUT: bv8 := 8
  const EVENT_SENDOK: bv8 := 16

  /**
   * Each event bit is the Sn_IR byte with only the same-named field set,
   * so the raw Sn_IR byte can be forwarded to the event group unchanged.
   */
  lemma EventBitsAreIrBits()
    ensures IrByte(IrBits(true, false, false, false, false)) == EVENT_CON
    ensures IrByte(IrBits(false, true, false, false, false)) == EVENT_DISCON
    ensures IrByte(IrBits(false, false, true, false, false)) == EVENT_RECV
    ensures IrByte(IrBits(false, false, false, true, false)) == EVENT_TIMEOUT
    ensures IrByte(IrBits(false, false, false, false, true)) == EVENT_SENDOK
  {
  }

  /** The interrupt mask SocketOpen writes: all five events enabled. */
  const OPEN_IMR: bv8 := IrByte(IrBits(true, true, true, true, true))

  lemma OpenMaskValue()
    ensures OPEN_IMR == 0x1F
  {
  }

  // ---------------------------------------------------------------------
  // Socket mode register (Sn_MR)

  datatype Proto = ProtoClosed | ProtoTcp | ProtoUdp | ProtoMacraw

  function ProtoCode(p: Proto): nat
  {
    match p
    case ProtoClosed => 0
    case ProtoTcp => 1
    case ProtoUdp => 2
    case ProtoMacraw => 3
  }

  /** A w5500_sn_mr_t byte: proto in bits 0..3, then ucastb, nd, bcastb, multi. */
  function ModeByte(proto: nat, ucastb: bool, nd: bool, bcastb: bool, multi: bool): (m: u8)
    requires proto < 16
    ensures m % 16 == proto
    ensures (m / 16 % 2 == 1) == ucastb && (m / 32 % 2 == 1) == nd
    ensures (m / 64 % 2 == 1) == bcastb && (m / 128 == 1) == multi
  {
    var high := B(ucastb) + 2 * B(nd) + 4 * B(bcastb) + 8 * B(multi);
    var m := proto + 16 * high;
    DivModUnique(m, 16, high, proto);
    DivModUnique(high, 2, B(nd) + 2 * B(bcastb) + 4 * B(multi), B(ucastb));
    DivDiv(m, 16, 2);
    DivModUnique(m / 32, 2, B(bcastb) + 2 * B(multi), B(nd));
    DivDiv(m, 32, 2);
    DivModUnique(m / 64, 2, B(multi), B(bcastb));
    DivDiv(m, 64, 2);
    m
  }

  /** SocketOpen's mode byte (all other bits clear) is the protocol code itself. */
  lemma ModeByteIsProtocol(p: Proto)
    ensures ModeByte(ProtoCode(p), false, false, false, false) == ProtoCode(p)
  {
  }

  // ---------------------------------------------------------------------
  // Socket commands (Sn_CR) and statuses (Sn_SR)

  datatype Cmd = CmdOpen | CmdListen | CmdConnect | CmdDiscon | CmdClose
               | CmdSend | CmdSendMac | CmdSendKeep | CmdRecv

  /** Every command code is non-zero: Sn_CR reading 0 means "accepted". */
  function CmdCode(c: Cmd): (r: u8)
    ensures r != 0
  {
    match c
    case CmdOpen => 0x01
    case CmdListen => 0x02
    case CmdConnect => 0x04
    case CmdDiscon => 0x08
    case CmdClose => 0x10
    case CmdSend => 0x20
    case CmdSendMac => 0x21
    case CmdSendKeep => 0x22
    case CmdRecv => 0x40
  }

  const SR_CLOSED: u8 := 0x00
  const SR_INIT: u8 := 0x13
  const SR_LISTEN: u8 := 0x14
  const SR_SYNSENT: u8 := 0x15
  const SR_SYNRECV: u8 := 0x16
  const SR_ESTABLISHED: u8 := 0x17
  const SR_FIN_WAIT: u8 := 0x18
  const SR_CLOSING: u8 := 0x1A
  const SR_TIME_WAIT: u8 := 0x1B
  const SR_CLOSE_WAIT: u8 := 0x1C
  const SR_LAST_ACK: u8 := 0x1D
  const SR_UDP: u8 := 0x22
  const SR_MACRAW: u8 := 0x42

  /** The status SocketOpen waits for after OPEN; none for a CLOSED socket. */
  function OpenedStatus(p: Proto): (r: Option<u8>)
    ensures r.None? <==> p == ProtoClosed
    ensures r.Some? ==> r.value != SR_CLOSED
  {
    match p
    case ProtoClosed => None
    case ProtoTcp => Some(SR_INIT)
    case ProtoUdp => Some(SR_UDP)
    case ProtoMacraw => Some(SR_MACRAW)
  }

  /** The opened statuses are pairwise distinct. */
  lemma OpenedStatusInjective(p: Proto, q: Proto)
    requires p != ProtoClosed && q != ProtoClosed && p != q
    ensures OpenedStatus(p) != OpenedStatus(q)
  {
  }
}
