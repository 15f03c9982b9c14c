/**
 * The MQTT 3.1.1 packets of user/w5500/mqtt.h and the byte sequences
 * user/w5500/mqtt.c builds and checks: the fixed 14-byte CONNECT, the
 * 4-byte CONNACK and the 2-byte PUBLISH fixed header.
 *
 * The packed unions are read as the compiler lays them out on the
 * little-endian target: bit-fields are allocated from the least
 * significant bit, and a uint16_t field holds its low byte first, which
 * is why the source swaps the 16-bit fields before sending them.
 */
module MqttPacket {
  import opened BitOps
  import opened Constants
  import opened W5500Regs

  const MQTT_PROTO_LEN: u16 := 4
  const MQTT_PROTO_LEVEL: u8 := 4
  const MQTT_CONNECT_BUF_LEN: nat := 14
  const MQTT_CONNACK_BUF_LEN: nat := 4
  const MQTT_PUBLISH_BUF_LEN: nat := 2
  const MQTT_CONNECT_LEN: u8 := 12
  /** The two bytes of the topic length that precede the topic in a PUBLISH. */
  const TOPIC_LEN_BYTES: nat := 2
  /** The keep-alive interval MQTT_Connect asks for, in seconds. */
  const KEEP_ALIVE: u16 := 3600

  /** mqtt_ctrl_packet_type_t (MQTT 3.1.1 section 2.2.1). */
  const MQTT_CONNECT: nat := 1
  const MQTT_CONNACK: nat := 2
  const MQTT_PUBLISH: nat := 3
  const MQTT_PUBACK: nat := 4
  const MQTT_PUBREC: nat := 5
  const MQTT_PUBREL: nat := 6
  const MQTT_PUBCOMP: nat := 7
  const MQTT_SUBSCRIBE: nat := 8
  const MQTT_SUBACK: nat := 9
  const MQTT_UNSUBSCRIBE: nat := 10
  const MQTT_UNSUBACK: nat := 11
  const MQTT_PINGREQ: nat := 12
  const MQTT_PINGRESP: nat := 13
  const MQTT_DISCONNECT: nat := 14

  /** mqtt_connect_rc_t (MQTT 3.1.1 section 3.2.2.3). */
  const MQTT_CON_ACCEPT: u8 := 0
  const MQTT_CON_BAD_PROTO: u8 := 1
  const MQTT_CON_BAD_ID: u8 := 2
  const MQTT_CON_UNAVALIABLE: u8 := 3
  const MQTT_CON_BAD_CREDS: u8 := 4
  const MQTT_CON_NOT_AUTH: u8 := 5

  // ---------------------------------------------------------------------
  // Bit-field bytes

  function Bit(b: bool): nat
  {
    if b then 1 else 0
  }

  /**
   * Byte 0 of every packet: a 4-bit field below the 4-bit packet type, so
   * the type is the high nibble and the flags the low one.
   */
  function FirstByte(packetType: nat, flags: nat): (b: u8)
    requires packetType < 16 && flags < 16
    ensures b / 16 == packetType && b % 16 == flags
  {
    DivModUnique(flags + 16 * packetType, 16, packetType, flags);
    flags + 16 * packetType
  }

  /** The `flag` struct of the CONNECT variable header; its reserved bit is written 0. */
  datatype ConnectFlags = ConnectFlags(
    cleanSession: bool, willFlag: bool, willQos: nat, willRetain: bool, passwordFlag: bool, userName: bool)

  /** rsvd in bit 0, then cleanSession, willFlag, the two willQos bits, willRetain, passwordFlag, userName. */
  function PackConnectFlags(f: ConnectFlags): u8
    requires f.willQos < 4
  {
    2 * Bit(f.cleanSession) + 4 * Bit(f.willFlag) + 8 * f.willQos
    + 32 * Bit(f.willRetain) + 64 * Bit(f.passwordFlag) + 128 * Bit(f.userName)
  }

  /** How a server reads the connect flags byte (MQTT 3.1.1 section 3.1.2.3). */
  function UnpackConnectFlags(b: u8): ConnectFlags
  {
    ConnectFlags(b / 2 % 2 == 1, b / 4 % 2 == 1, b / 8 % 4, b / 32 % 2 == 1, b / 64 % 2 == 1, b / 128 % 2 == 1)
  }

  /** A field of `m` values stored above `k` values of lower fields reads back as `b / k % m`. */
  lemma FieldReadsBack(b: nat, k: nat, m: nat, low: nat, field: nat, high: nat)
    requires 0 < k && low < k && field < m && b == low + k * (field + m * high)
    ensures b / k % m == field
  {
    DivModUnique(b, k, field + m * high, low);
    DivModUnique(field + m * high, m, high, field);
  }

  /** The layout of the flag struct is the one the standard gives: every flag reads back, the reserved bit is 0. */
  lemma ConnectFlagsReadBack(f: ConnectFlags)
    requires f.willQos < 4
    ensures UnpackConnectFlags(PackConnectFlags(f)) == f
    ensures PackConnectFlags(f) % 2 == 0
  {
    var c, w, q, r, p, u := Bit(f.cleanSession), Bit(f.willFlag), f.willQos, Bit(f.willRetain), Bit(f.passwordFlag), Bit(f.userName);
    var b := PackConnectFlags(f);
    assert b == 2 * c + 4 * w + 8 * q + 32 * r + 64 * p + 128 * u;
    FlagFields(c, w, q, r, p, u);
    var g := UnpackConnectFlags(b);
    assert g.cleanSession == f.cleanSession && g.willFlag == f.willFlag && g.willQos == f.willQos;
    assert g.willRetain == f.willRetain && g.passwordFlag == f.passwordFlag && g.userName == f.userName;
  }

  /** The arithmetic of ConnectFlagsReadBack: each field of the byte is recovered by its shift and mask. */
  lemma FlagFields(c: nat, w: nat, q: nat, r: nat, p: nat, u: nat)
    requires c < 2 && w < 2 && q < 4 && r < 2 && p < 2 && u < 2
    ensures var b := 2 * c + 4 * w + 8 * q + 32 * r + 64 * p + 128 * u;
            b % 2 == 0 && b / 2 % 2 == c && b / 4 % 2 == w && b / 8 % 4 == q
            && b / 32 % 2 == r && b / 64 % 2 == p && b / 128 % 2 == u
  {
    var b := 2 * c + 4 * w + 8 * q + 32 * r + 64 * p + 128 * u;
    FieldReadsBack(b, 1, 2, 0, 0, c + 2 * w + 4 * q + 16 * r + 32 * p + 64 * u);
    FieldReadsBack(b, 2, 2, 0, c, w + 2 * q + 8 * r + 16 * p + 32 * u);
    FieldReadsBack(b, 4, 2, 2 * c, w, q + 4 * r + 8 * p + 16 * u);
    FieldReadsBack(b, 8, 4, 2 * c + 4 * w, q, r + 2 * p + 4 * u);
    FieldReadsBack(b, 32, 2, 2 * c + 4 * w + 8 * q, r, p + 2 * u);
    FieldReadsBack(b, 64, 2, 2 * c + 4 * w + 8 * q + 32 * r, p, u);
    FieldReadsBack(b, 128, 2, 2 * c + 4 * w + 8 * q + 32 * r + 64 * p, u, 0);
  }

  /** The low nibble of a PUBLISH byte 0: retain in bit 0, qos in bits 1-2, dup in bit 3. */
  function PublishFlags(retain: bool, qos: nat, dup: bool): (flags: nat)
    requires qos < 4
    ensures flags < 16
  {
    Bit(retain) + 2 * qos + 8 * Bit(dup)
  }

  /** The flags read back in the positions of MQTT 3.1.1 section 3.3.1. */
  lemma PublishFlagsReadBack(retain: bool, qos: nat, dup: bool)
    requires qos < 4
    ensures var f := PublishFlags(retain, qos, dup);
            (f % 2 == 1 <==> retain) && f / 2 % 4 == qos && (f / 8 == 1 <==> dup)
  {
    var f := PublishFlags(retain, qos, dup);
    DivModUnique(f, 2, qos + 4 * Bit(dup), Bit(retain));
    DivModUnique(qos + 4 * Bit(dup), 4, Bit(dup), qos);
    DivModUnique(f, 8, Bit(dup), Bit(retain) + 2 * qos);
  }

  // ---------------------------------------------------------------------
  // 16-bit fields

  /** The two bytes of a uint16_t field of a packed struct, low byte first. */
  function HostBytes(v: u16): (b: seq<u8>)
    ensures |b| == 2
  {
    [v % 0x100, v / 0x100]
  }

  /**
   * A 16-bit field as the source fills it: swapped with BYTE_SWAP_16, then
   * stored in host order (SwapThenStore says so).
   */
  function SwappedField(v: u16): (b: seq<u8>)
    ensures |b| == 2
  {
    [v / 0x100, v % 0x100]
  }

  /** Stored in host order, a field reads back little-endian; swapped first, it reads back big-endian. */
  lemma FieldsReadBack(v: u16)
    ensures Le16(HostBytes(v)[0], HostBytes(v)[1]) == v
    ensures Be16(SwappedField(v)[0], SwappedField(v)[1]) == v
  {
  }

  /** BYTE_SWAP_16 then a host-order store puts the field on the wire big-endian (MQTT 3.1.1 section 1.5.2). */
  lemma SwapThenStore(v: u16)
    ensures HostBytes(ByteSwap16(v)) == SwappedField(v)
  {
    DivModUnique(ByteSwap16(v), 0x100, v % 0x100, v / 0x100);
  }

  // ---------------------------------------------------------------------
  // CONNECT

  /** Only CleanSession, as MQTT_Connect sets the flags: no will, no user name, no password. */
  const CLEAN_ONLY: ConnectFlags := ConnectFlags(true, false, 0, false, false, false)

  /**
   * The mqtt_connect_t buffer in field order: fixed header, protocol name
   * length (swapped), "MQTT", level, flags, keep-alive and client id
   * length (both swapped).
   */
  function ConnectPacket(): (p: seq<u8>)
    ensures |p| == MQTT_CONNECT_BUF_LEN
  {
    [FirstByte(MQTT_CONNECT, 0), MQTT_CONNECT_LEN]
    + SwappedField(MQTT_PROTO_LEN)
    + ['M' as u8, 'Q' as u8, 'T' as u8, 'T' as u8]
    + [MQTT_PROTO_LEVEL, PackConnectFlags(CLEAN_ONLY)]
    + SwappedField(KEEP_ALIVE)
    + SwappedField(0)
  }

  /** The 14 bytes MQTT_Connect sends. */
  lemma ConnectBytes()
    ensures ConnectPacket() == [0x10, 0x0C, 0x00, 0x04, 0x4D, 0x51, 0x54, 0x54, 0x04, 0x02, 0x0E, 0x10, 0x00, 0x00]
  {
    assert Bit(true) == 1 && Bit(false) == 0;
    assert ['M' as u8, 'Q' as u8, 'T' as u8, 'T' as u8] == [0x4D, 0x51, 0x54, 0x54];
    assert [FirstByte(MQTT_CONNECT, 0), MQTT_CONNECT_LEN] == [0x10, 0x0C];
    assert [MQTT_PROTO_LEVEL, PackConnectFlags(CLEAN_ONLY)] == [0x04, 0x02];
    assert ConnectPacket() == [0x10, 0x0C] + [0x00, 0x04] + [0x4D, 0x51, 0x54, 0x54] + [0x04, 0x02] + [0x0E, 0x10] + [0x00, 0x00];
    ConnectFields();
  }

  lemma ConnectFields()
    ensures var q: seq<u8> := [0x10, 0x0C] + [0x00, 0x04] + [0x4D, 0x51, 0x54, 0x54] + [0x04, 0x02] + [0x0E, 0x10] + [0x00, 0x00];
            q == [0x10, 0x0C, 0x00, 0x04, 0x4D, 0x51, 0x54, 0x54, 0x04, 0x02, 0x0E, 0x10, 0x00, 0x00]
  {
  }

  /**
   * Read as MQTT 3.1.1 section 3.1 reads it, the packet is a CONNECT whose
   * remaining length counts the 12 bytes after the fixed header, naming
   * protocol "MQTT" level 4, with CleanSession only, a keep-alive of 3600
   * seconds and an empty client identifier.
   */
  lemma ConnectReadsBack()
    ensures ConnectRead(ConnectPacket())
  {
    ConnectBytes();
    ConnectBytesRead(ConnectPacket());
  }

  /** The fields of a CONNECT as a server reads them, against what MQTT_Connect intends to send. */
  predicate ConnectRead(p: seq<u8>)
    requires |p| == MQTT_CONNECT_BUF_LEN
  {
    p[0] / 16 == MQTT_CONNECT && p[0] % 16 == 0
    && p[1] as nat == |p| - 2
    && Be16(p[2], p[3]) == MQTT_PROTO_LEN && p[4..8] == ['M' as u8, 'Q' as u8, 'T' as u8, 'T' as u8]
    && p[8] == MQTT_PROTO_LEVEL && UnpackConnectFlags(p[9]) == CLEAN_ONLY
    && Be16(p[10], p[11]) == KEEP_ALIVE && Be16(p[12], p[13]) == 0
  }

  lemma ConnectBytesRead(p: seq<u8>)
    requires p == [0x10, 0x0C, 0x00, 0x04, 0x4D, 0x51, 0x54, 0x54, 0x04, 0x02, 0x0E, 0x10, 0x00, 0x00]
    ensures ConnectRead(p)
  {
    assert p[4..8] == [0x4D, 0x51, 0x54, 0x54];
  }

  // ---------------------------------------------------------------------
  // CONNACK

  /**
   * The checks of MQTT_Connect on the 4-byte connack buffer: packet type
   * and length byte, then the return code; the ack-flags byte is not read.
   */
  function ConnackVerdict(buf: seq<u8>): Status
    requires |buf| == MQTT_CONNACK_BUF_LEN
  {
    if buf[0] / 16 != MQTT_CONNACK || buf[1] != 2 then MqttBadPacket
    else if buf[3] != MQTT_CON_ACCEPT then MqttConRefused
    else Ok
  }

  /**
   * MQTT_Connect as written: the receive reports no count, so a short
   * CONNACK is checked over a buffer whose tail still holds whatever the
   * stack held before (`stale`).
   */
  function ConnackAsWritten(stale: seq<u8>, data: seq<u8>): Status
    requires |stale| == MQTT_CONNACK_BUF_LEN && |data| <= MQTT_CONNACK_BUF_LEN
  {
    ConnackVerdict(data + stale[|data|..])
  }

  /** Two bytes of a CONNACK, checked over stale zeros, pass as an accepted connection. */
  lemma ShortConnackAccepted()
    ensures ConnackAsWritten([0, 0, 0, 0], [0x20, 0x02]) == Ok
    ensures Connack([0x20, 0x02]) == MqttBadPacket
  {
  }

  /** The CONNACK check with the received length taken into account. */
  function Connack(data: seq<u8>): (rc: Status)
    ensures rc == Ok || rc == MqttBadPacket || rc == MqttConRefused
  {
    if |data| != MQTT_CONNACK_BUF_LEN then MqttBadPacket else ConnackVerdict(data)
  }

  /**
   * The corrected check accepts exactly a complete CONNACK with remaining
   * length 2 and return code 0, refuses a complete one with another
   * return code, and agrees with the source whenever all four bytes arrived.
   */
  lemma ConnackChecks(data: seq<u8>, stale: seq<u8>)
    requires |stale| == MQTT_CONNACK_BUF_LEN
    ensures Connack(data) == Ok <==>
              |data| == MQTT_CONNACK_BUF_LEN && data[0] / 16 == MQTT_CONNACK && data[1] == 2 && data[3] == MQTT_CON_ACCEPT
    ensures Connack(data) == MqttConRefused <==>
              |data| == MQTT_CONNACK_BUF_LEN && data[0] / 16 == MQTT_CONNACK && data[1] == 2 && data[3] != MQTT_CON_ACCEPT
    ensures |data| == MQTT_CONNACK_BUF_LEN ==> ConnackAsWritten(stale, data) == Connack(data)
  {
    if |data| == MQTT_CONNACK_BUF_LEN {
      assert data + stale[|data|..] == data;
    }
  }

  /** The acknowledge-flags byte plays no part. */
  lemma AckFlagsIgnored(data: seq<u8>, flags: u8)
    requires |data| == MQTT_CONNACK_BUF_LEN
    ensures Connack(data[2 := flags]) == Connack(data)
  {
  }

  // ---------------------------------------------------------------------
  // PUBLISH

  /**
   * mqtt_publish_t: byte 0 with type PUBLISH, QoS 0 and neither retain nor
   * dup; the length field is a uint8_t, so the remaining length is stored
   * modulo 256.
   */
  function PublishHeader(remaining: nat): (h: seq<u8>)
    ensures |h| == MQTT_PUBLISH_BUF_LEN
  {
    [FirstByte(MQTT_PUBLISH, PublishFlags(false, 0, false)), (remaining % 0x100) as u8]
  }

  /** The bytes MQTT_Publish writes, part after part: header, topic length (swapped), topic, payload. */
  function PublishPacket(topic: seq<u8>, payload: seq<u8>): (p: seq<u8>)
    requires |topic| < 0x1_0000
    ensures |p| == MQTT_PUBLISH_BUF_LEN + TOPIC_LEN_BYTES + |topic| + |payload|
  {
    PublishHeader(|topic| + |payload| + TOPIC_LEN_BYTES) + SwappedField(|topic|) + topic + payload
  }

  /**
   * When the remaining length fits the single byte MQTT 3.1.1 section
   * 2.2.3 encodes in one (at most 127), the packet is a well-formed QoS 0
   * PUBLISH: 0x30, a length byte that counts everything after it, the
   * topic length big-endian, the topic, then the payload.
   */
  lemma PublishLayout(topic: seq<u8>, payload: seq<u8>)
    requires |topic| + |payload| + TOPIC_LEN_BYTES <= 127
    ensures var p := PublishPacket(topic, payload);
            p[0] == 0x30 && p[0] / 16 == MQTT_PUBLISH && p[0] % 16 == 0
            && p[1] < 0x80 && p[1] as nat == |p| - MQTT_PUBLISH_BUF_LEN
            && Be16(p[2], p[3]) == |topic|
            && p[4..4 + |topic|] == topic && p[4 + |topic|..] == payload
  {
    var h := PublishHeader(|topic| + |payload| + TOPIC_LEN_BYTES);
    var f := SwappedField(|topic|);
    PublishHeaderBytes(|topic| + |payload| + TOPIC_LEN_BYTES);
    FieldsReadBack(|topic|);
    PacketParts(h, f, topic, payload);
  }

  /** A remaining length below 128 leaves the header as 0x30 and the length itself. */
  lemma PublishHeaderBytes(remaining: nat)
    requires remaining < 0x80
    ensures PublishHeader(remaining) == [0x30, remaining as u8]
  {
    assert PublishFlags(false, 0, false) == 0;
  }

  /** Where the four parts of a packet with a 2-byte header and a 2-byte field sit. */
  lemma PacketParts(h: seq<u8>, f: seq<u8>, t: seq<u8>, q: seq<u8>)
    requires |h| == 2 && |f| == 2
    ensures var p := h + f + t + q;
            p[0] == h[0] && p[1] == h[1] && p[2] == f[0] && p[3] == f[1]
            && p[4..4 + |t|] == t && p[4 + |t|..] == q
  {
    var p := h + f + t + q;
    assert p[4..] == t + q;
  }
}
