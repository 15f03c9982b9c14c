/**
 * The DHCP message as the client builds and reads it (user/w5500/dhcp.h and
 * the pure parts of user/w5500/dhcp.c): the packed 548-byte layout of
 * RFC 2131 section 2, the DISCOVER and REQUEST option lists, the option
 * scan, the reply checks, and the lease arithmetic.
 *
 * Options live in the 312-byte `opt` area; indices below are into that area
 * unless they say otherwise, and index 0..3 hold the magic cookie.
 */
module DhcpMessage {
  import opened BitOps
  import opened Constants
  import opened W5500Regs

  const DHCP_SOURCE_PORT: u16 := 68
  const DHCP_DESTINATION_PORT: u16 := 67
  const DHCP_CHADDR_SIZE: nat := 16
  const DHCP_SNAME_SIZE: nat := 64
  const DHCP_FILE_SIZE: nat := 128
  const DHCP_OPT_SIZE: nat := 312
  const DHCP_MSG_SIZE: nat := 548
  /** The bytes past the option area an unbounded read of option 53 can reach. */
  const PAST_SIZE: nat := 2

  const MAGIC_COOKIE_SIZE: nat := 4
  const MAGIC_COOKIE: seq<u8> := [0x63, 0x82, 0x53, 0x63]

  /** dhcp_op_t and dhcp_htype_t */
  const BOOTREQUEST: u8 := 1
  const BOOTREPLY: u8 := 2
  const HTYPE10MB: u8 := 1
  const HTYPE100MB: u8 := 2

  /** dhcp_msg_type_t, the values of option 53 (RFC 2132 section 9.6). */
  const DISCOVER: u8 := 1
  const OFFER: u8 := 2
  const REQUEST: u8 := 3
  const DECLINE: u8 := 4
  const ACK: u8 := 5
  const NAK: u8 := 6
  const RELEASE: u8 := 7
  const INFORM: u8 := 8

  /** dhcp_option_t (RFC 2132). */
  const OPT_PAD: u8 := 0
  const OPT_SUBNET_MASK: u8 := 1
  const OPT_TIME_OFFSET: u8 := 2
  const OPT_ROUTER: u8 := 3
  const OPT_TIME_SERVER: u8 := 4
  const OPT_NAME_SERVER: u8 := 5
  const OPT_DNS: u8 := 6
  const OPT_HOSTNAME: u8 := 12
  const OPT_REQUESTED_IP: u8 := 50
  const OPT_LEASE_TIME: u8 := 51
  const OPT_MESSAGE_TYPE: u8 := 53
  const OPT_SERVER_ID: u8 := 54
  const OPT_PARAMETER_REQUEST: u8 := 55
  const OPT_RENEWAL_TIME: u8 := 58
  const OPT_REBINDING_TIME: u8 := 59
  const OPT_CLIENT_ID: u8 := 61
  const OPT_END: u8 := 255

  /** dhcp_state_t; only INIT, SELECTING, REQUESTING, BOUND and RENEWING are ever entered. */
  const INIT: nat := 0
  const SELECTING: nat := 1
  const REQUESTING: nat := 2
  const INITREBOOT: nat := 3
  const REBOOTING: nat := 4
  const BOUND: nat := 5
  const RENEWING: nat := 6
  const REBINDING: nat := 7

  /** Ticks the client waits: after a failed INIT, and for socket operations. */
  const INIT_FAIL_TIMEOUT: u32 := 3000
  const SOCKET_TIMEOUT: u32 := 100
  const SEND_TIMEOUT: u32 := 100
  const RECV_TIMEOUT: u32 := 100

  // ---------------------------------------------------------------------
  // Layout

  /** The members of the packed `field` struct, in declaration order. */
  datatype Field =
    | Op | Htype | Hlen | Hops | Xid | Secs | Flags
    | Ciaddr | Yiaddr | Siaddr | Giaddr | Chaddr | Sname | File | Options

  const FIELDS: seq<Field> :=
    [Op, Htype, Hlen, Hops, Xid, Secs, Flags, Ciaddr, Yiaddr, Siaddr, Giaddr, Chaddr, Sname, File, Options]

  function Size(f: Field): nat
  {
    match f
    case Op => 1
    case Htype => 1
    case Hlen => 1
    case Hops => 1
    case Xid => 4
    case Secs => 2
    case Flags => 2
    case Ciaddr => IPV4_BYTES
    case Yiaddr => IPV4_BYTES
    case Siaddr => IPV4_BYTES
    case Giaddr => IPV4_BYTES
    case Chaddr => DHCP_CHADDR_SIZE
    case Sname => DHCP_SNAME_SIZE
    case File => DHCP_FILE_SIZE
    case Options => DHCP_OPT_SIZE
  }

  /** Sum of the sizes of a run of fields. */
  function Span(fs: seq<Field>): nat
  {
    if |fs| == 0 then 0 else Size(fs[0]) + Span(fs[1..])
  }

  /** A packed struct places each member right after the one before it. */
  function Offset(f: Field): nat
  {
    Span(FIELDS[..Rank(f)])
  }

  const CIADDR_AT: nat := 12
  const YIADDR_AT: nat := 16
  const CHADDR_AT: nat := 28
  const SNAME_AT: nat := 44
  const OPT_AT: nat := 236

  lemma SpanPrefix(k: nat)
    requires k < |FIELDS|
    ensures Span(FIELDS[..k + 1]) == Span(FIELDS[..k]) + Size(FIELDS[k])
  {
    SpanAppend(FIELDS[..k], [FIELDS[k]]);
    assert FIELDS[..k] + [FIELDS[k]] == FIELDS[..k + 1];
  }

  lemma {:induction false} SpanAppend(a: seq<Field>, b: seq<Field>)
    ensures Span(a + b) == Span(a) + Span(b)
  {
    if |a| == 0 {
      assert a + b == b;
    } else {
      assert (a + b)[1..] == a[1..] + b;
      SpanAppend(a[1..], b);
    }
  }

  /**
   * The packed layout puts every field at the offset RFC 2131 section 2
   * gives it, the fixed header is 236 bytes and the whole message 548.
   */
  lemma LayoutMatchesRfc()
    ensures Offset(Op) == 0 && Offset(Htype) == 1 && Offset(Hlen) == 2 && Offset(Hops) == 3
    ensures Offset(Xid) == 4 && Offset(Secs) == 8 && Offset(Flags) == 10
    ensures Offset(Ciaddr) == CIADDR_AT && Offset(Yiaddr) == YIADDR_AT
    ensures Offset(Siaddr) == 20 && Offset(Giaddr) == 24
    ensures Offset(Chaddr) == CHADDR_AT && Offset(Sname) == SNAME_AT && Offset(File) == 108
    ensures Offset(Options) == OPT_AT && OPT_AT + Size(Options) == DHCP_MSG_SIZE
  {
    assert FIELDS[..0] == [];
    SpanPrefix(0);
    assert Span(FIELDS[..1]) == 1;
    SpanPrefix(1);
    assert Span(FIELDS[..2]) == 2;
    SpanPrefix(2);
    assert Span(FIELDS[..3]) == 3;
    SpanPrefix(3);
    assert Span(FIELDS[..4]) == 4;
    SpanPrefix(4);
    assert Span(FIELDS[..5]) == 8;
    SpanPrefix(5);
    assert Span(FIELDS[..6]) == 10;
    SpanPrefix(6);
    assert Span(FIELDS[..7]) == 12;
    SpanPrefix(7);
    assert Span(FIELDS[..8]) == 16;
    SpanPrefix(8);
    assert Span(FIELDS[..9]) == 20;
    SpanPrefix(9);
    assert Span(FIELDS[..10]) == 24;
    SpanPrefix(10);
    assert Span(FIELDS[..11]) == 28;
    SpanPrefix(11);
    assert Span(FIELDS[..12]) == 44;
    SpanPrefix(12);
    assert Span(FIELDS[..13]) == 108;
    SpanPrefix(13);
    assert Span(FIELDS[..14]) == 236;
    SpanPrefix(14);
    assert Span(FIELDS[..15]) == 548;
  }

  /** The position of a field in FIELDS. */
  function Rank(f: Field): (i: nat)
    ensures i < |FIELDS| && FIELDS[i] == f
  {
    match f
    case Op => 0
    case Htype => 1
    case Hlen => 2
    case Hops => 3
    case Xid => 4
    case Secs => 5
    case Flags => 6
    case Ciaddr => 7
    case Yiaddr => 8
    case Siaddr => 9
    case Giaddr => 10
    case Chaddr => 11
    case Sname => 12
    case File => 13
    case Options => 14
  }

  // ---------------------------------------------------------------------
  // DHCP_PrepareMessage

  const XID: u32 := 1428032432

  /** The message `PrepareMessage` leaves, byte by byte. */
  function PreparedByte(prev: seq<u8>, mac: seq<u8>, i: nat): u8
    requires |prev| == DHCP_MSG_SIZE && |mac| == MAC_BYTES && i < DHCP_MSG_SIZE
  {
    if i == 0 then BOOTREQUEST
    else if i == 1 then HTYPE10MB
    else if i == 2 then MAC_BYTES
    else if i == 3 then 0                                // hops
    else if i < 8 then XidByte(i - 4)                    // host byte order
    else if i < CHADDR_AT then 0                         // secs, flags, ciaddr .. giaddr
    else if i < CHADDR_AT + MAC_BYTES then mac[i - CHADDR_AT]
    else if i < SNAME_AT then prev[i]                    // chaddr[6..15] is not reset
    else if i < OPT_AT then 0                            // sname, file
    else if i < OPT_AT + MAGIC_COOKIE_SIZE then MAGIC_COOKIE[i - OPT_AT]
    else 0
  }

  /** The bytes of the xid field as a little-endian host stores 1428032432. */
  function XidByte(k: nat): u8
    requires k < 4
  {
    [0xB0, 0x0B, 0x1E, 0x55][k]
  }

  function Prepared(prev: seq<u8>, mac: seq<u8>): (m: seq<u8>)
    requires |prev| == DHCP_MSG_SIZE && |mac| == MAC_BYTES
    ensures |m| == DHCP_MSG_SIZE
  {
    seq(DHCP_MSG_SIZE, (i: int) requires 0 <= i < DHCP_MSG_SIZE => PreparedByte(prev, mac, i))
  }

  /** The option area of a message. */
  function Opt(m: seq<u8>): (opt: seq<u8>)
    requires |m| == DHCP_MSG_SIZE
    ensures |opt| == DHCP_OPT_SIZE
  {
    m[OPT_AT..]
  }

  /**
   * A prepared message is a BOOTREQUEST for a 6-byte 10 Mb Ethernet address,
   * with xid 1428032432 in host order, the MAC at the front of chaddr, the
   * rest of chaddr as it was, and an option area holding only the cookie.
   */
  lemma PreparedFields(prev: seq<u8>, mac: seq<u8>)
    requires |prev| == DHCP_MSG_SIZE && |mac| == MAC_BYTES
    ensures var m := Prepared(prev, mac);
            m[0] == BOOTREQUEST && m[1] == HTYPE10MB && m[2] == MAC_BYTES as u8 && m[3] == 0
            && Le32(m[4], m[5], m[6], m[7]) == XID
            && m[8..CHADDR_AT] == seq(CHADDR_AT - 8, _ => 0)
            && m[CHADDR_AT..CHADDR_AT + MAC_BYTES] == mac
            && m[CHADDR_AT + MAC_BYTES..SNAME_AT] == prev[CHADDR_AT + MAC_BYTES..SNAME_AT]
            && m[SNAME_AT..OPT_AT] == seq(OPT_AT - SNAME_AT, _ => 0)
            && Opt(m)[..MAGIC_COOKIE_SIZE] == MAGIC_COOKIE
            && Opt(m)[MAGIC_COOKIE_SIZE..] == seq(DHCP_OPT_SIZE - MAGIC_COOKIE_SIZE, _ => 0)
  {
  }

  // ---------------------------------------------------------------------
  // DISCOVER and REQUEST options

  /** Options 53 (DISCOVER), 61 (type 1 + MAC), 12 (host name), END. */
  function DiscoverOptions(mac: seq<u8>, host: seq<u8>): (o: seq<u8>)
    requires |mac| == MAC_BYTES && |host| < 0x100
    ensures |o| == 15 + |host|
  {
    [OPT_MESSAGE_TYPE, 1, DISCOVER]
    + [OPT_CLIENT_ID, 7, HTYPE10MB] + mac
    + [OPT_HOSTNAME, |host| as u8] + host
    + [OPT_END]
  }

  /** As DISCOVER with type REQUEST, plus the parameter list 55 and the requested IP 50. */
  function RequestOptions(mac: seq<u8>, host: seq<u8>, ip: seq<u8>): (o: seq<u8>)
    requires |mac| == MAC_BYTES && |host| < 0x100 && |ip| == IPV4_BYTES
    ensures |o| == 28 + |host|
  {
    [OPT_MESSAGE_TYPE, 1, REQUEST]
    + [OPT_CLIENT_ID, 7, HTYPE10MB] + mac
    + [OPT_HOSTNAME, |host| as u8] + host
    + [OPT_PARAMETER_REQUEST, 5, OPT_SUBNET_MASK, OPT_ROUTER, OPT_DNS, OPT_RENEWAL_TIME, OPT_REBINDING_TIME]
    + [OPT_REQUESTED_IP, 4] + ip
    + [OPT_END]
  }

  /** A prepared message with `options` written right after the cookie. */
  function WithOptions(m: seq<u8>, options: seq<u8>): (r: seq<u8>)
    requires |m| == DHCP_MSG_SIZE && |options| <= DHCP_OPT_SIZE - MAGIC_COOKIE_SIZE
    ensures |r| == DHCP_MSG_SIZE
  {
    var at := OPT_AT + MAGIC_COOKIE_SIZE;
    m[..at] + options + m[at + |options|..]
  }

  /** The option area of a built message: cookie, the options, then zeros. */
  lemma BuiltArea(prev: seq<u8>, mac: seq<u8>, options: seq<u8>)
    requires |prev| == DHCP_MSG_SIZE && |mac| == MAC_BYTES
    requires |options| <= DHCP_OPT_SIZE - MAGIC_COOKIE_SIZE
    ensures Opt(WithOptions(Prepared(prev, mac), options))
            == MAGIC_COOKIE + options + seq(DHCP_OPT_SIZE - MAGIC_COOKIE_SIZE - |options|, _ => 0)
  {
    var m := WithOptions(Prepared(prev, mac), options);
    var z := seq(DHCP_OPT_SIZE - MAGIC_COOKIE_SIZE - |options|, _ => 0);
    assert forall k | 0 <= k < DHCP_OPT_SIZE :: Opt(m)[k] == (MAGIC_COOKIE + options + z)[k];
  }

  // ---------------------------------------------------------------------
  // GetOptionPointer

  /** How the option scan of the source ends. */
  datatype ScanResult =
    | Found(at: nat)   // the index just past the matching code: its length byte
    | Missing          // END, or the scan ran off the area
    | Overrun          // the scan read opt[312], one past the area

  /**
   * GetOptionPointer as written, from index `ptr`: PAD is skipped, END
   * stops the scan, a match returns the index after the code, and any other
   * option is skipped by its length byte.
   */
  function Scan(opt: seq<u8>, ptr: nat, code: u8): ScanResult
    requires |opt| == DHCP_OPT_SIZE
    decreases DHCP_OPT_SIZE - ptr
  {
    if ptr >= DHCP_OPT_SIZE then Missing
    else if opt[ptr] == OPT_PAD then Scan(opt, ptr + 1, code)
    else if opt[ptr] == OPT_END then Missing
    else if opt[ptr] == code then Found(ptr + 1)
    else if ptr + 1 >= DHCP_OPT_SIZE then Overrun
    else Scan(opt, ptr + 2 + opt[ptr + 1], code)
  }

  /** The option codes a scan from `ptr` steps on, in order (PAD bytes excluded). */
  function Walk(opt: seq<u8>, ptr: nat): seq<nat>
    requires |opt| == DHCP_OPT_SIZE
    decreases DHCP_OPT_SIZE - ptr
  {
    if ptr >= DHCP_OPT_SIZE then []
    else if opt[ptr] == OPT_PAD then Walk(opt, ptr + 1)
    else if opt[ptr] == OPT_END then []
    else if ptr + 1 >= DHCP_OPT_SIZE then [ptr]
    else [ptr] + Walk(opt, ptr + 2 + opt[ptr + 1])
  }

  /** The first position in `ws` whose byte is `code`. */
  function FirstMatch(opt: seq<u8>, ws: seq<nat>, code: u8): Option<nat>
  {
    if |ws| == 0 then None
    else if ws[0] < |opt| && opt[ws[0]] == code then Some(ws[0])
    else FirstMatch(opt, ws[1..], code)
  }

  /**
   * The scan returns the first occurrence: it finds `code` exactly when
   * some option it steps on carries that code, and then it returns the
   * position after the first such option.
   */
  lemma {:induction false} ScanFindsFirst(opt: seq<u8>, ptr: nat, code: u8)
    requires |opt| == DHCP_OPT_SIZE && code != OPT_PAD && code != OPT_END
    ensures Scan(opt, ptr, code).Found? <==> FirstMatch(opt, Walk(opt, ptr), code).Some?
    ensures Scan(opt, ptr, code).Found? ==>
              Scan(opt, ptr, code).at == FirstMatch(opt, Walk(opt, ptr), code).value + 1
    decreases DHCP_OPT_SIZE - ptr
  {
    if ptr >= DHCP_OPT_SIZE {
      assert Scan(opt, ptr, code) == Missing && Walk(opt, ptr) == [];
    } else if opt[ptr] == OPT_PAD {
      ScanFindsFirst(opt, ptr + 1, code);
      assert Scan(opt, ptr, code) == Scan(opt, ptr + 1, code) && Walk(opt, ptr) == Walk(opt, ptr + 1);
    } else if opt[ptr] == OPT_END {
      assert Scan(opt, ptr, code) == Missing && Walk(opt, ptr) == [];
    } else if opt[ptr] == code {
      assert Scan(opt, ptr, code) == Found(ptr + 1);
      assert Walk(opt, ptr)[0] == ptr;
    } else if ptr + 1 >= DHCP_OPT_SIZE {
      assert Scan(opt, ptr, code) == Overrun && Walk(opt, ptr) == [ptr];
      FirstMatchCons(opt, ptr, [], code);
    } else {
      var next := ptr + 2 + opt[ptr + 1];
      ScanFindsFirst(opt, next, code);
      assert Scan(opt, ptr, code) == Scan(opt, next, code);
      assert Walk(opt, ptr) == [ptr] + Walk(opt, next);
      FirstMatchCons(opt, ptr, Walk(opt, next), code);
    }
  }

  /** An option that does not carry the code is passed over. */
  lemma FirstMatchCons(opt: seq<u8>, p: nat, ws: seq<nat>, code: u8)
    requires p < |opt| && opt[p] != code
    ensures FirstMatch(opt, [p] + ws, code) == FirstMatch(opt, ws, code)
  {
    assert ([p] + ws)[1..] == ws;
  }

  /** A found option's code sits right before the returned index. */
  lemma {:induction false} ScanFoundCode(opt: seq<u8>, ptr: nat, code: u8)
    requires |opt| == DHCP_OPT_SIZE
    ensures Scan(opt, ptr, code).Found? ==>
              ptr < Scan(opt, ptr, code).at <= DHCP_OPT_SIZE && opt[Scan(opt, ptr, code).at - 1] == code
    decreases DHCP_OPT_SIZE - ptr
  {
    if ptr < DHCP_OPT_SIZE {
      if opt[ptr] == OPT_PAD {
        ScanFoundCode(opt, ptr + 1, code);
      } else if opt[ptr] != OPT_END && opt[ptr] != code && ptr + 1 < DHCP_OPT_SIZE {
        ScanFoundCode(opt, ptr + 2 + opt[ptr + 1], code);
      }
    }
  }

  /** An area of zeros (all PAD) holds no option. */
  lemma {:induction false} ScanPads(opt: seq<u8>, ptr: nat, code: u8)
    requires |opt| == DHCP_OPT_SIZE
    requires forall k | ptr <= k < DHCP_OPT_SIZE :: opt[k] == OPT_PAD
    ensures Scan(opt, ptr, code) == Missing
    decreases DHCP_OPT_SIZE - ptr
  {
    if ptr < DHCP_OPT_SIZE {
      ScanPads(opt, ptr + 1, code);
    }
  }

  /**
   * As written, the scan can step outside the area: an unknown option code
   * in the last byte makes it read opt[312] as a length, and a match in the
   * last byte returns 312, which its callers then read as the length.
   */
  lemma ScanLeavesArea()
    ensures var opt := MAGIC_COOKIE + seq(DHCP_OPT_SIZE - MAGIC_COOKIE_SIZE - 1, _ => OPT_PAD) + [OPT_HOSTNAME];
            Scan(opt, MAGIC_COOKIE_SIZE, OPT_MESSAGE_TYPE) == Overrun
            && Scan(opt, MAGIC_COOKIE_SIZE, OPT_HOSTNAME) == Found(DHCP_OPT_SIZE)
  {
    var opt := MAGIC_COOKIE + seq(DHCP_OPT_SIZE - MAGIC_COOKIE_SIZE - 1, _ => OPT_PAD) + [OPT_HOSTNAME];
    PadsThenLast(opt, MAGIC_COOKIE_SIZE, OPT_MESSAGE_TYPE);
    PadsThenLast(opt, MAGIC_COOKIE_SIZE, OPT_HOSTNAME);
  }

  lemma {:induction false} PadsThenLast(opt: seq<u8>, ptr: nat, code: u8)
    requires |opt| == DHCP_OPT_SIZE && ptr < DHCP_OPT_SIZE
    requires forall k | ptr <= k < DHCP_OPT_SIZE - 1 :: opt[k] == OPT_PAD
    ensures Scan(opt, ptr, code) == Scan(opt, DHCP_OPT_SIZE - 1, code)
    decreases DHCP_OPT_SIZE - ptr
  {
    if ptr < DHCP_OPT_SIZE - 1 {
      PadsThenLast(opt, ptr + 1, code);
    }
  }

  /**
   * The index GetOptionPointer returns, with the scan kept inside the area:
   * an option counts as present only when its length byte is in the area
   * (0 means absent, as in the source).
   */
  function OptionIndex(opt: seq<u8>, code: u8): (r: nat)
    requires |opt| == DHCP_OPT_SIZE
    ensures r != 0 ==> MAGIC_COOKIE_SIZE < r < DHCP_OPT_SIZE && opt[r - 1] == code
  {
    ScanFoundCode(opt, MAGIC_COOKIE_SIZE, code);
    match Scan(opt, MAGIC_COOKIE_SIZE, code)
    case Found(i) => if i < DHCP_OPT_SIZE then i else 0
    case Missing => 0
    case Overrun => 0
  }

  /**
   * GetOptionPointer as written: the index just past the first matching
   * code, which is 312 for a match in the last byte of the area. The scan
   * that ends off the area returns 0, whatever byte it read there.
   */
  function OptionPointer(opt: seq<u8>, code: u8): (r: nat)
    requires |opt| == DHCP_OPT_SIZE
    ensures r != 0 ==> MAGIC_COOKIE_SIZE < r <= DHCP_OPT_SIZE && opt[r - 1] == code
    ensures OptionIndex(opt, code) == if r < DHCP_OPT_SIZE then r else 0
  {
    ScanFoundCode(opt, MAGIC_COOKIE_SIZE, code);
    match Scan(opt, MAGIC_COOKIE_SIZE, code)
    case Found(i) => i
    case Missing => 0
    case Overrun => 0
  }

  /**
   * The value bytes of the option at `i` (its length byte), if the length
   * is `n` and all of them lie inside the area.
   */
  function OptionValue(opt: seq<u8>, i: nat, n: nat): Option<seq<u8>>
    requires |opt| == DHCP_OPT_SIZE
  {
    if 0 < i && i + n < DHCP_OPT_SIZE then Some(opt[i + 1..i + 1 + n]) else None
  }

  // ---------------------------------------------------------------------
  // The options the client builds read back

  /** Reading a DISCOVER back finds its type, its client id and its host name. */
  lemma DiscoverReadsBack(prev: seq<u8>, mac: seq<u8>, host: seq<u8>)
    requires |prev| == DHCP_MSG_SIZE && |mac| == MAC_BYTES && |host| < 0x100
    ensures var opt := Opt(WithOptions(Prepared(prev, mac), DiscoverOptions(mac, host)));
            OptionIndex(opt, OPT_MESSAGE_TYPE) == 5 && opt[5] == 1 && opt[6] == DISCOVER
            && OptionIndex(opt, OPT_CLIENT_ID) == 8 && opt[8] == 7 && opt[9] == HTYPE10MB && opt[10..16] == mac
            && OptionIndex(opt, OPT_HOSTNAME) == 17 && opt[17] == |host| && opt[18..18 + |host|] == host
            && opt[18 + |host|] == OPT_END
  {
    var o := DiscoverOptions(mac, host);
    BuiltArea(prev, mac, o);
    var opt := Opt(WithOptions(Prepared(prev, mac), o));
    assert opt[4..4 + |o|] == o;
    assert opt[4] == OPT_MESSAGE_TYPE && opt[5] == 1;
    assert opt[7] == OPT_CLIENT_ID && opt[8] == 7;
    assert opt[16] == OPT_HOSTNAME && opt[17] == |host|;
    assert Scan(opt, 4, OPT_HOSTNAME) == Scan(opt, 7, OPT_HOSTNAME) == Scan(opt, 16, OPT_HOSTNAME);
    assert Scan(opt, 4, OPT_CLIENT_ID) == Scan(opt, 7, OPT_CLIENT_ID);
    assert opt[10..16] == o[6..12];
    assert opt[18..18 + |host|] == o[14..14 + |host|];
  }

  /** Reading a REQUEST back finds its type, the parameter list and the requested address. */
  lemma RequestReadsBack(prev: seq<u8>, mac: seq<u8>, host: seq<u8>, ip: seq<u8>)
    requires |prev| == DHCP_MSG_SIZE && |mac| == MAC_BYTES && |host| < 0x100 && |ip| == IPV4_BYTES
    ensures var opt := Opt(WithOptions(Prepared(prev, mac), RequestOptions(mac, host, ip)));
            var n := |host|;
            OptionIndex(opt, OPT_MESSAGE_TYPE) == 5 && opt[5] == 1 && opt[6] == REQUEST
            && OptionIndex(opt, OPT_PARAMETER_REQUEST) == 19 + n && opt[19 + n] == 5
            && opt[20 + n..25 + n] == [OPT_SUBNET_MASK, OPT_ROUTER, OPT_DNS, OPT_RENEWAL_TIME, OPT_REBINDING_TIME]
            && OptionIndex(opt, OPT_REQUESTED_IP) == 26 + n && opt[26 + n] == 4 && opt[27 + n..31 + n] == ip
            && opt[31 + n] == OPT_END
  {
    var o := RequestOptions(mac, host, ip);
    var n := |host|;
    BuiltArea(prev, mac, o);
    var opt := Opt(WithOptions(Prepared(prev, mac), o));
    assert opt[4..4 + |o|] == o;
    RequestBytes(mac, host, ip);
    assert opt[4] == o[0] && opt[5] == o[1] && opt[7] == o[3] && opt[8] == o[4];
    assert opt[16] == o[12] && opt[17] == o[13];
    assert opt[18 + n] == o[14 + n] && opt[19 + n] == o[15 + n];
    assert opt[25 + n] == o[21 + n] && opt[26 + n] == o[22 + n];
    SkipCommon(opt, n, OPT_PARAMETER_REQUEST);
    SkipCommon(opt, n, OPT_REQUESTED_IP);
    assert Scan(opt, 18 + n, OPT_REQUESTED_IP) == Scan(opt, 25 + n, OPT_REQUESTED_IP);
    assert opt[20 + n..25 + n] == o[16 + n..21 + n];
    assert opt[27 + n..31 + n] == o[23 + n..27 + n];
  }

  /** Where each part of the REQUEST options sits. */
  lemma RequestBytes(mac: seq<u8>, host: seq<u8>, ip: seq<u8>)
    requires |mac| == MAC_BYTES && |host| < 0x100 && |ip| == IPV4_BYTES
    ensures var o := RequestOptions(mac, host, ip);
            var n := |host|;
            o[0] == OPT_MESSAGE_TYPE && o[1] == 1 && o[2] == REQUEST
            && o[3] == OPT_CLIENT_ID && o[4] == 7 && o[12] == OPT_HOSTNAME && o[13] == n
            && o[14 + n] == OPT_PARAMETER_REQUEST && o[15 + n] == 5
            && o[16 + n..21 + n] == [OPT_SUBNET_MASK, OPT_ROUTER, OPT_DNS, OPT_RENEWAL_TIME, OPT_REBINDING_TIME]
            && o[21 + n] == OPT_REQUESTED_IP && o[22 + n] == 4 && o[23 + n..27 + n] == ip
            && o[27 + n] == OPT_END
  {
    var n := |host|;
    var head := [OPT_MESSAGE_TYPE, 1, REQUEST] + [OPT_CLIENT_ID, 7, HTYPE10MB] + mac
                + [OPT_HOSTNAME, n as u8] + host;
    var tail := [OPT_PARAMETER_REQUEST, 5, OPT_SUBNET_MASK, OPT_ROUTER, OPT_DNS, OPT_RENEWAL_TIME, OPT_REBINDING_TIME]
                + [OPT_REQUESTED_IP, 4] + ip + [OPT_END];
    assert RequestOptions(mac, host, ip) == head + tail;
    assert |head| == 14 + n;
  }

  /** A scan for any other option skips the type, client id and host name options. */
  lemma SkipCommon(opt: seq<u8>, n: nat, code: u8)
    requires |opt| == DHCP_OPT_SIZE && n < 0x100
    requires opt[4] == OPT_MESSAGE_TYPE && opt[5] == 1 && opt[7] == OPT_CLIENT_ID && opt[8] == 7
    requires opt[16] == OPT_HOSTNAME && opt[17] == n
    requires code != OPT_PAD && code != OPT_END
    requires code != OPT_MESSAGE_TYPE && code != OPT_CLIENT_ID && code != OPT_HOSTNAME
    ensures Scan(opt, 4, code) == Scan(opt, 18 + n, code)
  {
    assert Scan(opt, 4, code) == Scan(opt, 7, code);
    assert Scan(opt, 7, code) == Scan(opt, 16, code);
  }

  // ---------------------------------------------------------------------
  // DHCP_Receive

  /** The endian swaps after a receive: xid, secs and flags reverse their bytes. */
  function HostOrder(m: seq<u8>): (r: seq<u8>)
    requires |m| == DHCP_MSG_SIZE
    ensures |r| == DHCP_MSG_SIZE
  {
    m[..4] + [m[7], m[6], m[5], m[4], m[9], m[8], m[11], m[10]] + m[12..]
  }

  /** What a received datagram leaves in the buffer: its bytes over the old ones. */
  function Overlay(prev: seq<u8>, data: seq<u8>): (r: seq<u8>)
    requires |prev| == DHCP_MSG_SIZE && |data| <= DHCP_MSG_SIZE
    ensures |r| == DHCP_MSG_SIZE
  {
    data + prev[|data|..]
  }

  /** The checks of DHCP_Receive on a buffer that now holds a reply. */
  datatype Verdict = Accepted(msgType: u8) | Rejected(rc: Status)

  /**
   * The checks as written. The type option's length and value bytes are
   * read without a bound, so a type option in the last two bytes of the
   * area has them read from `past`: the two bytes of the client structure
   * that follow the message (alignment padding).
   */
  function Validate(m: seq<u8>, past: seq<u8>): Verdict
    requires |m| == DHCP_MSG_SIZE && |past| == PAST_SIZE
  {
    var ext := Opt(m) + past;
    var i := OptionPointer(Opt(m), OPT_MESSAGE_TYPE);
    if m[0] != BOOTREPLY then Rejected(DhcpBadOpcode)
    else if Opt(m)[..MAGIC_COOKIE_SIZE] != MAGIC_COOKIE then Rejected(DhcpNoCookie)
    else if i == 0 then Rejected(DhcpMissingType)
    else if ext[i] != 1 then Rejected(DhcpCorruptOption)
    else Accepted(ext[i + 1])
  }

  /** The checks with the type option kept inside the area, as evidently intended. */
  function ValidateInArea(m: seq<u8>): Verdict
    requires |m| == DHCP_MSG_SIZE
  {
    var opt := Opt(m);
    var i := OptionIndex(opt, OPT_MESSAGE_TYPE);
    if m[0] != BOOTREPLY then Rejected(DhcpBadOpcode)
    else if opt[..MAGIC_COOKIE_SIZE] != MAGIC_COOKIE then Rejected(DhcpNoCookie)
    else if i == 0 then Rejected(DhcpMissingType)
    else if opt[i] != 1 then Rejected(DhcpCorruptOption)
    else if i + 1 >= DHCP_OPT_SIZE then Rejected(DhcpCorruptOption)
    else Accepted(opt[i + 1])
  }

  /**
   * The checks run in order and each failure has its own status: a reply is
   * accepted exactly when it is a BOOTREPLY with the cookie and option 53
   * of length 1, whose value byte is the message type; both bytes may lie
   * past the area.
   */
  lemma ValidateOrder(m: seq<u8>, past: seq<u8>)
    requires |m| == DHCP_MSG_SIZE && |past| == PAST_SIZE
    ensures Validate(m, past) == Rejected(DhcpBadOpcode) <==> m[0] != BOOTREPLY
    ensures Validate(m, past) == Rejected(DhcpNoCookie) <==>
              m[0] == BOOTREPLY && Opt(m)[..MAGIC_COOKIE_SIZE] != MAGIC_COOKIE
    ensures Validate(m, past) == Rejected(DhcpMissingType) <==>
              m[0] == BOOTREPLY && Opt(m)[..MAGIC_COOKIE_SIZE] == MAGIC_COOKIE
              && OptionPointer(Opt(m), OPT_MESSAGE_TYPE) == 0
    ensures Validate(m, past).Accepted? <==>
              m[0] == BOOTREPLY && Opt(m)[..MAGIC_COOKIE_SIZE] == MAGIC_COOKIE
              && (var i := OptionPointer(Opt(m), OPT_MESSAGE_TYPE);
                  i != 0 && (Opt(m) + past)[i] == 1
                  && Validate(m, past).msgType == (Opt(m) + past)[i + 1])
  {
  }

  /**
   * The corrected checks run in the same order; a reply is accepted exactly
   * when option 53 has length 1 and its value byte inside the area.
   */
  lemma ValidateInAreaOrder(m: seq<u8>)
    requires |m| == DHCP_MSG_SIZE
    ensures ValidateInArea(m) == Rejected(DhcpBadOpcode) <==> m[0] != BOOTREPLY
    ensures ValidateInArea(m) == Rejected(DhcpNoCookie) <==>
              m[0] == BOOTREPLY && Opt(m)[..MAGIC_COOKIE_SIZE] != MAGIC_COOKIE
    ensures ValidateInArea(m) == Rejected(DhcpMissingType) <==>
              m[0] == BOOTREPLY && Opt(m)[..MAGIC_COOKIE_SIZE] == MAGIC_COOKIE
              && OptionIndex(Opt(m), OPT_MESSAGE_TYPE) == 0
    ensures ValidateInArea(m).Accepted? <==>
              m[0] == BOOTREPLY && Opt(m)[..MAGIC_COOKIE_SIZE] == MAGIC_COOKIE
              && (var i := OptionIndex(Opt(m), OPT_MESSAGE_TYPE);
                  i != 0 && Opt(m)[i] == 1 && OptionValue(Opt(m), i, 1).Some?
                  && ValidateInArea(m).msgType == OptionValue(Opt(m), i, 1).value[0])
  {
  }

  /**
   * The two checks differ only on a type option in the last two bytes of
   * the area: whatever the corrected checks accept, the written ones accept
   * with the same type, and wherever they disagree the written checks have
   * read past the area.
   */
  lemma ValidateInAreaAgrees(m: seq<u8>, past: seq<u8>)
    requires |m| == DHCP_MSG_SIZE && |past| == PAST_SIZE
    ensures ValidateInArea(m).Accepted? ==> Validate(m, past) == ValidateInArea(m)
    ensures Validate(m, past) != ValidateInArea(m) ==>
              OptionPointer(Opt(m), OPT_MESSAGE_TYPE) >= DHCP_OPT_SIZE - 1
  {
    var opt := Opt(m);
    assert forall k | 0 <= k < DHCP_OPT_SIZE :: (opt + past)[k] == opt[k];
  }

  /**
   * As written, a reply whose option 53 starts in byte 310 of the area is
   * accepted with the padding byte after the message as its type; the
   * corrected checks reject it as corrupt.
   */
  lemma ValidateReadsPast(m: seq<u8>, past: seq<u8>)
    requires |m| == DHCP_MSG_SIZE && |past| == PAST_SIZE
    requires m[0] == BOOTREPLY && Opt(m)[..MAGIC_COOKIE_SIZE] == MAGIC_COOKIE
    requires forall k | MAGIC_COOKIE_SIZE <= k < DHCP_OPT_SIZE - 2 :: Opt(m)[k] == OPT_PAD
    requires Opt(m)[DHCP_OPT_SIZE - 2] == OPT_MESSAGE_TYPE && Opt(m)[DHCP_OPT_SIZE - 1] == 1
    ensures Validate(m, past) == Accepted(past[0])
    ensures ValidateInArea(m) == Rejected(DhcpCorruptOption)
  {
    var opt := Opt(m);
    PadsThenSecondLast(opt, MAGIC_COOKIE_SIZE, OPT_MESSAGE_TYPE);
    assert (opt + past)[DHCP_OPT_SIZE - 1] == 1;
  }

  lemma {:induction false} PadsThenSecondLast(opt: seq<u8>, ptr: nat, code: u8)
    requires |opt| == DHCP_OPT_SIZE && ptr <= DHCP_OPT_SIZE - 2
    requires forall k | ptr <= k < DHCP_OPT_SIZE - 2 :: opt[k] == OPT_PAD
    requires opt[DHCP_OPT_SIZE - 2] == code && code != OPT_PAD && code != OPT_END
    ensures Scan(opt, ptr, code) == Found(DHCP_OPT_SIZE - 1)
    decreases DHCP_OPT_SIZE - ptr
  {
    if ptr < DHCP_OPT_SIZE - 2 {
      PadsThenSecondLast(opt, ptr + 1, code);
    }
  }

  /** The xid, secs and flags bytes play no part in accepting a reply. */
  lemma XidIgnored(m: seq<u8>, m': seq<u8>, past: seq<u8>)
    requires |m| == |m'| == DHCP_MSG_SIZE && |past| == PAST_SIZE
    requires m[..4] == m'[..4] && m[12..] == m'[12..]
    ensures Validate(m, past) == Validate(m', past)
  {
    assert m[0] == m[..4][0] && m'[0] == m'[..4][0];
    assert Opt(m) == m[12..][OPT_AT - 12..] && Opt(m') == m'[12..][OPT_AT - 12..];
  }

  lemma HostOrderKeepsChecks(m: seq<u8>, past: seq<u8>)
    requires |m| == DHCP_MSG_SIZE && |past| == PAST_SIZE
    ensures Validate(HostOrder(m), past) == Validate(m, past)
  {
    XidIgnored(HostOrder(m), m, past);
  }

  /** After the swaps xid, secs and flags hold BYTE_SWAP_32/16 of what was received. */
  lemma HostOrderSwaps(m: seq<u8>)
    requires |m| == DHCP_MSG_SIZE
    ensures var r := HostOrder(m);
            Le32(r[4], r[5], r[6], r[7]) == ByteSwap32(Le32(m[4], m[5], m[6], m[7]))
            && Le16(r[8], r[9]) == ByteSwap16(Le16(m[8], m[9]))
            && Le16(r[10], r[11]) == ByteSwap16(Le16(m[10], m[11]))
            && r[..4] == m[..4] && r[12..] == m[12..]
  {
    ByteSwap32Decodes(m[4], m[5], m[6], m[7]);
    Le32Digits(m[7], m[6], m[5], m[4]);
    ByteSwap16Decodes(m[8], m[9]);
    ByteSwap16Decodes(m[10], m[11]);
  }

  // ---------------------------------------------------------------------
  // The options an ACK must carry

  /**
   * Option 51 as REQUESTING and RENEWING read it: present, of length
   * exactly 4, and read most significant byte first.
   */
  function LeaseOption(opt: seq<u8>): (r: Option<u32>)
    requires |opt| == DHCP_OPT_SIZE
    ensures var i := OptionIndex(opt, OPT_LEASE_TIME);
            (r.Some? <==> i != 0 && opt[i] == 4 && OptionValue(opt, i, 4).Some?)
            && (r.Some? ==> r.value == Be32(opt[i + 1], opt[i + 2], opt[i + 3], opt[i + 4]))
  {
    var i := OptionIndex(opt, OPT_LEASE_TIME);
    if i == 0 || opt[i] != 4 then None
    else match OptionValue(opt, i, 4)
      case None => None
      case Some(v) => Some(LeaseSeconds(v[0], v[1], v[2], v[3]))
  }

  /** Option 1: present and of length exactly 4. */
  function SubnetOption(opt: seq<u8>): (r: Option<seq<u8>>)
    requires |opt| == DHCP_OPT_SIZE
    ensures r.Some? ==> |r.value| == IPV4_BYTES
    ensures var i := OptionIndex(opt, OPT_SUBNET_MASK);
            (r.Some? <==> i != 0 && opt[i] == IPV4_BYTES && i + IPV4_BYTES < DHCP_OPT_SIZE)
            && (r.Some? ==> r.value == opt[i + 1..i + 1 + IPV4_BYTES])
  {
    var i := OptionIndex(opt, OPT_SUBNET_MASK);
    if i == 0 || opt[i] != IPV4_BYTES as u8 then None else OptionValue(opt, i, IPV4_BYTES)
  }

  /**
   * Option 3: present with a length that is a multiple of 4; the first
   * four bytes after the length byte are the gateway.
   */
  function RouterOption(opt: seq<u8>): (r: Option<seq<u8>>)
    requires |opt| == DHCP_OPT_SIZE
    ensures r.Some? ==> |r.value| == IPV4_BYTES
    ensures var i := OptionIndex(opt, OPT_ROUTER);
            (r.Some? <==> i != 0 && opt[i] % IPV4_BYTES == 0 && i + IPV4_BYTES < DHCP_OPT_SIZE)
            && (r.Some? ==> r.value == opt[i + 1..i + 1 + IPV4_BYTES])
  {
    var i := OptionIndex(opt, OPT_ROUTER);
    if i == 0 || opt[i] % IPV4_BYTES as u8 != 0 then None else OptionValue(opt, i, IPV4_BYTES)
  }

  /**
   * A router option of length 0 passes the length check, and the four
   * bytes after it (here the next option) are taken as the gateway.
   */
  lemma EmptyRouterAccepted()
    ensures var opt := MAGIC_COOKIE + [OPT_ROUTER, 0, OPT_SUBNET_MASK, 4, 255, 255, 255, 0, OPT_END]
                       + seq(DHCP_OPT_SIZE - MAGIC_COOKIE_SIZE - 9, _ => 0);
            RouterOption(opt) == Some([OPT_SUBNET_MASK, 4, 255, 255])
  {
    var opt := MAGIC_COOKIE + [OPT_ROUTER, 0, OPT_SUBNET_MASK, 4, 255, 255, 255, 0, OPT_END]
               + seq(DHCP_OPT_SIZE - MAGIC_COOKIE_SIZE - 9, _ => 0);
    assert opt[4] == OPT_ROUTER;
    assert Scan(opt, 4, OPT_ROUTER) == Found(5);
    assert opt[6..10] == [OPT_SUBNET_MASK, 4, 255, 255];
  }

  // ---------------------------------------------------------------------
  // Lease arithmetic

  /** portMAX_DELAY for 32-bit ticks. */
  const PORT_MAX_DELAY: u32 := 0xFFFF_FFFF

  /** The four `leaseDuration |= opt[i] << k` steps, most significant byte first. */
  function LeaseSeconds(b0: u8, b1: u8, b2: u8, b3: u8): (l: u32)
    ensures l == Be32(b0, b1, b2, b3)
  {
    LeaseBytes(b0, b1, b2, b3);
    Or(Or(Or(Or(0, Shl(b0, 24)), Shl(b1, 16)), Shl(b2, 8)), Shl(b3, 0))
  }

  lemma LeaseBytes(b0: u8, b1: u8, b2: u8, b3: u8)
    ensures Or(Or(Or(Or(0, Shl(b0, 24)), Shl(b1, 16)), Shl(b2, 8)), Shl(b3, 0)) == Be32(b0, b1, b2, b3)
  {
    Pow2Values();
    Pow2Add(16, 8);
    assert Pow2(0) == 1;
    var hi := b0 * 0x100 + b1;
    OrDisjoint(b0, 8, b1);
    OrDisjoint(hi, 8, b2);
    OrDisjoint(hi * 0x100 + b2, 8, b3);
    assert Or(Shl(b0, 24), Shl(b1, 16)) == hi * Pow2(16) by {
      assert Shl(b0, 24) == (b0 * Pow2(8)) * Pow2(16) && Shl(b1, 16) == b1 * Pow2(16);
      OrScaled(b0 * Pow2(8), b1, 16);
    }
    assert Or(hi * Pow2(16), Shl(b2, 8)) == (hi * 0x100 + b2) * Pow2(8) by {
      assert hi * Pow2(16) == (hi * Pow2(8)) * Pow2(8);
      OrScaled(hi * Pow2(8), b2, 8);
    }
  }

  /** `(a << k) | (b << k) == (a | b) << k` */
  lemma {:induction false} OrScaled(a: nat, b: nat, k: nat)
    ensures Or(a * Pow2(k), b * Pow2(k)) == Or(a, b) * Pow2(k)
  {
    if k > 0 {
      var p := Pow2(k - 1);
      var x, y, z := Shl(a, k - 1), Shl(b, k - 1), Or(a, b);
      OrScaled(a, b, k - 1);
      assert Or(x, y) == z * p;
      Twice(a, p);
      Twice(b, p);
      Twice(z, p);
      assert a * Pow2(k) == 2 * x && b * Pow2(k) == 2 * y && z * Pow2(k) == 2 * (z * p);
      OrDoubled(x, y);
    }
  }

  /** `(x << 1) | (y << 1) == (x | y) << 1` */
  lemma OrDoubled(x: nat, y: nat)
    ensures Or(2 * x, 2 * y) == 2 * Or(x, y)
  {
    if x != 0 && y != 0 {
      DivModUnique(2 * x, 2, x, 0);
      DivModUnique(2 * y, 2, y, 0);
    }
  }

  /** `leaseDuration -= leaseDuration >> 3`: the lease less an eighth, rounded up. */
  function Derate(l: u32): (d: u32)
    ensures 7 * l <= 8 * d && d <= l
  {
    Pow2Values();
    l - Shr(l, 3)
  }

  /**
   * Seconds to ticks with the source's overflow detection: the 32-bit
   * product, unless dividing it back by the rate does not give the seconds.
   */
  function LeaseTicks(d: u32, rate: nat): u32
    requires rate > 0
  {
    var product := (d * rate) % 0x1_0000_0000;
    if d != 0 && product / rate != d then PORT_MAX_DELAY else product
  }

  /** The overflow check is exact: the product when it fits, portMAX_DELAY when it does not. */
  lemma LeaseTicksSaturates(d: u32, rate: nat)
    requires rate > 0
    ensures LeaseTicks(d, rate) == if d * rate < 0x1_0000_0000 then d * rate else PORT_MAX_DELAY
  {
    var x := d * rate;
    var product := x % 0x1_0000_0000;
    if x < 0x1_0000_0000 {
      DivModUnique(x, 0x1_0000_0000, 0, x);
      DivModUnique(x, rate, d, 0);
    } else {
      DivModUnique(product, rate, product / rate, product % rate);
    }
  }

  /** The lease in ticks that an ACK carrying `seconds` in option 51 leaves. */
  function LeaseDuration(seconds: u32, rate: nat): (t: u32)
    requires rate > 0
    ensures 7 * seconds * rate <= 8 * t || t == PORT_MAX_DELAY
    ensures t <= seconds * rate
  {
    var d := Derate(seconds);
    LeaseTicksSaturates(d, rate);
    RatedBounds(seconds, d, rate);
    LeaseTicks(d, rate)
  }

  /** Scaling by the tick rate keeps the bounds of the derating. */
  lemma RatedBounds(l: nat, d: nat, rate: nat)
    requires 7 * l <= 8 * d && d <= l
    ensures 7 * l * rate <= 8 * (d * rate) && d * rate <= l * rate
  {
    MulMono(7 * l, 8 * d, rate);
    assert 8 * d * rate == 8 * (d * rate);
    MulMono(d, l, rate);
  }

  lemma MulMono(a: nat, b: nat, c: nat)
    requires a <= b
    ensures a * c <= b * c
  {
  }

  /** The ticks BOUND sleeps as written: lease less elapsed ticks, in uint32 arithmetic. */
  function SleepAsWritten(duration: u32, leaseTick: u32, now: u32): u32
  {
    (duration - (now - leaseTick) % 0x1_0000_0000) % 0x1_0000_0000
  }

  /** Once the lease has run out, the subtraction wraps to an almost 50-day sleep. */
  lemma SleepWraps()
    ensures SleepAsWritten(0, 0, 1) == PORT_MAX_DELAY
  {
  }

  /** The sleep with the subtraction kept from wrapping: renew at once when the lease has run out. */
  function Sleep(duration: u32, leaseTick: u32, now: u32): (s: u32)
    ensures s <= duration
    ensures (now - leaseTick) % 0x1_0000_0000 <= duration ==> s == SleepAsWritten(duration, leaseTick, now)
    ensures (now - leaseTick) % 0x1_0000_0000 >= duration ==> s == 0
  {
    var elapsed := (now - leaseTick) % 0x1_0000_0000;
    if elapsed >= duration then 0 else duration - elapsed
  }

  // ---------------------------------------------------------------------
  // The state machine

  /** The states DHCP_ClientTask has a handler for. */
  predicate Handled(s: nat)
  {
    s == INIT || s == SELECTING || s == REQUESTING || s == BOUND || s == RENEWING
  }

  /**
   * The states one pass of DHCP_ClientTask can leave the client in: each
   * handler either moves on or falls back to INIT, and an unhandled state
   * is reset to INIT.
   */
  function Successors(s: nat): (r: set<nat>)
    ensures INIT in r
    ensures forall t | t in r :: Handled(t)
    ensures BOUND in r <==> s == REQUESTING || s == RENEWING
  {
    if s == INIT then {INIT, SELECTING}
    else if s == SELECTING then {INIT, REQUESTING}
    else if s == REQUESTING then {INIT, BOUND}
    else if s == BOUND then {INIT, RENEWING}
    else if s == RENEWING then {INIT, BOUND}
    else {INIT}
  }

  // ---------------------------------------------------------------------
  // Names used in the log

  /** StateString, over the eight dhcp_state_t values. */
  function StateString(e: nat): string
  {
    match e
    case 0 => "DHCP_INIT"
    case 1 => "DHCP_SELECTING"
    case 2 => "DHCP_REQUESTING"
    case 3 => "DHCP_INITREBOOT"
    case 4 => "DHCP_REBOOTING"
    case 5 => "DHCP_BOUND"
    case 6 => "DHCP_RENEWING"
    case 7 => "DHCP_REBINDING"
    case _ => "UNKNOWN"
  }

  /** MessageTypeString, over DISCOVER .. INFORM. */
  function MessageTypeString(e: nat): string
  {
    match e
    case 1 => "DHCP_DISCOVER"
    case 2 => "DHCP_OFFER"
    case 3 => "DHCP_REQUEST"
    case 4 => "DHCP_DECLINE"
    case 5 => "DHCP_ACK"
    case 6 => "DHCP_NAK"
    case 7 => "DHCP_RELEASE"
    case 8 => "DHCP_INFORM"
    case _ => "UNKNOWN"
  }

  /** The state a StateString name stands for. */
  function StateNamed(name: string): Option<nat>
  {
    if name == "DHCP_INIT" then Some(0)
    else if name == "DHCP_SELECTING" then Some(1)
    else if name == "DHCP_REQUESTING" then Some(2)
    else if name == "DHCP_INITREBOOT" then Some(3)
    else if name == "DHCP_REBOOTING" then Some(4)
    else if name == "DHCP_BOUND" then Some(5)
    else if name == "DHCP_RENEWING" then Some(6)
    else if name == "DHCP_REBINDING" then Some(7)
    else None
  }

  /** The message type a MessageTypeString name stands for. */
  function MessageTypeNamed(name: string): Option<nat>
  {
    if name == "DHCP_DISCOVER" then Some(1)
    else if name == "DHCP_OFFER" then Some(2)
    else if name == "DHCP_REQUEST" then Some(3)
    else if name == "DHCP_DECLINE" then Some(4)
    else if name == "DHCP_ACK" then Some(5)
    else if name == "DHCP_NAK" then Some(6)
    else if name == "DHCP_RELEASE" then Some(7)
    else if name == "DHCP_INFORM" then Some(8)
    else None
  }

  /** Every state has its own name, which reads back as that state; other values are UNKNOWN. */
  lemma StateNamesReadBack(e: nat)
    ensures e < 8 ==> StateNamed(StateString(e)) == Some(e)
    ensures e >= 8 <==> StateString(e) == "UNKNOWN"
  {
  }

  /** Every message type has its own name, which reads back as that type; other values are UNKNOWN. */
  lemma MessageTypeNamesReadBack(e: nat)
    ensures DISCOVER as nat <= e <= INFORM as nat ==> MessageTypeNamed(MessageTypeString(e)) == Some(e)
    ensures !(DISCOVER as nat <= e <= INFORM as nat) <==> MessageTypeString(e) == "UNKNOWN"
  {
  }
}
