/**
 * The DHCP client of user/w5500/dhcp.c: a 548-byte message buffer that is
 * filled and read in place, and the five-state machine INIT, SELECTING,
 * REQUESTING, BOUND, RENEWING driven by DHCP_ClientTask.
 *
 * The tick count is an input of the handlers that read it, configTICK_RATE_HZ
 * is a constant of the client, and the scheduler calls of the handlers
 * (vTaskDelay, vTaskResume, vTaskSuspend) are recorded in `actions`.
 */
module Dhcp {
  import opened BitOps
  import opened Constants
  import opened W5500Regs
  import opened Ring
  import opened W5500Socket
  import opened DhcpMessage

  /** A scheduler call made by a handler. */
  datatype Action =
    | Delay(ticks: u32)   // vTaskDelay
    | Resume(task: nat)   // vTaskResume(boundTask[task])
    | Suspend(task: nat)  // vTaskSuspend(boundTask[task])

  /** DHCP_NUM_BOUND_TASKS: the tasks that run only while an address is bound. */
  const NUM_BOUND_TASKS: nat := 1

  /** The call a loop over the bound tasks makes for task `k`. */
  function TaskCall(resume: bool, k: nat): Action
  {
    if resume then Resume(k) else Suspend(k)
  }

  /** The calls of a loop over the bound tasks: vTaskResume or vTaskSuspend of each, in task order. */
  function BoundTasks(resume: bool): (r: seq<Action>)
    ensures |r| == NUM_BOUND_TASKS
    ensures forall k | 0 <= k < NUM_BOUND_TASKS :: r[k] == TaskCall(resume, k)
  {
    seq(NUM_BOUND_TASKS, (k: int) requires 0 <= k => TaskCall(resume, k))
  }

  /** The bytes a DISCOVER or REQUEST leaves in a buffer that held `prev`. */
  function Message(prev: seq<u8>, mac: seq<u8>, options: seq<u8>): (m: seq<u8>)
    requires |prev| == DHCP_MSG_SIZE && |mac| == MAC_BYTES
    requires |options| <= DHCP_OPT_SIZE - MAGIC_COOKIE_SIZE
    ensures |m| == DHCP_MSG_SIZE
  {
    WithOptions(Prepared(prev, mac), options)
  }

  /** `m` with bytes lo..hi-1 cleared. */
  function Zeroed(m: seq<u8>, lo: nat, hi: nat): (r: seq<u8>)
    requires lo <= hi <= |m|
    ensures |r| == |m|
    ensures forall i | 0 <= i < |m| :: r[i] == if lo <= i < hi then 0 else m[i]
  {
    m[..lo] + seq(hi - lo, _ => 0) + m[hi..]
  }

  /** `m` with `data` written from index `at` on. */
  function Placed(m: seq<u8>, at: nat, data: seq<u8>): (r: seq<u8>)
    requires at + |data| <= |m|
    ensures |r| == |m|
    ensures forall i | 0 <= i < |m| :: r[i] == if at <= i < at + |data| then data[i - at] else m[i]
  {
    m[..at] + data + m[at + |data|..]
  }

  /** op, htype, hlen, hops, xid (host order), sec and flags as PrepareMessage writes them. */
  const HEADER: seq<u8> :=
    [BOOTREQUEST, HTYPE10MB, MAC_BYTES as u8, 0, XidByte(0), XidByte(1), XidByte(2), XidByte(3), 0, 0, 0, 0]

  /** The steps of PrepareMessage, one after the other, give the prepared message. */
  lemma PreparedInSteps(prev: seq<u8>, mac: seq<u8>)
    requires |prev| == DHCP_MSG_SIZE && |mac| == MAC_BYTES
    ensures var s1 := Zeroed(Placed(prev, 0, HEADER), CIADDR_AT, CHADDR_AT);
            var s2 := Zeroed(Zeroed(Placed(s1, CHADDR_AT, mac), SNAME_AT, SNAME_AT + DHCP_SNAME_SIZE),
                             SNAME_AT + DHCP_SNAME_SIZE, OPT_AT);
            Placed(Zeroed(s2, OPT_AT, DHCP_MSG_SIZE), OPT_AT, MAGIC_COOKIE) == Prepared(prev, mac)
  {
    var s1 := Zeroed(Placed(prev, 0, HEADER), CIADDR_AT, CHADDR_AT);
    var s2 := Zeroed(Zeroed(Placed(s1, CHADDR_AT, mac), SNAME_AT, SNAME_AT + DHCP_SNAME_SIZE),
                     SNAME_AT + DHCP_SNAME_SIZE, OPT_AT);
    var r := Placed(Zeroed(s2, OPT_AT, DHCP_MSG_SIZE), OPT_AT, MAGIC_COOKIE);
    forall i | 0 <= i < DHCP_MSG_SIZE
      ensures r[i] == Prepared(prev, mac)[i]
    {
      if i < CIADDR_AT {
        assert r[i] == HEADER[i];
      }
    }
  }

  class DhcpClient {
    const dev: W5500
    const sn: nat
    const hostName: seq<u8>
    /** configTICK_RATE_HZ */
    const tickRate: nat
    /** msg.buf, viewed through msg.field by the offsets of the layout. */
    const msg: array<u8>
    /** The padding of the client structure right after msg: what an unbounded read past the option area finds. */
    const past: seq<u8>
    var clientIp: seq<u8>
    var serverIp: seq<u8>
    var leaseTick: u32
    var leaseDuration: u32
    var state: nat
    var actions: seq<Action>

    /** The shape of the client, whatever its state. */
    predicate Ready()
      reads this, dev
    {
      dev.Valid() && msg.Length == DHCP_MSG_SIZE && |past| == PAST_SIZE && sn < NUM_SOCKETS
      && |hostName| < 0x100 && tickRate > 0
      && |clientIp| == IPV4_BYTES && |serverIp| == IPV4_BYTES
    }

    /** The states that wait for a reply have an open socket to receive it on. */
    predicate Valid()
      reads this, dev
    {
      Ready() && (state == SELECTING || state == REQUESTING || state == RENEWING ==> dev.EventReady(sn))
    }

    constructor (dev: W5500, sn: nat, hostName: seq<u8>, tickRate: nat, past: seq<u8>)
      requires dev.Valid() && sn < NUM_SOCKETS && |hostName| < 0x100 && tickRate > 0 && |past| == PAST_SIZE
      ensures Valid() && state == INIT && actions == []
      ensures this.dev == dev && this.sn == sn && this.hostName == hostName && this.tickRate == tickRate
      ensures this.past == past
      ensures fresh(msg)
    {
      this.dev := dev;
      this.sn := sn;
      this.hostName := hostName;
      this.tickRate := tickRate;
      this.past := past;
      msg := new u8[DHCP_MSG_SIZE](_ => 0);
      clientIp := [0, 0, 0, 0];
      serverIp := [0, 0, 0, 0];
      leaseTick := 0;
      leaseDuration := 0;
      state := INIT;
      actions := [];
    }

    // ---------------------------------------------------------------------
    // The message buffer

    /**
     * GetOptionPointer: walk the option area from just past the cookie.
     * Only the loop guard bounds the next code read; an option whose code
     * is the area's last byte takes its length byte from past the message,
     * as the source reads it.
     */
    method GetOptionPointer(code: u8) returns (r: nat)
      requires msg.Length == DHCP_MSG_SIZE && |past| == PAST_SIZE
      ensures r == OptionPointer(msg[OPT_AT..], code)
    {
      ghost var opt := msg[OPT_AT..];
      ghost var whole := Scan(opt, MAGIC_COOKIE_SIZE, code);
      var ptr := MAGIC_COOKIE_SIZE;
      while ptr < DHCP_OPT_SIZE
        invariant var rest := Scan(opt, ptr, code);
                  rest.Found? == whole.Found? && (rest.Found? ==> rest.at == whole.at)
        decreases DHCP_OPT_SIZE - ptr
      {
        var option := msg[OPT_AT + ptr];
        ptr := ptr + 1;
        if option == OPT_PAD {
          continue;
        } else if option == OPT_END {
          return 0;
        }
        if option == code {
          return ptr;
        }
        var optionLen := OptByte(ptr);
        ptr := ptr + 1 + optionLen as nat;
      }
      return 0;
    }

    /** A byte of the option area, or of the padding after it for an index past the area. */
    function OptByte(k: nat): (b: u8)
      requires msg.Length == DHCP_MSG_SIZE && k < DHCP_OPT_SIZE + |past|
      reads msg
      ensures b == (Opt(msg[..]) + past)[k]
    {
      if k < DHCP_OPT_SIZE then msg[OPT_AT + k] else past[k - DHCP_OPT_SIZE]
    }

    /** DHCP_PrepareMessage: the fixed fields, the MAC, zeros, and the cookie. */
    method PrepareMessage()
      requires msg.Length == DHCP_MSG_SIZE && |dev.mac| == MAC_BYTES
      modifies msg
      ensures msg[..] == Prepared(old(msg[..]), dev.mac)
    {
      ghost var prev := msg[..];
      PutHeader();
      ZeroAddresses();
      CopyMac();
      ZeroRange(SNAME_AT, SNAME_AT + DHCP_SNAME_SIZE);
      ZeroRange(SNAME_AT + DHCP_SNAME_SIZE, OPT_AT);
      ZeroRange(OPT_AT, DHCP_MSG_SIZE);
      PutCookie();
      PreparedInSteps(prev, dev.mac);
    }

    /** op, htype, hlen, hops, xid, secs and flags. */
    method PutHeader()
      requires msg.Length == DHCP_MSG_SIZE
      modifies msg
      ensures msg[..] == Placed(old(msg[..]), 0, HEADER)
    {
      msg[0], msg[1], msg[2], msg[3] := BOOTREQUEST, HTYPE10MB, MAC_BYTES as u8, 0;
      // xid = 1428032432, stored in host (little-endian) byte order
      msg[4], msg[5], msg[6], msg[7] := XidByte(0), XidByte(1), XidByte(2), XidByte(3);
      msg[8], msg[9], msg[10], msg[11] := 0, 0, 0, 0;
      forall i | 0 <= i < DHCP_MSG_SIZE
        ensures msg[i] == Placed(old(msg[..]), 0, HEADER)[i]
      {
        if i >= |HEADER| {
          assert msg[i] == old(msg[i]);
        }
      }
    }

    /** The loop clearing ciaddr, yiaddr, siaddr and giaddr together. */
    method ZeroAddresses()
      requires msg.Length == DHCP_MSG_SIZE
      modifies msg
      ensures msg[..] == Zeroed(old(msg[..]), CIADDR_AT, CHADDR_AT)
    {
      var segment := 0;
      while segment < IPV4_BYTES
        invariant segment <= IPV4_BYTES
        invariant forall i | 0 <= i < DHCP_MSG_SIZE ::
                    msg[i] == if CIADDR_AT <= i < CHADDR_AT && (i - CIADDR_AT) % IPV4_BYTES < segment
                              then 0 else old(msg[i])
      {
        msg[CIADDR_AT + segment] := 0;
        msg[YIADDR_AT + segment] := 0;
        msg[20 + segment] := 0;
        msg[24 + segment] := 0;
        segment := segment + 1;
      }
      assert msg[..] == Zeroed(old(msg[..]), CIADDR_AT, CHADDR_AT);
    }

    /** chaddr[0..5] := dev->mac; the other ten bytes of chaddr are left as they are. */
    method CopyMac()
      requires msg.Length == DHCP_MSG_SIZE && |dev.mac| == MAC_BYTES
      modifies msg
      ensures msg[..] == Placed(old(msg[..]), CHADDR_AT, dev.mac)
    {
      var segment := 0;
      while segment < MAC_BYTES
        invariant segment <= MAC_BYTES
        invariant forall i | 0 <= i < DHCP_MSG_SIZE ::
                    msg[i] == if CHADDR_AT <= i < CHADDR_AT + segment then dev.mac[i - CHADDR_AT] else old(msg[i])
      {
        msg[CHADDR_AT + segment] := dev.mac[segment];
        segment := segment + 1;
      }
      assert msg[..] == Placed(old(msg[..]), CHADDR_AT, dev.mac);
    }

    /** One of the clearing loops over sname, file and opt. */
    method ZeroRange(lo: nat, hi: nat)
      requires msg.Length == DHCP_MSG_SIZE && lo <= hi <= DHCP_MSG_SIZE
      modifies msg
      ensures msg[..] == Zeroed(old(msg[..]), lo, hi)
    {
      var segment := lo;
      while segment < hi
        invariant lo <= segment <= hi
        invariant forall i | 0 <= i < DHCP_MSG_SIZE :: msg[i] == if lo <= i < segment then 0 else old(msg[i])
      {
        msg[segment] := 0;
        segment := segment + 1;
      }
      assert msg[..] == Zeroed(old(msg[..]), lo, hi);
    }

    /** The magic cookie at opt[0..3]. */
    method PutCookie()
      requires msg.Length == DHCP_MSG_SIZE
      modifies msg
      ensures msg[..] == Placed(old(msg[..]), OPT_AT, MAGIC_COOKIE)
    {
      var segment := 0;
      while segment < MAGIC_COOKIE_SIZE
        invariant segment <= MAGIC_COOKIE_SIZE
        invariant forall i | 0 <= i < DHCP_MSG_SIZE ::
                    msg[i] == if OPT_AT <= i < OPT_AT + segment then MAGIC_COOKIE[i - OPT_AT] else old(msg[i])
      {
        msg[OPT_AT + segment] := MAGIC_COOKIE[segment];
        segment := segment + 1;
      }
      assert msg[..] == Placed(old(msg[..]), OPT_AT, MAGIC_COOKIE);
    }

    /** The `opt[optPtr++] = ...` run after the cookie. */
    method PutOptions(options: seq<u8>)
      requires msg.Length == DHCP_MSG_SIZE && |options| <= DHCP_OPT_SIZE - MAGIC_COOKIE_SIZE
      modifies msg
      ensures msg[..] == WithOptions(old(msg[..]), options)
    {
      var optPtr := MAGIC_COOKIE_SIZE;
      while optPtr < MAGIC_COOKIE_SIZE + |options|
        invariant MAGIC_COOKIE_SIZE <= optPtr <= MAGIC_COOKIE_SIZE + |options|
        invariant forall i | 0 <= i < DHCP_MSG_SIZE ::
                    msg[i] == if OPT_AT + MAGIC_COOKIE_SIZE <= i < OPT_AT + optPtr
                              then options[i - OPT_AT - MAGIC_COOKIE_SIZE] else old(msg[i])
      {
        msg[OPT_AT + optPtr] := options[optPtr - MAGIC_COOKIE_SIZE];
        optPtr := optPtr + 1;
      }
      assert msg[..] == Placed(old(msg[..]), OPT_AT + MAGIC_COOKIE_SIZE, options);
    }

    /** Prepare the buffer and write the options of a DISCOVER or REQUEST. */
    method Compose(options: seq<u8>)
      requires msg.Length == DHCP_MSG_SIZE && |dev.mac| == MAC_BYTES
      requires |options| <= DHCP_OPT_SIZE - MAGIC_COOKIE_SIZE
      modifies msg
      ensures msg[..] == Message(old(msg[..]), dev.mac, options)
    {
      PrepareMessage();
      PutOptions(options);
    }

    /** The datagram is read straight into the buffer, over what it held. */
    method Store(data: seq<u8>)
      requires msg.Length == DHCP_MSG_SIZE && |data| <= DHCP_MSG_SIZE
      modifies msg
      ensures msg[..] == Overlay(old(msg[..]), data)
    {
      forall k | 0 <= k < |data| {
        msg[k] := data[k];
      }
      assert msg[..] == Overlay(old(msg[..]), data);
    }

    /** The endian swaps of xid, sec and flags after a receive. */
    method SwapHeader()
      requires msg.Length == DHCP_MSG_SIZE
      modifies msg
      ensures msg[..] == HostOrder(old(msg[..]))
    {
      msg[4], msg[5], msg[6], msg[7] := msg[7], msg[6], msg[5], msg[4];
      msg[8], msg[9] := msg[9], msg[8];
      msg[10], msg[11] := msg[11], msg[10];
      assert msg[..] == HostOrder(old(msg[..]));
    }

    // ---------------------------------------------------------------------
    // Talking to the server

    /** DHCP_Initialize: clear SIPR, GAR and SUBR, then aim the socket at 255.255.255.255:67. */
    method Initialize() returns (rc: Status)
      requires Ready()
      modifies dev`at, dev`sipr, dev`gar, dev`subr, dev`socks
      ensures Ready() && dev.at > old(dev.at)
      ensures rc == Ok || (IsSpiFault(rc) && FaultOf(dev.bus, old(dev.at), rc))
      ensures rc == Ok ==>
                dev.sipr == [0, 0, 0, 0] && dev.gar == [0, 0, 0, 0] && dev.subr == [0, 0, 0, 0]
                && dev.socks == old(dev.socks)[sn := old(dev.socks)[sn].(dip := [255, 255, 255, 255],
                                                                         dport := DHCP_DESTINATION_PORT)]
    {
      var zeroIp: seq<u8> := [0, 0, 0, 0];
      rc := dev.SetSipr(zeroIp);
      if rc != Ok {
        return;
      }
      ghost var at1 := dev.at;
      rc := dev.SetGar(zeroIp);
      if rc != Ok {
        LaterFault(dev.bus, old(dev.at), at1, rc);
        return;
      }
      ghost var at2 := dev.at;
      rc := dev.SetSubr(zeroIp);
      if rc != Ok {
        LaterFault(dev.bus, old(dev.at), at2, rc);
        return;
      }
      ghost var at3 := dev.at;
      rc := dev.Destination(sn, [255, 255, 255, 255], DHCP_DESTINATION_PORT);
      if rc != Ok {
        LaterFault(dev.bus, old(dev.at), at3, rc);
      }
    }

    /**
     * The whole buffer went out from `wr`: it sits in the socket's TX buffer
     * there, Sn_TX_WR is just past it and SEND was the last command.
     */
    predicate Sent(wr: u16)
      reads this, dev, msg
    {
      Ready() && dev.EventReady(sn)
      && RingRead(dev.socks[sn].txBuf, wr, DHCP_MSG_SIZE) == msg[..]
      && dev.socks[sn].txWr == AddPtr(wr, DHCP_MSG_SIZE)
      && |dev.socks[sn].cmds| > 0 && dev.socks[sn].cmds[|dev.socks[sn].cmds| - 1] == CmdSend
    }

    /**
     * The common part of DHCP_SendDISCOVER and DHCP_SendREQUEST: open the
     * socket as UDP on port 68, build the message, and send all 548 bytes.
     */
    method Transmit(options: seq<u8>) returns (rc: Status, ghost wr: u16)
      requires Ready() && |options| <= DHCP_OPT_SIZE - MAGIC_COOKIE_SIZE
      modifies msg, dev`at, dev`cmdDelays, dev`srReads, dev`clock, dev`socks, dev`groups,
               dev`doubleFree, dev`allocs, dev`nextHandle, dev`snEvent, dev`arrivals
      ensures Ready() && dev.at > old(dev.at)
      ensures rc == Ok || rc == StatusTimeout || rc == OsMemoryError || rc == TxOverflow
              || rc == SendTimeout || rc == SocketDisconnected || (IsSpiFault(rc) && FaultOf(dev.bus, old(dev.at), rc))
      ensures Reopened(old(dev.snEvent), old(dev.groups), old(dev.doubleFree),
                       dev.snEvent, dev.groups, dev.doubleFree, sn, rc == Ok || rc == OsMemoryError)
      ensures rc == Ok ==> msg[..] == Message(old(msg[..]), dev.mac, options) && Sent(wr)
    {
      wr := 0;
      rc := OpenSocket();
      if rc == Ok {
        ghost var at1, groups1 := dev.at, dev.groups;
        rc, wr := SendMessage(options);
        ReopenedKeys(old(dev.snEvent), old(dev.groups), old(dev.doubleFree),
                     dev.snEvent, groups1, dev.groups, dev.doubleFree, sn, true);
        if IsSpiFault(rc) {
          LaterFault(dev.bus, old(dev.at), at1, rc);
        }
      }
    }

    /** W5500_SocketOpen of the client's socket as UDP on port 68. */
    method OpenSocket() returns (rc: Status)
      requires Ready()
      modifies dev`at, dev`cmdDelays, dev`srReads, dev`clock, dev`socks, dev`groups,
               dev`doubleFree, dev`allocs, dev`nextHandle, dev`snEvent
      ensures Ready() && dev.at > old(dev.at)
      ensures rc == Ok || rc == StatusTimeout || rc == OsMemoryError || (IsSpiFault(rc) && FaultOf(dev.bus, old(dev.at), rc))
      ensures Reopened(old(dev.snEvent), old(dev.groups), old(dev.doubleFree),
                       dev.snEvent, dev.groups, dev.doubleFree, sn, rc == Ok || rc == OsMemoryError)
      ensures rc == Ok ==> dev.EventReady(sn)
    {
      rc := dev.Open(sn, ProtoUdp, DHCP_SOURCE_PORT, SOCKET_TIMEOUT);
    }

    /** Compose the message, then W5500_SocketSend of the whole buffer on the freshly opened socket. */
    method SendMessage(options: seq<u8>) returns (rc: Status, ghost wr: u16)
      requires Ready() && dev.EventReady(sn) && |options| <= DHCP_OPT_SIZE - MAGIC_COOKIE_SIZE
      modifies msg, dev`at, dev`cmdDelays, dev`socks, dev`groups, dev`arrivals
      ensures Ready() && dev.EventReady(sn) && dev.at >= old(dev.at)
      ensures msg[..] == Message(old(msg[..]), dev.mac, options)
      ensures dev.groups.Keys == old(dev.groups).Keys
      ensures rc == Ok || rc == TxOverflow || rc == SendTimeout || rc == SocketDisconnected
              || (IsSpiFault(rc) && FaultOf(dev.bus, old(dev.at), rc))
      ensures rc == Ok ==> Sent(wr)
    {
      Compose(options);
      wr := dev.socks[sn].txWr;
      ghost var s := dev.socks[sn];
      rc := dev.Send(sn, msg[..], SEND_TIMEOUT);
      if rc == Ok {
        ReadAfterWrite(s.txBuf, wr, msg[..]);
      }
      assert forall g :: g in dev.groups <==> g in old(dev.groups);
    }

    /** DHCP_SendDISCOVER */
    method SendDiscover() returns (rc: Status, ghost wr: u16)
      requires Ready()
      modifies msg, dev`at, dev`cmdDelays, dev`srReads, dev`clock, dev`socks, dev`groups,
               dev`doubleFree, dev`allocs, dev`nextHandle, dev`snEvent, dev`arrivals
      ensures Ready() && dev.at > old(dev.at)
      ensures dev.doubleFree == (old(dev.doubleFree) || Dangling(old(dev.snEvent), old(dev.groups), sn))
      ensures SlotsLiveBut(old(dev.snEvent), old(dev.groups), sn) ==> SlotsLiveBut(dev.snEvent, dev.groups, sn)
      ensures SlotsLiveBut(old(dev.snEvent), old(dev.groups), sn) && rc == Ok ==> SlotsLive(dev.snEvent, dev.groups)
      ensures rc == Ok ==>
                msg[..] == Message(old(msg[..]), dev.mac, DiscoverOptions(dev.mac, hostName))
                && Sent(wr)
    {
      rc, wr := Transmit(DiscoverOptions(dev.mac, hostName));
    }

    /** DHCP_SendREQUEST, asking for `clientIp`. */
    method SendRequest() returns (rc: Status, ghost wr: u16)
      requires Ready()
      modifies msg, dev`at, dev`cmdDelays, dev`srReads, dev`clock, dev`socks, dev`groups,
               dev`doubleFree, dev`allocs, dev`nextHandle, dev`snEvent, dev`arrivals
      ensures Ready() && dev.at > old(dev.at)
      ensures dev.doubleFree == (old(dev.doubleFree) || Dangling(old(dev.snEvent), old(dev.groups), sn))
      ensures SlotsLiveBut(old(dev.snEvent), old(dev.groups), sn) ==> SlotsLiveBut(dev.snEvent, dev.groups, sn)
      ensures SlotsLiveBut(old(dev.snEvent), old(dev.groups), sn) && rc == Ok ==> SlotsLive(dev.snEvent, dev.groups)
      ensures rc == Ok ==>
                msg[..] == Message(old(msg[..]), dev.mac, RequestOptions(dev.mac, hostName, clientIp))
                && Sent(wr)
    {
      rc, wr := Transmit(RequestOptions(dev.mac, hostName, clientIp));
    }

    /**
     * DHCP_Receive: one datagram of at most 548 bytes into the buffer, the
     * server address from its header, the byte swaps, then the reply checks.
     * The socket receive writes the payload straight into the buffer, so a
     * receive that fails only at its Sn_RX_RD write leaves the payload there.
     */
    method Receive() returns (rc: Status, msgType: u8, ghost sockRc: Status, ghost datagram: seq<u8>)
      requires Ready() && dev.EventReady(sn)
      modifies msg, this`serverIp, dev`at, dev`socks, dev`groups, dev`arrivals
      ensures Ready() && dev.EventReady(sn)
      ensures dev.groups.Keys == old(dev.groups).Keys
      ensures sockRc == Ok || sockRc == RecvTimeout || sockRc == RxOverflow
              || (IsSpiFault(sockRc) && FaultOf(dev.bus, old(dev.at), sockRc))
      ensures dev.socks == old(dev.socks)[sn := dev.socks[sn]]
      ensures |datagram| <= DHCP_MSG_SIZE
      ensures sockRc != Ok ==> rc == sockRc && dev.socks == old(dev.socks) && msg[..] == Overlay(old(msg[..]), datagram)
      ensures sockRc == RecvTimeout || sockRc == RxOverflow ==> datagram == []
      ensures sockRc == RecvTimeout ==> serverIp == old(serverIp)
      ensures sockRc == Ok || sockRc == RxOverflow ==>
                var hdr := RingRead(old(dev.socks)[sn].rxBuf, old(dev.socks)[sn].rxRd, PACKET_HEADER_SIZE);
                serverIp == hdr[..IPV4_BYTES]
      ensures datagram != [] ==> UdpPayload(old(dev.socks)[sn], DHCP_MSG_SIZE as u16, datagram)
      ensures sockRc == Ok ==>
                var s := old(dev.socks)[sn];
                UdpPayload(s, DHCP_MSG_SIZE as u16, datagram)
                && dev.socks[sn] == s.(rxRd := AddPtr(s.rxRd, PACKET_HEADER_SIZE + |datagram|))
                && msg[..] == HostOrder(Overlay(old(msg[..]), datagram))
                && match Validate(msg[..], past)
                   case Accepted(t) => rc == Ok && msgType == t
                   case Rejected(e) => rc == e
    {
      msgType := 0;
      var data;
      ghost var port;
      rc, data, port := Fetch();
      sockRc, datagram := rc, data;
      Store(data);
      if rc != Ok {
        return;
      }
      SwapHeader();
      rc, msgType := Check();
    }

    /**
     * W5500_SocketRecieveUDP into the buffer's owner: the server address is
     * copied whenever the header was read, and `data` is what the receive
     * wrote into the buffer.
     */
    method Fetch() returns (rc: Status, data: seq<u8>, ghost port: u16)
      requires Ready() && dev.EventReady(sn)
      modifies this`serverIp, dev`at, dev`socks, dev`groups, dev`arrivals
      ensures Ready() && dev.EventReady(sn)
      ensures dev.groups.Keys == old(dev.groups).Keys
      ensures rc == Ok || rc == RecvTimeout || rc == RxOverflow || (IsSpiFault(rc) && FaultOf(dev.bus, old(dev.at), rc))
      ensures dev.socks == old(dev.socks)[sn := dev.socks[sn]]
      ensures rc != Ok ==> dev.socks == old(dev.socks)
      ensures rc == RecvTimeout ==> serverIp == old(serverIp) && data == []
      ensures rc == Ok || rc == RxOverflow ==>
                ReadUdpDone(old(dev.socks)[sn], DHCP_MSG_SIZE as u16, rc, data, serverIp, port, dev.socks[sn])
      ensures rc != Ok ==> data == [] || (IsSpiFault(rc) && UdpPayload(old(dev.socks)[sn], DHCP_MSG_SIZE as u16, data))
      ensures |data| <= DHCP_MSG_SIZE
    {
      var sourceIp;
      rc, data, sourceIp, port := dev.ReceiveUdp(sn, DHCP_MSG_SIZE as u16, RECV_TIMEOUT);
      if |sourceIp| == IPV4_BYTES {
        serverIp := sourceIp;
      }
    }

    /** The checks of DHCP_Receive on the buffer, in order. */
    method Check() returns (rc: Status, msgType: u8)
      requires msg.Length == DHCP_MSG_SIZE && |past| == PAST_SIZE
      ensures match Validate(msg[..], past)
              case Accepted(t) => rc == Ok && msgType == t
              case Rejected(e) => rc == e
    {
      msgType := 0;
      if msg[0] != BOOTREPLY {
        return DhcpBadOpcode, msgType;
      }
      var i := 0;
      while i < MAGIC_COOKIE_SIZE
        invariant i <= MAGIC_COOKIE_SIZE
        invariant msg[OPT_AT..OPT_AT + i] == MAGIC_COOKIE[..i]
      {
        if msg[OPT_AT + i] != MAGIC_COOKIE[i] {
          return DhcpNoCookie, msgType;
        }
        i := i + 1;
      }
      assert msg[OPT_AT..][..MAGIC_COOKIE_SIZE] == msg[OPT_AT..OPT_AT + MAGIC_COOKIE_SIZE];
      i := GetOptionPointer(OPT_MESSAGE_TYPE);
      if i == 0 {
        return DhcpMissingType, msgType;
      }
      var len := OptByte(i);
      i := i + 1;
      if len != 1 {
        return DhcpCorruptOption, msgType;
      }
      return Ok, OptByte(i);
    }

    // -------------------------------------------------------------------
    // Reading the options of an ACK

    /** Option 51 as HandleREQUESTING and HandleRENEWING read it. */
    method ReadLease() returns (r: Option<u32>)
      requires msg.Length == DHCP_MSG_SIZE && |past| == PAST_SIZE
      ensures r == LeaseOption(Opt(msg[..]))
    {
      var i := GetOptionPointer(OPT_LEASE_TIME);
      if i == 0 || i + 4 >= DHCP_OPT_SIZE || msg[OPT_AT + i] != 4 {
        return None;
      }
      var at := OPT_AT + i + 1;
      r := Some(LeaseSeconds(msg[at], msg[at + 1], msg[at + 2], msg[at + 3]));
      assert Opt(msg[..])[i + 1..i + 5] == msg[at..at + 4];
    }

    /** Option 1: length exactly four. */
    method ReadSubnet() returns (r: Option<seq<u8>>)
      requires msg.Length == DHCP_MSG_SIZE && |past| == PAST_SIZE
      ensures r == SubnetOption(Opt(msg[..]))
    {
      var i := GetOptionPointer(OPT_SUBNET_MASK);
      if i == 0 || i + IPV4_BYTES >= DHCP_OPT_SIZE || msg[OPT_AT + i] != IPV4_BYTES as u8 {
        return None;
      }
      r := Some(msg[OPT_AT + i + 1..OPT_AT + i + 1 + IPV4_BYTES]);
      assert Opt(msg[..])[i + 1..i + 1 + IPV4_BYTES] == r.value;
    }

    /** Option 3: a length that is a multiple of four; the first address is used. */
    method ReadRouter() returns (r: Option<seq<u8>>)
      requires msg.Length == DHCP_MSG_SIZE && |past| == PAST_SIZE
      ensures r == RouterOption(Opt(msg[..]))
    {
      var i := GetOptionPointer(OPT_ROUTER);
      if i == 0 || i + IPV4_BYTES >= DHCP_OPT_SIZE || msg[OPT_AT + i] % IPV4_BYTES as u8 != 0 {
        return None;
      }
      r := Some(msg[OPT_AT + i + 1..OPT_AT + i + 1 + IPV4_BYTES]);
      assert Opt(msg[..])[i + 1..i + 1 + IPV4_BYTES] == r.value;
    }

    /**
     * The lease part of an ACK: the tick count is taken before the lease
     * option is looked at; the derated, rate-scaled lease is kept only
     * when the option is there.
     */
    method ApplyLease(now: u32) returns (ok: bool)
      requires msg.Length == DHCP_MSG_SIZE && |past| == PAST_SIZE && tickRate > 0
      modifies this`leaseTick, this`leaseDuration
      ensures leaseTick == now
      ensures var lease := LeaseOption(Opt(msg[..]));
              (ok <==> lease.Some?)
              && leaseDuration == if ok then LeaseDuration(lease.value, tickRate) else old(leaseDuration)
    {
      leaseTick := now;
      var lease := ReadLease();
      if lease.None? {
        return false;
      }
      leaseDuration := LeaseDuration(lease.value, tickRate);
      ok := true;
    }

    /**
     * The address part of an ACK, in the source's order: SIPR is written
     * with the offered address before the subnet option is looked at, and
     * SUBR before the router option is. `bound` says all three were set.
     * After a failed write each register holds either its old value or
     * the one it was to receive.
     */
    method ApplyAddresses() returns (bound: bool, regRc: Status)
      requires Ready()
      modifies dev`at, dev`sipr, dev`subr, dev`gar
      ensures Ready() && dev.at > old(dev.at)
      ensures regRc == Ok || (IsSpiFault(regRc) && FaultOf(dev.bus, old(dev.at), regRc))
      ensures var subnet := SubnetOption(Opt(msg[..]));
              var router := RouterOption(Opt(msg[..]));
              (bound <==> regRc == Ok && subnet.Some? && router.Some?)
              && (regRc == Ok ==>
                    dev.sipr == clientIp
                    && dev.subr == (if subnet.Some? then subnet.value else old(dev.subr))
                    && dev.gar == (if subnet.Some? && router.Some? then router.value else old(dev.gar)))
              && (dev.sipr == old(dev.sipr) || dev.sipr == clientIp)
              && (dev.subr == old(dev.subr) || subnet == Some(dev.subr))
              && (dev.gar == old(dev.gar) || router == Some(dev.gar))
    {
      bound := false;
      regRc := dev.SetSipr(clientIp);
      if regRc != Ok {
        return;
      }
      var subnet := ReadSubnet();
      if subnet.None? {
        return;
      }
      ghost var at1 := dev.at;
      regRc := dev.SetSubr(subnet.value);
      if regRc != Ok {
        LaterFault(dev.bus, old(dev.at), at1, regRc);
        return;
      }
      var router := ReadRouter();
      if router.None? {
        return;
      }
      ghost var at2 := dev.at;
      regRc := dev.SetGar(router.value);
      if regRc != Ok {
        LaterFault(dev.bus, old(dev.at), at2, regRc);
        return;
      }
      bound := true;
    }

    // -------------------------------------------------------------------
    // The handlers

    /**
     * DHCP_HandleINIT: configure the chip for DHCP and send a DISCOVER;
     * either failure costs a 3000-tick delay and leaves the state INIT.
     */
    method HandleInit() returns (rc: Status, ghost initRc: Status, ghost wr: u16)
      requires Valid() && state == INIT
      modifies msg, this`state, this`actions, dev`at, dev`cmdDelays, dev`srReads, dev`clock, dev`socks,
               dev`groups, dev`doubleFree, dev`allocs, dev`nextHandle, dev`snEvent, dev`arrivals,
               dev`sipr, dev`gar, dev`subr
      ensures Valid() && state in Successors(old(state))
      ensures state == (if rc == Ok then SELECTING else INIT)
      ensures actions == if rc == Ok then old(actions) else old(actions) + [Delay(INIT_FAIL_TIMEOUT)]
      ensures initRc != Ok ==> rc == initRc
      ensures dev.doubleFree == (old(dev.doubleFree) || (initRc == Ok && Dangling(old(dev.snEvent), old(dev.groups), sn)))
      ensures SlotsLiveBut(old(dev.snEvent), old(dev.groups), sn) ==> SlotsLiveBut(dev.snEvent, dev.groups, sn)
      ensures SlotsLiveBut(old(dev.snEvent), old(dev.groups), sn) && rc == Ok ==> SlotsLive(dev.snEvent, dev.groups)
      ensures rc == Ok ==>
                dev.sipr == [0, 0, 0, 0] && dev.gar == [0, 0, 0, 0] && dev.subr == [0, 0, 0, 0]
                && msg[..] == Message(old(msg[..]), dev.mac, DiscoverOptions(dev.mac, hostName))
                && Sent(wr)
    {
      wr := 0;
      rc := Initialize();
      initRc := rc;
      if rc != Ok {
        actions := actions + [Delay(INIT_FAIL_TIMEOUT)];
        return;
      }
      rc, wr := SendDiscover();
      if rc != Ok {
        actions := actions + [Delay(INIT_FAIL_TIMEOUT)];
        return;
      }
      state := SELECTING;
    }

    /**
     * DHCP_HandleSELECTING: an OFFER gives the client its address and is
     * answered with a REQUEST; any other outcome goes back to INIT.
     * `reply` is the buffer as DHCP_Receive left it.
     */
    method HandleSelecting() returns (rc: Status, msgType: u8, ghost reply: seq<u8>, sendRc: Status)
      requires Valid() && state == SELECTING
      modifies msg, this`clientIp, this`serverIp, this`state, dev`at, dev`cmdDelays, dev`srReads, dev`clock,
               dev`socks, dev`groups, dev`doubleFree, dev`allocs, dev`nextHandle, dev`snEvent, dev`arrivals
      ensures Valid() && state in Successors(old(state))
      ensures dev.doubleFree
              == (old(dev.doubleFree) || (rc == Ok && msgType == OFFER && Dangling(old(dev.snEvent), old(dev.groups), sn)))
      ensures SlotsLiveBut(old(dev.snEvent), old(dev.groups), sn) ==> SlotsLiveBut(dev.snEvent, dev.groups, sn)
      ensures |reply| == DHCP_MSG_SIZE
      ensures rc == Ok ==> Validate(reply, past) == Accepted(msgType)
      ensures var offered := rc == Ok && msgType == OFFER;
              clientIp == (if offered then reply[YIADDR_AT..YIADDR_AT + IPV4_BYTES] else old(clientIp))
              && (state == REQUESTING <==> offered && sendRc == Ok)
              && (!offered ==> msg[..] == reply && sendRc == Ok)
              && (state == REQUESTING ==>
                    msg[..] == Message(reply, dev.mac, RequestOptions(dev.mac, hostName, clientIp)))
    {
      ghost var sockRc, datagram;
      rc, msgType, sockRc, datagram := Receive();
      reply, sendRc := msg[..], Ok;
      if rc != Ok || msgType != OFFER {
        state := INIT;
        return;
      }
      clientIp := msg[YIADDR_AT..YIADDR_AT + IPV4_BYTES];
      ghost var wr;
      sendRc, wr := SendRequest();
      state := if sendRc == Ok then REQUESTING else INIT;
    }

    /**
     * DHCP_HandleREQUESTING: an ACK sets the lease, then SIPR, SUBR and GAR
     * from the offered address and the subnet and router options, and binds;
     * a NAK, any other reply, a timeout, a missing option or a failed write
     * goes back to INIT.
     */
    method HandleRequesting(now: u32) returns (rc: Status, msgType: u8, ghost regRc: Status)
      requires Valid() && state == REQUESTING
      modifies msg, this`serverIp, this`leaseTick, this`leaseDuration, this`state,
               dev`at, dev`socks, dev`groups, dev`arrivals, dev`sipr, dev`subr, dev`gar
      ensures Valid() && state in Successors(old(state))
      ensures dev.groups.Keys == old(dev.groups).Keys
      ensures rc == Ok ==> Validate(msg[..], past) == Accepted(msgType)
      ensures regRc == Ok || IsSpiFault(regRc)
      ensures var opt := Opt(msg[..]);
              var acked := rc == Ok && msgType == ACK;
              var lease := LeaseOption(opt);
              leaseTick == (if acked then now else old(leaseTick))
              && leaseDuration == (if acked && lease.Some? then LeaseDuration(lease.value, tickRate) else old(leaseDuration))
              && (state == BOUND <==>
                    acked && lease.Some? && SubnetOption(opt).Some? && RouterOption(opt).Some? && regRc == Ok)
              && (state == BOUND ==>
                    dev.sipr == clientIp && dev.subr == SubnetOption(opt).value && dev.gar == RouterOption(opt).value)
              && (acked && lease.Some? && regRc == Ok ==> dev.sipr == clientIp)
              && (!(acked && lease.Some?) ==>
                    regRc == Ok && dev.sipr == old(dev.sipr) && dev.subr == old(dev.subr) && dev.gar == old(dev.gar))
    {
      regRc := Ok;
      ghost var sockRc, datagram;
      rc, msgType, sockRc, datagram := Receive();
      state := INIT;
      if rc != Ok || msgType != ACK {
        return;
      }
      regRc := AcceptAck(now);
    }

    /** The ACK part of HandleREQUESTING: take the lease, then the addresses. */
    method AcceptAck(now: u32) returns (ghost regRc: Status)
      requires Ready() && state == INIT
      modifies this`leaseTick, this`leaseDuration, this`state, dev`at, dev`sipr, dev`subr, dev`gar
      ensures Ready() && (state == BOUND || state == INIT)
      ensures regRc == Ok || IsSpiFault(regRc)
      ensures var opt := Opt(msg[..]);
              var lease := LeaseOption(opt);
              leaseTick == now
              && leaseDuration == (if lease.Some? then LeaseDuration(lease.value, tickRate) else old(leaseDuration))
              && (state == BOUND <==> lease.Some? && SubnetOption(opt).Some? && RouterOption(opt).Some? && regRc == Ok)
              && (state == BOUND ==>
                    dev.sipr == clientIp && dev.subr == SubnetOption(opt).value && dev.gar == RouterOption(opt).value)
              && (lease.Some? && regRc == Ok ==> dev.sipr == clientIp)
              && (lease.None? ==> regRc == Ok && dev.sipr == old(dev.sipr) && dev.subr == old(dev.subr) && dev.gar == old(dev.gar))
    {
      regRc := Ok;
      ghost var opt := Opt(msg[..]);
      var ok := ApplyLease(now);
      if !ok {
        return;
      }
      ghost var duration := leaseDuration;
      var bound;
      bound, regRc := ApplyAddresses();
      assert Opt(msg[..]) == opt && leaseDuration == duration;
      if bound {
        state := BOUND;
      }
    }

    /**
     * DHCP_HandleBOUND: resume the bound tasks, sleep until the lease is
     * due for renewal, send a REQUEST, suspend the bound tasks. The sleep
     * is the one written, which wraps once the lease has run out.
     */
    method HandleBound(now: u32) returns (rc: Status, ghost wr: u16)
      requires Valid() && state == BOUND
      modifies msg, this`state, this`actions, dev`at, dev`cmdDelays, dev`srReads, dev`clock, dev`socks,
               dev`groups, dev`doubleFree, dev`allocs, dev`nextHandle, dev`snEvent, dev`arrivals
      ensures Valid() && state in Successors(old(state))
      ensures state == (if rc == Ok then RENEWING else INIT)
      ensures actions == old(actions) + BoundTasks(true) + [Delay(SleepAsWritten(leaseDuration, leaseTick, now))]
                         + BoundTasks(false)
      ensures dev.doubleFree == (old(dev.doubleFree) || Dangling(old(dev.snEvent), old(dev.groups), sn))
      ensures SlotsLiveBut(old(dev.snEvent), old(dev.groups), sn) ==> SlotsLiveBut(dev.snEvent, dev.groups, sn)
      ensures SlotsLiveBut(old(dev.snEvent), old(dev.groups), sn) && rc == Ok ==> SlotsLive(dev.snEvent, dev.groups)
      ensures rc == Ok ==>
                msg[..] == Message(old(msg[..]), dev.mac, RequestOptions(dev.mac, hostName, clientIp))
                && Sent(wr)
    {
      ForBoundTasks(true);
      actions := actions + [Delay(SleepAsWritten(leaseDuration, leaseTick, now))];
      rc, wr := SendRequest();
      state := if rc == Ok then RENEWING else INIT;
      ForBoundTasks(false);
    }

    /** One scheduler call per bound task, in task order. */
    method ForBoundTasks(resume: bool)
      modifies this`actions
      ensures actions == old(actions) + BoundTasks(resume)
    {
      for k := 0 to NUM_BOUND_TASKS
        invariant actions == old(actions) + BoundTasks(resume)[..k]
      {
        assert BoundTasks(resume)[..k + 1] == BoundTasks(resume)[..k] + [TaskCall(resume, k)];
        actions := actions + [TaskCall(resume, k)];
      }
    }

    /**
     * DHCP_HandleRENEWING: an ACK with a lease option renews the lease and
     * binds again; anything else goes back to INIT. The addresses are not
     * written again.
     */
    method HandleRenewing(now: u32) returns (rc: Status, msgType: u8)
      requires Valid() && state == RENEWING
      modifies msg, this`serverIp, this`leaseTick, this`leaseDuration, this`state,
               dev`at, dev`socks, dev`groups, dev`arrivals
      ensures Valid() && state in Successors(old(state))
      ensures dev.groups.Keys == old(dev.groups).Keys
      ensures rc == Ok ==> Validate(msg[..], past) == Accepted(msgType)
      ensures var acked := rc == Ok && msgType == ACK;
              var lease := LeaseOption(Opt(msg[..]));
              leaseTick == (if acked then now else old(leaseTick))
              && (state == BOUND <==> acked && lease.Some?)
              && leaseDuration == (if state == BOUND then LeaseDuration(lease.value, tickRate) else old(leaseDuration))
    {
      ghost var sockRc, datagram;
      rc, msgType, sockRc, datagram := Receive();
      state := INIT;
      if rc != Ok || msgType != ACK {
        return;
      }
      var ok := ApplyLease(now);
      if ok {
        state := BOUND;
      }
    }

    /**
     * One pass of the DHCP_ClientTask loop: the handler of the current
     * state, or a reset to INIT for a state without one. `now` is what
     * xTaskGetTickCount returns to the handler that asks. Whether the pass
     * reopens the socket depends on the handler and its outcome, so across
     * all states a double free is only bounded by a dangling slot; the
     * handlers state exactly when one is recorded.
     */
    method Step(now: u32)
      requires Valid()
      modifies msg, this`clientIp, this`serverIp, this`leaseTick, this`leaseDuration, this`state, this`actions,
               dev`at, dev`cmdDelays, dev`srReads, dev`clock, dev`socks, dev`groups, dev`doubleFree,
               dev`allocs, dev`nextHandle, dev`snEvent, dev`arrivals, dev`sipr, dev`gar, dev`subr
      ensures Valid() && state in Successors(old(state))
      ensures dev.doubleFree ==> old(dev.doubleFree) || Dangling(old(dev.snEvent), old(dev.groups), sn)
      ensures SlotsLiveBut(old(dev.snEvent), old(dev.groups), sn) ==> SlotsLiveBut(dev.snEvent, dev.groups, sn)
      ensures !Handled(old(state)) ==> state == INIT && dev.at == old(dev.at) && msg[..] == old(msg[..])
    {
      if state == INIT {
        var rc, initRc, wr := HandleInit();
      } else if state == SELECTING {
        var rc, msgType, reply, sendRc := HandleSelecting();
      } else if state == REQUESTING {
        var rc, msgType, regRc := HandleRequesting(now);
      } else if state == BOUND {
        var rc, wr := HandleBound(now);
      } else if state == RENEWING {
        var rc, msgType := HandleRenewing(now);
      } else {
        state := INIT;
      }
    }
  }
}
