/**
 * The publish-only MQTT client of user/w5500/mqtt.c: open and connect a
 * TCP socket, send CONNECT and check the CONNACK, and publish a QoS 0
 * message by writing it into the socket's TX buffer in four parts and
 * committing it with one SEND.
 */
module Mqtt {
  import opened BitOps
  import opened Constants
  import opened W5500Regs
  import opened Ring
  import opened W5500Socket
  import opened MqttPacket

  /** Server acknowledgment, connection and send timeouts, in ticks. */
  const MQTT_ACK_TIMEOUT: u32 := 1000
  const MQTT_CON_TIMEOUT: u32 := 500
  const MQTT_SEND_TIMEOUT: u32 := 100

  /**
   * The TX buffer of socket sn holds `parts` written from Sn_TX_WR on and
   * nothing else has changed; `fsr` and `ptr` are the running free size and
   * write pointer MQTT_Publish passes from one part to the next.
   */
  ghost predicate Staged(socks0: seq<Socket>, socks: seq<Socket>, sn: nat, parts: seq<u8>, fsr: u32, ptr: u32)
  {
    sn < |socks0| && |parts| <= socks0[sn].txFsr
    && fsr == socks0[sn].txFsr - |parts| && ptr == AddPtr(socks0[sn].txWr, |parts|)
    && socks == socks0[sn := socks0[sn].(txBuf := RingWrite(socks0[sn].txBuf, socks0[sn].txWr, parts))]
  }

  /** Only the TX buffer of socket sn differs: bytes were written but Sn_TX_WR was not committed. */
  ghost predicate Uncommitted(socks0: seq<Socket>, socks: seq<Socket>, sn: nat)
  {
    sn < |socks0| && sn < |socks| && socks == socks0[sn := socks0[sn].(txBuf := socks[sn].txBuf)]
  }

  /** A part written at the running pointer extends the staged bytes. */
  lemma StageNext(socks0: seq<Socket>, socks1: seq<Socket>, socks2: seq<Socket>, sn: nat, parts: seq<u8>, data: seq<u8>,
                  fsr: u32, ptr: u32, fsr': u32, ptr': u32)
    requires Staged(socks0, socks1, sn, parts, fsr, ptr) && |data| <= fsr
    requires fsr' == fsr - |data| && ptr' == AddPtr(ptr, |data|)
    requires socks2 == socks1[sn := socks1[sn].(txBuf := RingWrite(socks1[sn].txBuf, ptr, data))]
    ensures Staged(socks0, socks2, sn, parts + data, fsr', ptr')
  {
    var s0 := socks0[sn];
    assert |parts + data| <= s0.txFsr && fsr' == s0.txFsr - |parts + data|;
    assert ptr' == AddPtr(s0.txWr, |parts + data|) by {
      AddPtrAdd(s0.txWr, |parts|, |data|);
    }
    var b1 := RingWrite(s0.txBuf, s0.txWr, parts);
    var b2 := RingWrite(b1, ptr, data);
    assert socks2 == socks0[sn := s0.(txBuf := RingWrite(s0.txBuf, s0.txWr, parts + data))] by {
      WriteContiguous(s0.txBuf, s0.txWr, parts, data);
      TxBufTwice(socks0, socks1, socks2, sn, b1, b2);
    }
  }

  /** Two writes of socket sn's TX buffer leave what the second wrote. */
  lemma TxBufTwice(socks0: seq<Socket>, socks1: seq<Socket>, socks2: seq<Socket>, sn: nat, b1: seq<u8>, b2: seq<u8>)
    requires sn < |socks0| && |b1| == RING && |b2| == RING
    requires socks1 == socks0[sn := socks0[sn].(txBuf := b1)]
    requires socks2 == socks1[sn := socks1[sn].(txBuf := b2)]
    ensures socks2 == socks0[sn := socks0[sn].(txBuf := b2)]
  {
  }

  /**
   * The staged bytes `p` were committed: Sn_TX_WR moved past them and a SEND
   * was issued, nothing else changed.
   */
  ghost predicate Committed(socks0: seq<Socket>, socks: seq<Socket>, sn: nat, p: seq<u8>)
  {
    sn < |socks0| && |p| <= RING
    && var s := socks0[sn];
       socks == socks0[sn := s.(txBuf := RingWrite(s.txBuf, s.txWr, p),
                                txWr := AddPtr(s.txWr, |p|), cmds := s.cmds + [CmdSend])]
  }

  /**
   * The request `p` was committed as in Committed and the reply waiting in
   * the RX buffer was consumed: Sn_RX_RD moved past all Sn_RX_RSR bytes.
   */
  ghost predicate Exchanged(socks0: seq<Socket>, socks: seq<Socket>, sn: nat, p: seq<u8>)
  {
    sn < |socks0| && |p| <= RING
    && var s := socks0[sn];
       socks == socks0[sn := s.(txBuf := RingWrite(s.txBuf, s.txWr, p),
                                txWr := AddPtr(s.txWr, |p|), cmds := s.cmds + [CmdSend],
                                rxRd := AddPtr(s.rxRd, s.rxRsr))]
  }

  /** A commit followed by a receive that consumed everything pending is an exchange. */
  lemma CommitThenReceive(socks0: seq<Socket>, socks1: seq<Socket>, socks2: seq<Socket>, sn: nat, p: seq<u8>)
    requires Committed(socks0, socks1, sn, p)
    requires socks2 == socks1[sn := socks1[sn].(rxRd := AddPtr(socks1[sn].rxRd, socks1[sn].rxRsr))]
    ensures Exchanged(socks0, socks2, sn, p)
    ensures socks1[sn].rxBuf == socks0[sn].rxBuf && socks1[sn].rxRd == socks0[sn].rxRd
    ensures socks1[sn].rxRsr == socks0[sn].rxRsr
  {
  }

  /** mqtt_client_t: the device, the socket it uses, the server address and both ports. */
  class MqttClient {
    const dev: W5500
    const sn: nat
    const ip: seq<u8>
    const destinationPort: u16
    const sourcePort: u16

    predicate Valid()
      reads dev
    {
      dev.Valid() && sn < NUM_SOCKETS && |ip| == IPV4_BYTES
    }

    constructor (dev: W5500, sn: nat, ip: seq<u8>, destinationPort: u16, sourcePort: u16)
      requires dev.Valid() && sn < NUM_SOCKETS && |ip| == IPV4_BYTES
      ensures Valid()
      ensures this.dev == dev && this.sn == sn && this.ip == ip
      ensures this.destinationPort == destinationPort && this.sourcePort == sourcePort
    {
      this.dev := dev;
      this.sn := sn;
      this.ip := ip;
      this.destinationPort := destinationPort;
      this.sourcePort := sourcePort;
    }

    /**
     * MQTT_Initialize: open the socket for TCP on the source port, then
     * connect it to the server; the first failure is returned.
     */
    method Initialize() returns (rc: Status)
      requires Valid()
      modifies dev`at, dev`cmdDelays, dev`srReads, dev`clock, dev`socks, dev`groups,
               dev`doubleFree, dev`allocs, dev`nextHandle, dev`snEvent, dev`arrivals
      ensures Valid()
      ensures rc == Ok || rc == StatusTimeout || rc == OsMemoryError || rc == ConTimeout
              || (IsSpiFault(rc) && FaultOf(dev.bus, old(dev.at), rc))
      ensures dev.socks == old(dev.socks)[sn := dev.socks[sn]]
      ensures Reopened(old(dev.snEvent), old(dev.groups), old(dev.doubleFree),
                       dev.snEvent, dev.groups, dev.doubleFree, sn, rc == Ok || rc == OsMemoryError)
      ensures rc == Ok ==>
                dev.EventReady(sn)
                && dev.socks[sn].mr == ProtoCode(ProtoTcp) && dev.socks[sn].sr == OpenedStatus(ProtoTcp).value
                && dev.socks[sn].port == sourcePort
                && dev.socks[sn].dip == ip && dev.socks[sn].dport == destinationPort
                && dev.socks[sn].cmds == old(dev.socks[sn].cmds) + [CmdClose, CmdOpen, CmdConnect]
    {
      rc := dev.Open(sn, ProtoTcp, sourcePort, MQTT_CON_TIMEOUT);
      if rc != Ok {
        return;
      }
      ghost var at1, groups1 := dev.at, dev.groups;
      rc := dev.Connect(sn, ip, destinationPort, MQTT_CON_TIMEOUT);
      ReopenedKeys(old(dev.snEvent), old(dev.groups), old(dev.doubleFree),
                   dev.snEvent, groups1, dev.groups, dev.doubleFree, sn, true);
      if IsSpiFault(rc) {
        LaterFault(dev.bus, old(dev.at), at1, rc);
      }
    }

    /**
     * MQTT_Connect: send the CONNECT, wait for at most a 4-byte reply and
     * check it as written: over the 4-byte stack buffer, whose bytes past a
     * short reply are whatever the stack held (`stale`). `sendRc` is what
     * the send returned and `reply` what the receive returned, when both
     * succeeded.
     */
    method Connect(stale: seq<u8>) returns (rc: Status, ghost sendRc: Status, ghost reply: Option<seq<u8>>)
      requires Valid() && dev.EventReady(sn) && |stale| == MQTT_CONNACK_BUF_LEN
      modifies dev`at, dev`cmdDelays, dev`socks, dev`groups, dev`arrivals
      ensures Valid() && dev.EventReady(sn)
      ensures rc == Ok || rc == MqttBadPacket || rc == MqttConRefused
              || rc == TxOverflow || rc == SendTimeout || rc == SocketDisconnected || rc == RecvTimeout || rc == RxOverflow
              || (IsSpiFault(rc) && FaultOf(dev.bus, old(dev.at), rc))
      ensures sendRc != Ok ==> rc == sendRc && reply.None?
      ensures !IsSpiFault(sendRc) ==> (sendRc == SocketDisconnected <==> Latched(old(dev.Bits(sn))))
      ensures sendRc != Ok && sendRc != SendTimeout ==> dev.groups == old(dev.groups) && dev.arrivals == old(dev.arrivals)
      ensures sendRc == SendTimeout ==>
                Waited(old(dev.groups), old(dev.arrivals), dev.groups, dev.arrivals, dev.snEvent[sn].value, EVENT_SENDOK)
      ensures sendRc == Ok ==>
                var h := dev.snEvent[sn].value;
                Waited(AfterWait(old(dev.groups), h, Head(old(dev.arrivals), 0), EVENT_SENDOK), Tail(old(dev.arrivals)),
                       dev.groups, dev.arrivals, h, EVENT_RECV | EVENT_DISCON)
      ensures reply.Some? ==>
                var s := old(dev.socks)[sn];
                reply.value == RingRead(s.rxBuf, s.rxRd, s.rxRsr) && s.rxRsr <= MQTT_CONNACK_BUF_LEN
                && rc == ConnackAsWritten(stale, reply.value)
                && Exchanged(old(dev.socks), dev.socks, sn, ConnectPacket())
      ensures sendRc == Ok && reply.None? ==> rc != Ok
      ensures sendRc == TxOverflow || sendRc == SocketDisconnected ==> dev.socks == old(dev.socks)
      ensures sendRc == SendTimeout || (sendRc == Ok && reply.None?) ==>
                Committed(old(dev.socks), dev.socks, sn, ConnectPacket())
    {
      reply := None;
      rc := SendConnect();
      sendRc := rc;
      if rc != Ok {
        return;
      }
      ghost var socks1 := dev.socks;
      ghost var at1 := dev.at;
      rc, reply := AwaitConnack(stale);
      if IsSpiFault(rc) {
        LaterFault(dev.bus, old(dev.at), at1, rc);
      }
      if reply.Some? {
        CommitThenReceive(old(dev.socks), socks1, dev.socks, sn, ConnectPacket());
      }
    }

    /** The first half of MQTT_Connect: send the 14-byte CONNECT packet. */
    method SendConnect() returns (rc: Status)
      requires Valid() && dev.EventReady(sn)
      modifies dev`at, dev`cmdDelays, dev`socks, dev`groups, dev`arrivals
      ensures Valid() && dev.EventReady(sn) && dev.at >= old(dev.at)
      ensures rc == Ok || rc == TxOverflow || rc == SendTimeout || rc == SocketDisconnected
              || (IsSpiFault(rc) && FaultOf(dev.bus, old(dev.at), rc))
      ensures !IsSpiFault(rc) ==>
                (rc == SocketDisconnected <==> Latched(old(dev.Bits(sn))))
                && (rc == TxOverflow <==> !Latched(old(dev.Bits(sn))) && |ConnectPacket()| > old(dev.socks)[sn].txFsr)
      ensures rc == TxOverflow || rc == SocketDisconnected ==> dev.socks == old(dev.socks)
      ensures rc != Ok && rc != SendTimeout ==> dev.groups == old(dev.groups) && dev.arrivals == old(dev.arrivals)
      ensures rc == Ok || rc == SendTimeout ==>
                Committed(old(dev.socks), dev.socks, sn, ConnectPacket())
                && (rc == Ok <==> (old(dev.Bits(sn)) | Head(old(dev.arrivals), 0)) & EVENT_SENDOK != 0)
                && Waited(old(dev.groups), old(dev.arrivals), dev.groups, dev.arrivals, dev.snEvent[sn].value, EVENT_SENDOK)
    {
      var connect := ConnectPacket();
      rc := dev.Send(sn, connect, MQTT_SEND_TIMEOUT);
    }

    /**
     * The second half of MQTT_Connect: receive at most MQTT_CONNACK_BUF_LEN
     * bytes into the stack buffer that holds `stale`, and judge the buffer.
     */
    method AwaitConnack(stale: seq<u8>) returns (rc: Status, ghost reply: Option<seq<u8>>)
      requires Valid() && dev.EventReady(sn) && |stale| == MQTT_CONNACK_BUF_LEN
      modifies dev`at, dev`socks, dev`groups, dev`arrivals
      ensures Valid() && dev.EventReady(sn) && dev.at >= old(dev.at)
      ensures rc == Ok || rc == MqttBadPacket || rc == MqttConRefused
              || rc == SocketDisconnected || rc == RecvTimeout || rc == RxOverflow
              || (IsSpiFault(rc) && FaultOf(dev.bus, old(dev.at), rc))
      ensures Waited(old(dev.groups), old(dev.arrivals), dev.groups, dev.arrivals, dev.snEvent[sn].value,
                     EVENT_RECV | EVENT_DISCON)
      ensures var seen := old(dev.Bits(sn)) | Head(old(dev.arrivals), 0);
              (seen & EVENT_DISCON != 0 ==> rc == SocketDisconnected && reply.None?)
              && (seen & EVENT_DISCON == 0 && seen & EVENT_RECV == 0 ==> rc == RecvTimeout && reply.None?)
      ensures reply.None? ==> rc != Ok && dev.socks == old(dev.socks)
      ensures reply.Some? ==>
                var s := old(dev.socks)[sn];
                reply.value == RingRead(s.rxBuf, s.rxRd, s.rxRsr) && s.rxRsr <= MQTT_CONNACK_BUF_LEN
                && rc == ConnackAsWritten(stale, reply.value)
                && dev.socks == old(dev.socks)[sn := s.(rxRd := AddPtr(s.rxRd, s.rxRsr))]
    {
      reply := None;
      var data;
      rc, data := dev.ReceiveTcp(sn, MQTT_CONNACK_BUF_LEN, MQTT_ACK_TIMEOUT);
      if rc != Ok {
        return;
      }
      reply := Some(data);
      rc := ConnackAsWritten(stale, data);
    }

    /**
     * MQTT_Publish: a QoS 0 PUBLISH of `payload` on `topic`, written in four
     * parts (header, topic length, topic, payload) and committed with one
     * SEND. The topic and payload lengths are uint16_t parameters.
     */
    method Publish(topic: seq<u8>, payload: seq<u8>) returns (rc: Status)
      requires Valid() && dev.EventReady(sn)
      requires |topic| < 0x1_0000 && |payload| < 0x1_0000
      modifies dev`at, dev`cmdDelays, dev`socks, dev`groups, dev`arrivals
      ensures Valid() && dev.EventReady(sn)
      ensures rc == Ok || rc == TxOverflow || rc == SendTimeout || rc == SocketDisconnected
              || (IsSpiFault(rc) && FaultOf(dev.bus, old(dev.at), rc))
      ensures !IsSpiFault(rc) ==>
                (rc == TxOverflow <==> |PublishPacket(topic, payload)| > old(dev.socks)[sn].txFsr)
                && (rc == TxOverflow || rc == SocketDisconnected ==> Uncommitted(old(dev.socks), dev.socks, sn))
                && (rc != TxOverflow ==> (rc == SocketDisconnected <==> Latched(old(dev.Bits(sn)))))
                && (rc == Ok || rc == SendTimeout ==> Committed(old(dev.socks), dev.socks, sn, PublishPacket(topic, payload)))
      ensures rc != Ok && rc != SendTimeout ==> dev.groups == old(dev.groups) && dev.arrivals == old(dev.arrivals)
      ensures rc == Ok || rc == SendTimeout ==>
                (rc == Ok <==> (old(dev.Bits(sn)) | Head(old(dev.arrivals), 0)) & EVENT_SENDOK != 0)
                && Waited(old(dev.groups), old(dev.arrivals), dev.groups, dev.arrivals, dev.snEvent[sn].value, EVENT_SENDOK)
    {
      var fsr, ptr;
      rc, fsr, ptr := WriteParts(topic, payload);
      if rc != Ok {
        return;
      }
      ghost var at1 := dev.at;
      assert dev.groups == old(dev.groups) && dev.arrivals == old(dev.arrivals) && dev.snEvent == old(dev.snEvent);
      assert dev.Bits(sn) == old(dev.Bits(sn));
      rc := Commit(old(dev.socks), PublishPacket(topic, payload), fsr, ptr);
      if IsSpiFault(rc) {
        LaterFault(dev.bus, old(dev.at), at1, rc);
      }
    }

    /** The W5500_SocketSendBuffer that ends MQTT_Publish, with the write pointer past the staged parts. */
    method Commit(ghost socks0: seq<Socket>, ghost p: seq<u8>, fsr: u32, ptr: u32) returns (rc: Status)
      requires Valid() && dev.EventReady(sn) && Staged(socks0, dev.socks, sn, p, fsr, ptr)
      modifies dev`at, dev`cmdDelays, dev`socks, dev`groups, dev`arrivals
      ensures Valid() && dev.EventReady(sn)
      ensures rc == Ok || rc == SendTimeout || rc == SocketDisconnected
              || (IsSpiFault(rc) && FaultOf(dev.bus, old(dev.at), rc))
      ensures !IsSpiFault(rc) ==>
                (rc == SocketDisconnected <==> Latched(old(dev.Bits(sn))))
                && (rc == SocketDisconnected ==> Uncommitted(socks0, dev.socks, sn))
                && (rc != SocketDisconnected ==> Committed(socks0, dev.socks, sn, p))
      ensures rc != Ok && rc != SendTimeout ==> dev.groups == old(dev.groups) && dev.arrivals == old(dev.arrivals)
      ensures rc == Ok || rc == SendTimeout ==>
                (rc == Ok <==> (old(dev.Bits(sn)) | Head(old(dev.arrivals), 0)) & EVENT_SENDOK != 0)
                && Waited(old(dev.groups), old(dev.arrivals), dev.groups, dev.arrivals, dev.snEvent[sn].value, EVENT_SENDOK)
    {
      rc := dev.SendBuffer(sn, Mask16(ptr), MQTT_SEND_TIMEOUT);
      ghost var s0 := socks0[sn];
      if !IsSpiFault(rc) && rc != SocketDisconnected {
        assert dev.socks == socks0[sn := s0.(txBuf := RingWrite(s0.txBuf, s0.txWr, p),
                                             txWr := AddPtr(s0.txWr, |p|), cmds := s0.cmds + [CmdSend])];
      }
    }

    /** The four W5500_SocketWritePart calls of MQTT_Publish. */
    method WriteParts(topic: seq<u8>, payload: seq<u8>) returns (rc: Status, fsr: u32, ptr: u32)
      requires Valid() && |topic| < 0x1_0000 && |payload| < 0x1_0000
      modifies dev`at, dev`socks
      ensures Valid() && dev.at >= old(dev.at)
      ensures rc == Ok || rc == TxOverflow || (IsSpiFault(rc) && FaultOf(dev.bus, old(dev.at), rc))
      ensures rc != Ok ==> Uncommitted(old(dev.socks), dev.socks, sn)
      ensures !IsSpiFault(rc) ==> (rc == TxOverflow <==> |PublishPacket(topic, payload)| > old(dev.socks)[sn].txFsr)
      ensures rc == Ok ==> Staged(old(dev.socks), dev.socks, sn, PublishPacket(topic, payload), fsr, ptr)
    {
      ghost var socks0 := dev.socks;
      var header := PublishHeader(|topic| + |payload| + TOPIC_LEN_BYTES);
      rc, fsr, ptr := dev.WritePart(sn, header, U32_MAX, U32_MAX);
      if rc != Ok {
        return;
      }
      assert socks0[sn].(txBuf := socks0[sn].txBuf) == socks0[sn];
      assert Staged(socks0, dev.socks, sn, header, fsr, ptr);

      var topicLen: u16 := |topic|;
      topicLen := ByteSwap16(topicLen);
      SwapThenStore(|topic|);
      ghost var at1 := dev.at;
      rc, fsr, ptr := Stage(HostBytes(topicLen), socks0, header, fsr, ptr);
      if rc != Ok {
        if IsSpiFault(rc) {
          LaterFault(dev.bus, old(dev.at), at1, rc);
        }
        return;
      }
      ByteSwap16Involution(|topic|);
      topicLen := ByteSwap16(topicLen);

      ghost var parts := header + SwappedField(|topic|);
      at1 := dev.at;
      rc, fsr, ptr := Stage(topic[..topicLen], socks0, parts, fsr, ptr);
      if rc != Ok {
        if IsSpiFault(rc) {
          LaterFault(dev.bus, old(dev.at), at1, rc);
        }
        return;
      }
      assert topic[..topicLen] == topic;

      parts := parts + topic;
      at1 := dev.at;
      rc, fsr, ptr := Stage(payload, socks0, parts, fsr, ptr);
      if IsSpiFault(rc) {
        LaterFault(dev.bus, old(dev.at), at1, rc);
      }
    }

    /**
     * One W5500_SocketWritePart after the first: the part lands right
     * after the ones already staged, or the free size refuses it.
     */
    method Stage(data: seq<u8>, ghost socks0: seq<Socket>, ghost parts: seq<u8>, fsr: u32, ptr: u32)
      returns (rc: Status, fsr': u32, ptr': u32)
      requires Valid() && |data| < RING
      requires |socks0| == NUM_SOCKETS && Staged(socks0, dev.socks, sn, parts, fsr, ptr)
      modifies dev`at, dev`socks
      ensures Valid() && dev.at >= old(dev.at)
      ensures rc == Ok || rc == TxOverflow || (IsSpiFault(rc) && FaultOf(dev.bus, old(dev.at), rc))
      ensures rc != Ok ==> dev.socks == old(dev.socks)
      ensures !IsSpiFault(rc) ==> (rc == TxOverflow <==> |parts| + |data| > socks0[sn].txFsr)
      ensures rc == Ok ==> Staged(socks0, dev.socks, sn, parts + data, fsr', ptr')
    {
      assert fsr != U32_MAX && fsr % RING == fsr;
      assert ptr != U32_MAX && ptr % RING == ptr;
      ghost var socks1 := dev.socks;
      rc, fsr', ptr' := dev.WritePart(sn, data, fsr, ptr);
      if rc == Ok {
        StageNext(socks0, socks1, dev.socks, sn, parts, data, fsr, ptr, fsr', ptr');
      }
    }
  }
}
