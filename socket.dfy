/**
 * The W5500 socket layer (user/w5500/w5500.c): opening and closing sockets
 * with their FreeRTOS event groups, issuing commands, polling the status
 * register, and moving data through the chip's TX/RX buffers with the
 * driver's 16-bit pointer bookkeeping.
 *
 * The chip and the operating system are inputs. The n-th SPI transfer
 * takes its HAL result from bus[n] (HAL_OK past the end of the script). The
 * command register clears after the number of extra polls `cmdDelays`
 * gives, and the status register takes its successive values from
 * `srReads`. The tick count takes its successive readings from `clock`;
 * reading past its end stands for a time after every deadline. The bits
 * the interrupt task sets during an event-group wait come from `arrivals`,
 * and whether xEventGroupCreate finds memory comes from `allocs`.
 */
module W5500Socket {
  import opened BitOps
  import opened Constants
  import opened W5500Regs
  import opened Ring

  const PACKET_HEADER_SIZE: nat := 8

  /** The registers and buffers of one socket, as the driver sees them. */
  datatype Sock = Sock(
    mr: u8, ir: bv8, imr: bv8, sr: u8, port: u16, dip: seq<u8>, dport: u16,
    txFsr: u16, txWr: u16, rxRsr: u16, rxRd: u16,
    rxAck: u16,  // the Sn_RX_RD the chip has taken in, at the last RECV command
    txBuf: seq<u8>, rxBuf: seq<u8>,
    cmds: seq<Cmd>)  // every command the chip has been given, oldest first

  predicate SockValid(s: Sock)
  {
    |s.dip| == IPV4_BYTES && |s.txBuf| == RING && |s.rxBuf| == RING
  }

  /** A socket whose address and buffers have the chip's sizes. */
  type Socket = s: Sock | SockValid(s)
    witness Sock(0, 0, 0, 0, 0, [0, 0, 0, 0], 0, 0, 0, 0, 0, 0, seq(RING, _ => 0), seq(RING, _ => 0), [])

  /**
   * What a command does to the socket: the chip logs it, and RECV makes the
   * chip take in the Sn_RX_RD the driver last wrote.
   */
  function Issued(s: Socket, cmd: Cmd): Socket
  {
    s.(cmds := s.cmds + [cmd], rxAck := if cmd == CmdRecv then s.rxRd else s.rxAck)
  }

  function Head<T>(s: seq<T>, dflt: T): T
  {
    if |s| == 0 then dflt else s[0]
  }

  function Tail<T>(s: seq<T>): seq<T>
  {
    if |s| == 0 then [] else s[1..]
  }

  function Next(clock: seq<u32>): Option<u32>
  {
    if |clock| == 0 then None else Some(clock[0])
  }

  /** The HAL result of the n-th transfer. */
  function HalAt(bus: seq<Hal>, n: nat): Hal
  {
    if n < |bus| then bus[n] else HalOk
  }

  /** `rc` is the cast of a failing HAL result of a transfer numbered `from` or later. */
  predicate FaultOf(bus: seq<Hal>, from: nat, rc: Status)
  {
    exists i | from <= i < |bus| :: bus[i] != HalOk && FromHal(bus[i]) == rc
  }

  predicate FaultFree(bus: seq<Hal>, from: nat)
  {
    forall i | from <= i < |bus| :: bus[i] == HalOk
  }

  /** A failed transfer is a fault to report. */
  lemma HeadFault(bus: seq<Hal>, n: nat)
    requires HalAt(bus, n) != HalOk
    ensures FaultOf(bus, n, FromHal(HalAt(bus, n)))
  {
  }

  /** A fault of a later transfer is a fault of the whole call. */
  lemma LaterFault(bus: seq<Hal>, from: nat, n: nat, rc: Status)
    requires from <= n && FaultOf(bus, n, rc)
    ensures FaultOf(bus, from, rc)
  {
  }

  /** A fault-free bus script has no fault to report. */
  lemma NoFaultOfFaultFree(bus: seq<Hal>, from: nat, rc: Status)
    requires FaultFree(bus, from)
    ensures !FaultOf(bus, from, rc)
  {
  }

  // -----------------------------------------------------------------------
  // Specifications of the two polling loops

  /** Unsigned 32-bit tick subtraction, `now - start`. */
  function Elapsed(start: u32, now: u32): u32
  {
    (now - start) % 0x1_0000_0000
  }

  predicate Expired(start: Option<u32>, now: Option<u32>, timeout: u32)
  {
    now.None? || start.None? || Elapsed(start.value, now.value) >= timeout
  }

  /**
   * The outcome of SocketCommand's auto-clear poll: each poll is a read of
   * Sn_CR that fails with its HAL result or reads non-zero `pending` more
   * times before it reads 0.
   */
  function PollSpec(bus: seq<Hal>, at: nat, pending: nat): Status
    decreases pending
  {
    if HalAt(bus, at) != HalOk then FromHal(HalAt(bus, at))
    else if pending == 0 then Ok
    else PollSpec(bus, at + 1, pending - 1)
  }

  /** SocketCommand fails only with the cast of a failed transfer it made. */
  lemma {:induction false} PollSpecFault(bus: seq<Hal>, at: nat, pending: nat)
    ensures var rc := PollSpec(bus, at, pending); rc == Ok || (IsSpiFault(rc) && FaultOf(bus, at, rc))
    decreases pending
  {
    if HalAt(bus, at) != HalOk {
      HeadFault(bus, at);
    } else if pending > 0 {
      PollSpecFault(bus, at + 1, pending - 1);
      var rc := PollSpec(bus, at, pending);
      if rc != Ok {
        LaterFault(bus, at, at + 1, rc);
      }
    }
  }

  /**
   * The outcome of SocketStatusWait: each round reads Sn_SR (which fails with
   * its HAL result or reads the next scripted value), then gives up if the
   * deadline has passed, and otherwise stops when the status matches.
   */
  function StatusWaitSpec(bus: seq<Hal>, at: nat, srs: seq<u8>, sr: u8, clock: seq<u32>,
                          start: Option<u32>, status: u8, timeout: u32): Status
    decreases |clock|
  {
    if HalAt(bus, at) != HalOk then FromHal(HalAt(bus, at))
    else
      var cur := Head(srs, sr);
      if Expired(start, Next(clock), timeout) then StatusTimeout
      else if cur == status then Ok
      else StatusWaitSpec(bus, at + 1, Tail(srs), cur, Tail(clock), start, status, timeout)
  }

  /** SocketStatusWait ends in success, a timeout, or the cast of a failed transfer it made. */
  lemma {:induction false} StatusWaitFault(bus: seq<Hal>, at: nat, srs: seq<u8>, sr: u8, clock: seq<u32>,
                                           start: Option<u32>, status: u8, timeout: u32)
    ensures var rc := StatusWaitSpec(bus, at, srs, sr, clock, start, status, timeout);
            rc == Ok || rc == StatusTimeout || (IsSpiFault(rc) && FaultOf(bus, at, rc))
    decreases |clock|
  {
    if HalAt(bus, at) != HalOk {
      HeadFault(bus, at);
    } else if !Expired(start, Next(clock), timeout) && Head(srs, sr) != status {
      StatusWaitFault(bus, at + 1, Tail(srs), Head(srs, sr), Tail(clock), start, status, timeout);
      var rc := StatusWaitSpec(bus, at, srs, sr, clock, start, status, timeout);
      if IsSpiFault(rc) {
        LaterFault(bus, at, at + 1, rc);
      }
    }
  }

  /** A zero timeout always times out once the status register has been read. */
  lemma ZeroTimeoutTimesOut(bus: seq<Hal>, at: nat, srs: seq<u8>, sr: u8, clock: seq<u32>,
                            start: Option<u32>, status: u8)
    requires HalAt(bus, at) == HalOk
    ensures StatusWaitSpec(bus, at, srs, sr, clock, start, status, 0) == StatusTimeout
  {
  }

  /** The deadline is checked before the status: a match read too late is a timeout. */
  lemma LateMatchTimesOut(bus: seq<Hal>, at: nat, srs: seq<u8>, sr: u8, clock: seq<u32>,
                          start: u32, status: u8, timeout: u32)
    requires HalAt(bus, at) == HalOk && Head(srs, sr) == status
    requires |clock| > 0 && Elapsed(start, clock[0]) >= timeout
    ensures StatusWaitSpec(bus, at, srs, sr, clock, Some(start), status, timeout) == StatusTimeout
  {
  }

  /** With a fault-free bus, SocketCommand always succeeds. */
  lemma PollSucceeds(bus: seq<Hal>, at: nat, pending: nat)
    requires FaultFree(bus, at)
    ensures PollSpec(bus, at, pending) == Ok
  {
    PollSpecFault(bus, at, pending);
    NoFaultOfFaultFree(bus, at, PollSpec(bus, at, pending));
  }

  /** The TIMEOUT or DISCON event is latched: the connection is gone. */
  predicate Latched(bits: bv8)
  {
    bits & EVENT_TIMEOUT != 0 || bits & EVENT_DISCON != 0
  }

  /**
   * What closing does to the sockets: only socket sn changes; unless a
   * transfer failed, CLOSE was issued and nothing else but the status
   * register changed, and success means the status register read SOCK_CLOSED.
   */
  predicate ShutDown(socks: seq<Socket>, socks': seq<Socket>, sn: nat, rc: Status)
    requires sn < |socks| == |socks'|
  {
    socks' == socks[sn := socks'[sn]]
    && (!IsSpiFault(rc) ==> socks'[sn] == socks[sn].(cmds := socks[sn].cmds + [CmdClose], sr := socks'[sn].sr))
    && (rc == Ok ==> socks'[sn].sr == SR_CLOSED)
  }

  /**
   * A socket SocketOpen left open: interrupts cleared, the five events
   * unmasked, the protocol and port set, and the status register showing
   * the protocol's opened status when it has one.
   */
  predicate Opened(s: Sock, proto: Proto, port: u16)
  {
    s.imr == OPEN_IMR && s.ir == 0 && s.mr == ProtoCode(proto) && s.port == port
    && (OpenedStatus(proto).Some? ==> s.sr == OpenedStatus(proto).value)
  }

  /** The bits left in the group after a wait on `mask` that clears on exit. */
  function Cleared(seen: bv8, mask: bv8): bv8
  {
    if seen & mask != 0 then seen & !mask else seen
  }

  /** The groups after the group `h` was waited on for `mask` while the interrupt task set `arrived`. */
  function AfterWait(groups: map<nat, bv8>, h: nat, arrived: bv8, mask: bv8): map<nat, bv8>
    requires h in groups
  {
    groups[h := Cleared(groups[h] | arrived, mask)]
  }

  /** One wait on the group `h` for `mask`: the next arrival is taken in, then the mask's bits are cleared. */
  predicate Waited(groups0: map<nat, bv8>, arrivals0: seq<bv8>, groups: map<nat, bv8>, arrivals: seq<bv8>,
                   h: nat, mask: bv8)
  {
    h in groups0 && groups == AfterWait(groups0, h, Head(arrivals0, 0), mask) && arrivals == Tail(arrivals0)
  }

  /** Every slot holding a handle holds a live one, and no two slots share one. */
  predicate SlotsLive(slots: seq<Option<nat>>, groups: map<nat, bv8>)
  {
    (forall k | 0 <= k < |slots| && slots[k].Some? :: slots[k].value in groups)
    && (forall k, l | 0 <= k < l < |slots| && slots[k].Some? && slots[l].Some? :: slots[k].value != slots[l].value)
  }

  /**
   * Every slot but sn holds a live handle, and no two slots share one; slot
   * sn may hold a handle whose group is gone.
   */
  predicate SlotsLiveBut(slots: seq<Option<nat>>, groups: map<nat, bv8>, sn: nat)
  {
    (forall k | 0 <= k < |slots| && k != sn && slots[k].Some? :: slots[k].value in groups)
    && (forall k, l | 0 <= k < l < |slots| && slots[k].Some? && slots[l].Some? :: slots[k].value != slots[l].value)
  }

  /** Slot sn still holds a handle whose group has been deleted. */
  predicate Dangling(slots: seq<Option<nat>>, groups: map<nat, bv8>, sn: nat)
  {
    sn < |slots| && slots[sn].Some? && slots[sn].value !in groups
  }

  /** Slot sn holds a group that did not exist before, with no bits set. */
  predicate FreshSlot(groups0: map<nat, bv8>, slots: seq<Option<nat>>, groups: map<nat, bv8>, sn: nat)
  {
    sn < |slots| && slots[sn].Some? && slots[sn].value !in groups0
    && slots[sn].value in groups && groups[slots[sn].value] == 0
  }

  /** Whether slots are live or dangle depends only on which groups exist, not on their bits. */
  lemma SameKeysSameSlots(slots: seq<Option<nat>>, groups: map<nat, bv8>, groups': map<nat, bv8>, sn: nat)
    requires groups.Keys == groups'.Keys
    ensures SlotsLive(slots, groups) == SlotsLive(slots, groups')
    ensures SlotsLiveBut(slots, groups, sn) == SlotsLiveBut(slots, groups', sn)
    ensures Dangling(slots, groups, sn) == Dangling(slots, groups', sn)
  {
    assert forall h :: h in groups <==> h in groups'.Keys;
  }

  /**
   * What reopening socket sn does to the slots, against those before: the
   * double-free flag is raised exactly when slot sn dangled, the other
   * slots stay live, and `live` (a success) leaves every slot live.
   */
  predicate Reopened(slots0: seq<Option<nat>>, groups0: map<nat, bv8>, doubleFree0: bool,
                     slots: seq<Option<nat>>, groups: map<nat, bv8>, doubleFree: bool, sn: nat, live: bool)
  {
    doubleFree == (doubleFree0 || Dangling(slots0, groups0, sn))
    && (SlotsLiveBut(slots0, groups0, sn) ==> SlotsLiveBut(slots, groups, sn))
    && (SlotsLiveBut(slots0, groups0, sn) && live ==> SlotsLive(slots, groups))
  }

  /** Changing the bits of the groups, but not which exist, keeps a reopening's outcome. */
  lemma ReopenedKeys(slots0: seq<Option<nat>>, groups0: map<nat, bv8>, doubleFree0: bool,
                     slots: seq<Option<nat>>, groups: map<nat, bv8>, groups': map<nat, bv8>,
                     doubleFree: bool, sn: nat, live: bool)
    requires Reopened(slots0, groups0, doubleFree0, slots, groups, doubleFree, sn, live)
    requires groups.Keys == groups'.Keys
    ensures Reopened(slots0, groups0, doubleFree0, slots, groups', doubleFree, sn, live)
  {
    SameKeysSameSlots(slots, groups, groups', sn);
  }

  /** Live slots are live but for any one slot, and none of them dangles. */
  lemma LiveSlotsBut(slots: seq<Option<nat>>, groups: map<nat, bv8>, sn: nat)
    requires SlotsLive(slots, groups)
    ensures SlotsLiveBut(slots, groups, sn) && !Dangling(slots, groups, sn)
  {
  }

  /** Deleting slot sn's group keeps the other slots live, since none of them shares its handle. */
  lemma DeleteKeepsLiveBut(slots: seq<Option<nat>>, groups: map<nat, bv8>, sn: nat)
    requires SlotsLiveBut(slots, groups, sn) && sn < |slots| && slots[sn].Some?
    ensures SlotsLiveBut(slots, groups - {slots[sn].value}, sn)
  {
    forall k | 0 <= k < |slots| && k != sn && slots[k].Some?
      ensures slots[k].value in groups - {slots[sn].value}
    {
      if k < sn {
        assert slots[k].value != slots[sn].value;
      } else {
        assert slots[sn].value != slots[k].value;
      }
    }
  }

  /**
   * A handle no slot holds, put in slot sn with a new group, makes every
   * slot live; so does clearing slot sn.
   */
  lemma RefillMakesLive(slots: seq<Option<nat>>, groups: map<nat, bv8>, sn: nat, h: nat)
    requires SlotsLiveBut(slots, groups, sn) && sn < |slots|
    requires forall k | 0 <= k < |slots| && slots[k].Some? :: slots[k].value != h
    ensures SlotsLive(slots[sn := Some(h)], groups[h := 0])
    ensures SlotsLive(slots[sn := None], groups)
  {
  }

  /** Deleting a slot's group and clearing the slot leaves every other slot live. */
  lemma ReleaseKeepsLive(slots: seq<Option<nat>>, groups: map<nat, bv8>, sn: nat)
    requires SlotsLive(slots, groups) && sn < |slots| && slots[sn].Some?
    ensures SlotsLive(slots[sn := None], groups - {slots[sn].value})
  {
    var slots', groups' := slots[sn := None], groups - {slots[sn].value};
    forall k | 0 <= k < |slots'| && slots'[k].Some?
      ensures slots'[k].value in groups'
    {
      if k < sn {
        assert slots[k].value != slots[sn].value;
      } else {
        assert k > sn && slots[sn].value != slots[k].value;
      }
    }
  }

  /**
   * As written, the close deletes the group but the slot keeps the handle:
   * the slots are no longer live, so the next delete through that slot
   * frees the group a second time.
   */
  lemma StaleSlotAfterClose(slots: seq<Option<nat>>, groups: map<nat, bv8>, sn: nat)
    requires sn < |slots| && slots[sn].Some?
    ensures !SlotsLive(slots, groups - {slots[sn].value})
  {
    assert slots[sn].value !in groups - {slots[sn].value};
  }

  /** A new group in a slot leaves the slots live, since its handle is not in use. */
  lemma AcquireKeepsLive(slots: seq<Option<nat>>, groups: map<nat, bv8>, sn: nat, h: nat)
    requires SlotsLive(slots, groups) && sn < |slots| && h !in groups
    ensures SlotsLive(slots[sn := Some(h)], groups[h := 0])
  {
  }

  /** `(uint16_t)(x & UINT16_MAX)` */
  function Mask16(x: u32): (r: u16)
    ensures r == x % RING
  {
    Pow2Values();
    AndLow(x, 16);
    And(x, U16_MAX)
  }

  /**
   * BYTE_SWAP_16 of a packed uint16_t field: the field holds the two wire
   * bytes in host order, and swapping gives the value the wire carries.
   */
  function WireField(b0: u8, b1: u8): (r: u16)
    ensures r == Be16(b0, b1)
  {
    ByteSwap16Decodes(b0, b1);
    ByteSwap16(Le16(b0, b1))
  }

  lemma EmptyWrite(buf: seq<u8>, p: u16)
    requires |buf| == RING
    ensures RingWrite(buf, p, []) == buf
  {
  }

  // -----------------------------------------------------------------------
  // The device

  class W5500 {
    var socks: seq<Socket>
    /** snEvent[]: the event group of each socket; None is NULL. */
    var snEvent: seq<Option<nat>>
    /** The event groups that exist, with their bits. */
    var groups: map<nat, bv8>
    var nextHandle: nat
    /** Set once vEventGroupDelete has been given a group that no longer exists. */
    var doubleFree: bool
    /** The common registers SIPR (source IP), GAR (gateway) and SUBR (subnet mask). */
    var sipr: seq<u8>
    var gar: seq<u8>
    var subr: seq<u8>
    /** dev->mac, the address the device was configured with. */
    const mac: seq<u8>

    const bus: seq<Hal>
    /** How many SPI transfers have been made. */
    var at: nat
    var cmdDelays: seq<nat>
    var srReads: seq<u8>
    var clock: seq<u32>
    var arrivals: seq<bv8>
    var allocs: seq<bool>

    predicate Valid()
      reads this
    {
      |socks| == NUM_SOCKETS && |snEvent| == NUM_SOCKETS
      && (forall h | h in groups :: h < nextHandle)
      && (forall k | 0 <= k < |snEvent| && snEvent[k].Some? :: snEvent[k].value < nextHandle)
      && |mac| == MAC_BYTES
    }

    /** The socket's event group exists: it was opened and not closed since. */
    predicate EventReady(sn: nat)
      reads this
    {
      sn < |snEvent| && snEvent[sn].Some? && snEvent[sn].value in groups
    }

    /** The bits of the socket's event group. */
    function Bits(sn: nat): bv8
      requires EventReady(sn)
      reads this
    {
      groups[snEvent[sn].value]
    }

    constructor (socks0: seq<Socket>, mac: seq<u8>, bus: seq<Hal>, cmdDelays: seq<nat>, srReads: seq<u8>,
                 clock: seq<u32>, arrivals: seq<bv8>, allocs: seq<bool>)
      requires |socks0| == NUM_SOCKETS && |mac| == MAC_BYTES
      ensures Valid() && socks == socks0 && groups == map[] && !doubleFree && at == 0 && this.mac == mac
      ensures forall sn | 0 <= sn < NUM_SOCKETS :: snEvent[sn].None?
      ensures this.bus == bus && this.cmdDelays == cmdDelays && this.srReads == srReads
      ensures this.clock == clock && this.arrivals == arrivals && this.allocs == allocs
    {
      socks := socks0;
      snEvent := seq(NUM_SOCKETS, _ => None);
      groups := map[];
      nextHandle := 0;
      doubleFree := false;
      sipr, gar, subr := [0, 0, 0, 0], [0, 0, 0, 0], [0, 0, 0, 0];
      this.mac := mac;
      this.bus := bus;
      at := 0;
      this.cmdDelays := cmdDelays;
      this.srReads := srReads;
      this.clock := clock;
      this.arrivals := arrivals;
      this.allocs := allocs;
    }

    /** One SPI transfer (W5500_Transfer behind any register accessor). */
    method Xfer() returns (rc: Status)
      modifies this`at
      ensures rc == FromHal(HalAt(bus, old(at))) && at == old(at) + 1
      ensures IsSpiFault(rc) ==> FaultOf(bus, old(at), rc)
    {
      rc := FromHal(HalAt(bus, at));
      if rc != Ok {
        HeadFault(bus, at);
      }
      at := at + 1;
    }

    /** W5500_SetSIPR: one write of the four address bytes. */
    method SetSipr(ip: seq<u8>) returns (rc: Status)
      requires |ip| == IPV4_BYTES
      modifies this`at, this`sipr
      ensures at == old(at) + 1
      ensures rc == Ok || (IsSpiFault(rc) && FaultOf(bus, old(at), rc))
      ensures sipr == if rc == Ok then ip else old(sipr)
    {
      rc := Xfer();
      if rc == Ok {
        sipr := ip;
      }
    }

    /** W5500_SetGAR */
    method SetGar(ip: seq<u8>) returns (rc: Status)
      requires |ip| == IPV4_BYTES
      modifies this`at, this`gar
      ensures at == old(at) + 1
      ensures rc == Ok || (IsSpiFault(rc) && FaultOf(bus, old(at), rc))
      ensures gar == if rc == Ok then ip else old(gar)
    {
      rc := Xfer();
      if rc == Ok {
        gar := ip;
      }
    }

    /** W5500_SetSUBR */
    method SetSubr(ip: seq<u8>) returns (rc: Status)
      requires |ip| == IPV4_BYTES
      modifies this`at, this`subr
      ensures at == old(at) + 1
      ensures rc == Ok || (IsSpiFault(rc) && FaultOf(bus, old(at), rc))
      ensures subr == if rc == Ok then ip else old(subr)
    {
      rc := Xfer();
      if rc == Ok {
        subr := ip;
      }
    }

    /** xTaskGetTickCount */
    method Tick() returns (t: Option<u32>)
      modifies this`clock
      ensures t == Next(old(clock)) && clock == Tail(old(clock))
    {
      t := Next(clock);
      clock := Tail(clock);
    }

    /**
     * W5500_SocketCommand: write Sn_CR, then poll it until the chip clears
     * it. A failed transfer is returned at once.
     */
    method Command(sn: nat, cmd: Cmd) returns (rc: Status)
      requires Valid() && sn < NUM_SOCKETS
      modifies this`at, this`cmdDelays, this`socks
      ensures Valid() && at > old(at)
      ensures rc == Ok || (IsSpiFault(rc) && FaultOf(bus, old(at), rc))
      ensures HalAt(bus, old(at)) != HalOk ==>
                rc == FromHal(HalAt(bus, old(at))) && socks == old(socks) && cmdDelays == old(cmdDelays)
      ensures HalAt(bus, old(at)) == HalOk ==>
                rc == PollSpec(bus, old(at) + 1, Head(old(cmdDelays), 0))
                && cmdDelays == Tail(old(cmdDelays))
                && socks == old(socks)[sn := Issued(old(socks)[sn], cmd)]
    {
      rc := Xfer();
      if rc != Ok {
        return;
      }
      var pending := Head(cmdDelays, 0);
      cmdDelays := Tail(cmdDelays);
      socks := socks[sn := Issued(socks[sn], cmd)];
      ghost var at0 := at;
      rc := AwaitCleared(CmdCode(cmd), pending);
      PollSpecFault(bus, at0, pending);
      if rc != Ok {
        LaterFault(bus, old(at), at0, rc);
      }
    }

    /**
     * The do-while of SocketCommand: read Sn_CR until it reads 0, returning
     * the first failed read. The register still holds `cr` for `pending`
     * more reads.
     */
    method AwaitCleared(cr: u8, pending: nat) returns (rc: Status)
      requires cr != 0
      modifies this`at
      ensures at > old(at)
      ensures rc == PollSpec(bus, old(at), pending)
    {
      var left: nat := pending;
      while true
        invariant left <= pending && at == old(at) + (pending - left)
        invariant PollSpec(bus, at, left) == PollSpec(bus, old(at), pending)
        decreases left
      {
        rc := Xfer();
        if rc != Ok {
          return;
        }
        var reg := if left == 0 then 0 else cr;
        if reg == 0 {
          return;
        }
        left := left - 1;
      }
    }

    /** W5500_GetSnSR: the status register takes its next scripted value. */
    method ReadStatus(sn: nat) returns (rc: Status)
      requires Valid() && sn < NUM_SOCKETS
      modifies this`at, this`srReads, this`socks
      ensures Valid()
      ensures rc == FromHal(HalAt(bus, old(at))) && at == old(at) + 1
      ensures IsSpiFault(rc) ==> FaultOf(bus, old(at), rc)
      ensures rc != Ok ==> srReads == old(srReads) && socks == old(socks)
      ensures rc == Ok ==>
                srReads == Tail(old(srReads))
                && socks == old(socks)[sn := old(socks)[sn].(sr := Head(old(srReads), old(socks)[sn].sr))]
    {
      rc := Xfer();
      if rc == Ok {
        socks := socks[sn := socks[sn].(sr := Head(srReads, socks[sn].sr))];
        srReads := Tail(srReads);
      }
    }

    /** W5500_SocketStatusWait */
    method StatusWait(sn: nat, status: u8, timeout: u32) returns (rc: Status)
      requires Valid() && sn < NUM_SOCKETS
      modifies this`at, this`srReads, this`clock, this`socks
      ensures Valid() && at > old(at)
      ensures rc == StatusWaitSpec(bus, old(at), old(srReads), old(socks[sn].sr), Tail(old(clock)),
                                   Next(old(clock)), status, timeout)
      ensures rc == Ok || rc == StatusTimeout || (IsSpiFault(rc) && FaultOf(bus, old(at), rc))
      ensures rc == Ok ==> socks[sn].sr == status
      ensures socks == old(socks)[sn := old(socks)[sn].(sr := socks[sn].sr)]
    {
      StatusWaitFault(bus, at, srReads, socks[sn].sr, Tail(clock), Next(clock), status, timeout);
      var start := Tick();
      while true
        invariant Valid() && at >= old(at)
        invariant socks == old(socks)[sn := old(socks)[sn].(sr := socks[sn].sr)]
        invariant StatusWaitSpec(bus, at, srReads, socks[sn].sr, clock, start, status, timeout)
               == StatusWaitSpec(bus, old(at), old(srReads), old(socks[sn].sr), Tail(old(clock)),
                                 Next(old(clock)), status, timeout)
        decreases |clock|
      {
        rc := ReadStatus(sn);
        if rc != Ok {
          return;
        }
        var now := Tick();
        if Expired(start, now, timeout) {
          return StatusTimeout;
        }
        if socks[sn].sr == status {
          return;
        }
      }
    }

    /** vEventGroupDelete */
    method DeleteGroup(h: nat)
      modifies this`groups, this`doubleFree
      ensures groups == old(groups) - {h}
      ensures doubleFree == (old(doubleFree) || h !in old(groups))
    {
      if h !in groups {
        doubleFree := true;
      }
      groups := groups - {h};
    }

    /**
     * xEventGroupWaitBits(group, mask, clear on exit, wait for any): the
     * bits seen are those already set plus those the interrupt task sets
     * during the wait; if any of `mask` is among them they are cleared.
     */
    method WaitBits(sn: nat, mask: bv8) returns (seen: bv8)
      requires Valid() && EventReady(sn)
      modifies this`groups, this`arrivals
      ensures Valid() && EventReady(sn)
      ensures seen == old(Bits(sn)) | Head(old(arrivals), 0)
      ensures arrivals == Tail(old(arrivals))
      ensures groups == old(groups)[snEvent[sn].value := Cleared(seen, mask)]
    {
      var h := snEvent[sn].value;
      seen := groups[h] | Head(arrivals, 0);
      arrivals := Tail(arrivals);
      groups := groups[h := Cleared(seen, mask)];
    }

    /** W5500_SocketClose: as written, the slot keeps the deleted handle. */
    method Close(sn: nat, timeout: u32) returns (rc: Status)
      requires Valid() && sn < NUM_SOCKETS
      modifies this`at, this`cmdDelays, this`srReads, this`clock, this`socks, this`groups, this`doubleFree
      ensures Valid() && at > old(at)
      ensures rc == Ok || rc == StatusTimeout || (IsSpiFault(rc) && FaultOf(bus, old(at), rc))
      ensures old(snEvent[sn]).Some? ==>
                groups == old(groups) - {old(snEvent[sn]).value}
                && doubleFree == (old(doubleFree) || old(snEvent[sn]).value !in old(groups))
      ensures old(snEvent[sn]).None? ==> groups == old(groups) && doubleFree == old(doubleFree)
      ensures Reopened(old(snEvent), old(groups), old(doubleFree), snEvent, groups, doubleFree, sn, false)
      ensures ShutDown(old(socks), socks, sn, rc)
      ensures HalAt(bus, old(at)) != HalOk ==> rc == FromHal(HalAt(bus, old(at)))
    {
      if snEvent[sn].Some? {
        if SlotsLiveBut(snEvent, groups, sn) {
          DeleteKeepsLiveBut(snEvent, groups, sn);
        }
        DeleteGroup(snEvent[sn].value);
      }
      rc := Shutdown(sn, timeout);
    }

    /** SocketClose with the slot cleared after the delete, as evidently intended. */
    method CloseFixed(sn: nat, timeout: u32) returns (rc: Status)
      requires Valid() && sn < NUM_SOCKETS
      modifies this`at, this`cmdDelays, this`srReads, this`clock, this`socks, this`groups,
               this`doubleFree, this`snEvent
      ensures Valid() && at > old(at)
      ensures rc == Ok || rc == StatusTimeout || (IsSpiFault(rc) && FaultOf(bus, old(at), rc))
      ensures snEvent == old(snEvent)[sn := None]
      ensures old(snEvent[sn]).Some? ==> groups == old(groups) - {old(snEvent[sn]).value}
      ensures old(snEvent[sn]).None? ==> groups == old(groups)
      ensures SlotsLive(old(snEvent), old(groups)) ==> doubleFree == old(doubleFree) && SlotsLive(snEvent, groups)
      ensures ShutDown(old(socks), socks, sn, rc)
    {
      if snEvent[sn].Some? {
        if SlotsLive(snEvent, groups) {
          ReleaseKeepsLive(snEvent, groups, sn);
        }
        DeleteGroup(snEvent[sn].value);
        snEvent := snEvent[sn := None];
      }
      rc := Shutdown(sn, timeout);
    }

    /**
     * Closing an open socket twice with the close as written (the second
     * time directly or inside SocketOpen) deletes its event group twice.
     */
    method CloseTwice(sn: nat, timeout: u32) returns (rc1: Status, rc2: Status)
      requires Valid() && EventReady(sn)
      modifies this`at, this`cmdDelays, this`srReads, this`clock, this`socks, this`groups, this`doubleFree
      ensures doubleFree
    {
      rc1 := Close(sn, timeout);
      rc2 := Close(sn, timeout);
    }

    /** With the slot cleared, closing twice never deletes a group twice. */
    method CloseFixedTwice(sn: nat, timeout: u32) returns (rc1: Status, rc2: Status)
      requires Valid() && sn < NUM_SOCKETS && SlotsLive(snEvent, groups)
      modifies this`at, this`cmdDelays, this`srReads, this`clock, this`socks, this`groups,
               this`doubleFree, this`snEvent
      ensures doubleFree == old(doubleFree) && SlotsLive(snEvent, groups)
    {
      rc1 := CloseFixed(sn, timeout);
      rc2 := CloseFixed(sn, timeout);
    }

    /** The chip side of SocketClose: CLOSE, then wait for SOCK_CLOSED. */
    method Shutdown(sn: nat, timeout: u32) returns (rc: Status)
      requires Valid() && sn < NUM_SOCKETS
      modifies this`at, this`cmdDelays, this`srReads, this`clock, this`socks
      ensures Valid() && at > old(at)
      ensures rc == Ok || rc == StatusTimeout || (IsSpiFault(rc) && FaultOf(bus, old(at), rc))
      ensures ShutDown(old(socks), socks, sn, rc)
      ensures HalAt(bus, old(at)) != HalOk ==> rc == FromHal(HalAt(bus, old(at)))
    {
      rc := Command(sn, CmdClose);
      if rc != Ok {
        return;
      }
      ghost var s1 := socks[sn];
      ghost var at1 := at;
      rc := StatusWait(sn, SR_CLOSED, timeout);
      assert socks[sn] == s1.(sr := socks[sn].sr);
      if IsSpiFault(rc) {
        LaterFault(bus, old(at), at1, rc);
      }
    }

    /**
     * W5500_SocketOpen. MACRAW is only allowed on socket 0 (an ASSERT in the
     * source, a precondition here). The close it starts with is SocketClose
     * as written: until xEventGroupCreate runs, the slot keeps the handle of
     * the group the close deleted, and a failure before then leaves it so.
     */
    method Open(sn: nat, proto: Proto, port: u16, timeout: u32) returns (rc: Status)
      requires Valid() && sn < NUM_SOCKETS
      requires !(proto == ProtoMacraw && sn != 0)
      modifies this`at, this`cmdDelays, this`srReads, this`clock, this`socks, this`groups,
               this`doubleFree, this`allocs, this`nextHandle, this`snEvent
      ensures Valid() && at > old(at)
      ensures rc == Ok || rc == StatusTimeout || rc == OsMemoryError || (IsSpiFault(rc) && FaultOf(bus, old(at), rc))
      ensures socks == old(socks)[sn := socks[sn]] && snEvent == old(snEvent)[sn := snEvent[sn]]
      ensures Reopened(old(snEvent), old(groups), old(doubleFree), snEvent, groups, doubleFree, sn,
                       rc == Ok || rc == OsMemoryError)
      ensures old(snEvent[sn]).Some? ==> old(snEvent[sn]).value !in groups
      ensures HalAt(bus, old(at)) != HalOk ==> rc == FromHal(HalAt(bus, old(at))) && snEvent == old(snEvent)
      ensures rc == OsMemoryError ==> snEvent[sn].None?
      ensures rc == Ok ==>
                FreshSlot(old(groups), snEvent, groups, sn)
                && Opened(socks[sn], proto, port) && socks[sn].cmds == old(socks[sn].cmds) + [CmdClose, CmdOpen]
    {
      rc := Close(sn, timeout);
      if rc != Ok {
        return;
      }
      ghost var at1 := at;
      rc := Reopen(sn, proto, port, timeout, old(snEvent), old(groups), old(doubleFree), old(socks));
      if IsSpiFault(rc) {
        LaterFault(bus, old(at), at1, rc);
      }
    }

    /**
     * The rest of SocketOpen after its close, told against the slots, groups
     * and sockets before that close: the slot may still hold the handle the
     * close deleted.
     */
    method Reopen(sn: nat, proto: Proto, port: u16, timeout: u32, ghost slots0: seq<Option<nat>>,
                  ghost groups0: map<nat, bv8>, ghost doubleFree0: bool, ghost socks0: seq<Socket>)
      returns (rc: Status)
      requires Valid() && sn < NUM_SOCKETS && snEvent == slots0
      requires forall h | h in groups0 :: h < nextHandle
      requires Reopened(slots0, groups0, doubleFree0, snEvent, groups, doubleFree, sn, false)
      requires slots0[sn].Some? ==> slots0[sn].value !in groups
      requires |socks0| == NUM_SOCKETS && socks == socks0[sn := socks[sn]]
      requires socks[sn].cmds == socks0[sn].cmds + [CmdClose]
      modifies this`at, this`cmdDelays, this`srReads, this`clock, this`socks, this`groups,
               this`allocs, this`nextHandle, this`snEvent
      ensures Valid() && at > old(at)
      ensures rc == Ok || rc == StatusTimeout || rc == OsMemoryError || (IsSpiFault(rc) && FaultOf(bus, old(at), rc))
      ensures socks == socks0[sn := socks[sn]] && snEvent == slots0[sn := snEvent[sn]]
      ensures rc == OsMemoryError ==> snEvent[sn].None?
      ensures slots0[sn].Some? ==> slots0[sn].value !in groups
      ensures Reopened(slots0, groups0, doubleFree0, snEvent, groups, doubleFree, sn, rc == Ok || rc == OsMemoryError)
      ensures rc == Ok ==>
                FreshSlot(groups0, snEvent, groups, sn)
                && Opened(socks[sn], proto, port) && socks[sn].cmds == socks0[sn].cmds + [CmdClose, CmdOpen]
    {
      rc := Setup(sn, proto, port, timeout);
    }

    /**
     * As written, an open whose first transfer fails leaves the slot holding
     * the group its close deleted, and the next open deletes it again.
     */
    method OpenFailsThenReopens(sn: nat, proto: Proto, port: u16, timeout: u32) returns (rc1: Status, rc2: Status)
      requires Valid() && EventReady(sn) && !(proto == ProtoMacraw && sn != 0)
      requires HalAt(bus, at) != HalOk
      modifies this`at, this`cmdDelays, this`srReads, this`clock, this`socks, this`groups,
               this`doubleFree, this`allocs, this`nextHandle, this`snEvent
      ensures rc1 != Ok && doubleFree
    {
      rc1 := Open(sn, proto, port, timeout);
      rc2 := Open(sn, proto, port, timeout);
    }

    /** SocketOpen after the close: clear Sn_IR, create the group, configure, OPEN, wait. */
    method Setup(sn: nat, proto: Proto, port: u16, timeout: u32) returns (rc: Status)
      requires Valid() && sn < NUM_SOCKETS
      modifies this`at, this`cmdDelays, this`srReads, this`clock, this`socks, this`groups,
               this`allocs, this`nextHandle, this`snEvent
      ensures Valid() && at > old(at)
      ensures rc == Ok || rc == StatusTimeout || rc == OsMemoryError || (IsSpiFault(rc) && FaultOf(bus, old(at), rc))
      ensures socks == old(socks)[sn := socks[sn]] && snEvent == old(snEvent)[sn := snEvent[sn]]
      ensures rc == OsMemoryError ==> snEvent[sn].None?
      ensures nextHandle >= old(nextHandle)
      ensures forall h | h in groups && h !in old(groups) :: h >= old(nextHandle)
      ensures old(groups).Keys <= groups.Keys
      ensures snEvent[sn] != old(snEvent[sn]) ==> snEvent[sn].None? || snEvent[sn].value >= old(nextHandle)
      ensures SlotsLiveBut(old(snEvent), old(groups), sn) ==>
                if snEvent[sn] == old(snEvent[sn]) then groups == old(groups) else SlotsLive(snEvent, groups)
      ensures SlotsLiveBut(old(snEvent), old(groups), sn) && (rc == Ok || rc == OsMemoryError) ==>
                SlotsLive(snEvent, groups)
      ensures rc == Ok ==>
                snEvent[sn].Some? && snEvent[sn].value >= old(nextHandle)
                && snEvent[sn].value in groups && groups[snEvent[sn].value] == 0
                && Opened(socks[sn], proto, port) && socks[sn].cmds == old(socks[sn].cmds) + [CmdOpen]
    {
      rc := ClearInterrupts(sn);
      if rc != Ok {
        return;
      }
      var created := CreateGroup(sn);
      if !created {
        return OsMemoryError;
      }
      ghost var at1 := at;
      rc := Start(sn, proto, port, timeout);
      if IsSpiFault(rc) {
        LaterFault(bus, old(at), at1, rc);
      }
    }

    /** The last steps of SocketOpen: configure the socket, issue OPEN, wait for the opened status. */
    method Start(sn: nat, proto: Proto, port: u16, timeout: u32) returns (rc: Status)
      requires Valid() && sn < NUM_SOCKETS
      modifies this`at, this`cmdDelays, this`srReads, this`clock, this`socks
      ensures Valid() && at > old(at)
      ensures rc == Ok || rc == StatusTimeout || (IsSpiFault(rc) && FaultOf(bus, old(at), rc))
      ensures socks == old(socks)[sn := socks[sn]]
      ensures rc == Ok ==>
                socks[sn].ir == old(socks[sn].ir)
                && socks[sn].imr == OPEN_IMR && socks[sn].mr == ProtoCode(proto) && socks[sn].port == port
                && socks[sn].cmds == old(socks[sn].cmds) + [CmdOpen]
                && (OpenedStatus(proto).Some? ==> socks[sn].sr == OpenedStatus(proto).value)
    {
      rc := Configure(sn, proto, port);
      if rc != Ok {
        return;
      }
      ghost var s1 := socks[sn];
      ghost var at1 := at;
      rc := Command(sn, CmdOpen);
      if rc != Ok {
        LaterFault(bus, old(at), at1, rc);
        return;
      }
      assert socks[sn] == s1.(cmds := s1.cmds + [CmdOpen]);
      at1 := at;
      rc := WaitOpened(sn, proto, timeout);
      if IsSpiFault(rc) {
        LaterFault(bus, old(at), at1, rc);
      }
    }

    /** `snEvent[sn] = xEventGroupCreate()`: a fresh group with no bits set, or NULL. */
    method CreateGroup(sn: nat) returns (created: bool)
      requires Valid() && sn < NUM_SOCKETS
      modifies this`allocs, this`nextHandle, this`groups, this`snEvent
      ensures Valid() && allocs == Tail(old(allocs)) && created == Head(old(allocs), true)
      ensures !created ==> snEvent == old(snEvent)[sn := None] && groups == old(groups)
      ensures nextHandle >= old(nextHandle)
      ensures SlotsLiveBut(old(snEvent), old(groups), sn) ==> SlotsLive(snEvent, groups)
      ensures created ==>
                old(nextHandle) !in old(groups)
                && snEvent == old(snEvent)[sn := Some(old(nextHandle))]
                && groups == old(groups)[old(nextHandle) := 0]
    {
      created := Head(allocs, true);
      allocs := Tail(allocs);
      var h := nextHandle;
      if SlotsLiveBut(snEvent, groups, sn) {
        RefillMakesLive(snEvent, groups, sn, h);
      }
      if !created {
        snEvent := snEvent[sn := None];
        return;
      }
      nextHandle := nextHandle + 1;
      groups := groups[h := 0];
      snEvent := snEvent[sn := Some(h)];
    }

    /** The end of SocketOpen: wait for the status the protocol opens into, if it has one. */
    method WaitOpened(sn: nat, proto: Proto, timeout: u32) returns (rc: Status)
      requires Valid() && sn < NUM_SOCKETS
      modifies this`at, this`srReads, this`clock, this`socks
      ensures Valid() && at >= old(at)
      ensures rc == Ok || rc == StatusTimeout || (IsSpiFault(rc) && FaultOf(bus, old(at), rc))
      ensures OpenedStatus(proto).None? ==> rc == Ok && socks == old(socks)
      ensures rc == Ok && OpenedStatus(proto).Some? ==> socks[sn].sr == OpenedStatus(proto).value
      ensures socks == old(socks)[sn := old(socks)[sn].(sr := socks[sn].sr)]
    {
      match OpenedStatus(proto)
      case Some(st) =>
        rc := StatusWait(sn, st, timeout);
      case None =>
        rc := Ok;
    }

    /** Read Sn_IR and, if any bit is set, write it back to clear it (write-one-to-clear). */
    method ClearInterrupts(sn: nat) returns (rc: Status)
      requires Valid() && sn < NUM_SOCKETS
      modifies this`at, this`socks
      ensures Valid() && at > old(at)
      ensures rc == Ok || (IsSpiFault(rc) && FaultOf(bus, old(at), rc))
      ensures rc == Ok ==> socks == old(socks)[sn := old(socks)[sn].(ir := 0)]
      ensures rc != Ok ==> socks == old(socks)
    {
      rc := Xfer();
      if rc != Ok || socks[sn].ir == 0 {
        return;
      }
      rc := Xfer();
      if rc != Ok {
        LaterFault(bus, old(at), old(at) + 1, rc);
        return;
      }
      socks := socks[sn := socks[sn].(ir := 0)];
    }

    /**
     * Unmask CON, DISCON, RECV, TIMEOUT and SENDOK in Sn_IMR, write Sn_MR with
     * the protocol and every flag clear, then write Sn_PORT.
     */
    method Configure(sn: nat, proto: Proto, port: u16) returns (rc: Status)
      requires Valid() && sn < NUM_SOCKETS
      modifies this`at, this`socks
      ensures Valid() && at > old(at)
      ensures rc == Ok || (IsSpiFault(rc) && FaultOf(bus, old(at), rc))
      ensures rc == Ok ==>
                socks == old(socks)[sn := old(socks)[sn].(imr := OPEN_IMR, mr := ProtoCode(proto), port := port)]
      ensures socks == old(socks)[sn := socks[sn]] && socks[sn].cmds == old(socks[sn].cmds)
    {
      rc := Xfer();
      if rc != Ok {
        return;
      }
      socks := socks[sn := socks[sn].(imr := OPEN_IMR)];
      rc := Xfer();
      if rc != Ok {
        LaterFault(bus, old(at), old(at) + 1, rc);
        return;
      }
      ModeByteIsProtocol(proto);
      socks := socks[sn := socks[sn].(mr := ModeByte(ProtoCode(proto), false, false, false, false))];
      rc := Xfer();
      if rc != Ok {
        LaterFault(bus, old(at), old(at) + 2, rc);
        return;
      }
      socks := socks[sn := socks[sn].(port := port)];
    }

    /** W5500_SocketDestination: Sn_DIPR, then Sn_DPORT. */
    method Destination(sn: nat, ip: seq<u8>, port: u16) returns (rc: Status)
      requires Valid() && sn < NUM_SOCKETS && |ip| == IPV4_BYTES
      modifies this`at, this`socks
      ensures Valid() && at > old(at)
      ensures rc == Ok || (IsSpiFault(rc) && FaultOf(bus, old(at), rc))
      ensures socks == old(socks)[sn := socks[sn]]
      ensures rc == Ok ==> socks == old(socks)[sn := old(socks)[sn].(dip := ip, dport := port)]
    {
      rc := Xfer();
      if rc != Ok {
        return;
      }
      socks := socks[sn := socks[sn].(dip := ip)];
      rc := Xfer();
      if rc != Ok {
        LaterFault(bus, old(at), old(at) + 1, rc);
        return;
      }
      socks := socks[sn := socks[sn].(dport := port)];
    }

    /** W5500_SocketConnect: destination, CONNECT, then wait for the CON event. */
    method Connect(sn: nat, ip: seq<u8>, port: u16, timeout: u32) returns (rc: Status)
      requires Valid() && EventReady(sn) && |ip| == IPV4_BYTES
      modifies this`at, this`cmdDelays, this`socks, this`groups, this`arrivals
      ensures Valid() && EventReady(sn) && at > old(at) && groups.Keys == old(groups).Keys
      ensures (rc == Ok || rc == ConTimeout) || (IsSpiFault(rc) && FaultOf(bus, old(at), rc))
      ensures socks == old(socks)[sn := socks[sn]]
      ensures IsSpiFault(rc) ==> groups == old(groups) && arrivals == old(arrivals)
      ensures !IsSpiFault(rc) ==>
                socks == old(socks)[sn := old(socks)[sn].(dip := ip, dport := port,
                                                         cmds := old(socks)[sn].cmds + [CmdConnect])]
                && (rc == Ok <==> (old(Bits(sn)) | Head(old(arrivals), 0)) & EVENT_CON != 0)
                && groups == AfterWait(old(groups), snEvent[sn].value, Head(old(arrivals), 0), EVENT_CON)
                && arrivals == Tail(old(arrivals))
    {
      rc := Destination(sn, ip, port);
      if rc != Ok {
        return;
      }
      ghost var at1 := at;
      rc := Command(sn, CmdConnect);
      if rc != Ok {
        LaterFault(bus, old(at), at1, rc);
        return;
      }
      var ev := WaitBits(sn, EVENT_CON);
      if ev & EVENT_CON == 0 {
        return ConTimeout;
      }
    }

    /**
     * W5500_SocketSendBuffer: refuse if TIMEOUT or DISCON is latched, commit
     * Sn_TX_WR, issue SEND and wait for SENDOK.
     */
    method SendBuffer(sn: nat, ptr: u16, timeout: u32) returns (rc: Status)
      requires Valid() && EventReady(sn)
      modifies this`at, this`cmdDelays, this`socks, this`groups, this`arrivals
      ensures Valid() && EventReady(sn) && at >= old(at) && groups.Keys == old(groups).Keys
      ensures (rc == Ok || rc == SendTimeout || rc == SocketDisconnected) || (IsSpiFault(rc) && FaultOf(bus, old(at), rc))
      ensures Latched(old(Bits(sn))) ==>
                rc == SocketDisconnected && at == old(at) && socks == old(socks) && groups == old(groups)
      ensures Latched(old(Bits(sn))) || IsSpiFault(rc) ==> groups == old(groups) && arrivals == old(arrivals)
      ensures !Latched(old(Bits(sn))) && !IsSpiFault(rc) ==>
                socks == old(socks)[sn := old(socks)[sn].(txWr := ptr, cmds := old(socks)[sn].cmds + [CmdSend])]
                && (rc == Ok <==> (old(Bits(sn)) | Head(old(arrivals), 0)) & EVENT_SENDOK != 0)
                && rc != SocketDisconnected
                && groups == AfterWait(old(groups), snEvent[sn].value, Head(old(arrivals), 0), EVENT_SENDOK)
                && arrivals == Tail(old(arrivals))
    {
      var event := groups[snEvent[sn].value];
      if event & EVENT_TIMEOUT != 0 || event & EVENT_DISCON != 0 {
        return SocketDisconnected;
      }
      rc := CommitSend(sn, ptr);
    }

    /** The transfers of W5500_SocketSendBuffer on a live socket: Sn_TX_WR, SEND, then the SENDOK wait. */
    method CommitSend(sn: nat, ptr: u16) returns (rc: Status)
      requires Valid() && EventReady(sn)
      modifies this`at, this`cmdDelays, this`socks, this`groups, this`arrivals
      ensures Valid() && EventReady(sn) && at > old(at)
      ensures (rc == Ok || rc == SendTimeout) || (IsSpiFault(rc) && FaultOf(bus, old(at), rc))
      ensures IsSpiFault(rc) ==> groups == old(groups) && arrivals == old(arrivals)
      ensures !IsSpiFault(rc) ==>
                socks == old(socks)[sn := old(socks)[sn].(txWr := ptr, cmds := old(socks)[sn].cmds + [CmdSend])]
                && (rc == Ok <==> (old(Bits(sn)) | Head(old(arrivals), 0)) & EVENT_SENDOK != 0)
                && groups == AfterWait(old(groups), snEvent[sn].value, Head(old(arrivals), 0), EVENT_SENDOK)
                && arrivals == Tail(old(arrivals))
    {
      rc := IssueSend(sn, ptr);
      if rc != Ok {
        return;
      }
      var event := WaitBits(sn, EVENT_SENDOK);
      if event & EVENT_SENDOK == 0 {
        return SendTimeout;
      }
    }

    /** The Sn_TX_WR write and the SEND command of CommitSend. */
    method IssueSend(sn: nat, ptr: u16) returns (rc: Status)
      requires Valid() && EventReady(sn)
      modifies this`at, this`cmdDelays, this`socks
      ensures Valid() && EventReady(sn) && at > old(at)
      ensures rc == Ok || (IsSpiFault(rc) && FaultOf(bus, old(at), rc))
      ensures rc == Ok ==> socks == old(socks)[sn := old(socks)[sn].(txWr := ptr, cmds := old(socks)[sn].cmds + [CmdSend])]
    {
      rc := Xfer();
      if rc != Ok {
        return;
      }
      socks := socks[sn := socks[sn].(txWr := ptr)];
      ghost var at1 := at;
      rc := Command(sn, CmdSend);
      if rc != Ok {
        LaterFault(bus, old(at), at1, rc);
      }
    }

    /**
     * W5500_SocketSend: the latched-event check, then the empty message,
     * then the free-size check, then write at Sn_TX_WR and send.
     */
    method Send(sn: nat, data: seq<u8>, timeout: u32) returns (rc: Status)
      requires Valid() && EventReady(sn) && |data| < RING
      modifies this`at, this`cmdDelays, this`socks, this`groups, this`arrivals
      ensures Valid() && EventReady(sn) && at >= old(at) && groups.Keys == old(groups).Keys
      ensures (rc == Ok || rc == TxOverflow || rc == SendTimeout || rc == SocketDisconnected) || (IsSpiFault(rc) && FaultOf(bus, old(at), rc))
      ensures Latched(old(Bits(sn))) ==>
                rc == SocketDisconnected && at == old(at) && socks == old(socks) && groups == old(groups)
      ensures !Latched(old(Bits(sn))) && |data| == 0 ==>
                rc == Ok && at == old(at) && socks == old(socks) && groups == old(groups)
      ensures Latched(old(Bits(sn))) || |data| == 0 || rc == TxOverflow || IsSpiFault(rc) ==>
                groups == old(groups) && arrivals == old(arrivals)
      ensures !Latched(old(Bits(sn))) && |data| > 0 && !IsSpiFault(rc) ==>
                var s := old(socks)[sn];
                (rc == TxOverflow <==> |data| > s.txFsr)
                && (rc == TxOverflow ==> socks == old(socks))
                && (rc != TxOverflow ==>
                      socks == old(socks)[sn := s.(txBuf := RingWrite(s.txBuf, s.txWr, data),
                                                   txWr := AddPtr(s.txWr, |data|),
                                                   cmds := s.cmds + [CmdSend])]
                      && (rc == Ok || rc == SendTimeout)
                      && (rc == Ok <==> (old(Bits(sn)) | Head(old(arrivals), 0)) & EVENT_SENDOK != 0)
                      && groups == AfterWait(old(groups), snEvent[sn].value, Head(old(arrivals), 0), EVENT_SENDOK)
                      && arrivals == Tail(old(arrivals)))
    {
      var event := groups[snEvent[sn].value];
      if event & EVENT_TIMEOUT != 0 || event & EVENT_DISCON != 0 {
        return SocketDisconnected;
      }
      if |data| == 0 {
        return Ok;
      }
      rc := SendData(sn, data, timeout);
    }

    /** The transfers of W5500_SocketSend for a non-empty message on a live socket. */
    method SendData(sn: nat, data: seq<u8>, timeout: u32) returns (rc: Status)
      requires Valid() && EventReady(sn) && 0 < |data| < RING && !Latched(Bits(sn))
      modifies this`at, this`cmdDelays, this`socks, this`groups, this`arrivals
      ensures Valid() && EventReady(sn) && at >= old(at) && groups.Keys == old(groups).Keys
      ensures (rc == Ok || rc == TxOverflow || rc == SendTimeout) || (IsSpiFault(rc) && FaultOf(bus, old(at), rc))
      ensures rc == TxOverflow || IsSpiFault(rc) ==> groups == old(groups) && arrivals == old(arrivals)
      ensures !IsSpiFault(rc) ==>
                var s := old(socks)[sn];
                (rc == TxOverflow <==> |data| > s.txFsr)
                && (rc == TxOverflow ==> socks == old(socks))
                && (rc != TxOverflow ==>
                      socks == old(socks)[sn := s.(txBuf := RingWrite(s.txBuf, s.txWr, data),
                                                   txWr := AddPtr(s.txWr, |data|),
                                                   cmds := s.cmds + [CmdSend])]
                      && (rc == Ok <==> (old(Bits(sn)) | Head(old(arrivals), 0)) & EVENT_SENDOK != 0)
                      && groups == AfterWait(old(groups), snEvent[sn].value, Head(old(arrivals), 0), EVENT_SENDOK)
                      && arrivals == Tail(old(arrivals)))
    {
      var ptr;
      rc, ptr := WriteData(sn, data);
      if rc != Ok {
        return;
      }
      ghost var at1 := at;
      rc := SendBuffer(sn, ptr, timeout);
      if IsSpiFault(rc) {
        LaterFault(bus, old(at), at1, rc);
      }
    }

    /**
     * The first three transfers of W5500_SocketSend: Sn_TX_FSR and the
     * size check, Sn_TX_WR, then the message written into the TX buffer there.
     */
    method WriteData(sn: nat, data: seq<u8>) returns (rc: Status, ptr: u16)
      requires Valid() && sn < NUM_SOCKETS && 0 < |data| < RING
      modifies this`at, this`socks
      ensures Valid() && at >= old(at)
      ensures (rc == Ok || rc == TxOverflow) || (IsSpiFault(rc) && FaultOf(bus, old(at), rc))
      ensures rc != Ok ==> socks == old(socks)
      ensures !IsSpiFault(rc) ==>
                var s := old(socks)[sn];
                (rc == TxOverflow <==> |data| > s.txFsr)
                && (rc == Ok ==>
                      ptr == AddPtr(s.txWr, |data|)
                      && socks == old(socks)[sn := s.(txBuf := RingWrite(s.txBuf, s.txWr, data))])
    {
      ptr := 0;
      rc := Xfer();
      if rc != Ok {
        return;
      }
      var size := socks[sn].txFsr;
      if |data| > size {
        return TxOverflow, ptr;
      }
      ghost var at1 := at;
      rc := Xfer();
      if rc != Ok {
        LaterFault(bus, old(at), at1, rc);
        return;
      }
      ptr := socks[sn].txWr;
      at1 := at;
      rc := Xfer();
      if rc != Ok {
        LaterFault(bus, old(at), at1, rc);
        return;
      }
      socks := socks[sn := socks[sn].(txBuf := RingWrite(socks[sn].txBuf, ptr, data))];
      ptr := AddPtr(ptr, |data|);
    }

    /**
     * W5500_SocketWritePart: write one part of a message at the running
     * pointer without committing Sn_TX_WR. `fsr` and `ptr` are the caller's
     * running values; UINT32_MAX means "not yet read from the chip".
     */
    method WritePart(sn: nat, data: seq<u8>, fsr: u32, ptr: u32)
      returns (rc: Status, fsr': u32, ptr': u32)
      requires Valid() && sn < NUM_SOCKETS && |data| < RING
      modifies this`at, this`socks
      ensures Valid() && at >= old(at)
      ensures (rc == Ok || rc == TxOverflow) || (IsSpiFault(rc) && FaultOf(bus, old(at), rc))
      ensures rc != Ok ==> fsr' == fsr && ptr' == ptr && socks == old(socks)
      ensures !IsSpiFault(rc) ==>
                var s := old(socks)[sn];
                var f := if fsr == U32_MAX then s.txFsr else fsr % RING;
                var p := if ptr == U32_MAX then s.txWr else ptr % RING;
                (rc == TxOverflow <==> |data| > f)
                && (rc == Ok ==>
                      fsr' == f - |data| && ptr' == AddPtr(p, |data|)
                      && socks == old(socks)[sn := s.(txBuf := RingWrite(s.txBuf, p, data))])
    {
      var f: u16;
      if fsr == U32_MAX {
        rc := Xfer();
        if rc != Ok {
          return rc, fsr, ptr;
        }
        f := socks[sn].txFsr;
      } else {
        f := Mask16(fsr);
      }
      if |data| > f {
        return TxOverflow, fsr, ptr;
      }
      var p: u16;
      ghost var at1 := at;
      if ptr == U32_MAX {
        rc := Xfer();
        if rc != Ok {
          LaterFault(bus, old(at), at1, rc);
          return rc, fsr, ptr;
        }
        p := socks[sn].txWr;
      } else {
        p := Mask16(ptr);
      }
      if |data| == 0 {
        rc := Ok;
        EmptyWrite(socks[sn].txBuf, p);
      } else {
        at1 := at;
        rc := Xfer();
        if rc != Ok {
          LaterFault(bus, old(at), at1, rc);
          return rc, fsr, ptr;
        }
        socks := socks[sn := socks[sn].(txBuf := RingWrite(socks[sn].txBuf, p, data))];
      }
      fsr', ptr' := f - |data|, AddPtr(p, |data|);
    }

    /** W5500_SocketRecieveTCP */
    method ReceiveTcp(sn: nat, len: u16, timeout: u32) returns (rc: Status, data: seq<u8>)
      requires Valid() && EventReady(sn)
      modifies this`at, this`socks, this`groups, this`arrivals
      ensures Valid() && EventReady(sn) && at >= old(at)
      ensures rc == Ok || rc == SocketDisconnected || rc == RecvTimeout || rc == RxOverflow
              || (IsSpiFault(rc) && FaultOf(bus, old(at), rc))
      ensures var seen := old(Bits(sn)) | Head(old(arrivals), 0);
              (seen & EVENT_DISCON != 0 ==> rc == SocketDisconnected)
              && (seen & EVENT_DISCON == 0 && seen & EVENT_RECV == 0 ==> rc == RecvTimeout)
              && (seen & EVENT_DISCON == 0 && seen & EVENT_RECV != 0 ==> rc != SocketDisconnected && rc != RecvTimeout)
              && groups == old(groups)[snEvent[sn].value := Cleared(seen, EVENT_RECV | EVENT_DISCON)]
              && arrivals == Tail(old(arrivals))
      ensures rc != Ok ==> socks == old(socks)
      ensures rc == SocketDisconnected || rc == RecvTimeout ==> at == old(at)
      ensures rc == Ok || rc == RxOverflow ==> ReadTcpDone(old(socks)[sn], len, rc, data, socks[sn])
      ensures socks == old(socks)[sn := socks[sn]]
    {
      var event := WaitBits(sn, EVENT_RECV | EVENT_DISCON);
      if event & EVENT_DISCON != 0 {
        return SocketDisconnected, [];
      } else if event & EVENT_RECV == 0 {
        return RecvTimeout, [];
      }
      rc, data := ReadTcp(sn, len);
    }

    /**
     * SocketRecieveTCP followed by the RECV command the chip needs before it
     * takes in a new Sn_RX_RD: after a successful receive the chip's read
     * pointer is the driver's, just past the bytes returned.
     */
    method ReceiveTcpAcked(sn: nat, len: u16, timeout: u32) returns (rc: Status, data: seq<u8>)
      requires Valid() && EventReady(sn)
      modifies this`at, this`cmdDelays, this`socks, this`groups, this`arrivals
      ensures Valid() && EventReady(sn) && at >= old(at)
      ensures rc == Ok || rc == SocketDisconnected || rc == RecvTimeout || rc == RxOverflow
              || (IsSpiFault(rc) && FaultOf(bus, old(at), rc))
      ensures socks == old(socks)[sn := socks[sn]]
      ensures rc == Ok ==>
                var s := old(socks)[sn];
                data == RingRead(s.rxBuf, s.rxRd, s.rxRsr)
                && socks[sn].rxRd == AddPtr(s.rxRd, s.rxRsr) && socks[sn].rxAck == socks[sn].rxRd
                && socks[sn].cmds == s.cmds + [CmdRecv]
    {
      rc, data := ReceiveTcp(sn, len, timeout);
      if rc != Ok {
        return;
      }
      ghost var at1 := at;
      rc := Command(sn, CmdRecv);
      if rc != Ok {
        LaterFault(bus, old(at), at1, rc);
      }
    }

    /** The buffer reads of W5500_SocketRecieveTCP, once RECV has been seen. */
    method ReadTcp(sn: nat, len: u16) returns (rc: Status, data: seq<u8>)
      requires Valid() && sn < NUM_SOCKETS
      modifies this`at, this`socks
      ensures Valid() && at > old(at)
      ensures rc == Ok || rc == RxOverflow || (IsSpiFault(rc) && FaultOf(bus, old(at), rc))
      ensures rc != Ok ==> socks == old(socks)
      ensures rc == Ok || rc == RxOverflow ==> ReadTcpDone(old(socks)[sn], len, rc, data, socks[sn])
      ensures socks == old(socks)[sn := socks[sn]]
    {
      data := [];
      rc := Xfer();
      if rc != Ok {
        return;
      }
      var rsr := socks[sn].rxRsr;
      if rsr > len {
        return RxOverflow, data;
      }
      ghost var at1 := at;
      rc := Xfer();
      if rc != Ok {
        LaterFault(bus, old(at), at1, rc);
        return;
      }
      var ptr := socks[sn].rxRd;
      at1 := at;
      rc, data := ReadPayload(sn, ptr, rsr);
      if rc != Ok {
        LaterFault(bus, old(at), at1, rc);
      }
    }

    /**
     * The tail both receives share: read `size` bytes of the RX buffer from
     * `from`, then write Sn_RX_RD past them. Neither receive issues the
     * RECV command afterwards, so the chip does not take in the new Sn_RX_RD.
     * When only the Sn_RX_RD write fails, the bytes are already in the
     * caller's buffer, and `data` holds them.
     */
    method ReadPayload(sn: nat, from: u16, size: nat) returns (rc: Status, data: seq<u8>)
      requires Valid() && sn < NUM_SOCKETS
      modifies this`at, this`socks
      ensures Valid() && at > old(at)
      ensures rc == Ok || (IsSpiFault(rc) && FaultOf(bus, old(at), rc))
      ensures rc != Ok ==> socks == old(socks)
      ensures rc == Ok ==> data == RingRead(old(socks)[sn].rxBuf, from, size)
                            && socks == old(socks)[sn := old(socks)[sn].(rxRd := AddPtr(from, size))]
      ensures rc != Ok ==> data == if HalAt(bus, old(at)) == HalOk then RingRead(old(socks)[sn].rxBuf, from, size) else []
    {
      data := [];
      rc := Xfer();
      if rc != Ok {
        return;
      }
      data := RingRead(socks[sn].rxBuf, from, size);
      ghost var at1 := at;
      rc := Xfer();
      if rc != Ok {
        LaterFault(bus, old(at), at1, rc);
        return;
      }
      socks := socks[sn := socks[sn].(rxRd := AddPtr(from, size))];
    }

    /**
     * W5500_SocketRecieveUDP: the datagram starts with an 8-byte header
     * (source IP, big-endian source port, big-endian payload size).
     */
    method ReceiveUdp(sn: nat, len: u16, timeout: u32)
      returns (rc: Status, data: seq<u8>, sourceIp: seq<u8>, sourcePort: u16)
      requires Valid() && EventReady(sn)
      modifies this`at, this`socks, this`groups, this`arrivals
      ensures Valid() && EventReady(sn) && at >= old(at)
      ensures rc == Ok || rc == RecvTimeout || rc == RxOverflow || (IsSpiFault(rc) && FaultOf(bus, old(at), rc))
      ensures var seen := old(Bits(sn)) | Head(old(arrivals), 0);
              (rc == RecvTimeout <==> seen & EVENT_RECV == 0)
              && groups == old(groups)[snEvent[sn].value := Cleared(seen, EVENT_RECV)]
              && arrivals == Tail(old(arrivals))
      ensures rc != Ok ==> socks == old(socks)
      ensures rc == RecvTimeout ==> at == old(at) && sourceIp == []
      ensures rc == Ok || rc == RxOverflow ==> ReadUdpDone(old(socks)[sn], len, rc, data, sourceIp, sourcePort, socks[sn])
      ensures rc != Ok ==> data == [] || (IsSpiFault(rc) && UdpPayload(old(socks)[sn], len, data))
      ensures socks == old(socks)[sn := socks[sn]]
    {
      var event := WaitBits(sn, EVENT_RECV);
      if event & EVENT_RECV == 0 {
        return RecvTimeout, [], [], 0;
      }
      rc, data, sourceIp, sourcePort := ReadUdp(sn, len);
    }

    /**
     * SocketRecieveUDP followed by the RECV command: after a successful
     * receive the chip's read pointer is the driver's, past the header and
     * the payload, and the chip frees the datagram's space.
     */
    method ReceiveUdpAcked(sn: nat, len: u16, timeout: u32)
      returns (rc: Status, data: seq<u8>, sourceIp: seq<u8>, sourcePort: u16)
      requires Valid() && EventReady(sn)
      modifies this`at, this`cmdDelays, this`socks, this`groups, this`arrivals
      ensures Valid() && EventReady(sn) && at >= old(at)
      ensures rc == Ok || rc == RecvTimeout || rc == RxOverflow || (IsSpiFault(rc) && FaultOf(bus, old(at), rc))
      ensures socks == old(socks)[sn := socks[sn]]
      ensures rc == Ok ==>
                var s := old(socks)[sn];
                var hdr := RingRead(s.rxBuf, s.rxRd, PACKET_HEADER_SIZE);
                var size := Be16(hdr[6], hdr[7]);
                size <= len && sourceIp == hdr[..IPV4_BYTES] && sourcePort == Be16(hdr[4], hdr[5])
                && data == RingRead(s.rxBuf, AddPtr(s.rxRd, PACKET_HEADER_SIZE), size)
                && socks[sn].rxRd == AddPtr(s.rxRd, PACKET_HEADER_SIZE + size)
                && socks[sn].rxAck == socks[sn].rxRd
                && socks[sn].cmds == s.cmds + [CmdRecv]
    {
      rc, data, sourceIp, sourcePort := ReceiveUdp(sn, len, timeout);
      if rc != Ok {
        return;
      }
      ghost var at1 := at;
      rc := Command(sn, CmdRecv);
      if rc != Ok {
        LaterFault(bus, old(at), at1, rc);
      }
    }

    /** The first two transfers of a UDP receive: Sn_RX_RD, then the 8-byte packet header there. */
    method ReadHeader(sn: nat) returns (rc: Status, header: seq<u8>)
      requires Valid() && sn < NUM_SOCKETS
      modifies this`at
      ensures Valid() && at > old(at)
      ensures rc == Ok || (IsSpiFault(rc) && FaultOf(bus, old(at), rc))
      ensures rc == Ok ==> header == RingRead(socks[sn].rxBuf, socks[sn].rxRd, PACKET_HEADER_SIZE)
    {
      header := [];
      rc := Xfer();
      if rc != Ok {
        return;
      }
      ghost var at1 := at;
      rc := Xfer();
      if rc != Ok {
        LaterFault(bus, old(at), at1, rc);
        return;
      }
      header := RingRead(socks[sn].rxBuf, socks[sn].rxRd, PACKET_HEADER_SIZE);
    }

    /** The header and payload reads of W5500_SocketRecieveUDP, once RECV has been seen. */
    method ReadUdp(sn: nat, len: u16) returns (rc: Status, data: seq<u8>, sourceIp: seq<u8>, sourcePort: u16)
      requires Valid() && sn < NUM_SOCKETS
      modifies this`at, this`socks
      ensures Valid() && at > old(at)
      ensures rc == Ok || rc == RxOverflow || (IsSpiFault(rc) && FaultOf(bus, old(at), rc))
      ensures rc != Ok ==> socks == old(socks)
      ensures rc == Ok || rc == RxOverflow ==> ReadUdpDone(old(socks)[sn], len, rc, data, sourceIp, sourcePort, socks[sn])
      ensures rc != Ok ==> data == [] || (IsSpiFault(rc) && UdpPayload(old(socks)[sn], len, data))
      ensures socks == old(socks)[sn := socks[sn]]
    {
      data, sourceIp, sourcePort := [], [], 0;
      var header;
      rc, header := ReadHeader(sn);
      if rc != Ok {
        return;
      }
      var size := WireField(header[6], header[7]);
      sourcePort := WireField(header[4], header[5]);
      sourceIp := header[..IPV4_BYTES];
      ghost var at1 := at;
      rc, data := ReadBody(sn, len, size);
      if IsSpiFault(rc) {
        LaterFault(bus, old(at), at1, rc);
      }
    }

    /**
     * The rest of a UDP receive once the header announced `size` bytes:
     * the overflow check, then the payload after the header.
     */
    method ReadBody(sn: nat, len: u16, size: u16) returns (rc: Status, data: seq<u8>)
      requires Valid() && sn < NUM_SOCKETS
      modifies this`at, this`socks
      ensures Valid() && at >= old(at)
      ensures rc == Ok || rc == RxOverflow || (IsSpiFault(rc) && FaultOf(bus, old(at), rc))
      ensures rc == RxOverflow <==> size > len
      ensures rc != Ok ==> socks == old(socks)
      ensures var s := old(socks)[sn];
              var payload := RingRead(s.rxBuf, AddPtr(s.rxRd, PACKET_HEADER_SIZE), size);
              (rc == Ok ==> data == payload && socks == old(socks)[sn := s.(rxRd := AddPtr(s.rxRd, PACKET_HEADER_SIZE + size))])
              && (rc != Ok ==> data == [] || (IsSpiFault(rc) && size <= len && data == payload))
    {
      data := [];
      if size > len {
        return RxOverflow, data;
      }
      ghost var s := socks[sn];
      var ptr := AddPtr(socks[sn].rxRd, PACKET_HEADER_SIZE);
      AddPtrAdd(s.rxRd, PACKET_HEADER_SIZE, size);
      rc, data := ReadPayload(sn, ptr, size);
    }
  }

  /**
   * A TCP receive that got past its transfers: it overflows exactly when
   * more bytes are waiting than the caller's buffer holds; otherwise it
   * returns all of them, read from Sn_RX_RD on, and advances Sn_RX_RD past them.
   */
  predicate ReadTcpDone(s: Sock, len: u16, rc: Status, data: seq<u8>, s': Sock)
    requires SockValid(s)
  {
    (rc == RxOverflow <==> s.rxRsr > len)
    && (rc == RxOverflow ==> s' == s)
    && (rc == Ok ==> data == RingRead(s.rxBuf, s.rxRd, s.rxRsr) && s' == s.(rxRd := AddPtr(s.rxRd, s.rxRsr)))
  }

  /**
   * As written, a TCP receive that returns data leaves the chip's read
   * pointer behind the driver's: the chip still counts the bytes just read
   * as unread and does not free their space.
   */
  lemma TcpReceiveLeavesChipBehind(s: Socket, len: u16, data: seq<u8>, s': Sock)
    requires ReadTcpDone(s, len, Ok, data, s') && s.rxAck == s.rxRd && s.rxRsr > 0
    ensures |data| > 0 && s'.rxAck != s'.rxRd
  {
  }

  /** The same for a UDP receive, whose header alone moves Sn_RX_RD by 8. */
  lemma UdpReceiveLeavesChipBehind(s: Socket, len: u16, data: seq<u8>, ip: seq<u8>, port: u16, s': Sock)
    requires ReadUdpDone(s, len, Ok, data, ip, port, s') && s.rxAck == s.rxRd && len < RING - PACKET_HEADER_SIZE
    ensures s'.rxAck != s'.rxRd
  {
  }

  /**
   * A UDP receive that got past its header read: source address and port
   * come from the header; it overflows exactly when the header's size
   * exceeds the caller's buffer; otherwise it returns the payload after
   * the header and advances Sn_RX_RD past header and payload.
   */
  /**
   * `data` is the payload the header at Sn_RX_RD announces, and it fits
   * the caller's buffer of `len` bytes.
   */
  predicate UdpPayload(s: Sock, len: u16, data: seq<u8>)
    requires SockValid(s)
  {
    var hdr := RingRead(s.rxBuf, s.rxRd, PACKET_HEADER_SIZE);
    var size := Be16(hdr[6], hdr[7]);
    size <= len && data == RingRead(s.rxBuf, AddPtr(s.rxRd, PACKET_HEADER_SIZE), size)
  }

  predicate ReadUdpDone(s: Sock, len: u16, rc: Status, data: seq<u8>, sourceIp: seq<u8>, sourcePort: u16, s': Sock)
    requires SockValid(s)
  {
    var hdr := RingRead(s.rxBuf, s.rxRd, PACKET_HEADER_SIZE);
    var size := Be16(hdr[6], hdr[7]);
    sourceIp == hdr[..IPV4_BYTES] && sourcePort == Be16(hdr[4], hdr[5])
    && (rc == RxOverflow <==> size > len)
    && (rc == RxOverflow ==> s' == s)
    && (rc == Ok ==>
          data == RingRead(s.rxBuf, AddPtr(s.rxRd, PACKET_HEADER_SIZE), size)
          && s' == s.(rxRd := AddPtr(s.rxRd, PACKET_HEADER_SIZE + size)))
  }
}
