# AmbientSensor network and sensor core, modelled in Dafny

This project models the hand-written firmware core of the AmbientSensor board:

- the WIZnet W5500 Ethernet driver: the SPI transport, the register and status encodings, and the socket layer with its 16-bit TX/RX ring pointers and per-socket FreeRTOS event groups;
- the DHCP client on top of it (RFC 2131 messages with RFC 2132 options, and a five-state client machine);
- the publish-only MQTT 3.1.1 client (a fixed CONNECT, the CONNACK check, and a four-part PUBLISH committed with one SEND);
- the MAC-address sanity check of the 25AA02E48 EEPROM;
- the raw-value assembly, reset-value check, calibration unpacking, compensation, standby table and init order of the BME280 driver.

The modules follow the source files:

| module | file | models |
|---|---|---|
| `BitOps` | bitops.dfy | C bitwise or, and and shifts on non-negative integers, with the lemmas that turn disjoint ors into sums |
| `Constants` | constants.dfy | `constants.h`: the byte-swap macros and field sizes |
| `W5500Regs` | regs.dfy | `w5500_ll.h` and `w5500_socket_regs.h`: status codes, event bits, Sn_MR/Sn_IR layouts, command and status codes |
| `W5500Transport` | transport.dfy | `w5500_ll.c`: block select, SPI frame header, 16-bit register encoding, W5500_Transfer |
| `Ring` | ring.dfy | the socket buffers as rings addressed by 16-bit pointers that wrap at 2^16 |
| `W5500Socket` | socket.dfy | `w5500.c`: class `W5500` holding per-socket registers, buffers and event groups |
| `DhcpMessage` | dhcp_msg.dfy | `dhcp.h` and the pure parts of `dhcp.c`: layout, option encoding and scanning, reply checks, lease arithmetic, state table |
| `Dhcp` | dhcp_client.dfy | `dhcp.c`: class `DhcpClient` with the 548-byte message array and the state handlers |
| `MqttPacket` | mqtt_packet.dfy | `mqtt.h` and the packet bytes of `mqtt.c` |
| `Mqtt` | mqtt_client.dfy | `mqtt.c`: class `MqttClient` driving the socket layer |
| `Eeprom` | eeprom.dfy | `eeprom.c`: the memory read, the MAC checks, the status names |
| `Bme280` | bme280.dfy | `bme280.c`: class `Device` with the calibration union as an array |

The hardware and the operating system are inputs to the model, not parts of it:

- **SPI transfers.** The n-th transfer of the W5500 takes its HAL result from a script `bus`. Every socket-layer method promises either its logical outcome, or a failure that is the cast of a failed transfer it made (`FaultOf`).
- **Chip registers.** How many polls the command register needs before it clears, and the successive values of the status register, are scripts too.
- **Operating system.** The tick clock, the bits the interrupt task sets during an event-group wait, and whether `xEventGroupCreate` finds memory are scripts.
- **I2C and EEPROM SPI.** The BME280 and EEPROM transfers take their status and received bytes as parameters.

Every operation follows the code as written, including the defects listed under Findings, except for the differences listed under "## Left out"; each corrected definition stands beside it with its own proofs.

The host is little-endian, as on the Cortex-M0 target. A `uint16_t` field of a packed union therefore sits in memory low byte first.

## Model

| member | source | states |
|---|---|---|
| Constants.ByteSwap16 | AmbientSensor_Code/user/constants.h:31 | BYTE_SWAP_16 stored back into a uint16 swaps the two bytes |
| Constants.ByteSwap16Involution | AmbientSensor_Code/user/constants.h:31 | swapping twice returns the original 16-bit value |
| Constants.ByteSwap16Decodes | AmbientSensor_Code/user/constants.h:31 | a big-endian wire field read in host order and swapped is its wire value |
| Constants.ByteSwap32 | AmbientSensor_Code/user/constants.h:34 | BYTE_SWAP_32 reverses the four bytes of a uint32 |
| Constants.SwapTerms | AmbientSensor_Code/user/constants.h:34 | each masked and shifted term of BYTE_SWAP_32 is one byte moved to its mirrored place |
| Constants.ByteSwap32Involution | AmbientSensor_Code/user/constants.h:34 | swapping twice returns the original 32-bit value |
| Constants.ByteSwap32Decodes | AmbientSensor_Code/user/constants.h:34 | a big-endian 32-bit wire field read in host order and swapped is its wire value |
| W5500Regs.Code | AmbientSensor_Code/user/w5500/w5500_ll.h:73-95 | every status has a code below 20, and only W5500_OK has code 0 |
| W5500Regs.FromCode | AmbientSensor_Code/user/w5500/w5500_ll.h:73-95 | a numeric code names a status exactly when it is below 20, and that status has the code |
| W5500Regs.CodeRoundTrip | AmbientSensor_Code/user/w5500/w5500_ll.h:73-95 | decoding a status's code gives the status back, so the 20 codes are distinct |
| W5500Regs.CodeInjective | AmbientSensor_Code/user/w5500/w5500_ll.h:73-95 | two statuses with the same code are the same status |
| W5500Regs.FromHal | AmbientSensor_Code/user/w5500/w5500_ll.c:701 | the cast HAL result is W5500_OK exactly when the HAL said OK, and an SPI fault otherwise |
| W5500Regs.FromHalKeepsCode | AmbientSensor_Code/user/w5500/w5500_ll.c:701 | the cast keeps the numeric value: HAL error, busy and timeout are codes 1, 2 and 3 |
| W5500Regs.SpiFaultIsCastHal | AmbientSensor_Code/user/w5500/w5500_ll.h:75-78 | every SPI fault status is the cast of some failing HAL result |
| W5500Regs.StatusString | AmbientSensor_Code/user/w5500/w5500_ll.c:112-159 | a code below 20 gets a name that reads back as its status; every other code gets "UNKNOWN", and only those do |
| W5500Regs.NameReadsBack | AmbientSensor_Code/user/w5500/w5500_ll.c:112-159 | every status name reads back as that status and is not "UNKNOWN" |
| W5500Regs.StatusStringInjective | AmbientSensor_Code/user/w5500/w5500_ll.c:112-159 | distinct codes get distinct names |
| W5500Regs.IrByte | AmbientSensor_Code/user/w5500/w5500_socket_regs.h:83-95 | the Sn_IR byte holds con, discon, recv, timeout and sendok in bits 0 to 4, with the reserved bits zero |
| W5500Regs.EventBitsAreIrBits | AmbientSensor_Code/user/w5500/w5500_ll.h:48-55 | each socket event bit equals the Sn_IR byte with only the same-named field set |
| W5500Regs.OpenMaskValue | AmbientSensor_Code/user/w5500/w5500.c:156-162 | the interrupt mask SocketOpen writes is 0x1F |
| W5500Regs.ModeByte | AmbientSensor_Code/user/w5500/w5500_socket_regs.h:69-80 | the Sn_MR byte has the protocol in bits 0 to 3 and the four flags above it, each reading back |
| W5500Regs.ModeByteIsProtocol | AmbientSensor_Code/user/w5500/w5500.c:166-168 | the mode byte with every flag clear is the protocol code itself |
| W5500Regs.CmdCode | AmbientSensor_Code/user/w5500/w5500_socket_regs.h:36-48 | every command code is non-zero, so a command register reading 0 means the command was taken |
| W5500Regs.OpenedStatus | AmbientSensor_Code/user/w5500/w5500.c:180-191 | TCP, UDP and MACRAW each have an opened status other than CLOSED; CLOSED has none |
| W5500Regs.OpenedStatusInjective | AmbientSensor_Code/user/w5500/w5500_socket_regs.h:51-66 | the opened statuses 0x13, 0x22 and 0x42 are pairwise distinct |
| W5500Transport.Bsb | AmbientSensor_Code/user/w5500/w5500_ll.c:32-36 | block select is 0 for the common block and 1+4·sn, 2+4·sn, 3+4·sn for a socket's blocks; it fits 5 bits and decodes back to its block |
| W5500Transport.BsbInjective | AmbientSensor_Code/user/w5500/w5500_ll.c:597-616 | distinct blocks never share a block-select value |
| W5500Transport.ControlByte | AmbientSensor_Code/user/w5500/w5500_ll.c:623-645 | the control byte holds om in bits 0-1, rw in bit 2 and bsb in bits 3-7, each reading back |
| W5500Transport.FrameHeader | AmbientSensor_Code/user/w5500/w5500_ll.c:667-672 | the 3-byte header is the address big-endian, then (bsb << 3) \| (rw << 2) |
| W5500Transport.FrameHeaderParses | AmbientSensor_Code/user/w5500/w5500_ll.c:667-672 | the chip parses back the address, block, direction and variable-length mode that were sent |
| W5500Transport.Encode16 | AmbientSensor_Code/user/w5500/w5500_ll.c:392-399 | a 16-bit setter sends the high byte, then the low byte |
| W5500Transport.Decode16 | AmbientSensor_Code/user/w5500/w5500_ll.c:492-499 | a 16-bit getter yields (buf[0] << 8) \| buf[1] |
| W5500Transport.Decode16Encode16 | AmbientSensor_Code/user/w5500/w5500_ll.c:492-523 | decoding what a setter sends gives the value back |
| W5500Transport.Encode16Decode16 | AmbientSensor_Code/user/w5500/w5500_ll.c:492-523 | encoding a decoded value gives the two bytes back |
| W5500Transport.Transfer | AmbientSensor_Code/user/w5500/w5500_ll.c:657-702 | header first; a failed header skips the data phase; CS is released and the critical section left on every path; the result is the cast HAL status |
| Ring.AddPtr | AmbientSensor_Code/user/w5500/w5500.c:330 | advancing a 16-bit pointer by n < 2^16 puts it n places ahead in the ring |
| Ring.OffsetShift | AmbientSensor_Code/user/w5500/w5500.c:521 | moving the start forward by n moves every ring offset back by n, modulo 2^16 |
| Ring.RingWrite | AmbientSensor_Code/user/w5500/w5500_ll.c:597-601 | a buffer write puts the data at successive pointers, wrapping at 2^16, and leaves every other byte unchanged |
| Ring.RingRead | AmbientSensor_Code/user/w5500/w5500_ll.c:612-616 | a buffer read takes successive bytes from its start pointer, wrapping at 2^16 |
| Ring.ReadAfterWrite | AmbientSensor_Code/user/w5500/w5500_ll.c:597-616 | reading back from where data was written gives the data |
| Ring.WriteContiguous | AmbientSensor_Code/user/w5500/w5500.c:516-528 | a write starting where the previous one ended equals one write of the concatenation |
| Ring.AddPtrAdd | AmbientSensor_Code/user/w5500/w5500.c:521 | advancing by a and then by b is advancing by a + b |
| W5500Socket.PollSpecFault | AmbientSensor_Code/user/w5500/w5500.c:249-261 | SocketCommand fails only with the cast of a failed transfer it made |
| W5500Socket.PollSucceeds | AmbientSensor_Code/user/w5500/w5500.c:249-261 | on a fault-free bus SocketCommand always succeeds |
| W5500Socket.StatusWaitFault | AmbientSensor_Code/user/w5500/w5500.c:271-285 | SocketStatusWait ends in success, a timeout, or the cast of a failed transfer it made |
| W5500Socket.ZeroTimeoutTimesOut | AmbientSensor_Code/user/w5500/w5500.c:279-281 | a zero timeout always times out |
| W5500Socket.LateMatchTimesOut | AmbientSensor_Code/user/w5500/w5500.c:276-283 | the deadline is checked before the status, so a match read after the deadline is a timeout |
| W5500Socket.ReleaseKeepsLive | AmbientSensor_Code/user/w5500/w5500.c:105-114 | deleting a slot's group and clearing the slot keeps every other slot pointing at a live group |
| W5500Socket.StaleSlotAfterClose | AmbientSensor_Code/user/w5500/w5500.c:107-110 | deleting the group but keeping the handle leaves a slot pointing at a freed group |
| W5500Socket.AcquireKeepsLive | AmbientSensor_Code/user/w5500/w5500.c:149-153 | a freshly created group in a slot keeps all slots live |
| W5500Socket.Mask16 | AmbientSensor_Code/user/w5500/w5500.c:489 | (uint16_t)(x & UINT16_MAX) is x modulo 2^16 |
| W5500Socket.WireField | AmbientSensor_Code/user/w5500/w5500.c:372-377 | BYTE_SWAP_16 of a packed header field is the big-endian value of its two wire bytes |
| W5500Socket.W5500.Xfer | AmbientSensor_Code/user/w5500/w5500_ll.c:657-702 | one transfer consumes one bus outcome and returns its cast |
| W5500Socket.W5500.SetSipr | AmbientSensor_Code/user/w5500/w5500_ll.c:201-204 | SIPR takes the address exactly when the transfer succeeds |
| W5500Socket.W5500.SetGar | AmbientSensor_Code/user/w5500/w5500_ll.c:177-180 | GAR takes the address exactly when the transfer succeeds |
| W5500Socket.W5500.SetSubr | AmbientSensor_Code/user/w5500/w5500_ll.c:185-188 | SUBR takes the mask exactly when the transfer succeeds |
| W5500Socket.W5500.Command | AmbientSensor_Code/user/w5500/w5500.c:249-261 | writes Sn_CR and polls until it clears; the command is recorded once the write succeeds; a failed transfer is returned at once |
| W5500Socket.W5500.AwaitCleared | AmbientSensor_Code/user/w5500/w5500.c:255-259 | the poll loop returns the first failed read, or OK when the register reads 0 |
| W5500Socket.W5500.ReadStatus | AmbientSensor_Code/user/w5500/w5500_ll.c:379-383 | a successful read of Sn_SR takes the chip's next status; a failed one changes nothing |
| W5500Socket.W5500.StatusWait | AmbientSensor_Code/user/w5500/w5500.c:271-285 | the result is the status-wait specification over the bus, status and clock scripts; OK means Sn_SR reached the status |
| W5500Socket.W5500.DeleteGroup | AmbientSensor_Code/user/w5500/w5500.c:109 | vEventGroupDelete removes the group; deleting one that does not exist is recorded as a double free |
| W5500Socket.W5500.WaitBits | AmbientSensor_Code/user/w5500/w5500.c:304 | the bits seen are those set plus those that arrive; when any awaited bit is among them, the awaited bits are cleared |
| W5500Socket.W5500.Close | AmbientSensor_Code/user/w5500/w5500.c:105-114 | as written: deletes a non-NULL group but keeps the handle in the slot, then CLOSE and wait for SOCK_CLOSED; a double free is recorded exactly when the slot held a handle already deleted, and the other slots stay live |
| W5500Socket.W5500.CloseFixed | AmbientSensor_Code/user/w5500/w5500.c:105-114 | the close with the slot cleared after the delete; slots stay live |
| W5500Socket.W5500.CloseTwice | AmbientSensor_Code/user/w5500/w5500.c:105-114 | two as-written closes of an open socket free its group twice |
| W5500Socket.W5500.CloseFixedTwice | AmbientSensor_Code/user/w5500/w5500.c:105-114 | two corrected closes never free a group twice |
| W5500Socket.W5500.Shutdown | AmbientSensor_Code/user/w5500/w5500.c:111-113 | CLOSE, then wait for SOCK_CLOSED; on success the socket is closed |
| W5500Socket.W5500.Open | AmbientSensor_Code/user/w5500/w5500.c:125-194 | the as-written close, then clear Sn_IR, create the group (OS_MEMORY_ERROR leaves the slot NULL), unmask 0x1F, write the mode and port, OPEN, and wait for the opened status; until the create the slot keeps the deleted handle; on OK the slot holds a fresh group with no bits set and CLOSE then OPEN are recorded |
| W5500Socket.W5500.Reopen | AmbientSensor_Code/user/w5500/w5500.c:138-193 | the steps after the close, stated against the slots, groups and sockets before it: the slot keeps the deleted handle until the create, and on OK holds a fresh group |
| W5500Socket.W5500.OpenFailsThenReopens | AmbientSensor_Code/user/w5500/w5500.c:105-153 | as written, an open whose first transfer fails, followed by a second open, frees the same event group twice |
| W5500Socket.W5500.Setup | AmbientSensor_Code/user/w5500/w5500.c:138-193 | the steps of SocketOpen after the close, each failure returned at once |
| W5500Socket.W5500.Start | AmbientSensor_Code/user/w5500/w5500.c:155-193 | configure, OPEN, then wait; on success the socket holds the protocol and port and is in its opened status |
| W5500Socket.W5500.CreateGroup | AmbientSensor_Code/user/w5500/w5500.c:149-153 | a created group is fresh with no bits set; a failed create stores NULL |
| W5500Socket.W5500.WaitOpened | AmbientSensor_Code/user/w5500/w5500.c:180-191 | CLOSED returns OK without waiting; other protocols wait for their opened status |
| W5500Socket.W5500.ClearInterrupts | AmbientSensor_Code/user/w5500/w5500.c:139-146 | after success Sn_IR is clear; a failed transfer leaves the socket unchanged |
| W5500Socket.W5500.Configure | AmbientSensor_Code/user/w5500/w5500.c:155-173 | on success Sn_IMR is 0x1F, Sn_MR is the protocol and Sn_PORT the port |
| W5500Socket.W5500.Destination | AmbientSensor_Code/user/w5500/w5500.c:204-209 | on success Sn_DIPR and Sn_DPORT hold the destination |
| W5500Socket.W5500.Connect | AmbientSensor_Code/user/w5500/w5500.c:219-240 | destination, CONNECT, then CON_TIMEOUT unless the CON event is seen; the event group after the wait has CON cleared when seen, and one arrival is consumed |
| W5500Socket.W5500.SendBuffer | AmbientSensor_Code/user/w5500/w5500.c:541-568 | a latched TIMEOUT or DISCON refuses without clearing it; otherwise Sn_TX_WR is committed, SEND issued, and SENDOK awaited; OK exactly when SENDOK is among the bits seen, and the group after the wait is stated |
| W5500Socket.W5500.CommitSend | AmbientSensor_Code/user/w5500/w5500.c:548-567 | Sn_TX_WR takes the pointer and SEND is recorded; OK exactly when the set and arriving bits hold SENDOK; the group is the one the wait leaves; a failure is a failed transfer |
| W5500Socket.W5500.Send | AmbientSensor_Code/user/w5500/w5500.c:419-463 | the latched-event check, then the empty message (OK, nothing sent), then TX_OVERFLOW when the message exceeds the free size, else the data at Sn_TX_WR with Sn_TX_WR advanced mod 2^16 and SEND; the event group is untouched until the SENDOK wait and stated after it |
| W5500Socket.W5500.SendData | AmbientSensor_Code/user/w5500/w5500.c:436-462 | write the data and send it; overflow leaves the socket and the event group unchanged; after the SENDOK wait the group is stated |
| W5500Socket.W5500.WriteData | AmbientSensor_Code/user/w5500/w5500.c:436-456 | TX_OVERFLOW exactly when the length exceeds Sn_TX_FSR; otherwise the data is in the ring at Sn_TX_WR |
| W5500Socket.W5500.WritePart | AmbientSensor_Code/user/w5500/w5500.c:475-531 | the registers are read only for the UINT32_MAX sentinel; overflow leaves fsr, ptr and the buffer unchanged; otherwise the part lands at ptr, fsr drops and ptr advances mod 2^16; Sn_TX_WR is untouched |
| W5500Socket.W5500.ReceiveTcp | AmbientSensor_Code/user/w5500/w5500.c:296-337 | DISCON wins over RECV; neither gives RECV_TIMEOUT; more received than fits gives RX_OVERFLOW with Sn_RX_RD untouched; otherwise the bytes are copied from Sn_RX_RD and Sn_RX_RD advances by that count |
| W5500Socket.W5500.ReceiveTcpAcked | AmbientSensor_Code/user/w5500/w5500.c:296-337 | the TCP receive followed by the RECV command it lacks: on OK the chip takes the new Sn_RX_RD, just past the bytes returned |
| W5500Socket.TcpReceiveLeavesChipBehind | AmbientSensor_Code/user/w5500/w5500.c:326-336 | as written, a TCP receive that returns data leaves the chip's read pointer behind Sn_RX_RD |
| W5500Socket.W5500.ReadTcp | AmbientSensor_Code/user/w5500/w5500.c:314-336 | the reads after RECV: Sn_RX_RSR, the size check, then the payload and the new Sn_RX_RD |
| W5500Socket.W5500.ReadPayload | AmbientSensor_Code/user/w5500/w5500.c:326-333 | the data is the ring read at the start pointer, and Sn_RX_RD is written past it; when only the Sn_RX_RD write fails the data has already been read, when the read fails there is none |
| W5500Socket.W5500.ReceiveUdp | AmbientSensor_Code/user/w5500/w5500.c:350-408 | no RECV gives RECV_TIMEOUT; otherwise the 8-byte header is read, the source IP and port copied out before the size check, overflow leaves Sn_RX_RD, and a fitting payload is read from ptr+8; a failed receive returns no data, or the announced payload when only the Sn_RX_RD write failed |
| W5500Socket.W5500.ReceiveUdpAcked | AmbientSensor_Code/user/w5500/w5500.c:350-408 | the UDP receive followed by the RECV command it lacks: on OK the payload is the one the header announces and the chip takes the new Sn_RX_RD, past header and payload |
| W5500Socket.UdpReceiveLeavesChipBehind | AmbientSensor_Code/user/w5500/w5500.c:396-407 | as written, a successful UDP receive leaves the chip's read pointer behind Sn_RX_RD |
| W5500Socket.W5500.ReadHeader | AmbientSensor_Code/user/w5500/w5500.c:366-370 | the header is the 8 ring bytes at Sn_RX_RD |
| W5500Socket.W5500.ReadUdp | AmbientSensor_Code/user/w5500/w5500.c:366-407 | the reads after RECV: header, size check, payload, Sn_RX_RD advanced by 8 + size |
| DhcpMessage.LayoutMatchesRfc | AmbientSensor_Code/user/w5500/dhcp.h:105-126 | every field sits at the offset of RFC 2131 section 2; the fixed header is 236 bytes and the message 548 |
| DhcpMessage.PreparedFields | AmbientSensor_Code/user/w5500/dhcp.c:191-237 | a prepared message is a BOOTREQUEST for Ethernet with hlen 6, xid 1428032432, zero addresses, the MAC in chaddr[0..5], the rest of chaddr untouched, and only the cookie in the options |
| DhcpMessage.DiscoverOptions | AmbientSensor_Code/user/w5500/dhcp.c:255-285 | the DISCOVER options take 15 + hostname bytes |
| DhcpMessage.RequestOptions | AmbientSensor_Code/user/w5500/dhcp.c:307-354 | the REQUEST options take 28 + hostname bytes |
| DhcpMessage.BuiltArea | AmbientSensor_Code/user/w5500/dhcp.c:226-285 | the option area of a built message is the cookie, the options, then zeros |
| DhcpMessage.ScanFindsFirst | AmbientSensor_Code/user/w5500/dhcp.c:57-94 | the option scan finds a code exactly when an option it steps on carries it, and then returns the position after the first one |
| DhcpMessage.ScanFoundCode | AmbientSensor_Code/user/w5500/dhcp.c:57-94 | a found option's code sits right before the returned index |
| DhcpMessage.ScanPads | AmbientSensor_Code/user/w5500/dhcp.c:70-74 | an area of PAD bytes holds no option |
| DhcpMessage.ScanLeavesArea | AmbientSensor_Code/user/w5500/dhcp.c:81-89 | as written, an option code in the last byte makes the scan read past the 312-byte area, or return 312 for its callers to read |
| DhcpMessage.OptionIndex | AmbientSensor_Code/user/w5500/dhcp.c:57-94 | the scan kept inside the area: a non-zero index lies inside the area, past the cookie, right after the wanted code |
| DhcpMessage.OptionPointer | AmbientSensor_Code/user/w5500/dhcp.c:57-94 | as written, the scan returns a position right after the wanted code, past the cookie and at most 312, and agrees with the in-area index below 312 |
| DhcpMessage.DiscoverReadsBack | AmbientSensor_Code/user/w5500/dhcp.c:244-289 | scanning a built DISCOVER finds its type, client id and host name |
| DhcpMessage.RequestReadsBack | AmbientSensor_Code/user/w5500/dhcp.c:296-358 | scanning a built REQUEST finds its type, parameter list and requested address |
| DhcpMessage.ValidateOrder | AmbientSensor_Code/user/w5500/dhcp.c:380-411 | as written, the checks run in order: bad opcode, then missing cookie, then missing type, then corrupt type, else accepted with the byte after the length, read from the area or from the bytes past it |
| DhcpMessage.ValidateInAreaOrder | AmbientSensor_Code/user/w5500/dhcp.c:380-411 | the corrected checks run in the same order and accept only a type byte inside the area |
| DhcpMessage.ValidateInAreaAgrees | AmbientSensor_Code/user/w5500/dhcp.c:398-408 | whenever the corrected checks accept, the as-written ones give the same verdict; they differ only when option 53 starts in the last two bytes of the area |
| DhcpMessage.ValidateReadsPast | AmbientSensor_Code/user/w5500/dhcp.c:398-408 | as written, a reply whose option 53 starts at byte 310 is accepted with the byte after the message as its type; the corrected checks reject it as corrupt |
| DhcpMessage.XidIgnored | AmbientSensor_Code/user/w5500/dhcp.c:376-378 | xid, secs and flags play no part in accepting a reply |
| DhcpMessage.HostOrderKeepsChecks | AmbientSensor_Code/user/w5500/dhcp.c:376-378 | the endian swaps do not change the verdict |
| DhcpMessage.HostOrderSwaps | AmbientSensor_Code/user/w5500/dhcp.c:376-378 | after the swaps xid, secs and flags hold the byte-swapped values |
| DhcpMessage.LeaseOption | AmbientSensor_Code/user/w5500/dhcp.c:566-584 | option 51 is read only when present with length exactly 4, most significant byte first |
| DhcpMessage.SubnetOption | AmbientSensor_Code/user/w5500/dhcp.c:622-639 | option 1 is used only when present with length exactly 4 |
| DhcpMessage.RouterOption | AmbientSensor_Code/user/w5500/dhcp.c:657-674 | option 3 needs only a length that is a multiple of 4, and its first four value bytes are the gateway |
| DhcpMessage.EmptyRouterAccepted | AmbientSensor_Code/user/w5500/dhcp.c:657-674 | a router option of length 0 is accepted, and the next option's bytes become the gateway |
| DhcpMessage.LeaseSeconds | AmbientSensor_Code/user/w5500/dhcp.c:580-584 | the four or-ed shifts give the big-endian 32-bit lease |
| DhcpMessage.Derate | AmbientSensor_Code/user/w5500/dhcp.c:588 | the derated lease D satisfies 7L/8 ≤ D ≤ L |
| DhcpMessage.LeaseTicksSaturates | AmbientSensor_Code/user/w5500/dhcp.c:591-598 | the overflow check is exact: the product when it fits in 32 bits, portMAX_DELAY otherwise |
| DhcpMessage.LeaseDuration | AmbientSensor_Code/user/w5500/dhcp.c:580-598 | the lease in ticks lies between 7/8 of seconds·rate and seconds·rate, or is portMAX_DELAY |
| DhcpMessage.SleepWraps | AmbientSensor_Code/user/w5500/dhcp.c:734 | as written, an expired lease wraps the sleep to almost 2^32 ticks |
| DhcpMessage.Sleep | AmbientSensor_Code/user/w5500/dhcp.c:734-736 | the corrected sleep never exceeds the lease, equals the as-written one while the lease runs, and is 0 once it has run out |
| DhcpMessage.Successors | AmbientSensor_Code/user/w5500/dhcp.c:418-449 | every state can fall back to INIT, only handled states are reached, and BOUND is reachable only from REQUESTING or RENEWING |
| DhcpMessage.StateNamesReadBack | AmbientSensor_Code/user/w5500/dhcp.c:131-154 | each of the eight states has a name reading back as it; other values are "UNKNOWN" |
| DhcpMessage.MessageTypeNamesReadBack | AmbientSensor_Code/user/w5500/dhcp.c:101-124 | each message type 1..8 has a name reading back as it; other values are "UNKNOWN" |
| Dhcp.BoundTasks | AmbientSensor_Code/user/w5500/dhcp.c:728-731 | one resume or suspend per bound task, in task order |
| Dhcp.PreparedInSteps | AmbientSensor_Code/user/w5500/dhcp.c:191-237 | the steps of PrepareMessage in order give the prepared message |
| Dhcp.DhcpClient.GetOptionPointer | AmbientSensor_Code/user/w5500/dhcp.c:57-94 | the loop returns the as-written option pointer of the scan |
| Dhcp.DhcpClient.PrepareMessage | AmbientSensor_Code/user/w5500/dhcp.c:191-237 | the buffer becomes the prepared message |
| Dhcp.DhcpClient.ZeroAddresses | AmbientSensor_Code/user/w5500/dhcp.c:203-209 | the loop clears ciaddr, yiaddr, siaddr and giaddr and nothing else |
| Dhcp.DhcpClient.CopyMac | AmbientSensor_Code/user/w5500/dhcp.c:212-215 | chaddr[0..5] takes the MAC and nothing else changes |
| Dhcp.DhcpClient.ZeroRange | AmbientSensor_Code/user/w5500/dhcp.c:218-229 | one clearing loop zeroes its range and nothing else |
| Dhcp.DhcpClient.PutCookie | AmbientSensor_Code/user/w5500/dhcp.c:231-235 | the cookie lands at opt[0..3] |
| Dhcp.DhcpClient.PutOptions | AmbientSensor_Code/user/w5500/dhcp.c:260-285 | the options land right after the cookie |
| Dhcp.DhcpClient.SwapHeader | AmbientSensor_Code/user/w5500/dhcp.c:376-378 | the buffer is put in host order |
| Dhcp.DhcpClient.Initialize | AmbientSensor_Code/user/w5500/dhcp.c:161-184 | SIPR, GAR and SUBR are cleared and the socket is aimed at 255.255.255.255:67, with the first failure returned |
| Dhcp.DhcpClient.Transmit | AmbientSensor_Code/user/w5500/dhcp.c:250-289 | the socket is opened for UDP on port 68 with the as-written open, and on success all 548 bytes of the built message are sent; the slots stay live unless the close left a stale handle |
| Dhcp.DhcpClient.SendDiscover | AmbientSensor_Code/user/w5500/dhcp.c:244-289 | on success the sent message is the prepared buffer with the DISCOVER options |
| Dhcp.DhcpClient.SendRequest | AmbientSensor_Code/user/w5500/dhcp.c:296-358 | on success the sent message is the prepared buffer with the REQUEST options for the client address |
| Dhcp.DhcpClient.Receive | AmbientSensor_Code/user/w5500/dhcp.c:366-412 | a socket error is returned unchanged, with the buffer overlaid by whatever the receive wrote into it: nothing on a timeout or overflow, the announced payload when only the Sn_RX_RD write failed; on success the datagram is the payload the header announces, Sn_RX_RD moves past it, and the buffer is that datagram overlaid, put in host order and judged by the ordered checks |
| Dhcp.DhcpClient.Fetch | AmbientSensor_Code/user/w5500/dhcp.c:372 | the UDP receive into the client's buffer with the size limit 548: the server address is the header's source address once the header was read; on OK or RX_OVERFLOW the socket changes as a UDP receive states, on any other error it is unchanged, and the data is empty or the announced payload |
| Dhcp.DhcpClient.Check | AmbientSensor_Code/user/w5500/dhcp.c:380-411 | the in-place checks return the verdict of the as-written ordered checks, reading the bytes past the area when option 53 ends it |
| Dhcp.DhcpClient.ReadLease | AmbientSensor_Code/user/w5500/dhcp.c:566-584 | the read lease is the lease option of the buffer |
| Dhcp.DhcpClient.ReadSubnet | AmbientSensor_Code/user/w5500/dhcp.c:622-639 | the read mask is the subnet option of the buffer |
| Dhcp.DhcpClient.ReadRouter | AmbientSensor_Code/user/w5500/dhcp.c:657-674 | the read gateway is the router option of the buffer |
| Dhcp.DhcpClient.ApplyLease | AmbientSensor_Code/user/w5500/dhcp.c:562-598 | the tick is taken first; the derated, scaled lease is kept only when option 51 is valid |
| Dhcp.DhcpClient.ApplyAddresses | AmbientSensor_Code/user/w5500/dhcp.c:600-685 | SIPR is written before the subnet is checked and SUBR before the router; the client binds only if all three are set |
| Dhcp.DhcpClient.HandleInit | AmbientSensor_Code/user/w5500/dhcp.c:455-483 | INIT moves to SELECTING only when Initialize and DISCOVER both succeed; otherwise it delays 3000 ticks and stays INIT; a double free is recorded exactly when Initialize succeeded and the socket's slot held a deleted group |
| Dhcp.DhcpClient.HandleSelecting | AmbientSensor_Code/user/w5500/dhcp.c:489-538 | an OFFER gives clientIp := yiaddr and moves to REQUESTING once the REQUEST is sent; anything else goes to INIT; a double free is recorded exactly when an OFFER came and the socket's slot held a deleted group |
| Dhcp.DhcpClient.HandleRequesting | AmbientSensor_Code/user/w5500/dhcp.c:544-715 | an ACK with valid lease, subnet and router options binds; a NAK, another reply, a timeout, a bad option or a failed write goes to INIT |
| Dhcp.DhcpClient.HandleBound | AmbientSensor_Code/user/w5500/dhcp.c:721-757 | resume the bound tasks, sleep for the as-written time, which wraps once the lease has run out, then RENEWING iff the REQUEST is sent, after suspending the tasks |
| Dhcp.DhcpClient.ForBoundTasks | AmbientSensor_Code/user/w5500/dhcp.c:751-754 | one scheduler call per bound task, in order |
| Dhcp.DhcpClient.HandleRenewing | AmbientSensor_Code/user/w5500/dhcp.c:763-846 | an ACK with a valid lease option renews the lease and binds again; anything else goes to INIT |
| Dhcp.DhcpClient.Step | AmbientSensor_Code/user/w5500/dhcp.c:418-449 | one pass of the client task lands in a successor state; an unhandled state resets to INIT without touching the chip |
| MqttPacket.FirstByte | AmbientSensor_Code/user/w5500/mqtt.h:68-69 | the packet type is the high nibble of byte 0 and the flags the low nibble |
| MqttPacket.ConnectFlagsReadBack | AmbientSensor_Code/user/w5500/mqtt.h:74-82 | every connect flag reads back from its bit position and the reserved bit is 0 |
| MqttPacket.PublishFlags | AmbientSensor_Code/user/w5500/mqtt.h:104-107 | the PUBLISH flags fit the low nibble |
| MqttPacket.PublishFlagsReadBack | AmbientSensor_Code/user/w5500/mqtt.h:104-107 | retain, qos and dup read back from bits 0, 1-2 and 3 |
| MqttPacket.FieldsReadBack | AmbientSensor_Code/user/w5500/mqtt.h:71 | a field stored in host order reads back little-endian; swapped first, big-endian |
| MqttPacket.SwapThenStore | AmbientSensor_Code/user/w5500/mqtt.c:80-82 | swapping and then storing puts a 16-bit field on the wire big-endian |
| MqttPacket.ConnectPacket | AmbientSensor_Code/user/w5500/mqtt.c:60-82 | the CONNECT buffer is 14 bytes |
| MqttPacket.ConnectBytes | AmbientSensor_Code/user/w5500/mqtt.c:60-85 | the CONNECT is exactly 10 0C 00 04 4D 51 54 54 04 02 0E 10 00 00 |
| MqttPacket.ConnectReadsBack | AmbientSensor_Code/user/w5500/mqtt.c:60-82 | read per MQTT 3.1.1 section 3.1: CONNECT, remaining length 12, "MQTT", level 4, CleanSession only, keep-alive 3600, empty client id |
| MqttPacket.ShortConnackAccepted | AmbientSensor_Code/user/w5500/mqtt.c:89-102 | as written, two CONNACK bytes over stale zeros pass as accepted; the corrected check rejects them |
| MqttPacket.Connack | AmbientSensor_Code/user/w5500/mqtt.c:92-104 | the CONNACK verdict is OK, bad packet or refused |
| MqttPacket.ConnackChecks | AmbientSensor_Code/user/w5500/mqtt.c:92-104 | OK exactly for a complete CONNACK of length 2 and code 0; refused exactly for a complete one with another code; agrees with the source on complete replies |
| MqttPacket.AckFlagsIgnored | AmbientSensor_Code/user/w5500/mqtt.c:92-104 | the acknowledge-flags byte plays no part |
| MqttPacket.PublishHeader | AmbientSensor_Code/user/w5500/mqtt.c:124-128 | the PUBLISH header is two bytes |
| MqttPacket.PublishPacket | AmbientSensor_Code/user/w5500/mqtt.c:124-145 | the packet is 4 + topic + payload bytes |
| MqttPacket.PublishLayout | AmbientSensor_Code/user/w5500/mqtt.c:124-145 | with remaining length ≤ 127: 0x30, the length byte, the topic length big-endian, the topic, then the payload |
| MqttPacket.PublishHeaderBytes | AmbientSensor_Code/user/w5500/mqtt.c:124-128 | a remaining length below 128 gives the header 0x30, length |
| Mqtt.StageNext | AmbientSensor_Code/user/w5500/mqtt.c:131-146 | a part written at the running pointer extends the staged bytes |
| Mqtt.CommitThenReceive | AmbientSensor_Code/user/w5500/mqtt.c:85-90 | a committed send followed by a receive of everything pending is an exchange |
| Mqtt.MqttClient.Initialize | AmbientSensor_Code/user/w5500/mqtt.c:34-47 | open the socket for TCP on the source port with the as-written open, then connect to the server; the first failure is returned |
| Mqtt.MqttClient.Connect | AmbientSensor_Code/user/w5500/mqtt.c:54-105 | the 14-byte CONNECT is sent and the reply judged by the as-written CONNACK check over the 4-byte buffer, whose unreceived bytes keep their earlier values; the group after each wait is stated; errors are returned unchanged; a send that overflows or finds the socket disconnected leaves the sockets unchanged, a send that times out or is not followed by a reply leaves the CONNECT committed and the RX side untouched, and a reply leaves the exchange done |
| Mqtt.MqttClient.SendConnect | AmbientSensor_Code/user/w5500/mqtt.c:84-86 | SOCKET_DISCONNECTED exactly when an event is latched, TX_OVERFLOW exactly when the 14 bytes do not fit, and both leave the sockets unchanged; otherwise the CONNECT bytes are committed to the TX ring and SEND issued; OK exactly when SENDOK is seen; the group after the wait is stated |
| Mqtt.MqttClient.AwaitConnack | AmbientSensor_Code/user/w5500/mqtt.c:88-104 | DISCON gives SOCKET_DISCONNECTED and neither event RECV_TIMEOUT; otherwise at most 4 bytes are received and judged as written over the earlier buffer; the group after the wait is stated |
| Mqtt.MqttClient.Publish | AmbientSensor_Code/user/w5500/mqtt.c:116-153 | TX_OVERFLOW exactly when the whole packet exceeds the free size; an overflow or a latched disconnect leaves Sn_TX_WR uncommitted; otherwise the four parts sit contiguously at Sn_TX_WR, one SEND commits them, OK exactly when SENDOK is seen, and the group after the wait is stated |
| Mqtt.MqttClient.Commit | AmbientSensor_Code/user/w5500/mqtt.c:148-150 | SendBuffer with the write pointer past the staged parts; OK exactly when SENDOK is seen, and the group after the wait is stated |
| Mqtt.MqttClient.WriteParts | AmbientSensor_Code/user/w5500/mqtt.c:130-146 | TX_OVERFLOW exactly when the packet exceeds the free size; otherwise the packet is staged at Sn_TX_WR |
| Mqtt.MqttClient.Stage | AmbientSensor_Code/user/w5500/mqtt.c:136-146 | a later part lands right after the staged ones, or overflows with nothing changed |
| Eeprom.MacVerdict | AmbientSensor_Code/user/eeprom/eeprom.h:43-49 | the intended verdict is OK or one of the three MAC failure codes |
| Eeprom.MacVerdictMeaning | AmbientSensor_Code/user/eeprom/eeprom.h:43-49 | each intended code holds exactly when its pattern was read: all 0xFF, all 0x00, the echoed address FA..FF, or none |
| Eeprom.PatternsDisjoint | AmbientSensor_Code/user/eeprom/eeprom.c:94-126 | the three failure patterns exclude one another |
| Eeprom.MacVerdictAsWritten | AmbientSensor_Code/user/eeprom/eeprom.c:94-128 | as written, every failure pattern returns EEPROM_MAC_ALL_ONE |
| Eeprom.AsWrittenMergesCodes | AmbientSensor_Code/user/eeprom/eeprom.c:94-128 | the as-written check rejects the same readings as the intended one, under a single code |
| Eeprom.ZeroAndMirrorReportedAllOne | AmbientSensor_Code/user/eeprom/eeprom.c:105-126 | all zeros and FA..FF are reported as all ones, not as all zeros or mirror |
| Eeprom.ReadMemory | AmbientSensor_Code/user/eeprom/eeprom.c:38-70 | the READ command and address go out; a failed transmit is returned and skips the receive, leaving the buffer; otherwise the bytes the receive leaves land in the buffer whatever its status, and its status is returned |
| Eeprom.ReadMac | AmbientSensor_Code/user/eeprom/eeprom.c:78-129 | a read error is returned before any check; otherwise the verdict is the as-written one on the six bytes |
| Eeprom.CheckMac | AmbientSensor_Code/user/eeprom/eeprom.c:93-128 | the corrected loops return the intended verdict |
| Eeprom.CheckMacAsWritten | AmbientSensor_Code/user/eeprom/eeprom.c:93-128 | the loops as written return the as-written verdict |
| Eeprom.ScanFor | AmbientSensor_Code/user/eeprom/eeprom.c:94-104 | the loop reports a match exactly when all six bytes equal the value |
| Eeprom.ScanMirror | AmbientSensor_Code/user/eeprom/eeprom.c:116-126 | the loop reports a match exactly when byte i is 0xFA + i for all six bytes |
| Eeprom.StatusString | AmbientSensor_Code/user/eeprom/eeprom.c:136-157 | codes above 6, and only those, are "UNKNOWN"; every name is non-empty |
| Eeprom.StatusStringsDistinct | AmbientSensor_Code/user/eeprom/eeprom.c:136-157 | distinct codes get distinct names |
| Bme280.RawTempPress | AmbientSensor_Code/user/bme280/bme280.c:364-369 | msb<<12 \| lsb<<4 \| xlsb>>4 is below 2^20 and equals the sum of the placed fields |
| Bme280.RawHumidity | AmbientSensor_Code/user/bme280/bme280.c:370-371 | msb<<8 \| lsb is below 2^16 and equals the sum of the placed bytes |
| Bme280.RawTempPressFields | AmbientSensor_Code/user/bme280/bme280.c:364-369 | each field of a raw value reads back the register bits it came from |
| Bme280.RawReading | AmbientSensor_Code/user/bme280/bme280.c:364-371 | the raw temperature and pressure are below 2^20 and the humidity below 2^16 |
| Bme280.ResetCheckAsWritten | AmbientSensor_Code/user/bme280/bme280.c:374-377 | the as-written reset test yields OK or BAD_OUTPUT |
| Bme280.ResetCheckAsWrittenMeaning | AmbientSensor_Code/user/bme280/bme280.c:374-377 | as written, only humidity at its reset value is flagged |
| Bme280.ResetTemperatureAccepted | AmbientSensor_Code/user/bme280/bme280.c:374-377 | a temperature at its reset value passes the as-written test |
| Bme280.ResetCheck | AmbientSensor_Code/user/bme280/bme280.c:374-377 | the corrected reset test yields OK or BAD_OUTPUT |
| Bme280.ResetCheckMeaning | AmbientSensor_Code/user/bme280/bme280.c:374-377 | the corrected test flags exactly the readings with some value at its reset value 0x80000, 0x80000 or 0x8000 |
| Bme280.PackedView | AmbientSensor_Code/user/bme280/bme280.h:37-61 | the packed struct puts H1 at buf[24] and H3 at buf[27] |
| Bme280.H4Of | AmbientSensor_Code/user/bme280/bme280.c:288 | H4 is E4 bits 11..4 and E5's low nibble bits 3..0, below 2^12 |
| Bme280.H5Of | AmbientSensor_Code/user/bme280/bme280.c:289 | H5 is E5's high nibble bits 3..0 and E6 bits 11..4, below 2^12 |
| Bme280.StoredBuffer | AmbientSensor_Code/user/bme280/bme280.c:254-290 | the union after the as-written read is 33 bytes |
| Bme280.StoredBufferView | AmbientSensor_Code/user/bme280/bme280.c:254-290 | as written, H1 comes from 0xA0, H2 from 0xA1/0xE1 and H3 from 0xE2; T1..P9 and H4..H6 are right |
| Bme280.H1FromReservedRegister | AmbientSensor_Code/user/bme280/bme280.c:254-290 | a chip with 0xA0 = 0 and 0xA1 = 75 gets H1 = 0 as written and 75 corrected |
| Bme280.RegisterCalibration | AmbientSensor_Code/user/bme280/bme280.h:53-58 | the corrected decode keeps H1, H3 in a byte and H4, H5 in 12 bits |
| Bme280.RegisterCalibrationRegisters | AmbientSensor_Code/user/bme280/bme280.h:41-58 | every corrected parameter, T1..T3, P1..P9 and H1..H6, comes from the register the memory map assigns it |
| Bme280.CompensatePressure | AmbientSensor_Code/user/bme280/bme280.c:392-411 | a zero divisor gives pressure 0 instead of a division |
| Bme280.CompensateHumidity | AmbientSensor_Code/user/bme280/bme280.c:415-424 | humidity lies in [0, 102400] and is the shifted intermediate whenever that is within the clamp |
| Bme280.Compensate | AmbientSensor_Code/user/bme280/bme280.c:381-424 | the compensated humidity is within range and a zero pressure divisor gives pressure 0 |
| Bme280.StandbyTime | AmbientSensor_Code/user/bme280/bme280.c:434-458 | an invalid code gives 1000 ms |
| Bme280.StandbyRoundsUp | AmbientSensor_Code/user/bme280/bme280.c:434-458 | each valid code gives its nominal time rounded up to whole milliseconds, never zero |
| Bme280.InitOps | AmbientSensor_Code/user/bme280/bme280.c:101-145 | the successful init sequence is eight operations from the reset write to the ctrl_meas write |
| Bme280.Device.Reset | AmbientSensor_Code/user/bme280/bme280.c:300-304 | the reset key 0xB6 is written to the reset register |
| Bme280.Device.SetConfig | AmbientSensor_Code/user/bme280/bme280.c:312-315 | the config byte is written |
| Bme280.Device.SetSampleSettings | AmbientSensor_Code/user/bme280/bme280.c:325-339 | ctrl_hum is written before ctrl_meas, stopping at a failure |
| Bme280.Device.ReadCalibration | AmbientSensor_Code/user/bme280/bme280.c:246-293 | as written: each block lands in the union whatever its read returns; a failed read is returned at once and stops the rest; after both reads succeed the union is the stored buffer with H4 and H5 over buf[28..31], and the packed struct over it shows H1 from register 0xA0, H2 from 0xA1 and 0xE1, H3 from 0xE2, and every other parameter from its own registers |
| Bme280.Device.Init | AmbientSensor_Code/user/bme280/bme280.c:101-145 | reset, start-up delay, chip-id read and check, calibration, config, sample settings, stopping at and returning the first failure; after the calibration the union is the stored buffer and the packed struct shows the parameters as ReadCalibration states; OK exactly when every step succeeds |
| Bme280.Device.ReadEnvironment | AmbientSensor_Code/user/bme280/bme280.c:349-427 | a read failure is returned; otherwise the as-written reset check decides, rejecting exactly a humidity at 0x8000, and an accepted reading is the compensation with the parameters dig shows |

## Left out

- W5500_Initialize, W5500_LogPhyStatus and the hardware reset: chip bring-up (reset pin, version and PHY checks) is not part of this model.
- Register accessors beyond those the socket layer uses are modelled as one transfer each. Their per-socket `ASSERT(sn < 8)` becomes a precondition, and the buffer-alignment `ASSERT` is not modelled.
- A failed write leaves the chip register either unchanged or fully written, and the model does not say which. A partly written field is not modelled.
- The 16-bit getters store their output even when the transfer fails. In the model a failed getter changes nothing the caller goes on to use; a failed receive is different, see Dhcp.DhcpClient.Receive below.
- Dhcp.DhcpClient.Receive: the UDP receive reads its payload straight into the client's buffer. When the payload transfer itself fails part-way, the bytes the HAL has already stored are not modelled, and the buffer is taken as unchanged; when only the later Sn_RX_RD write fails, the whole payload is in the buffer, as modelled.
- The critical section and mutual exclusion between tasks are left out. The model is sequential.
- The interrupt task that forwards Sn_IR to the event groups is an input script (`arrivals`), not a modelled task.
- W5500Socket.W5500.Open: MACRAW is allowed on socket 0 only. This is an ASSERT in the source and a precondition here.
- W5500Socket.W5500.Send: the message is shorter than the 2^16-byte ring. Longer ones cannot pass the uint16 free-size check on the chip.
- DhcpMessage.OptionIndex: an option whose length byte would lie past the 312-byte area is treated as absent. The source reads past the area; see Findings. The reply checks follow the source through DhcpMessage.OptionPointer.
- The two bytes after the 548-byte message, which an option read at the end of the area reaches, are an input of the client (`past`). What memory lies there is not modelled.
- Ring: the chip gives each socket a 2 to 16 KiB buffer and masks the 16-bit pointers onto it. The model keeps a ring of 2^16 bytes per direction, so the buffer-size masking is not modelled.
- DhcpMessage.LeaseOption, DhcpMessage.SubnetOption and DhcpMessage.RouterOption: an option whose value bytes would run past the area is treated as absent, where the source reads past it.
- DHCP_ClientTask's endless loop and the scheduler: one pass is Dhcp.DhcpClient.Step. vTaskDelay, vTaskResume and vTaskSuspend are recorded as actions, and `now` is a parameter.
- configTICK_RATE_HZ is a constant of the client and the BME280 device.
- Logging (LOG_INFO, LOG_ERROR, LOG_DEBUG) is left out.
- Mqtt.MqttClient.Publish: the remaining length `topicLen + payloadLen + 2` is stored modulo 256. MqttPacket.PublishLayout is proved only for values up to 127, the range MQTT 3.1.1 section 2.2.3 encodes in one byte.
- MqttPacket.Connack: the number of bytes received is carried explicitly. The source's receive does not report it.
- MACRAW is 3 in w5500_socket_regs.h, as the source has it. The model keeps that value.
- Eeprom.ReadMemory: the transmit and receive outcomes are parameters. The task-priority change around the transfer and the alignment ASSERT are not modelled.
- Bme280.Compensate: compensation is computed on unbounded integers. The int32/int64 widths of the source's arithmetic, and any overflow in them, are not modelled.
- Bme280.Compensate: `>>` on signed values is modelled as floor division and C `/` as truncating division. The floating-point variants of the datasheet are not modelled.
- Bme280.StandbyTime: an invalid code trips an ASSERT, which halts when assertions are enabled. The model gives the value returned when they are compiled out.
- BME280_StatusString and the bit-field layouts of config, ctrl_meas and ctrl_hum are left out. Those bytes are passed through unchanged.
- The I2C bus is not modelled. Each transfer's status and data are parameters, and the bus mutex is left out.
- Bme280.Device.Init: the start-up delay is recorded as an operation; no time passes in the model.

## Findings

| source | as written | input that shows it | evidently intended | confidence | as-written member | corrected member |
|---|---|---|---|---|---|---|
| AmbientSensor_Code/user/w5500/w5500.c:107-110 | SocketClose deletes the event group but leaves the handle in snEvent[sn] | close an open socket twice, or let SocketOpen fail after its own close and open again | clear the slot after vEventGroupDelete | not executed | W5500Socket.W5500.CloseTwice | W5500Socket.W5500.CloseFixedTwice |
| AmbientSensor_Code/user/w5500/dhcp.c:81-89 | the option scan reads opt[ptr+1] without checking that it lies inside the 312-byte area | an option area of cookie, PADs, and option 12 in its last byte | stop when the length byte would lie outside the area | not executed | DhcpMessage.ScanLeavesArea | DhcpMessage.OptionIndex |
| AmbientSensor_Code/user/w5500/dhcp.c:398-408 | the type check reads the length and type bytes at opt[i] and opt[i+1] without checking that they lie inside the area | an option area of cookie, PADs, then 53 and 1 in its last two bytes | reject the option as corrupt | not executed | DhcpMessage.ValidateReadsPast | DhcpMessage.ValidateInAreaAgrees |
| AmbientSensor_Code/user/w5500/w5500.c:326-336 | SocketRecieveTCP writes Sn_RX_RD but never issues RECV, so the chip does not take the new read pointer | any TCP receive that returns data | issue RECV after writing Sn_RX_RD | not executed | W5500Socket.TcpReceiveLeavesChipBehind | W5500Socket.W5500.ReceiveTcpAcked |
| AmbientSensor_Code/user/w5500/w5500.c:396-407 | SocketRecieveUDP writes Sn_RX_RD but never issues RECV, so the chip does not take the new read pointer and does not free the datagram | any UDP receive that returns a datagram whose header and payload are shorter than the ring | issue RECV after writing Sn_RX_RD | not executed | W5500Socket.UdpReceiveLeavesChipBehind | W5500Socket.W5500.ReceiveUdpAcked |
| AmbientSensor_Code/user/w5500/dhcp.c:734 | the BOUND sleep `leaseDuration - (now - leaseTick)` wraps when the lease has run out | leaseDuration 0, leaseTick 0, now 1 | renew at once | not executed | DhcpMessage.SleepWraps | DhcpMessage.Sleep |
| AmbientSensor_Code/user/w5500/mqtt.c:89-102 | the CONNACK is checked over four bytes whatever the receive delivered | a 2-byte reply 20 02 into a buffer holding zeros | a reply shorter than 4 bytes is a bad packet | not executed | MqttPacket.ShortConnackAccepted | MqttPacket.ConnackChecks |
| AmbientSensor_Code/user/eeprom/eeprom.c:105-126 | the all-zero and mirror loops return EEPROM_MAC_ALL_ONE | six 0x00 bytes; bytes FA FB FC FD FE FF | EEPROM_MAC_ALL_ZERO and EEPROM_MAC_MIRROR | not executed | Eeprom.ZeroAndMirrorReportedAllOne | Eeprom.MacVerdictMeaning |
| AmbientSensor_Code/user/bme280/bme280.h:53-55 | the packed struct puts H1 at buf[24], H2 at buf[25..26] and H3 at buf[27], while the registers are read into buf[25], buf[26..27] and buf[28] | 0xA0 = 0 and 0xA1 = 75 | H1, H2 and H3 from 0xA1, 0xE1..0xE2 and 0xE3 | not executed | Bme280.H1FromReservedRegister | Bme280.RegisterCalibrationRegisters |
| AmbientSensor_Code/user/bme280/bme280.c:374-377 | the reset check compares 20-bit temperature and pressure with 0x80000000 | measurement bytes 50 00 00 80 00 00 66 00 | compare with the reset value 0x80000 | not executed | Bme280.ResetTemperatureAccepted | Bme280.ResetCheckMeaning |
