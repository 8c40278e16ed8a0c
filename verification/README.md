# A verified model of the uIP TCP/IP stack

This project models the bundled uIP stack (`uip/`) in Dafny and proves what it promises: its TCP
connection machine down to the bytes of its packets, its checksum arithmetic, protosockets, the
ARP table and exchange, packet forwarding, segment splitting and the periodic timer.

The main results, each over all inputs, all runs or all reachable states:

- **End-to-end delivery** (`TcpSafety.EndToEnd`). Two endpoints over a channel that drops,
  duplicates and reorders segments deliver, in both directions, a prefix of the bytes offered, in
  order and once each. The receiver's `rcv_nxt` is always one of the sender's `snd_nxt` and
  `snd_nxt + len`. An endpoint that takes the FIN in ESTABLISHED has delivered the whole stream,
  and every FIN is counted once however often it arrives. `HelloArrives` shows that the
  assumptions are met by an ordinary exchange.
- **Bytes refine the machine** (`TcpExchange.Found`, `Periodic`, `Deliver`). The code on
  `uip_buf` and on the byte arrays of `struct uip_conn` does exactly what the functions of `Tcp`
  say. Every packet that leaves passes this stack's own input tests at the addressed host and is
  read there as the very segment that was meant.
- **Invariant, stop and wait, give-up time** (`TcpRuns`). Reachable states, packet sizes, one
  sequence number and length between two advances of `snd_nxt`, and the exact number of ticks
  after which a silent peer is given up.
- **Recovery from loss** (`TcpProgress`, `TcpRepeats`). What was accepted before is acknowledged
  again, in every state. One undisturbed repetition and its answer move the sender past everything
  outstanding (`RepetitionAdvances`), and `AnsweredIff` says exactly when the peer answers. A silent
  peer is sent exactly the allowed number of repetitions, at exactly the times of the backoff, and
  a reset (`SentOnSchedule`).
- **Windows** (`TcpWindows.FirstTransmission`). Over every run from the opening, every first
  transmission is exactly as long as the bytes offered, the size agreed and the window last told allow.
- **Closing and calls** (`TcpCalls`, `TcpClose`). The closing states follow RFC 793 figure 6, a
  quiet pair closes in four moves, and the application is called exactly for what is new.
- **Round-trip estimator** (`RttEstimator`, `TcpEstimates`). No 8-bit operation wraps for measurements up to 31,
  32 wraps; convergence without overshoot within a computed number of samples. Over every run of
  a connection the estimate is fed exactly the exchanges in which nothing was sent twice, and such
  an acknowledgement is a measurement of the ticks since the data went out (`MeasuresTicks`).
- **Checksums** (`Checksum`, `Packet`, `Icmp`, `Forward`). The carry loops are sums modulo 65535,
  and the in-place adjustments of byte-swapped checksums keep packets verifying.
- **Protosockets** (`Psock`, `PsockRuns`, `PsockSends`). What is read does not depend on how the
  stream was cut into events, whatever mixture of `psock_readto` and `psock_readbuf` reads it;
  one-segment sends are handed over exactly once.
- **Protosockets on the stack** (`TcpThreads.ThreadsDeliver`). Threads that send one-segment buffers
  meet what end-to-end delivery asks of an application: their chains of buffers arrive.
- **Tables** (`ConnTable`, `Arp`, `ArpExchange`, `Forward`). Connections stay unique and the port
  search ends by pigeonhole; the ARP table refines a bounded map, packets for other networks go to
  the router, and the exchange with a host or the router resolves; exactly what the forwarding
  cache takes for a duplicate, for how long, and at which router a packet expires.
- **Splitting** (`Split`). Payload, numbers and checksums of the two packets, and what an
  ESTABLISHED receiver makes of them.
- **Timer** (`ClockTimer`). No drift over unboundedly many turns of the 16-bit clock.

## Structure

| file | content |
|---|---|
| `Words.dfy`, `Bytes.dfy` | machine words, 32-bit sequence arithmetic on bytes, fields in buffers |
| `Checksum.dfy`, `Packet.dfy` | `chksum` and its users, IP and TCP checksums of the buffer |
| `Tcp.dfy`, `Connection.dfy` | the connection machine as functions, and the class that refines it |
| `TcpRuns.dfy`, `TcpSafety.dfy`, `TcpAnswers.dfy`, `TcpSizes.dfy`, `RttEstimator.dfy` | properties of one connection and of two |
| `TcpProgress.dfy`, `TcpRepeats.dfy`, `TcpWindows.dfy`, `TcpEstimates.dfy` | answers, repetitions, window and timeout over runs |
| `TcpCalls.dfy`, `TcpClose.dfy` | what the application is told, and the end of a connection |
| `TcpPackets.dfy`, `TcpExchange.dfy`, `TcpStack.dfy` | segments as bytes; packet in, machine, application, packet out; the table in front |
| `ConnTable.dfy` | `uip_connect`, demultiplexing, passive opens |
| `Psock.dfy`, `PsockRuns.dfy`, `PsockSends.dfy` | protosockets, and threads that read and send over any events |
| `TcpThreads.dfy` | two hosts with protosocket threads |
| `Arp.dfy`, `ArpExchange.dfy` | ARP table, ARP on the packet buffer, two hosts |
| `Icmp.dfy`, `Forward.dfy`, `Split.dfy` | echo reply, forwarding, splitting |
| `ClockTimer.dfy` | the timer library |

`dafny verify dfyconfig.toml` checks the whole project.

## How the code is read

- The processor is little-endian (`UIP_CONF_BYTE_ORDER`, uip/uip-conf.h). A 16-bit field that the
  code loads directly is `Le16`; ports and IP addresses are kept as they are loaded.
- The configuration is the repository's: 420-byte buffer, no UDP, IPv6, reassembly, broadcast
  or ping address configuration. Table sizes are parameters; `Split` takes the buffer size as a
  parameter, odd or even.
- `goto` targets are the values of `Tcp.Jump`. A call of the application is an arbitrary `Reply`:
  whether it closed or aborted, the value of `uip_slen` when it returns, and the bytes at
  `uip_sappdata`. Nothing clears `uip_slen` before the callback of `UIP_POLL_REQUEST`
  (uip/uip.c:696-702), so that the value on return can be one from an earlier call; the model
  allows any value.
- An output function (`tcpip_output`, `netif->output`) records the frame and leaves the buffer
  alone.
- A blocked protothread is a `waiting` flag: each thread of psock.c has one place to wait.

## What the proofs found

- `psock_send` tests its condition again in the event of an acknowledgement, with the flag still
  set, and reads the segment size anew in every event. A call sends its data once, whole in every
  retransmission, and with nothing in flight at its end if and only if the data fits the segment
  size of its first event, of every retransmission and of the acknowledgement
  (`PsockSends.AllAcknowledgedIff`). With sizes 100 then 200 the last 50 of 150 bytes are lost,
  with 200 then 100 they go out twice, and with a retransmission at 100 in between it is cut
  (`GrowingSizeLoses`, `ShrinkingSizeRepeats`, `ShrunkRetransmission`).
- What a cut retransmission leaves out is not left out on the wire: as many bytes as are outstanding
  are sent, the rest from whatever is in the buffer (`TcpAnswers.RepeatedIff`,
  `ShortRetransmission`).
- A receiver whose application closes in answer to the first part of a split segment acknowledges
  the second part and delivers it to nobody (`Split.ClosingLosesTheSecond`).
- A repeated SYN is out of sequence for the server that has taken it, and is answered with a bare
  ACK. The client resets on that: one lost SYNACK, and the repetition of the SYN, close both ends
  (`TcpProgress.RepeatedSynFails`; `LostSynAckFails` is such a run from the opening).
- A FIN is not taken in ESTABLISHED while data is outstanding, nor in SYN_RCVD. Data that comes with
  the acknowledgement of the FIN in FIN_WAIT_1 is taken without a word, so that the peer must send it
  again. `TcpProgress.AnsweredIff` says exactly what is answered.
- The window in the segment that completes the opening is not looked at
  (`TcpWindows.OpeningWindowIgnored`), and after a window of zero a whole segment goes out
  (`ZeroWindowProbes`). A passive open without MSS option starts with the size that the table
  entry's last peer allowed (`StaleSize`).
- `uip_close` with data outstanding gives the FIN the number of the first outstanding byte, and the
  data is never sent again; the number is the first free one exactly when nothing is outstanding
  (`TcpRuns.CloseNeedsSilence`, `NeverSentAgain`).
- The data of a segment is taken from the end of the fixed header. The application is shown the
  payload when there are no options or no data (`TcpPackets.ShownIsPayload`); behind every longer
  header some data are misread, in packets that are accepted (`AcceptedAndMisread`,
  `PaddedIsMisread`).
- An ARP entry whose address has one zero half is not recognised by `uip_arp_update`, which adds
  another in its place (`Arp.DuplicatesIff` says exactly when); `uip_arp_out` does find it.
- The reply to one echo request, the one whose reply is all zero, has a checksum field of 0 and
  does not verify, although the request did (`Icmp.ReplyVerifies`, `AllZeroReply`,
  `ZeroReplyFails`).
- The echo reply keeps the IP checksum of the request. The header still verifies if and only if
  the address put in and the one taken out have congruent sums (`Icmp.ReplyHeader`): always when
  the request was for this host, and not for a host without an address that answers a request to
  192.168.0.1 (`NoAddressFails`).
- The forwarding cache displaces the last of its oldest entries, so that of several packets
  registered in one period the most recent can be forgotten first
  (`Forward.MostRecentForgotten`). `FreshSuppressedIff` says exactly how long a packet is
  suppressed.
- A SYN without MSS option in a fresh table entry opens a connection with segment size 0, which
  never sends any data (`TcpSizes.NoOptionNoData`).
- An application that answers a call for new data with other bytes than are outstanding has them
  sent under the old number, and they can be what the peer receives
  (`TcpAnswers.AnswersMustRepeat`).
- `uip_split_output` calls `memcpy` on ranges that overlap by one byte exactly when the payload is
  odd (`Split.CopyOverlaps`). The model copies from first byte to last, for which the result is
  right (`CopyForward`).

## Assumptions of the end-to-end result

While data is outstanding the application does not close, and in answer to every call, not only
to one that asks for a retransmission, it hands over nothing or the bytes that are outstanding
(`Honest`); protosocket threads do so (`TcpThreads.ThreadsAreHonest`, with `uip_slen` 0 when they
hand over nothing). A segment that arrives is one that was sent, and unless it is a reset its numbers are
less than 2^32 positions behind (`Fresh`). URG is clear and `uip_stop` is not used. A run covers
one incarnation: the client has called `uip_connect`, the server listens and opens once.

## Model

| member | source | states |
|---|---|---|
| Words.Add32 | uip/uip.c:248-273 | the byte-carry chain is addition of a 16-bit number modulo 2^32, for all operands |
| Words.Increment | uip/uip.c:1249-1255 | the nested increments add one modulo 2^32 and touch nothing else |
| Words.Plus32Injective | uip/uip.c:1423-1428 | two positions less than 2^32 apart with equal sequence numbers are the same position |
| Words.WrapsModulo | uip/uip.c:731-762 | the wrapping operations on 8- and 16-bit counters are arithmetic modulo 2^8 and 2^16 |
| Connection.Same | uip/uip.c:1425-1428 | comparing four bytes is comparing the numbers they stand for, both ways |
| Checksum.Chksum | uip/uip.c:279-308 | any start value, any length, odd too: the big-endian word sum with end-around carry |
| Checksum.ChksumMeaning | uip/uip.c:277-308 | the result is congruent to start plus word sum modulo 65535, and 0 only when everything is 0 |
| Checksum.ChksumChain | uip/uip.c:343-349 | summing an even-length prefix first is one pass over the concatenation |
| Checksum.AddWord | uip/uip.c:290-294 | adding with `sum < t` as the carry test is end-around-carry addition |
| Checksum.PresentedVerifies | uip/uip.c:940-946 | the test against 0xffff asks exactly whether the sum is 0 modulo 65535 |
| Checksum.Seal | uip/uip.c:1844-1845 | the stored complement makes the whole sum verify |
| Packet.UpperSumIsRfc793 | uip/uip.c:341-351 | uIP's order of summation is the sum over the pseudo-header of RFC 793 section 3.1 and the segment |
| Packet.PacketBuffer.IpChksum | uip/uip.c:318-325 | the value presented for the header's sum |
| Packet.PacketBuffer.UpperLayerChksum | uip/uip.c:329-352 | the value presented for pseudo-header and segment; the first addition cannot carry |
| Packet.PacketBuffer.SealIp | uip/uip.c:1861-1862 | afterwards the IP header verifies; no other byte changes |
| Packet.PacketBuffer.SealTcp | uip/uip.c:1844-1845 | afterwards the TCP checksum verifies; no other byte changes |
| Packet.PacketBuffer.IpSendNolen | uip/uip.c:1847-1862 | identification advanced, version, fragment and checksum fields fit for input |
| Packet.PacketBuffer.SendNoconn | uip/uip.c:1829-1862 | the packet has the length `uip_len` and both checksums verify, whatever the buffer held |
| Packet.CanBeSealed | uip/uip.c:1844-1862 | every packet can be given checksums that verify by its two checksum fields alone |
| Packet.CorruptionIsDetected | uip/uip.c:939-1181 | a packet that is accepted is not with any one 16-bit word of header or segment changed to another value modulo 65535 |
| Connection.Connection.ActiveOpen | uip/uip.c:448-462 | the assignments make the specification's SYN_SENT connection |
| Connection.Connection.PassiveOpen | uip/uip.c:1301-1361 | the assignments and the MSS option make the specification's SYN_RCVD connection |
| Connection.Connection.AddRcvNxt | uip/uip.c:671-678 | `rcv_nxt` advances by n modulo 2^32 |
| Connection.Connection.AppSend | uip/uip.c:1648-1718 | the statements compute the specification's new connection and label |
| Connection.Connection.Tick | uip/uip.c:729-808 | refines the specification's timer event, 8-bit counters included |
| Connection.Connection.OutOfOrder | uip/uip.c:1404-1416 | exactly the segments in sequence space away from `rcv_nxt` are reported as unexpected |
| Connection.Connection.TakeAck | uip/uip.c:1418-1460 | refines the specification's acknowledgement |
| Connection.Connection.Input | uip/uip.c:1382-1786 | a segment for the connection: new state, label and application call are the specification's |
| Connection.Connection.Dispatch | uip/uip.c:1462-1786 | the switch on the state refines the specification's |
| Connection.Connection.InSynRcvd | uip/uip.c:1468-1485 | the passive open completes on the acknowledgement only |
| Connection.Connection.InSynSent | uip/uip.c:1487-1545 | the active open completes on a SYNACK, adopts the MSS, or fails with a reset |
| Connection.Connection.InEstablished | uip/uip.c:1548-1720 | FIN, new data, the peer's window and the application's answer |
| Connection.Connection.InFinWait1 | uip/uip.c:1731-1758 | the closing states after FIN_WAIT_1 |
| Connection.Connection.InFinWait2 | uip/uip.c:1760-1775 | the closing states after FIN_WAIT_2 |
| TcpRuns.StepGood | uip/uip.c:692-1867 | every event keeps the state invariant and every packet fits the buffer |
| TcpRuns.ReachableGood | uip/uip.c:692-1867 | so does every run of events and application answers |
| TcpRuns.InitialInv | uip/uip.c:384-386 | the zeroed table entry starts every run |
| TcpRuns.SndNxtMoves | uip/uip.c:1422-1457 | `snd_nxt` moves only on an ACK equal to `snd_nxt + len`, by exactly `len` |
| TcpRuns.StopAndWait | uip/uip.c:1667-1711 | between two advances of `snd_nxt` all data transmissions have one number and one length |
| TcpRuns.TickCountsDown | uip/uip.c:729-762 | each tick takes exactly one off the remaining time |
| TcpRuns.GivesUpExactly | uip/uip.c:729-762 | without input the connection is CLOSED after exactly that many ticks, not before |
| TcpRuns.TicksLeftValues | uip/uipopt.h:280-328 | the time is t + 246, t + 99 in the opening states, 120 in TIME_WAIT, at most 256 in FIN_WAIT_2, never above 501 |
| TcpRuns.FreshOpensExpire | uip/uip.c:1304-1317 | an unanswered passive open is gone after 102 ticks, an active one after 100 |
| TcpRuns.CloseNeedsSilence | uip/uip.c:1657-1664 | the FIN takes the number of the first unacknowledged byte, which is the first free number exactly when nothing is outstanding |
| TcpRuns.NeverSentAgain | uip/uip.c:1657-1664 | once the FIN is out no data is sent any more, over every run |
| TcpSizes.StepSized | uip/uip.c:1621-1626 | mss and initialmss are zero together, and then nothing is outstanding in ESTABLISHED: kept by every event |
| TcpSizes.ReachableSized | uip/uip.c:692-1867 | so over every run |
| TcpSizes.AcknowledgedWithSize | uip/uip.c:1422-1646 | over every run a call that announces an acknowledgement is made with a segment size that is not zero, as psock_send needs |
| TcpSizes.NoOptionNoData | uip/uip.c:1304-1357 | a SYN without MSS option in a fresh table entry opens a connection that never sends data, over any run |
| TcpSafety.AckCovers | uip/uip.c:1422-1428 | an acknowledgement that is taken means that the peer has everything outstanding |
| TcpSafety.SenderStep | uip/uip.c:1644-1718 | an endpoint's step keeps all its segments on the channel true to its stream |
| TcpSafety.ReceiverStep | uip/uip.c:1404-1607 | what is accepted is what is outstanding, and is delivered once |
| TcpSafety.OpenStep | uip/uip.c:1272-1379 | the passive open establishes the invariant for both directions |
| TcpSafety.PeerStep | uip/uip.c:692-1867 | every step of an endpoint keeps both directions safe |
| TcpSafety.PlaySafe | uip/uip.c:692-1867 | every run keeps the system safe |
| TcpSafety.EndToEnd | uip/uip.c:1404-1786 | prefix delivery, in order and once, in both directions; FINs complete the stream and count once |
| TcpSafety.HelloArrives | uip/uip.c:1272-1539 | SYN, SYNACK and a first segment are an allowed run in which the data arrives |
| TcpProgress.ReceivedIsAcknowledgedAgain | uip/uip.c:1404-1416 | what the peer has accepted before, data or FIN, in whatever state it is by now, is answered with an ACK of everything accepted and changes nothing |
| TcpProgress.AnsweredIff | uip/uip.c:1404-1775 | what is outstanding and in order is acknowledged at once if and only if the state takes it and the application does not abort |
| TcpProgress.RepetitionAdvances | uip/uip.c:729-1775 | between two hosts a repetition that arrives, and whose answer arrives, moves the sender past everything it has outstanding |
| TcpProgress.RepeatedSynFails | uip/uip.c:1404-1545 | a SYN repeated to a server that has taken it closes both ends |
| TcpProgress.LostSynAckFails | uip/uip.c:1272-1545 | from the opening, a run with one lost SYNACK and no other loss ends with both ends closed |
| TcpRepeats.TickRepeats | uip/uip.c:741-797 | at the expiry of the timer the whole of what is outstanding is sent again under its number, in every state, and nothing else changes |
| TcpRepeats.TickGivesUp | uip/uip.c:741-757 | at the last expiry the application is told, and the peer is sent a reset |
| TcpRepeats.SentOnSchedule | uip/uip.c:741-797 | all that is sent over a silent run: the repetitions allowed, at the backoff times, and then a reset |
| TcpRepeats.ScheduleEnds | uip/uip.c:741-762 | the schedule holds as many repetitions as are left, and ends when the connection does |
| TcpRepeats.ScheduleOfData | uip/uip.c:760-762 | the times in numbers: t + 1, 5, 12, 25, 50, 99, 148, 197, and the reset at t + 246 |
| TcpWindows.FirstOnWire | uip/uip.c:1609-1711 | with nothing outstanding, what goes out for a segment is the bytes offered, up to its window and the size agreed |
| TcpWindows.FirstTransmission | uip/uip.c:1609-1711 | over every run from the opening, the length of every first transmission is the smallest of what is offered, the size agreed and the window last told; a zero window does not limit it |
| TcpWindows.OptionIsKept | uip/uip.c:1326-1357 | a server never sends more at once than the MSS option of the SYN says |
| TcpWindows.ClientAdoptsOption | uip/uip.c:1497-1527 | a client takes the size from the SYNACK, up to its own limit |
| TcpWindows.OpeningWindowIgnored | uip/uip.c:1468-1545 | the window in the segment that completes the opening makes no difference |
| TcpWindows.ZeroWindowProbes | uip/uip.c:1621-1626 | after a window of 100, a window of 0 lets 300 bytes go out |
| TcpWindows.StaleSize | uip/uip.c:1301-1357 | a passive open without MSS option keeps the size in the table entry |
| TcpEstimates.StepSamples | uip/uip.c:1437-1457 | over every event that is no open the estimate changes exactly when an exchange without retransmission is acknowledged, and in ESTABLISHED the timer restarts from `rto` |
| TcpEstimates.StepIsExact | uip/uip.c:1437-1457 | with measurements up to 31 such an event is one update of the unbounded estimator, and every other leaves it alone |
| TcpEstimates.RunSamples | uip/uip.c:1437-1457 | over every run the estimate is the estimator fed with what the timer showed at those exchanges |
| TcpEstimates.RunNeverWraps | uip/uip.c:1437-1448 | no 8-bit operation of a connection's run wraps while its measurements are at most 31; `rto` is at most 5r + 3 |
| TcpEstimates.RunConverges | uip/uip.c:1437-1448 | enough measurements of m settle the connection's `sa >> 3` at m and its `rto` in m..m+3 |
| TcpEstimates.MeasuresTicks | uip/uip.c:741-1457 | data acknowledged k ticks after it went out, before the timer expires, is measured as k |
| TcpCalls.ConnectedIff | uip/uip.c:1468-1539 | the application is told of the connection exactly when the acknowledgement of the SYN is taken |
| TcpCalls.CalledForNews | uip/uip.c:1603-1646 | in ESTABLISHED it is called exactly for an acknowledgement or data, told which, and shown that data |
| TcpCalls.PeerCloses | uip/uip.c:1560-1581 | a FIN is passed on with its data and answered with a FIN if and only if nothing is outstanding; otherwise nothing happens |
| TcpCalls.ResetCloses | uip/uip.c:1388-1394 | a reset closes in every state, is told, and is not answered |
| TcpCalls.AbortReachesPeer | uip/uip.c:1650-1655 | the reset of an abort closes the peer's connection and is told there |
| TcpCalls.AskedWhenIdle | uip/uip.c:696-805 | every tick and poll request asks the application exactly in ESTABLISHED with nothing outstanding |
| TcpCalls.AnswerGoesOut | uip/uip.c:696-1718 | over every event, the answer to a call that invites data goes out: a close as FIN, an abort as RST, and with nothing outstanding the data offered, up to the size in force |
| TcpCalls.AskedAgainWhenDue | uip/uip.c:741-788 | it is asked for a retransmission exactly when one is due, and told of a timeout exactly when it gives up |
| TcpCalls.SynSentRefuses | uip/uip.c:1536-1545 | a client that hears anything but the SYNACK closes, says so, and resets the sender |
| TcpCalls.FollowsFigure6 | uip/uip.c:1721-1785 | the closing states make the transitions of RFC 793 figure 6; TIME_WAIT starts with its whole time, and the end is told |
| TcpCalls.TimeWaitLasts | uip/uip.c:1731-1784 | every entry to TIME_WAIT is 120 ticks before CLOSED |
| TcpCalls.TimeWaitAcknowledges | uip/uip.c:1777-1778 | in TIME_WAIT everything but a reset is acknowledged |
| TcpClose.CloseCompletes | uip/uip.c:1560-1785 | a quiet pair closes in four moves: the server CLOSED, the client in TIME_WAIT for 120 ticks, the streams as they were |
| TcpAnswers.AnswersMustRepeat | uip/uip.c:1644-1711 | an application that repeats its bytes only when a retransmission is asked for makes the peer receive a byte it never offered |
| TcpAnswers.RepeatedIff | uip/uip.c:1667-1711 | asked with data outstanding, as many bytes as are outstanding go out under their old number: the right ones if and only if the window begins with them |
| TcpAnswers.ShortRetransmission | uip/uip.c:1621-1711 | a window update shrinks the size without a call; a retransmission handed 100 of 150 bytes sends 150, the last 50 from whatever is in the buffer |
| TcpThreads.ThreadsAreHonest | uip/psock.c:145-213 | every run of two hosts with protosocket threads is one that the end-to-end result speaks of |
| TcpThreads.ThreadsDeliver | uip/psock.c:145-213 | each side receives a prefix of the other thread's buffers in order, and every buffer that counts as acknowledged has been received |
| RttEstimator.EstimateIsExact | uip/uip.c:1437-1448 | for measurements in 0..r, r at most 31, one update equals the unbounded one and keeps the bounds |
| RttEstimator.NeverWraps | uip/uip.c:1437-1448 | so does every run; `rto` is at most 5r + 3 |
| RttEstimator.OpensAreBounded | uip/uip.c:1304-1306 | both opens start within the bounds |
| RttEstimator.NoOvershoot | uip/uip.c:1440-1442 | `sa >> 3` moves towards a constant measurement and never past it |
| RttEstimator.Converges | uip/uip.c:1437-1448 | under constant m, `sa >> 3` becomes m and `rto` settles in m..m+3 |
| RttEstimator.NeededBound | uip/uip.c:1437-1448 | 12r + 7 measurements suffice |
| RttEstimator.ThirtyTwoWraps | uip/uip.c:1438-1442 | the bound of 31 is sharp: after either open a run of measurements of at most 32 ends with 0 for 256 |
| TcpPackets.ParseMss | uip/uip.c:1326-1357 | the option loop finds the first MSS option |
| TcpPackets.WalkFindsMss | uip/uip.c:1328-1356 | for options as a peer writes them, whatever stands in front of it, the value of the first MSS option |
| TcpPackets.ReadHeader | uip/uip.c:1396-1402 | the fields the machine sees are those of the segment in the buffer |
| TcpPackets.ShownIsPayload | uip/uip.c:1396-1402 | what the application is shown is the payload when there are no options, or no data |
| TcpPackets.OptionsAreShown | uip/uip.c:692-692 | behind any longer header there are data for which what is shown differs from the payload |
| TcpPackets.AcceptedAndMisread | uip/uip.c:692-692 | the same among packets that IP input accepts, checksums included |
| TcpPackets.PaddedIsMisread | uip/uip.c:692-692 | four NOP options and one byte of data, in a packet that the host accepts: the application is shown a NOP |
| TcpPackets.FillFields | uip/uip.c:1797-1827 | numbers, ports, addresses and window are the connection's; nothing else changes |
| TcpPackets.ReadsBack | uip/uip.c:1789-1827 | the fields written are read back as the segment that was meant |
| TcpPackets.TcpSend | uip/uip.c:1797-1862 | a finished packet that carries exactly the connection's segment |
| TcpPackets.TcpSendNoopts | uip/uip.c:1795-1862 | the same without options, for any payload in the buffer |
| TcpPackets.TcpSendSyn | uip/uip.c:1364-1379 | the same with an MSS option alone |
| TcpPackets.TurnAround | uip/uip.c:1225-1264 | numbers, ports and addresses of a reset are those of the packet answered, exchanged |
| TcpPackets.Reset | uip/uip.c:1216-1267 | anything but a reset is answered with one that is acceptable to its sender |
| TcpPackets.Arrives | uip/uip.c:839-1184 | a packet that was sent is accepted by the host it is addressed to, under any padding, and read as the same segment |
| TcpExchange.IpInput | uip/uip.c:835-1184 | exactly the acceptable TCP packets reach demultiplexing, cut to their IP length |
| TcpExchange.Emit | uip/uip.c:1789-1867 | from any buffer contents each label sends the specification's segment |
| TcpExchange.Found | uip/uip.c:1382-1867 | packet in, packet out: the machine's step and an acceptable packet with exactly its segment |
| TcpExchange.FoundListen | uip/uip.c:1301-1379 | a SYN opens the connection and becomes an acceptable SYNACK with exactly the right numbers and MSS |
| TcpExchange.Periodic | uip/uip.c:706-808 | the same for the timer event; `iss` advances by one |
| TcpExchange.PollRequest | uip/uip.c:696-703 | the same for a poll request |
| TcpExchange.Deliver | uip/uip.c:835-1867 | a packet from the peer steps the connection with the very segment that was sent |
| TcpStack.TcpInput | uip/uip.c:1173-1867 | a TCP packet is matched, accepted, refused or dropped; the table, the matched connection and the packet left in the buffer are as the machine says, uniqueness and invariant kept |
| TcpStack.Matched | uip/uip.c:1382-1867 | the matched entry alone changes, by the machine's step, and the answer goes to its peer |
| TcpStack.FindsItsPeer | uip/uip.c:1189-1197 | a packet that a connection sends is matched, where it arrives, with exactly the other end of that connection |
| TcpStack.RefusalCloses | uip/uip.c:1207-1394 | the reset that answers a refused packet finds the connection that sent it, closes it and is told; it has the number expected, and acknowledges a SYN |
| ConnTable.Table.constructor | uip/uip.c:379-389 | the initial table is valid and all closed |
| ConnTable.Table.AdvanceIss | uip/uip.c:712-719 | `iss` advances by one modulo 2^32 |
| ConnTable.Table.FindPort | uip/uip.c:411-427 | the search ends on the first free candidate, after at most as many misses as there are connections |
| ConnTable.SearchBound | uip/uip.c:411-427 | pigeonhole: no more candidates in a row are in use than there are connections |
| ConnTable.Table.FindSlot | uip/uip.c:429-442 | the first CLOSED entry, else the oldest in TIME_WAIT, else none |
| ConnTable.ChosenIsNearestItsEnd | uip/uip.c:429-442 | when no entry is free, the one taken is in TIME_WAIT and closest to its end |
| ConnTable.Table.Connect | uip/uip.c:407-468 | a free port, a new SYN_SENT connection in the chosen entry, all others untouched, uniqueness kept |
| ConnTable.Table.Receive | uip/uip.c:1187-1357 | found, accepted, refused or no room, each exactly when the code says; uniqueness kept |
| ConnTable.DemuxAnyOrder | uip/uip.c:1189-1197 | the order of the search does not matter |
| ConnTable.AlwaysUnique | uip/uip.c:407-1357 | over all runs no two connections share ports and address |
| Psock.PsockBuf.BufTo | uip/psock.c:111-142 | reads up to and with the first marker, stores what fits, and says whether it had to throw bytes away |
| Psock.PsockBuf.BufData | uip/psock.c:83-108 | fills the buffer and leaves the rest |
| Psock.Psock.NewData | uip/psock.c:253-270 | unread data, else fresh data once per event |
| Psock.Psock.ReadTo | uip/psock.c:272-297 | over all its resumptions: ends exactly at the first marker, consuming through it |
| Psock.Psock.ReadBuf | uip/psock.c:299-325 | over all its resumptions: ends exactly when the buffer is full |
| Psock.Psock.RecordIsLine | uip/psock.c:115-125 | what is handed on is the record cut to the buffer |
| PsockRuns.RecordsPartition | uip/psock.c:272-325 | the records and the remainder are the stream, nothing lost or repeated |
| PsockRuns.RecordsAreWhole | uip/psock.c:272-325 | every record ends at its only marker, or is as long as the buffer |
| PsockRuns.RunRecords | uip/psock.c:272-325 | whatever events bring a stream, the reader returns the records of the stream |
| PsockRuns.SegmentationIndependent | uip/psock.c:272-325 | two cuttings of one stream give the same records |
| PsockRuns.ReadAll | uip/psock.c:272-325 | a thread that reads for ever hands on, over any events, exactly the records of the stream, each cut to the buffer, and holds the remainder |
| Psock.Psock.DataAcked | uip/psock.c:160-174 | moves on by one piece on an acknowledgement of sent data |
| Psock.Psock.SendData | uip/psock.c:145-157 | hands over the next piece, or the same again on UIP_REXMIT |
| Psock.Psock.Send | uip/psock.c:176-213 | what is handed over in an event and when the call ends, for every length |
| PsockSends.ExactlyOnce | uip/psock.c:176-213 | over all runs each one-segment buffer is handed over as new once, in order, and as many are done as were acknowledged |
| PsockSends.RexmitRepeats | uip/psock.c:147-154 | a retransmission repeats exactly the outstanding buffer |
| PsockSends.SendAll | uip/psock.c:176-213 | a thread that sends one-segment buffers stands after exactly the acknowledged ones and has handed over each once, in order |
| PsockSends.SendOne | uip/psock.c:176-213 | one call over its events, for data of any length and a segment size that changes |
| PsockSends.NewInCall | uip/psock.c:145-208 | what such a call hands over as new: one segment by the first size, and the last piece behind one segment by the size at the acknowledgement |
| PsockSends.NewAcknowledgedIff | uip/psock.c:195-208 | what goes out as new is the data, and nothing with the acknowledgement, if and only if the data fits the first size and the last |
| PsockSends.RexmitHands | uip/psock.c:147-152 | a retransmission hands over what the size then in force allows: what went out before if and only if that size allows it |
| PsockSends.AllAcknowledgedIff | uip/psock.c:145-208 | its data goes out once as new and whole in every retransmission, and none is in flight at the end, if and only if the data fits the size of the first event, of every retransmission and of the acknowledgement |
| PsockSends.HandedOnceIff | uip/psock.c:195-208 | its data and nothing else goes out as new if and only if it fits both sizes, or the piece sent with the acknowledgement is what the first left |
| PsockSends.GrowingSizeLoses | uip/psock.c:147-171 | 150 bytes, sizes 100 then 200: the last 50 are never handed over |
| PsockSends.ShrinkingSizeRepeats | uip/psock.c:147-171 | 150 bytes, sizes 200 then 100: the last 50 are handed over twice |
| PsockSends.ShrunkRetransmission | uip/psock.c:147-171 | 150 bytes, sizes 200, then a retransmission at 100, then 200: the data goes out and is acknowledged, but the retransmission is cut |
| Arp.ArpTable.constructor | uip/uip_arp.c:125-130 | all entries unused |
| Arp.ArpTable.Update | uip/uip_arp.c:157-218 | exactly one entry is written: the address's own, else the first unused, else the victim |
| Arp.ArpTable.Oldest | uip/uip_arp.c:199-211 | the victim has the greatest age |
| Arp.ArpTable.Timer | uip/uip_arp.c:141-155 | entries of age UIP_ARP_MAXAGE are cleared, the others kept |
| Arp.UpdateRefines | uip/uip_arp.c:157-218 | the table is a map updated at one address, less one mapping exactly when the address is new and the table full |
| Arp.DuplicatesIff | uip/uip_arp.c:168-211 | refreshing an address duplicates it exactly when a half of it is zero, unless no entry is unused and its own is the victim |
| Arp.VictimIsOldest | uip/uip_arp.c:199-211 | without wrap of the clock the victim is the oldest |
| Arp.TimerRemoves | uip/uip_arp.c:141-155 | the timer only removes mappings, exactly those too old |
| ArpExchange.Host.Out | uip/uip_arp.c:353-419 | framed for the MAC in the table or for broadcast, or replaced by a request |
| ArpExchange.Host.ArpIn | uip/uip_arp.c:277-324 | requests and replies for this host are learnt, requests answered, all else ignored |
| ArpExchange.RequestIsAnswered | uip/uip_arp.c:288-313 | the addressed host learns the requester and replies with its own MAC |
| ArpExchange.ReplyIsLearnt | uip/uip_arp.c:314-320 | the requester learns the replier |
| ArpExchange.OffLinkGoesToRouter | uip/uip_arp.c:369-419 | off the subnet: framed for the router's MAC, or the router is asked for |
| ArpExchange.OnLinkGoesDirectly | uip/uip_arp.c:369-419 | on the subnet: framed for the host's own MAC, or it is asked for itself |
| ArpExchange.BroadcastGoesToAll | uip/uip_arp.c:367-419 | the broadcast address is framed for everybody |
| ArpExchange.RouterIsAskedFor | uip/uip_arp.c:369-413 | 192.168.0.2/24 with an empty table asks for its router when it has a packet for 10.0.0.5 |
| ArpExchange.NotForUs | uip/uip_arp.c:280-324 | any other frame changes nothing and is not answered |
| ArpExchange.RequestsAndRepliesAreArp | uip/uip_arp.c:288-410 | requests, and replies to them, are ARP packets for IP over Ethernet |
| ArpExchange.KnownIsFramed | uip/uip_arp.c:380-418 | a packet whose next hop is known, host or router, is framed for its MAC and longer by the Ethernet header |
| ArpExchange.ExchangeResolves | uip/uip_arp.c:277-419 | miss, request, reply: both hosts know each other and the packet sent again goes out, to the host or through the router |
| Icmp.AddSwappedIsAddition | uip/uip.c:998-1002 | the adjustment is addition modulo 65535 |
| Icmp.HtonsTimes256 | uip/uip.c:880-885 | swapping bytes is multiplication by 256 modulo 65535 |
| Icmp.AddSwappedWord | uip/uip.c:998-1002 | d added to the swapped word adds 256 d to the word on the wire |
| Icmp.AdjustedSum | uip/uip.c:996-1002 | a byte changed and the checksum adjusted by k move the sum by 256 (change + k) modulo 65535: by nothing when the byte falls by k |
| Icmp.Echo | uip/uip.c:961-1009 | exactly echo requests are answered, with the message otherwise unchanged |
| Icmp.ReplyVerifies | uip/uip.c:996-1002 | the reply verifies exactly when it is not all zero |
| Icmp.ReplyIsAccepted | uip/uip.c:1004-1006 | the reply to a request that was accepted is accepted by the host that asked |
| Icmp.AllZeroReply | uip/uip.c:998-1002 | the reply is all zero exactly for the request with checksum field f7 ff and zeros behind it |
| Icmp.ZeroReplyFails | uip/uip.c:998-1002 | that request verifies, and its reply does not |
| Icmp.ReplyHeader | uip/uip.c:1004-1006 | a header that verified still does if and only if the two addresses exchanged have congruent sums; always when the request was for this host |
| Icmp.NoAddressFails | uip/uip.c:1004-1006 | a host without an address answers a request to 192.168.0.1 with a header that does not verify |
| Forward.TtlDownVerifies | uip/uip-fw.c:462-470 | a header that verifies still does after the decrement exactly when the TTL was at least 1 |
| Forward.TimeExceeded | uip/uip-fw.c:221-273 | a complete ICMP message that quotes the packet, both checksums valid; none about ICMP |
| Forward.ReportIsAccepted | uip/uip-fw.c:221-273 | the report of an expired packet is accepted by the host that sent the packet |
| Forward.NoReportOfReport | uip/uip-fw.c:221-227 | a report that expires on the way is given up without another report |
| Forward.Forwarder.Forward | uip/uip-fw.c:405-486 | local, suppressed, expired or passed, each exactly when; what is sent, where to, and what is registered |
| Forward.Forwarder.FwOutput | uip/uip-fw.c:357-394 | registered whether there is a route or not; the interface is the right one |
| Forward.Forwarder.FindNetif | uip/uip-fw.c:323-339 | the first interface whose network holds the address, else the default, if any |
| Bytes.MaskCmpIsBitwise | uip/uip-fw.c:206-211 | two addresses are in one network if and only if they agree in every bit of both halves that the mask selects |
| Forward.Forwarder.Register | uip/uip-fw.c:281-316 | the first free entry, else the last of the oldest, is replaced |
| Forward.Forwarder.Periodic | uip/uip-fw.c:522-531 | every live entry is one tick older |
| Forward.DisplacedIff | uip/uip-fw.c:287-299 | a register displaces a live entry if and only if none is older, or as old and later in the cache |
| Forward.FreshIff | uip/uip-fw.c:281-307 | in the period of its registration a packet is forgotten only from the last entry, exactly when no older entry is left |
| Forward.SuppressedIff | uip/uip-fw.c:281-531 | from then on a packet is suppressed if and only if ticks are left and no more were registered than there were entries ahead of it |
| Forward.FreshSuppressedIff | uip/uip-fw.c:281-531 | the two together, for every run with a tick, from the cache before it and the number of packets before the first tick |
| Forward.AheadAfter | uip/uip-fw.c:287-307 | which entries are ahead of one after r registers follows from the cache before them |
| Forward.StaysSuppressed | uip/uip-fw.c:281-531 | in every run, whatever is registered, a packet is suppressed for that long at least |
| Forward.MostRecentForgotten | uip/uip-fw.c:287-307 | three packets in one period, a cache of two: the second is the one forgotten |
| Forward.RegisteredIsSeen | uip/uip-fw.c:301-449 | a packet that was output is recognised |
| Forward.KeyIsIdentity | uip/uip-fw.c:430-449 | two packets have one key if and only if identification, protocol and both addresses are the same |
| Forward.SuppressesItsOwn | uip/uip-fw.c:430-449 | when only one packet is remembered, exactly the packets of its identity are suppressed |
| Forward.HopsTaken | uip/uip-fw.c:462-470 | the k-th router on a path sees the TTL less by k, and the same key |
| Forward.ExpiresAtItsHop | uip/uip-fw.c:455-470 | a packet that has h hops to live expires at the h-th router and at none before it |
| Split.SplitOutput | uip/uip-split.c:48-134 | a maximum-size TCP packet leaves as two valid parts, everything else as it is |
| Split.SplitInTwo | uip/uip-split.c:57-128 | both parts: payload, sequence number, length, checksums, all else as in the original |
| Split.SplitsPreservesStream | uip/uip-split.c:57-128 | the payloads concatenate to the original; the numbers and sizes fit together |
| Split.CopyForward | uip/uip-split.c:107-108 | copying from first to last is right although source and destination overlap |
| Split.CopyOverlaps | uip/uip-split.c:107-108 | they share one byte exactly when the payload is odd |
| Split.PacketsHoldParts | uip/uip-split.c:57-128 | without options the two packets are read as the two parts of the segment |
| Split.ReceiverSeesNoDifference | uip/uip.c:1404-1718 | an ESTABLISHED reader ends in the same state with the same bytes, and acknowledges twice |
| Split.ReceiverTakesTheSame | uip/uip.c:1404-1758 | for every answer of its application: both parts are delivered like the whole if and only if it neither closes nor aborts in answer to the first, and accepted like the whole if and only if it does not abort |
| Split.ClosingLosesTheSecond | uip/uip.c:1657-1664 | an application that closes in answer to the first part never gets the second, which is acknowledged |
| ClockTimer.ExpiredIsTrueTime | uip/timer.c:120-124 | the test is right exactly while less than half a turn of the clock has passed |
| ClockTimer.NoDrift | uip/timer.c:83-124 | after any polls the start is T0 + k * interval, with k the whole intervals passed and the times fired |

## Left out

- Connection.Connection.Input: the URG branch and the tests for a stopped connection are not modelled; a segment's data is at most 65495 bytes, as any IP packet's is.
- Connection.Connection.Dispatch: as Input, without URG and `uip_stop`.
- Connection.Connection.InEstablished: as Input, without URG and `uip_stop`.
- Packet.PacketBuffer.UpperLayerChksum: IP length fields below 20 are excluded, because the code would sum outside the buffer.
- TcpPackets.ParseMss: option lengths that keep the 8-bit cursor inside its range.
- TcpPackets.ReadHeader: the data offset lies inside the packet (`OffsetOk`), which the code does not check, and options as for ParseMss.
- TcpExchange.IpInput: TCP packets whose IP length field is below 20 are excluded, as for UpperLayerChksum.
- TcpExchange.Found: URG clear, and data offset and options as for ReadHeader.
- TcpExchange.FoundListen: data offset and options as for ReadHeader.
- TcpExchange.Periodic: the reassembly timer is compiled out and not modelled.
- TcpSafety.EndToEnd: one incarnation of the connection per run; old segments of earlier connections are not on the channel.
- ConnTable.Table.Receive: what a segment does to the matched entry is left to TcpStack.TcpInput, which loads the entry into a `Connection` and stores it back where the code works on it in place.
- Psock.Psock.ReadTo: a buffer of size 0, for which the code restarts the thread in place of ending it, is excluded; data is read in the event that brings it, as the pointer into the packet buffer demands.
- Psock.Psock.ReadBuf: as ReadTo.
- Psock.Psock.Send: an acknowledgement while `uip_mss()` is 0 is excluded; the stack never makes such a call, as TcpSizes.AcknowledgedWithSize says.
- PsockSends.SendAll: buffers of one segment; longer ones are the subject of SendOne. `psock_generator_send` is not modelled.
- Arp.VictimIsOldest: no claim about ages across a wrap of `arptime`.
- Forward.Forwarder.Forward: `UIP_BROADCAST` is off; what an interface's output function returns is not modelled.
- Icmp.ReplyVerifies: for messages that hold their checksum field (an IP length of 24 or more); shorter requests are answered by the code all the same, as Echo says.
- Split.SplitInTwo: segments with options are split by the code as if the options were payload; the parts are described for what stands behind the fixed header.
- Split.ReceiverSeesNoDifference: equal states, for an application that only reads; ReceiverTakesTheSame is for all.
- `uip_listen`, `uip_unlisten`, `uip_fw_register`, `uip_fw_default` and the assignments of timer.c are plain writes.
- UDP, IPv6, IP reassembly and ping address configuration are disabled in this build.
- Device drivers, the main loop and the demo application have no state worth a model; the runs allow their events in any order.
