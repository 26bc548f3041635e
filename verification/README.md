# Verified model of the vmxnet ring driver and the ICMP checksum code

This project models three parts of the repository in Dafny and proves properties of them.

**The vmxnet shared-ring network driver** (`19_sip/ref/vmxnet-only/`). Driver and virtual device share two
rings of entries whose `ownership` field says whose turn it is.

- `Packet`, `TxMap`: socket buffers, ring entries, and the resumable mapper that fills one entry's six-element
  gather list from a linear part and page fragments, with the unmapper that releases it again.
- `TxChop`: how many ring entries `vmxnet_tx` reserves and how the packet is chopped over them.
- `Segmentation`: the TCP/IP headers written in front of each piece, and the incremental IP checksum.
- `HeaderBytes`: the bytes of those headers, and the frames they make together with the gathered data.
- `TxRing`: the transmit ring as a state machine of submit, take-back, fetch and return moves.
- `TxDriver`, `TxSafety`, `TxRuns`, `TxClose`, `TxDelivery`: the driver's operations on that state, what
  each of them keeps, and what holds over every run from opening to closing.
- `TxDevice`: the same operations as a class over arrays, with the loops of the C code, each proved to do
  to the abstract state exactly what its specification function says.
- `RxRing`, `RxDevice`: the receive ring in the same two forms.
- `Multicast`: the hash filter and the CRC register loop behind it.
- `Layout`: where rings and header slots lie in memory.

**The Internet checksum** (`OnesComplement`, `IcmpChecksum`, `EchoReply`): the accumulate-and-fold loop of
`ping.c`, its packers, and the in-place echo reply of `sip_icmp.c`. `OnesComplement` holds the
ones'-complement definition of section 1 of RFC 1071 and the facts about residues modulo 0xFFFF that all
three users share.

**The table of outstanding ping requests** (`PingTable`), and with the packers, the echo reply and the receiver the
whole exchange of ping with a host that answers (`PingExchange`).

The questions left open in the comments at `13_raw_socket/13.6.10/ping.c:220-222` get these answers: two folds
are always enough; the complement makes a correct message sum to all ones; and the byte order of the host
does not matter for even lengths.

Where the source and its own documentation or intent differ, the model follows the code. Each difference has a
lemma that says exactly when it shows, and a lemma with an input for which it does:

- `vmxnet_load_multicast` is documented to return the number of entries used for the filter; it returns the
  number of all listed addresses. The two agree when all of them are group addresses (`UsedExactly`,
  `UnicastIsNotUsed`).
- The guard of the checksum loop looks at bits 1 to 15 of the length only, so just the first `len % 65536` bytes
  are summed. For buffers of any length that is right when what is left out is a multiple of 0xFFFF and not the
  only nonzero part (`AnyLengthExactly`, `LongBufferFails`). ping passes 64, 20 and `ip_hl * 4`, so this concerns
  the function and not a run of ping.
- For an odd length the last byte goes into the high half of its word, which matches RFC 1071 on big-endian
  hosts, or when that byte is zero (`LoopMatchesRfcExactly`, `OddLengthFails`).
- The echo reply of a request that is zero apart from type and checksum is the all-zero message, which does not
  verify (`ReplyValidExactly`, `QuietRequestFails`).
- When the copied headers end inside a fragment, unmapping releases a different area than was mapped
  (`UnmapMirrorsMapExactly`, `SplitFragmentFails`).
- Some packets for which one entry is reserved do not fit into it: a linear part over the mapping limit, or capped
  headers that leave a linear rest beside five fragments (`DirectPathExactly` and `CappedHeadersFail`,
  `LinearizedPathExactly` and `LongLinearizedFails`).
- A ring of fewer than five transmit entries is never low, because the unsigned `txRingLength - 5` wraps; the
  device is then never told at once for lack of room (`DeferredExactly`, `ShortRingIsNeverLow`).
- Sequence numbers from 32768 on never match a table slot in ping, because slots hold signed 16-bit numbers
  (`RepliesFindTheirRequest`, `LateRequestFails`).
- ping sends the low 16 bits of its process number as the identifier and compares the identifier of a reply with
  the whole number, so a process with a number above 65535 ignores all answers (`AnswerFindsItsRequest`,
  `LargeProcessFails`).
- A reply clears the flag of its slot but not the number, and the search does not look at the flag: a repeated reply
  is timed again until its slot is reused, and a reply to request 0 even if none was sent (`ReplyTimeExactly`,
  `RepeatedReplyFails`).
- The two threads of ping update the table without a lock. A reply whose slot is taken by a new request between
  its search and its clearing loses that request (`LateClearExactly`, `LateDuplicateFails`).
- `vmxnet_close` stops the queue, but `check_tx_queue` wakes it again while it waits, as soon as something is
  taken back (`CloseReleases`, `ClosedQueueRuns`).
- A received length is read as a signed 16-bit number, so frames of 32768 to 65535 bytes are dropped as runts
  (`DroppedExactly`, `NegativeLengthFails`), and nothing compares it with the 1536 bytes of the buffer
  (`LongFrameFails`; `FittingFramesFit` for a device that respects the buffer length).

Preconditions that stand for what the driver's environment guarantees are collected in `TxDriver.Transmittable`
(headers in the linear part, no more reserved entries than the ring has, and on the one-entry paths a packet
that fits, exactly as characterized by the two lemmas above), `TxDriver.ValidConfig`, `RxRing.Possible` (the
device fetches no entry it still holds, the kernel's new buffers are new) and the bound of 127 receive buffers,
because `vmxnet_init_ring` also writes the table of buffer pointers at index `numRxBuffers`.

## Model

| member | source | states |
|---|---|---|
| OnesComplement.OnesSumIsNormal | 13_raw_socket/13.6.10/ping.c:203-218 | the end-around-carry sum of RFC 1071 is the residue modulo 0xFFFF of the plain sum, with 0 only for all-zero words |
| OnesComplement.VerifiesExactly | 13_raw_socket/13.6.10/ping.c:300-302 | a message verifies iff its plain word sum is a positive multiple of 0xFFFF |
| OnesComplement.SwapCommutesWithSum | 13_raw_socket/13.6.10/ping.c:203-223 | section 2(B) of RFC 1071: the sum of byte-swapped words is the byte-swapped sum |
| IcmpChecksum.AccumulatorBound | 13_raw_socket/13.6.10/ping.c:198-212 | the signed 32-bit sum of any buffer shorter than 65536 bytes stays 33,022 below its limit |
| IcmpChecksum.AccumulatorBoundIsReached | 13_raw_socket/13.6.10/ping.c:198-212 | the longest buffer of 0xFF bytes attains that bound |
| IcmpChecksum.TwoFoldsAreEnough | 13_raw_socket/13.6.10/ping.c:214-220 | two folds leave the exact ones'-complement value in the low half, for every 32-bit sum |
| IcmpChecksum.Accumulate | 13_raw_socket/13.6.10/ping.c:198-212 | the loop terminates without overflow with the sum of the words of the first len mod 65536 bytes |
| IcmpChecksum.IcmpCksum | 13_raw_socket/13.6.10/ping.c:196-224 | the result is the complement of the RFC 1071 sum of those words, on either host byte order; it is that of the whole buffer, of any length, iff the bytes left out do not matter |
| IcmpChecksum.LoopMatchesRfcExactly | 13_raw_socket/13.6.10/ping.c:208-212 | the loop's sum is the RFC's sum of the bytes iff the length is even, the host is big-endian or the last byte is zero |
| IcmpChecksum.OddLengthFails | 13_raw_socket/13.6.10/ping.c:208-212 | a one-byte buffer for which the two differ on a little-endian host |
| IcmpChecksum.AnyLengthExactly | 13_raw_socket/13.6.10/ping.c:199-212 | for every length: the sum of what the loop reads is the sum of the whole buffer iff what it leaves out is a multiple of 0xFFFF and does not hold the only nonzero bytes |
| IcmpChecksum.ShortBufferExactly | 13_raw_socket/13.6.10/ping.c:199-212 | below 65536 bytes that condition is the one on parity, host order and last byte |
| IcmpChecksum.LongBufferFails | 13_raw_socket/13.6.10/ping.c:203-207 | a buffer of 65536 bytes of which none is summed |
| IcmpChecksum.HostOrderIsIrrelevant | 13_raw_socket/13.6.10/ping.c:203-223 | little-endian and big-endian sums are swaps of each other for every buffer, so both hosts agree on validity |
| IcmpChecksum.SameBytesOnBothHosts | 13_raw_socket/13.6.10/ping.c:203-223 | both kinds of host store the same two checksum bytes for an even-length message |
| IcmpChecksum.FillThenVerify | 13_raw_socket/13.6.10/ping.c:231-240 | filling a cleared word with the checksum makes the message verify, and clearing and recomputing returns the stored word |
| IcmpChecksum.RecomputeExactly | 13_raw_socket/13.6.10/ping.c:300-302 | the receiver's recomputed word equals the stored one iff the message verifies and a stored 0xFFFF stands alone |
| IcmpChecksum.IcmpPack | 13_raw_socket/13.6.10/ping.c:227-240 | the request's whole buffer afterwards: type and code, identifier and sequence number at their places in host order, counting data bytes, and that its covered part verifies |
| IcmpChecksum.RequestBytes | 13_raw_socket/13.6.10/ping.c:230-240 | byte by byte, with identifier at 4 and sequence number at 6, what a packed request holds besides its checksum |
| IcmpChecksum.IpPack | 13_raw_socket/13.6.10/ping.c:243-264 | the datagram's whole buffer afterwards: each header field in its bytes, source before destination, the payload, that the header verifies, and the next identifier |
| IcmpChecksum.HeaderLeads | 13_raw_socket/13.6.10/ping.c:247-262 | byte by byte, what the datagram's header holds besides its checksum |
| EchoReply.IcmpEcho | 19_sip/sip/sip_icmp.c:3-28 | in place: type cleared and checksum bumped with end-around carry, unless the destination is a group |
| EchoReply.BumpedExactly | 19_sip/sip/sip_icmp.c:15-19 | the bump adds the type word modulo 0xFFFF and never yields 0xFFFF |
| EchoReply.ReplyValidExactly | 19_sip/sip/sip_icmp.c:14-19 | the reply verifies iff the request did and some byte besides type and checksum is nonzero (the corner of section 3 of RFC 1624) |
| EchoReply.QuietRequestFails | 19_sip/sip/sip_icmp.c:14-19 | a valid request of eight bytes whose reply does not verify, on either host |
| EchoReply.ReplyIsHostIndependent | 19_sip/sip/sip_icmp.c:15-19 | both host byte orders produce the same reply bytes |
| EchoReply.PingIsAnswered | 19_sip/sip/sip_icmp.c:14-19 | a request packed by ping on one host and answered on another of any byte order gives a valid reply in which the first host loads its own process and sequence number and finds the data |
| TxMap.MapBuf | 19_sip/ref/vmxnet-only/vmxnet.c:1002-1120 | the in-place mapper changes the ring entry, the driver's record and the map context exactly as the pure mapping step says |
| TxMap.MapEntryStreamExactly | 19_sip/ref/vmxnet-only/vmxnet.c:1016-1114 | what an entry gathers followed by what remains is what remained before, iff the linear part was not capped |
| TxMap.MapEntryProgress | 19_sip/ref/vmxnet-only/vmxnet.c:1037-1114 | a call that does not finish the packet leaves a resumable position with less work |
| TxMap.UnmapBuf | 19_sip/ref/vmxnet-only/vmxnet.c:950-976 | the areas released, in order |
| TxMap.UnmapMirrorsMapExactly | 19_sip/ref/vmxnet-only/vmxnet.c:950-1114 | unmapping releases exactly the multiset of areas mapped, never the header copy, iff the mapping did not start inside a fragment |
| TxChop.ChopTiles | 19_sip/ref/vmxnet-only/vmxnet.c:1375-1462 | entry k gathers exactly the bytes that follow those of the entries before it |
| TxChop.ChopTotal | 19_sip/ref/vmxnet-only/vmxnet.c:1375-1462 | together the entries gather all bytes after the headers |
| TxChop.ChopEop | 19_sip/ref/vmxnet-only/vmxnet.c:1405-1460 | the end-of-packet mark is on the last entry and no other |
| TxChop.OneReservedExactly | 19_sip/ref/vmxnet-only/vmxnet.c:1241-1267 | one entry is reserved iff the linear rest is within the limit and at most five fragments go beside it, four with copied headers and a linear rest |
| TxChop.ReservedExactly | 19_sip/ref/vmxnet-only/vmxnet.c:1241-1267 | otherwise as many as needed, at five gather slots each, for the fragments and the linear rest, which has entries of its own when over the limit |
| TxChop.ReservationExactly | 19_sip/ref/vmxnet-only/vmxnet.c:1241-1267 | the loop never uses more entries than predicted, with equality characterized, in particular when no fragment is empty |
| TxChop.DirectPathExactly | 19_sip/ref/vmxnet-only/vmxnet.c:1283-1334 | a packet predicted to need one entry fits into one iff its mapped linear part is not too long and capped headers do not leave a rest beside five fragments |
| TxChop.CappedHeadersFail | 19_sip/ref/vmxnet-only/vmxnet.c:1287-1334 | 134 header bytes and five fragments: predicted to need one entry, and one does not suffice |
| TxChop.SplitFragmentFails | 19_sip/ref/vmxnet-only/vmxnet.c:1067-1084 | a TCP frame with 14 linear bytes and 54 header bytes, for which the areas released are not those mapped |
| TxChop.LinearizedPathExactly | 19_sip/ref/vmxnet-only/vmxnet.c:1350-1363 | a linearized packet fits iff what follows the copied headers is at most the linear limit |
| Segmentation.RewrittenVerifiesExactly | 19_sip/ref/vmxnet-only/vmxnet.c:1411-1418 | the incrementally patched IP header verifies iff the original did (equation 3 in section 3 of RFC 1624), without 32-bit overflow |
| Segmentation.HeaderSays | 19_sip/ref/vmxnet-only/vmxnet.c:1368-1458 | piece k carries the packet's header bytes with the sequence number of its offset, identifier plus k, its own total length, FIN/PSH only at the end, and the checksum seed of its own pseudo header; in plain bytes by `HeaderBytes.PieceIpBytes` and `PieceTcpBytes` |
| Segmentation.SeedCompletes | 19_sip/ref/vmxnet-only/vmxnet.c:1422-1426 | whatever a segment holds, completing its checksum from the seed makes it verify with its pseudo header |
| Segmentation.RunningCounters | 19_sip/ref/vmxnet-only/vmxnet.c:1412-1421 | the loop's running sequence number and identifier are those closed forms |
| Segmentation.ReceivedSoFar | 19_sip/ref/vmxnet-only/vmxnet.c:1368-1458 | after any arrivals, repeated or out of order, a receiver holds the packet's byte exactly where an arrived segment covers it |
| Segmentation.SegmentsReassemble | 19_sip/ref/vmxnet-only/vmxnet.c:1368-1458 | once all segments arrived in whatever order, the receiver holds exactly the original payload |
| TxRing.SubmitKeeps | 19_sip/ref/vmxnet-only/vmxnet.c:1329-1338 | submitting into a free slot keeps the occupied slots the circular interval from cur to next, split at the device's index |
| TxRing.ReapKeeps | 19_sip/ref/vmxnet-only/vmxnet.c:1145-1166 | taking back the oldest entry keeps it, and only fetched entries are taken back |
| TxRing.FetchKeeps | 19_sip/ref/vmxnet-only/vmxnet2_def.h:320-344 | a device fetch keeps it |
| TxRing.ReturnKeeps | 19_sip/ref/vmxnet-only/vmxnet2_def.h:320-344 | handing a fetched entry back in any order keeps it |
| TxRing.EveryInterleaving | 19_sip/ref/vmxnet-only/vmxnet2_def.h:320-344 | over every interleaving the ring invariant holds and the k-th fetch reads the k-th submitted entry: gather list, copied headers, flags and segment size |
| TxRing.ReadsGoRound | 19_sip/ref/vmxnet-only/vmxnet2_def.h:335-344 | the device's reads go round the ring from slot 0 without skipping |
| TxDriver.EntriesAreValid | 19_sip/ref/vmxnet-only/vmxnet.c:1283-1462 | a packet's entries are at least one, at most the reserved number, all its own, releasable, and only the last ends it |
| TxDriver.LongLinearizedFails | 19_sip/ref/vmxnet-only/vmxnet.c:1350-1363 | a frame one byte over the limit that is linearized and then does not fit, with header copying on or off |
| TxSafety.AvailableExactly | 19_sip/ref/vmxnet-only/vmxnet.c:1271-1283 | the availability scan succeeds iff the ring has that many free slots |
| TxSafety.CheckCore | 19_sip/ref/vmxnet-only/vmxnet.c:1139-1177 | check_tx_queue keeps the core invariant, leaves nothing to take back, counts exactly and wakes the queue iff something completed |
| TxSafety.InterruptWakes | 19_sip/ref/vmxnet-only/vmxnet.c:1707-1715 | a stopped queue runs again after the interrupt that finds the oldest entry handed back, and a running one stays so |
| TxSafety.InterruptExactly | 19_sip/ref/vmxnet-only/vmxnet.c:1707-1715 | after the interrupt the queue is stopped iff it was and the oldest entry has not been handed back; nothing is left to take back and nothing else changes |
| TxSafety.TransmitKeeps | 19_sip/ref/vmxnet-only/vmxnet.c:1201-1539 | transmitting keeps the driver invariant; the packet is refused, in flight as the newest, or dropped, and the status tells which |
| TxSafety.FateExactly | 19_sip/ref/vmxnet-only/vmxnet.c:1241-1367 | by lengths and counts: when a packet is refused, when it is chopped, linearized or put whole, and when it is lost |
| TxSafety.RefusedExactly | 19_sip/ref/vmxnet-only/vmxnet.c:1271-1283 | a refused packet leaves the ring as it was and the queue stopped iff the oldest entry has not been handed back |
| TxSafety.SentExactly | 19_sip/ref/vmxnet-only/vmxnet.c:1516-1539 | after a packet is sent the queue is stopped iff it was and the oldest entry has not been handed back |
| TxSafety.DeferredExactly | 19_sip/ref/vmxnet-only/vmxnet.c:1464-1538 | for every ring length and every 32-bit count: the device is told later iff the untold segments stay below the cluster length and five slots stay free or the ring has fewer than five; the low flag is on the last entry only, iff slots are the reason |
| TxSafety.ShortRingIsNeverLow | 19_sip/ref/vmxnet-only/vmxnet.c:1302-1305 | a ring of fewer than five entries is not low even when a packet fills it |
| TxSafety.SegmentsExactly | 19_sip/ref/vmxnet-only/vmxnet.c:1464-1472 | the segments counted are the fewest of the given size that hold the bytes after the headers |
| TxRuns.EveryRun | 19_sip/ref/vmxnet-only/vmxnet.c:1139-1539 | over every run of transmissions, interrupts, fetches and returns: the invariant, the exact accounts, and the device reading the sent packets' entries in order, each with its gather list, headers, flags and segment size |
| TxRuns.NextFetchFinds | 19_sip/ref/vmxnet-only/vmxnet2_def.h:320-329 | after every run the device finds an entry iff it has not read all, and it is the next one exactly as filled |
| TxRuns.FreedIsHandedBack | 19_sip/ref/vmxnet-only/vmxnet.c:1145-1166 | a released packet has no entry pending, no slot referring to it and no DMA mapping left |
| TxRuns.HandedBackMeansReleased | 19_sip/ref/vmxnet-only/vmxnet.c:1139-1177 | once the device handed everything back, one interrupt releases all packets in order and all mappings and runs the queue |
| TxRuns.NoLostWakeup | 19_sip/ref/vmxnet-only/vmxnet.c:1168-1176 | in every reachable state a stopped queue implies pending entries, and the return of the oldest wakes it |
| TxRuns.QueueExactly | 19_sip/ref/vmxnet-only/vmxnet.c:1139-1539 | after every event of every run: whether the queue is stopped, from whether it was, what the event did, and whether the oldest entry has been handed back |
| TxRuns.CanAlwaysDrain | 19_sip/ref/vmxnet-only/vmxnet.c:1139-1177 | from every reachable state some continuation empties the ring, with everything sent released in order |
| TxRuns.RoomLasts | 19_sip/ref/vmxnet-only/vmxnet.c:1350-1363 | the room found by the scan is still there after whatever happens while the lock is released for linearizing |
| TxClose.CloseReleases | 19_sip/ref/vmxnet-only/vmxnet.c:1786-1820 | closing releases everything still in flight once; mappings stay only for entries never handed back; the queue is left stopped iff nothing was taken back while waiting |
| TxClose.ClosedQueueRuns | 19_sip/ref/vmxnet-only/vmxnet.c:1795-1799 | closing with the oldest entry handed back leaves the queue running |
| TxClose.ExactlyOnce | 19_sip/ref/vmxnet-only/vmxnet.c:1145-1166 | from opening to closing, the packets released and dropped are as a multiset exactly those accepted |
| TxDelivery.EntriesDeliver | 19_sip/ref/vmxnet-only/vmxnet.c:1283-1514 | whichever way a packet is put on the ring, its entries gather exactly its bytes after the copied headers |
| TxDelivery.EntriesCarryHeaders | 19_sip/ref/vmxnet-only/vmxnet.c:1311-1327 | every entry's header slot was copied exactly the leading packet bytes that are not gathered, iff headers are copied |
| TxDelivery.PiecesAskForOffload | 19_sip/ref/vmxnet-only/vmxnet.c:1428-1436 | a piece always asks for the checksum and may be kept; it asks for segmentation iff the bytes it gathers exceed the segment size, with that size |
| TxDelivery.EntriesAskForOffload | 19_sip/ref/vmxnet-only/vmxnet.c:1293-1306 | every other entry may be kept, asks for the checksum iff the kernel left it partial, and for segmentation iff the packet has a segment size on a zero-copy adapter, with that size |
| TxDelivery.RunDelivers | 19_sip/ref/vmxnet-only/vmxnet.c:1201-1539 | the packet bytes behind the device's fetches so far are a prefix of those of the packets sent, and all of them once all entries are fetched |
| HeaderBytes.SlotSays | 19_sip/ref/vmxnet-only/vmxnet.c:1311-1449 | reading a slot's bytes as protocol headers gives the fields stored there; the MAC header and the other bytes of the TCP header are the packet's |
| HeaderBytes.OneEntryIsWholePacket | 19_sip/ref/vmxnet-only/vmxnet.c:1311-1334 | on the one-entry paths the copied header bytes followed by the gathered bytes are the packet |
| HeaderBytes.PieceFrameVerifies | 19_sip/ref/vmxnet-only/vmxnet.c:1387-1449 | in the bytes of every piece's frame the IP checksum is as good as the packet's, and the TCP checksum verifies once the device completes it |
| HeaderBytes.PieceIpBytes | 19_sip/ref/vmxnet-only/vmxnet.c:1411-1416 | in plain bytes on either host: the total length is the frame's own, and the identifier the packet's plus k |
| HeaderBytes.PieceTcpBytes | 19_sip/ref/vmxnet-only/vmxnet.c:1420-1455 | in plain bytes: the sequence number is the packet's plus the piece's offset, FIN and PSH stay in the last frame only, the other flags stay, and the seed is at the checksum's place |
| HeaderBytes.PieceKeepsRest | 19_sip/ref/vmxnet-only/vmxnet.c:1387-1449 | every other header byte is the packet's |
| HeaderBytes.PseudoInBytes | 19_sip/ref/vmxnet-only/vmxnet.c:1422-1426 | the pseudo header's words are those of the two addresses, a zero byte, the protocol and the length, in this order |
| HeaderBytes.CompletedFrameVerifies | 19_sip/ref/vmxnet-only/vmxnet.c:1422-1426 | with the checksum completed in a frame's bytes, pseudo header and segment sum to all ones as bytes on the wire |
| HeaderBytes.HostsAgree | 19_sip/ref/vmxnet-only/vmxnet.c:1387-1449 | hosts of either byte order that find the headers in the same bytes produce the same frames |
| HeaderBytes.HeadersOfExactly | 19_sip/ref/vmxnet-only/vmxnet.c:1217-1235 | headers found from VLAN tag, protocol, ihl and doff lie in the frame, have the size the offsets say, and hold the values in its bytes; a TCP frame's are usable iff ihl is at least five |
| HeaderBytes.KindInBytes | 19_sip/ref/vmxnet-only/vmxnet.c:1217-1235 | the kind of frame and the size of its headers by the bytes 81 00, 08 00, protocol 6 and the two length nibbles, as a little-endian host finds them |
| HeaderBytes.PieceFrameParses | 19_sip/ref/vmxnet-only/vmxnet.c:1387-1449 | whoever looks for headers in a piece's frame finds the packet's, with the piece's own IP words and TCP fields |
| HeaderBytes.FrameIsSegment | 19_sip/ref/vmxnet-only/vmxnet.c:1368-1458 | the sequence number in frame k's bytes and the bytes after its headers are segment k |
| HeaderBytes.FramesReassemble | 19_sip/ref/vmxnet-only/vmxnet.c:1368-1458 | from the frames at the device's looks, arriving in any order, the original payload is reassembled |
| HeaderBytes.RunReassembles | 19_sip/ref/vmxnet-only/vmxnet.c:1201-1539 | for every packet chopped in any run, the frames the device reads for it in that run reassemble to its payload |
| TxDevice.Device.Open | 19_sip/ref/vmxnet-only/vmxnet.c:852-926 | opening establishes the driver invariant and the initial state |
| TxDevice.Device.CheckTxQueue | 19_sip/ref/vmxnet-only/vmxnet.c:1139-1177 | the in-place loop does what the specification function says to the abstract state |
| TxDevice.Device.Interrupt | 19_sip/ref/vmxnet-only/vmxnet.c:1707-1715 | the same for the interrupt handler, whose effect on the queue `TxSafety.InterruptExactly` states |
| TxDevice.Device.PutSingle | 19_sip/ref/vmxnet-only/vmxnet.c:1287-1338 | filling one entry in place is one submission of the specified entry, of which `TxDelivery.EntriesAskForOffload` says what it asks for; the slot is free and the entry ends the packet |
| TxDevice.Device.PutPieces | 19_sip/ref/vmxnet-only/vmxnet.c:1366-1462 | the chopping loop in place is the submission of all specified pieces; no slot it fills is occupied |
| TxDevice.Device.HasRoom | 19_sip/ref/vmxnet-only/vmxnet.c:1271-1283 | the scan with its wrapping index answers whether the next slots are all free |
| TxDevice.Device.Tx | 19_sip/ref/vmxnet-only/vmxnet.c:1201-1539 | the whole of vmxnet_tx in place yields the specified state and status and keeps the driver invariant |
| TxDevice.Device.GetNextTx | 19_sip/ref/vmxnet-only/vmxnet2_def.h:320-329 | an entry is found iff one waits, and it is the oldest unfetched one as the driver filled it |
| TxDevice.Device.IncNextTx | 19_sip/ref/vmxnet-only/vmxnet2_def.h:334-344 | the fetch in place, keeping the driver invariant |
| TxDevice.Device.Close | 19_sip/ref/vmxnet-only/vmxnet.c:1786-1820 | closing in place yields the specified state; every packet sent has been given back exactly once |
| RxRing.FetchKeeps | 19_sip/ref/vmxnet-only/vmxnet2_def.h:289-305 | a fetch gets the next entry of the ring while not all are out, otherwise nothing and never the dummy entry, and keeps the invariant |
| RxRing.PutKeeps | 19_sip/ref/vmxnet-only/vmxnet2_def.h:310-315 | a put in any order fills in the frame of the device's latest fetch of that slot and keeps the invariant |
| RxRing.TakeKeeps | 19_sip/ref/vmxnet-only/vmxnet.c:1600-1654 | taking a frame off keeps the invariant, the buffers distinct and apart from those delivered |
| RxRing.EveryRun | 19_sip/ref/vmxnet-only/vmxnet.c:1600-1654 | over every interleaving of fetches, puts and rounds of the receive loop the kernel has, in fetch order, exactly the frames taken that are not runts and had a new buffer |
| RxRing.DroppedExactly | 19_sip/ref/vmxnet-only/vmxnet.c:1610-1637 | in any state: a ready frame is dropped iff its 16-bit signed length is below 56 or there is no new buffer; otherwise it is delivered with that length, longer than the buffer iff between 1537 and 32767 |
| RxRing.FittingFramesFit | 19_sip/ref/vmxnet-only/vmxnet.c:1621-1626 | if the device puts no frame longer than a buffer, every delivered frame of every run has 56 to 1536 bytes |
| RxRing.NegativeLengthFails | 19_sip/ref/vmxnet-only/vmxnet.c:1608-1610 | a run in which a frame of 40000 bytes is dropped although there is a buffer |
| RxRing.LongFrameFails | 19_sip/ref/vmxnet-only/vmxnet.c:1621-1626 | a run in which a frame of 2000 bytes is delivered from a buffer of 1536 |
| RxRing.PutBeforeNextFetch | 19_sip/ref/vmxnet-only/vmxnet2_def.h:289-315 | over every sequence of frames and interrupts, a device that puts each frame before its next fetch only makes allowed moves, holds nothing in between, and fetches for exactly the frames that find room, in order |
| RxRing.ArrivalsInOrder | 19_sip/ref/vmxnet-only/vmxnet.c:1600-1654 | hence such frames reach the kernel in the order of their arrival |
| RxRing.RunConserves | 19_sip/ref/vmxnet-only/vmxnet.c:1600-1654 | the buffers in the ring and with the kernel are always the initial ones and those obtained, none lost or doubled |
| RxDevice.Receiver.InitRing | 19_sip/ref/vmxnet-only/vmxnet.c:828-850 | succeeds iff every buffer could be allocated, and then establishes the receive invariant |
| RxDevice.Receiver.Open | 19_sip/ref/vmxnet-only/vmxnet.c:902-926 | the device is open iff every buffer could be allocated |
| RxDevice.Receiver.NextRx | 19_sip/ref/vmxnet-only/vmxnet2_def.h:289-305 | the fetch in place; the dummy ring's entry is never handed out |
| RxDevice.Receiver.PutRx | 19_sip/ref/vmxnet-only/vmxnet2_def.h:310-315 | the put in place |
| RxDevice.Receiver.Rx | 19_sip/ref/vmxnet-only/vmxnet.c:1591-1657 | the receive loop in place takes every ready frame; a closed device takes none |
| RxDevice.Receiver.Close | 19_sip/ref/vmxnet-only/vmxnet.c:1786-1827 | closing stops receiving and frees each buffer of the ring once; they are distinct and none is with the kernel, and together with those delivered they are all there ever were |
| Multicast.DivisionExactly | 19_sip/ref/vmxnet-only/vmxnet.c:1871-1883 | long division by the generator finds r iff the polynomial is r plus a multiple of the generator |
| Multicast.GeneratorIsPolynomial | 19_sip/ref/vmxnet-only/vmxnetInt.h:16 | the constant holds the generator's coefficients of section 3.2.9 of IEEE 802.3, lowest bit for the highest power |
| Multicast.CrcIsDivision | 19_sip/ref/vmxnet-only/vmxnet.c:1871-1883 | the register after any input is the remainder of the input shifted up by 32 with the start value added at its front |
| Multicast.HashExactly | 19_sip/ref/vmxnet-only/vmxnet.c:1885-1886 | an address has filter bit b iff b is spelled by the six lowest coefficients of its remainder |
| Multicast.MessageAt | 19_sip/ref/vmxnet-only/vmxnet.c:1872-1873 | the polynomial's coefficients are the bits of the address bytes in their order, lowest bit of each first |
| Multicast.GroupBitIsFirst | 19_sip/ref/vmxnet-only/vmxnet.c:1867-1869 | a group address is one whose first bit on the wire is set |
| Multicast.TestBitExactly | 19_sip/ref/vmxnet-only/vmxnet.c:1886 | bit b of the filter is bit b % 16 of word b / 16 |
| Multicast.KnownAddress | 19_sip/ref/vmxnet-only/vmxnet.c:1871-1886 | 01:00:5e:00:00:fb has filter bit 33, and alone gives a filter with bit 1 of the third word set |
| Multicast.FilterExactly | 19_sip/ref/vmxnet-only/vmxnet.c:1857-1889 | a filter bit is set iff some listed group address hashes to it |
| Multicast.SubscribedIsListed | 19_sip/ref/vmxnet-only/vmxnet.c:1857-1889 | no listed group address is filtered out |
| Multicast.FilterIsOrderIndependent | 19_sip/ref/vmxnet-only/vmxnet.c:1857-1889 | lists with the same group addresses give the same filter |
| Multicast.UsedExactly | 19_sip/ref/vmxnet-only/vmxnet.c:1840-1889 | the documented count, the entries used, is the count returned iff every listed address is a group address |
| Multicast.UsedMakeTheFilter | 19_sip/ref/vmxnet-only/vmxnet.c:1863-1889 | the entries used are the listed group addresses, and the filter is that of them alone |
| Multicast.HashAddress | 19_sip/ref/vmxnet-only/vmxnet.c:1871-1885 | the nested shift-and-xor loops compute that hash of the six bytes in their order |
| Multicast.DriverData.LoadMulticast | 19_sip/ref/vmxnet-only/vmxnet.c:1848-1890 | the four filter words afterwards, and the count of all listed addresses, which is the number used iff none is skipped |
| Multicast.UnicastIsNotUsed | 19_sip/ref/vmxnet-only/vmxnet.c:1863-1889 | a listed address that is counted although the filter does not use it |
| PingTable.FindsOwnSlot | 13_raw_socket/13.6.10/ping.c:539-569 | searching for an outstanding request's number finds its slot iff the number is below 32768, otherwise nothing |
| PingTable.RefinesMap | 13_raw_socket/13.6.10/ping.c:450-474 | over every interleaving of up to 65536 requests with any replies the table holds exactly the ideal map |
| PingTable.RepliesFindTheirRequest | 13_raw_socket/13.6.10/ping.c:379-383 | a reply to a recorded outstanding request is compared with its own send time iff the request is among the first 32768 |
| PingTable.ReplyTimeExactly | 13_raw_socket/13.6.10/ping.c:379-383 | for every number and run: a reply is compared with the time of the request it names as long as that is the last one recorded in some slot, answered or not; 0 also matches slots never used |
| PingTable.RepeatedReplyFails | 13_raw_socket/13.6.10/ping.c:379-383 | a reply to request 0 that is timed although it was answered before, and one although nothing was sent |
| PingTable.LateRequestFails | 13_raw_socket/13.6.10/ping.c:556-566 | a run after which a recorded request is not found by its reply |
| PingTable.LateClearExactly | 13_raw_socket/13.6.10/ping.c:379-382 | with a request recorded between a reply's search and its clearing, the table is what it should be iff the request took another slot or is the one replied to |
| PingTable.LateDuplicateFails | 13_raw_socket/13.6.10/ping.c:379-382 | a repeated reply to request 0 that loses request 1 |
| PingTable.FullExactly | 13_raw_socket/13.6.10/ping.c:449-456 | there is no free slot iff 128 requests are outstanding |
| PingTable.Ping.FindPacket | 13_raw_socket/13.6.10/ping.c:539-569 | both search loops return the first matching slot |
| PingTable.Ping.SendRequest | 13_raw_socket/13.6.10/ping.c:449-474 | the table and the 16-bit counter after a request, and the number sent |
| PingTable.Ping.ReceiveReply | 13_raw_socket/13.6.10/ping.c:376-383 | the table after a reply, and the send time it is compared with |
| PingExchange.SendEcho | 13_raw_socket/13.6.10/ping.c:449-474 | one turn of the sending loop: the table, the datagram's header, and the ICMP message in it, which carries the number just recorded |
| PingExchange.Unpack | 13_raw_socket/13.6.10/ping.c:304-383 | what a received datagram does to the table, and the send time it is compared with |
| PingExchange.TrafficIsRun | 13_raw_socket/13.6.10/ping.c:304-474 | any traffic, with arbitrary datagrams received, does to the table what the requests and the accepted numbers do |
| PingExchange.AnswerFindsItsRequest | 13_raw_socket/13.6.10/ping.c:227-383 | after any traffic the answer to an outstanding request, given by a host of any byte order, is valid, and finds that request's own send time iff process number and request number are small enough |
| PingExchange.LargeProcessFails | 13_raw_socket/13.6.10/ping.c:375 | every process with a number above 65535 ignores the answer to its first request |
| Layout.EntriesAreDisjoint | 19_sip/ref/vmxnet-only/vmxnet.c:806-823 | entries of the three rings never overlap and lie between the driver data and its end |
| Layout.LayoutIsTight | 19_sip/ref/vmxnet-only/vmxnet.c:543-567 | the rings end exactly at the computed size, and the entry after the last receive entry is the dummy ring's |
| Layout.AlignUp | 19_sip/ref/vmxnet-only/vmxnet.c:566-567 | the aligned address is a multiple and at most unit minus one bytes further, so the block stays inside its allocation |
| Layout.HeaderSlotsAreDisjoint | 19_sip/ref/vmxnet-only/vmxnet.c:638-653 | header copies of different entries never overlap, cross a page or leave the buffer |

## Left out

- PCI probing, port I/O, morphing, ethtool and ioctl handlers, kernel-version macros, memory barriers and statistics counters.
- Concurrency inside one operation: lock-protected regions and each move of the device are single steps. The one place where `vmxnet_tx` releases its lock is covered by `TxRuns.RoomLasts`.
- RxDevice.Receiver.Rx: the method takes the frames that are ready when it is called. A call during which the device puts more is in `RxRing.EveryRun` as several interrupts with the puts in between.
- What the kernel does when `skb_put` is given more than the buffer holds: the model delivers the frame with its length, and `RxRing.DroppedExactly` says when that happens.
- The DMA mapper, `skb_linearize`, buffer allocation and `netif_rx`: their results are parameters or recorded in traces.
- The kernel's own pointers to the protocol headers: `HeaderBytes.HeadersOf` finds the headers at the offsets in the bytes, and the results about bytes hold for headers found so. The sum over a segment in which the device completes the TCP checksum is the device's; the model states what it makes of the seed the driver leaves.
- What the device does with a piece marked for segmentation: it splits it further, which the model does not follow.
- The address width of gather elements: an element names what it points at instead of a 64-bit address.
- The step in which the device hands an entry back is the hypervisor's; it is modelled as an arbitrary return of a fetched entry.
- Segmentation.HeaderSays: the total length of a piece is stated for datagrams of at most 65535 bytes, the limit of the field.
- Byte orders in `HeaderBytes`: the frame type constants are those of a little-endian host, as the source notes at `vmxnet.c:106-107`; `KindInBytes` says what a big-endian one would look for.
- `PingExchange.Unpack`: the IP checksum that `icmp_unpack` recomputes in the buffer only to print it; `IcmpChecksum.RecomputeExactly` says what it shows.
- PingTable.RefinesMap: each table update of the two threads is a single step, although the source does not protect it; `LateClearExactly` is the one interleaving inside an update that is modelled.
- Ping requests: `PingTable.RefinesMap` is stated for up to 65536 requests; beyond that the 16-bit number on the wire names several requests.
- EchoReply.PingIsAnswered: stated for even lengths of 10 to 255 bytes; ping sends 64, and its filler loop does not end for longer ones.
- Interrupts while `vmxnet_close` waits; it holds the transmit lock, and a closed device receives nothing.
- `vmxnet_tx_timeout`, `vmxnet_remove_device` and reopening after a failed open.
- `SG_CollapseContig`, which the driver does not use, and the remaining files of `19_sip/sip/`, whose callees are not part of the repository.
- Round-trip times and clocks in ping: send times are opaque values.
- The socket, thread and server examples of the other chapters, which are input and output only.
