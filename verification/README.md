# A verified model of the UDP/ICMP/ARP stack

This project models the logic of a small user-space network stack that runs on DPDK: the sockets and
their receive and send rings, the outbound sweep that parks datagrams while ARP is unresolved, the
Internet checksum, the descriptor bitmap, the linked lists and the tables kept in them, and the UDP
and ICMP frame builders. `dafny verify dfyconfig.toml` checks all of it.

## How the model is laid out

Code that changes things in place is modelled as methods on the heap, proved against functions on
values; what the stack is for is then proved about those functions, over whole runs.

| module | models |
|---|---|
| `Bytes`, `Rings` | machine integers and their byte images; the contract assumed of a DPDK ring |
| `Checksum`, `ChecksumLaws`, `Icmp`, `FrameHeaders` | `src/icmp.c`: the checksum loop, its laws, the echo reply |
| `FdBitmap`, `Lists`, `Connections`, `Wiring`, `SocketTable`, `Bookkeeping` | `src/list.h` and the descriptor side of `src/socket.c`; who owns which ring; when bitmap, counter and lookup agree with the list |
| `ArpTable` | `src/arp_table.c` and the table-changing branches of `src/arp.c` |
| `UdpInfo`, `UdpFrame` | `src/udp_info.c`, `src/deal_udp.c` and the header parse of `src/udp.c` |
| `ReceiveQueue`, `SocketIo`, `Reassembly`, `WakeUp` | receiving, sending and inbound demultiplexing: one call, a drain, whole runs, every interleaving |
| `OutSweep`, `OutRuns`, `SweepIo` | the outbound sweep: one sweep, many sweeps, whole runs with sends in the middle of a sweep, the loop on the heap |
| `Stack` | the calls on one connection list: each keeps the whole list, its rings and its records well formed, so they can follow one another in any order |
| `EndToEnd` | one datagram from `hz_sendto` to `hz_receive_from` |

## Assumptions

- A DPDK ring is a bounded first-in first-out queue of 1023 usable slots (`RING_SIZE` is 1024), and
  one enqueue or dequeue is atomic.
- The host is little-endian with a 64-bit `long`. Truncation to 16 bits is written out wherever the
  code has it.
- Memory allocation succeeds, except that `hz_socket` has a parameter saying whether
  `hz_init_connection_info` did.
- The room of a packet buffer holds the frame written into it. The pool of `src/main.c:120-123` has buffers of
  `RTE_MBUF_DEFAULT_BUF_SIZE`, some two thousand bytes, and the code checks nothing; the bounds stated here are those
  of the arithmetic, with room enough.
- Ghost fields and tags (a record's `home`, a datagram's identity, the position of a send) belong to the model; no step
  looks at them.
- One packet thread; one receiver per socket. A file descriptor handed to the bitmap's reset is not
  negative.

## Where the code does not do what it is evidently meant to

The model follows the code. Wherever that is possible the statement is an if-and-only-if, so it also
says when the code is right.

- `INSERT_NODE_HEAD` gives the old front no back link (`src/list.h:9-15`), and `DELETE_TARGET_NODE`
  needs one (`src/list.h:20`). `Lists.DeleteTargetNode` proves the deletion right at any position when back
  links are in place, and right only at the front when they are missing. So `hz_close` of a UDP
  socket that is not the youngest keeps the freed record as the last of the list and loses all older ones
  (`SocketTable.StepKeepsInvIff`, `SocketTable.UnsafeCloseLosesTheRest`; `SocketTable.SomeCloseLoses` is a run that
  does).
- `hz_update_arp_table` hands the insertion macro an allocating call (`src/arp_table.c:59`). The macro
  evaluates it several times, and the list ends up as one fresh node: every other binding is
  forgotten (`ArpTable.UpdateKeepsOthersIff`, `ArpTable.UpdateForgets`). `count` is not changed.
- `hz_process_out_udp` returns at the first empty send ring (`src/udp.c:86-87`) where it could go on to the next
  socket. A newly opened socket, whose ring is empty and which is first in the list, stops all
  output (`OutRuns.OpeningStallsTheOthers`).
- The remainder of a short read goes back into the ring after the lock has been released
  (`src/socket.c:107-120`), with the result ignored. It is lost if and only if the datagrams that arrive in between
  fill the ring: the ring's length less one, and their number, make 1023 or more (`Reassembly.CallLosesIff`,
  `WakeUp.RoundsThenRequeue`). `Reassembly.SomeRunLoses` and `WakeUp.SomeTraceLoses` show runs that do.
- `hz_sendto` keeps sixteen bits of the length, ignores a full send ring, and yet returns all of the length. The
  bytes are queued if and only if there are fewer than 65536 and the ring has room (`Stack.SendQueuesIff`;
  `Stack.FullRingSwallows` is a byte that is reported and not queued). `hz_send_udp` keeps sixteen bits of the frame
  length. So a payload comes through if and only if the send ring has room for it and it has at most 65493 bytes
  (`EndToEnd.SocketToSocket`).
- A datagram the sweep takes out of a ring to park goes back in a step of its own, with the result ignored
  (`src/udp.c:86-97`), while sends on other cores fall in between. It is lost if and only if they fill the ring
  (`OutRuns.ParkingLosesIff`; `OutRuns.SomeRunLoses` is a run that does).
- A frame that meets a full output ring is gone, with the result ignored (`src/udp.c:96`, `src/udp.c:105`): of the
  frames of a sweep exactly the first ones enter, as many as there is room for (`SweepIo.FirstFramesEnter`).
- The parser does not compare the length a frame announces with the length received (`src/udp.c:64-66`). Memory behind
  the frame becomes part of the datagram if and only if the frame announces more than it holds
  (`UdpFrame.StaleBytesIff`).
- The UDP builder copies eight bytes beyond the payload (`src/deal_udp.c:36-39`), if and only if the payload has at
  most 65527 bytes (`UdpFrame.CopyRunsPastPayloadIff`). The memory behind a record's buffer is a parameter, and its
  content never matters to the receiver.
- A read with `len` zero of a datagram with bytes in it delivers nothing and only rotates the ring
  (`ReceiveQueue.ReadProgressesIff`).
- A failed `hz_socket` keeps its descriptor's bit set. The marked descriptors go on being the listed ones if and only if
  no socket call runs out of memory and no close is unsafe (`Bookkeeping.StepKeepsMarksIff`); a descriptor marked and
  not listed stays so for good (`Bookkeeping.MarkedForGood`, `Bookkeeping.FailedSocketCostsADescriptor`).
- `hz_close` never decrements `count`: it goes on being the list's length if and only if no close makes the list shorter
  (`Bookkeeping.StepKeepsCountIff`, `Bookkeeping.CloseLeavesTheCount`).
- The lookup by address ignores the protocol of the record it looks at. It finds the youngest UDP record bound there if
  and only if every record of another protocol bound there has a younger UDP record in front
  (`Bookkeeping.DemuxRespectsProtocolIff`, `Bookkeeping.OtherProtocolGetsTheDatagram`).
- An unresolved destination is announced by an ARP packet of opcode reply addressed to this host.

## Model

| member | source | states |
|---|---|---|
| Checksum.HzChecksum | src/icmp.c:87-100 | for every `int` count, negative and odd ones included, the wide accumulator with deferred folding gives the complement of word-by-word one's-complement addition (RFC 1071, sections 2 and 4.1), in at most three folding rounds |
| Checksum.AccumulatorFits | src/icmp.c:88-95 | for every count below 2^31 the accumulator stays below 2^46, so a 64-bit `long` never overflows |
| Checksum.FoldsAtMostThrice | src/icmp.c:96-98 | any sum below 2^46 is folded to 16 bits in at most three rounds |
| Checksum.FoldOnceKeepsResidue | src/icmp.c:97 | one folding round keeps the value modulo 0xffff, and keeps zero apart from 0xffff |
| Checksum.WideSumIsEndAroundSum | src/icmp.c:89-98 | adding all words first and reducing once is the same as an end-around carry after every word, from any running sum |
| ChecksumLaws.VerifiesExactlyWhen | src/icmp.c:87-100 | the checksum of a buffer is zero if and only if its words add up to a multiple of 0xffff and not all bytes are zero |
| ChecksumLaws.StoredChecksumVerifies | src/icmp.c:54-55 | zeroing any aligned 16-bit field, storing the checksum there and checking again gives zero |
| ChecksumLaws.VerifyingFieldIsTheChecksum | src/icmp.c:54-55 | no other field value verifies, except 0xffff in place of 0x0000 |
| ChecksumLaws.OneWordDamageIsSeen | src/icmp.c:87-100 | replacing one aligned word of a verifying buffer makes the checksum non-zero, except exactly for exchanging 0x0000 and 0xffff in a buffer that does not become all zero |
| ChecksumLaws.ByteOrderIndependence | src/icmp.c:87-100 | swapping the bytes of every word swaps the bytes of the result (RFC 1071, section 2 (B)) |
| ChecksumLaws.WordOrderIndependence | src/icmp.c:87-100 | buffers with the same words in any order have the same checksum (RFC 1071, section 2 (A)) |
| ChecksumLaws.OddByteIsPadded | src/icmp.c:93-95 | an odd last byte counts as if a zero byte followed it |
| ChecksumLaws.KnownValue | src/icmp.c:87-100 | the numerical example of section 3 of RFC 1071 gives the stored bytes 0x22, 0x0d |
| Icmp.StoreChecksum | src/icmp.c:54-55 | the field is the only thing that changes, and the header then verifies |
| Icmp.WriteIcmpHeader | src/icmp.c:48-55 | for every identifier and sequence number the header carries type 0, code 0 and both values, its checksum verifies, and the bytes around it are untouched |
| Icmp.BuildIcmpRequest | src/icmp.c:23-65 | the whole reply: Ethernet and IPv4 images with total length 28 in front of a header that verifies, nothing written behind |
| FrameHeaders.WriteEthIpv4 | src/deal_udp.c:11-30 | the field writes, in the code's order, leave the header image of RFC 791 section 3.1 and nothing else changed |
| FrameHeaders.EthIpv4Fields | src/deal_udp.c:11-30 | every byte of both headers by its offset: addresses, type, version and length 0x45, service 0, total length, identification and fragment offset 0, time to live 64, protocol, header checksum, source and destination |
| UdpFrame.ImageFields | src/deal_udp.c:11-41 | the same for a whole UDP frame, with ports, datagram length and checksum of the UDP header and the body behind it |
| UdpFrame.DispatchedExactlyWhen | src/deal_packet.c:40-46 | a frame goes on to the IPv4 and UDP code exactly with type 0x0800 at offset 12 and protocol 17 at offset 23 |
| Bytes.Weights | src/deal_udp.c:15-37 | values are stored least significant byte first, those converted by `htons` most significant first |
| UdpInfo.CreateUdpPayload | src/udp_info.c:8-25 | the record is a deep copy: own fresh buffer, the source's bytes, or zeros for a null source |
| UdpFrame.BuildUdpRequest | src/deal_udp.c:7-43 | the buffer holds headers with 16-bit wrapped length fields, then as many bytes from the payload's address as the datagram length says, from the payload's buffer and from the memory behind it |
| UdpFrame.SendUdp | src/deal_udp.c:45-59 | the packet lengths, `data_len` cut to 16 bits, and for every payload length the transmitted bytes, which are those of `WireBytes` in the round trip |
| UdpFrame.CopyRunsPastPayloadIff | src/deal_udp.c:36-39 | the copy runs past the payload if and only if that has at most 65527 bytes, and then by exactly eight |
| UdpFrame.WireOfRoom | src/deal_udp.c:49-58 | a packet buffer that starts with the built image, cut at its `data_len`, is what the round trip transmits, whatever lies behind payload and image |
| UdpFrame.LengthFields | src/deal_udp.c:21-37 | the IPv4 length is n+28 iff n <= 65507, the UDP length is n+8 iff n <= 65527, the packet buffer's length is n+42 iff n <= 65493 |
| UdpFrame.StaleBytesIff | src/udp.c:62-66 | what follows the frame in memory becomes part of the datagram if and only if the frame announces more than it holds, and then exactly that much of it |
| UdpFrame.WireRoundTrip | src/udp.c:58-66 | whatever lies behind the payload in memory, the transmitted bytes reach the UDP parser and parse to the datagram sent if and only if the payload has at most 65493 bytes |
| FdBitmap.OneBitOnly | src/socket.c:21-31 | setting or clearing a bit of a byte takes effect and leaves the other seven |
| FdBitmap.MaskValues | src/socket.c:21 | the eight masks are the powers of two from 1 to 128 |
| FdBitmap.FdTable.Layout | src/socket.c:21-31 | descriptor 8 b + i is bit i of byte b |
| FdBitmap.FdTable.GetFdFromBitmap | src/socket.c:17-27 | takes the least free descriptor in [3, 1024), or gives -1 and changes nothing when all 1021 are taken; membership of no other descriptor changes |
| FdBitmap.LowestFree | src/socket.c:17-27 | the specification of that search: a minimum over the free descriptors, -1 iff there is none |
| FdBitmap.FdTable.ResetFd | src/socket.c:29-33 | removes that one descriptor from the set, refuses one of 1024 or more |
| FdBitmap.ResetMakesAllocatable | src/socket.c:17-33 | after a reset the next allocation is at most that descriptor, and is it iff all lower ones are taken |
| Lists.InsertNodeHead | src/list.h:9-15 | the forward chain becomes the new node followed by the old chain; back links are right afterwards iff the list was empty |
| Lists.DeleteTargetNode | src/list.h:18-24 | with back links exactly that node leaves, the order stays, forward and back links stay mutually inverse, and the node's links become null; without them the deletion is right iff it is of the front |
| Lists.LinkedDelete | src/list.h:18-24 | the relinking of the two neighbours yields a distinct, doubly linked chain without that position |
| Lists.UnlinkedDelete | src/list.h:18-24 | without back links the chain left is the tail for the front, and for any other position the prefix ending in the deleted node |
| Lists.Unlink | src/list.h:18-24 | the macro's statements: which two links of which neighbours change, for every node of the list |
| Lists.ChainIsUnique | src/list.h:9-24 | a heap and a head determine the list: two chains from one head are the same sequence of nodes |
| Connections.GetConnInfoByFd | src/socket.c:35-44 | gives the first record with that descriptor, null iff there is none |
| Connections.GetConnInfoBySocket | src/socket.c:46-64 | gives the first record that matches on two fields for UDP, on four for TCP, and null for any other protocol |
| Connections.LookupFinds | src/socket.c:46-64 | field by field: a record with the address and port is found by a UDP lookup unless an earlier one is; a TCP lookup asks for the peer too; what is found has the fields asked for |
| Connections.InitConnectionInfo | src/conn_status.c:10-67 | a new record has the given addresses and two different fresh empty rings, the given link-layer addresses included |
| SocketTable.Sockets.Socket | src/socket.c:66-77 | new table and result for exhaustion, failed allocation (bit kept) and success (record in front, type cut to eight bits); the new connection has two fresh empty rings, and all others hold what they held |
| SocketTable.Sockets.Bind | src/socket.c:79-89 | address, port and link-layer address of exactly the record found change; -1 and no change without one; every ring holds what it held |
| SocketTable.Sockets.Close | src/socket.c:158-166 | result and new table for an unknown descriptor, a socket that is not UDP, the front and any other position; the records left keep their rings and what those hold |
| SocketTable.SocketResult | src/socket.c:66-77 | a socket call gives -1 exactly when memory is out or [3, 1024) is all marked, and then changes no record; else it gives the least unmarked descriptor, which is marked afterwards and finds the new record in front of the old list |
| SocketTable.NewRecord | src/socket.c:69-71 | the new record is unbound and its protocol is the type modulo 256 |
| SocketTable.BindResult | src/socket.c:79-89 | -1 exactly for an unlisted descriptor, with nothing changed; else 0, and of the first record with it address, port and link-layer address are new and all else is as before |
| SocketTable.CloseResult | src/socket.c:158-166 | 0 exactly for an unlisted descriptor, else 1; what changes is the mark of that descriptor and the list, which loses its front, or all behind the closed record |
| Wiring.RecordInOneRing | src/udp_info.c:8-25 | in a well-formed list no record is queued in two rings |
| Wiring.ForeignStays | src/udp_info.c:19-23 | as every record comes with a buffer of its own, a caller's buffer that was in no ring still is in none |
| SocketTable.StepKeepsInvIff | src/socket.c:66-166 | a call of socket, bind or close keeps listed descriptors distinct, in [3, 1024) and marked if and only if it is not a close of a UDP socket behind the front |
| SocketTable.UnsafeCloseLosesTheRest | src/socket.c:158-166 | every record behind such a close is out of reach of lookup while its bit stays set |
| SocketTable.SomeCloseLoses | src/socket.c:158-166 | a run of three sockets at which closing the middle one leaves it listed and loses the oldest |
| SocketTable.RunKeepsInv | src/socket.c:66-166 | the invariant holds after every run whose closes are safe |
| SocketTable.AfterAnyRun | src/socket.c:17-77 | after every such run a new descriptor is none already listed, and lookup of a listed descriptor gives exactly its owner |
| Bookkeeping.StepKeepsMarksIff | src/socket.c:66-166 | a call keeps the marked descriptors equal to the listed ones if and only if it is not a socket call that runs out of memory with a descriptor free, nor an unsafe close |
| Bookkeeping.RunKeepsMarks | src/socket.c:66-166 | so over every run of such calls |
| Bookkeeping.MarkedForGood | src/socket.c:71-72 | a descriptor marked and not listed stays so over every run whatever |
| Bookkeeping.FailedSocketCostsADescriptor | src/socket.c:71-72 | a first socket call that runs out of memory costs descriptor 3, whatever follows |
| Bookkeeping.StepKeepsCountIff | src/socket.c:66-166 | a call keeps `count` equal to the list's length if and only if it is not a close of a UDP record that is the front or has records behind it |
| Bookkeeping.RunKeepsCount | src/socket.c:66-166 | so over every run of such calls |
| Bookkeeping.CloseLeavesTheCount | src/socket.c:158-166 | one socket opened and closed leaves an empty list and a count of one |
| Bookkeeping.DemuxRespectsProtocolIff | src/socket.c:46-64 | the lookup finds the youngest UDP record bound to the address if and only if each record of another protocol bound there has a younger UDP record bound there |
| Bookkeeping.OtherProtocolGetsTheDatagram | src/socket.c:51-54 | a run after which a record of the other protocol is found for a UDP datagram |
| SocketTable.RunIsYoungestFirst | src/socket.c:66-77 | after every such run the list is in reverse order of creation |
| SocketTable.DemuxFindsYoungest | src/socket.c:46-64 | the record found for an address and port is the most recently created live one bound to them |
| ArpTable.Table.GetMacByIp | src/arp_table.c:16-26 | gives the address in the first entry for ip, none iff there is no entry |
| ArpTable.Table.RecordReply | src/arp.c:27-42 | an unbound sender is bound in front and counted; a bound one changes nothing |
| ArpTable.Table.ProcessWithArp | src/arp.c:18-57 | packets for other hosts and other opcodes do nothing, requests are answered to the asker, replies recorded, and `count` grows by one exactly for a reply from an unbound sender |
| ArpTable.ArpAnswers | src/arp.c:20-42 | a frame goes out exactly for a request to this host: a reply to the asker, from the address asked for; the list changes exactly for a reply to this host from an unbound sender, who gets a dynamic entry in front |
| ArpTable.Table.Update | src/arp_table.c:50-59 | a bound address is overwritten in place; a miss leaves a list of one node, as the macro's repeated evaluation makes it |
| ArpTable.InsertAsWritten | src/arp_table.c:59 | the macro given an allocating call ends with a head of its own, nothing behind it |
| ArpTable.StepRefinesMap | src/arp.c:27-42 | each step keeps addresses distinct and is, on the map the list stands for, first-wins binding by replies, rebinding by updates, and forgetting by an update of an unbound address |
| ArpTable.RunRefinesMap | src/arp_table.c:16-59 | so over every run, from any table with distinct addresses |
| ArpTable.LookupAfterAnyRun | src/arp_table.c:16-26 | after any run lookup answers exactly what the map holds |
| ArpTable.UpdateKeepsOthersIff | src/arp_table.c:50-59 | an update leaves all other bindings alone, and agrees with an insertion of one single node, if and only if the address was bound or the table empty |
| ArpTable.UpdateForgets | src/arp_table.c:59 | a concrete table of two bindings, both lost by an update for a third address |
| ArpTable.StepForgetsNothingIff | src/arp_table.c:50-59 | a step unbinds no address if and only if it is not an update of an unbound address in a table with entries |
| ArpTable.SafeRunForgetsNothing | src/arp_table.c:50-59 | a run without such an update never unbinds an address |
| ArpTable.RepliesNeverRebind | src/arp.c:27-42 | over runs of ARP packets alone the first binding of an address stays |
| ArpTable.CountIsLengthIff | src/arp.c:37-40 | with `count` incremented where the code does it, a step keeps it equal to the list's length if and only if it is not an update of an unbound address, or the list had exactly one entry |
| ArpTable.CountOfSafeRun | src/arp.c:37-40 | over every run of steps that meet that guard `count` is the list's length |
| ArpTable.CountOfReplyRun | src/arp.c:27-42 | in particular over every run of ARP packets alone |
| Rings.Ring.MpEnqueue | src/ring.h:10 | the assumed ring: appends, or refuses and stays as it is when 1023 are queued |
| Rings.Ring.McDequeue | src/ring.h:10 | the assumed ring: gives the oldest element, or an error iff empty |
| Rings.RingTakes1023 | src/ring.h:10 | a ring takes 1023 elements and not one more |
| ReceiveQueue.ReadProgressesIff | src/socket.c:113-128 | a read brings the drain closer to its end unless it asks for no bytes of a datagram that has some; then it only rotates the ring |
| ReceiveQueue.ReadsReachPosition | src/socket.c:104-128 | whatever the lengths of the reads, a datagram with k others in front of it is what read number k + 1 finds |
| ReceiveQueue.DrainCallCount | src/socket.c:104-128 | draining a ring takes exactly the sum of the calls of its datagrams |
| ReceiveQueue.CallsForIsCeiling | src/socket.c:113-128 | a datagram of n bytes costs ceil(n / len) calls, an empty one costs one |
| ReceiveQueue.DrainFollowsSchedule | src/socket.c:104-128 | from the middle of any round on, the drain delivers the chunks in the order of the schedule |
| ReceiveQueue.ScheduleIsRoundRobin | src/socket.c:104-128 | the schedule is strictly ascending in (chunk offset, queue position), its offsets are multiples of `len`, and it has every chunk of every datagram |
| ReceiveQueue.RoundRobinOrder | src/socket.c:104-128 | with fixed `len` and no arrivals a drain delivers all chunks exactly in that order |
| SocketIo.TakePrefix | src/socket.c:113-119 | the caller gets the first bytes, the record keeps the others in a fresh buffer |
| SocketIo.ShortRead | src/socket.c:113-121 | the same with the remainder at the tail of the ring |
| SocketIo.TakeAll | src/socket.c:122-124 | the caller's buffer starts with the whole payload and is unchanged behind it |
| SocketIo.ReadRing | src/socket.c:102-130 | result, source address, caller's buffer and ring after one read are those of the function `AfterRead` on the queue of datagrams; an empty ring waits |
| Stack.ReceiveFrom | src/socket.c:91-131 | -1 and no change for an unknown descriptor, else one read of the receive ring of that connection; every other ring, receive or send, holds what it held |
| Stack.ReceiveReturns | src/socket.c:91-131 | what a caller gets in each case: result, bytes, rest of the buffer, sender, and the ring afterwards, in terms of the front datagram |
| Stack.SendTo | src/socket.c:133-156 | -1 for an unknown descriptor; else `len`, and a deep copy with the socket's own address, cut to 16 bits of length, enters its send ring unless that is full; every other ring holds what it held |
| SocketIo.SendToKeepsAllBytesIff | src/socket.c:141-150 | the record made for a send holds all bytes if and only if there are fewer than 65536 |
| Stack.SendQueuesIff | src/socket.c:141-155 | a send that finds its connection appends one datagram with exactly these bytes to its send ring if and only if there are fewer than 65536 and the ring has room; the result is the length in any case |
| Stack.FullRingSwallows | src/socket.c:152-155 | with a full send ring a one-byte send reports one byte and changes nothing |
| Stack.UnknownSend | src/socket.c:135-139 | a send on a descriptor no connection has gives -1 and changes nothing |
| Stack.ProcessUdp | src/udp.c:58-76 | the parsed datagram enters the receive ring of exactly the first connection bound to its destination, and no other ring changes; nothing changes without one or with a full ring; the signal is given iff there is one |
| Stack.DatagramGoes | src/udp.c:58-76 | a datagram goes to the tail of the ring of the first record with its destination address and port, if that has room, and to no other; the signal is given iff there is such a record |
| Reassembly.StepKeepsInv | src/socket.c:110-128 | every arrival, dequeue and requeue keeps: of each accepted datagram the bytes delivered, followed by the one pending item of it, are its original bytes, each chunk names its sender, and what is no longer pending has been delivered in at least one chunk |
| Reassembly.EveryRunReassembles | src/socket.c:102-128 | so in every reachable state, for arrivals and reads of any lengths in any order, with arrivals between a dequeue and its requeue |
| Reassembly.NothingLostIff | src/socket.c:120 | a run loses no remainder if and only if no requeue met a full ring |
| Reassembly.CallLosesIff | src/socket.c:104-121 | the remainder of a short read is lost if and only if the ring's length less one and the number of datagrams arriving before the requeue make 1023 or more |
| Reassembly.SomeRunLoses | src/socket.c:120 | a run from the empty ring that loses the second byte of a datagram of two |
| Reassembly.LostMeansTruncated | src/socket.c:120 | what was delivered of a datagram whose remainder was lost is a proper prefix of it |
| Reassembly.CallIsRead | src/socket.c:104-128 | an atomic call is one read on the queue of datagrams, so the drain theorems speak of the same machine |
| Reassembly.ArriveIsEnqueue | src/udp.c:70-72 | an arrival goes to the tail of the queue of datagrams and is accepted exactly when there is room |
| Reassembly.TakeIsFront | src/socket.c:104 | a dequeue takes the oldest datagram and hands out its next chunk |
| Reassembly.PutBackIsEnqueue | src/socket.c:120 | a requeue goes to the tail of the queue as it is by then |
| Reassembly.AtomicRunIsQueue | src/socket.c:102-128 | over every run of arrivals and atomic calls ring and chunks are those of the queue: enqueue at the tail, read at the front |
| Reassembly.AtomicRunReassembles | src/socket.c:102-128 | when each read is one step nothing is ever lost: chunks followed by the remainder in the ring are the bytes |
| WakeUp.StepKeepsInv | src/socket.c:102-120 | every step of either thread keeps mutual exclusion, the wake-up property and reassembly |
| WakeUp.NoInterleavingLosesWakeUp | src/udp.c:70-75 | over every interleaving, spurious wake-ups and full rings included, a receiver asleep over a non-empty ring has the packet thread between its enqueue and its signal; with the packet thread idle no receiver sleeps over a datagram |
| WakeUp.SleeperIsWoken | src/udp.c:73-74 | from such a state the packet thread alone wakes the receiver in at most two steps, the datagram still there |
| WakeUp.RestsExactlyWhen | src/socket.c:102-107 | there is no deadlock: no thread can step of its own accord if and only if the packet thread is idle and the receiver outside a call or asleep over an empty ring |
| WakeUp.EveryScheduleComesToRest | src/socket.c:102-120 | under every schedule without new datagrams, calls and spurious wake-ups the threads come to rest there after at most 21 steps |
| WakeUp.StepEffect | src/socket.c:102-120 | which queue step each step of the threads is: an enqueue an arrival, a test of a non-empty ring a read with the room the call began with, a requeue a requeue, anything else none; a waiting call stays the same call |
| WakeUp.CallDelivers | src/socket.c:104-128 | however a call waits, it hands out nothing before it finds the ring non-empty, and then the next chunk of the datagram in front with the room it began with |
| WakeUp.StepRefinesQueue | src/socket.c:102-120 | every step of the interleaved system is a step of the reassembly machine or leaves it alone |
| WakeUp.LossExactlyWhen | src/socket.c:120 | the only step that loses anything is a requeue into a full ring |
| WakeUp.LostUpToRequeueIff | src/socket.c:104-120 | over any steps of the two threads from the dequeue of a short read to its requeue the remainder is lost if and only if the ring and the datagrams enqueued on the way fill it |
| WakeUp.RoundsThenRequeue | src/socket.c:107-120 | such interleavings exist with any number of datagrams enqueued, so the loss is real for every number that fills the ring |
| WakeUp.SomeTraceLoses | src/socket.c:120 | an interleaving from the start that loses the second byte of a datagram of two |
| OutSweep.SweepServesPrefix | src/udp.c:84-108 | a sweep takes one datagram from each ring of exactly the longest list prefix of non-empty rings, emits one frame for each in list order, and leaves the other rings alone |
| OutSweep.RotationPartitions | src/udp.c:84-106 | with a fixed ARP table and no sends, n sweeps with n datagrams in the ring at list position k frame exactly the resolved ones in order, emit one ARP frame for each other one, and leave those in order, given that no ring in front runs empty |
| OutSweep.RotatesIff | src/udp.c:84-108 | position k gets that whole rotation if and only if each ring in front has at least n datagrams or one whose destination is unresolved |
| OutSweep.ShortRingStalls | src/udp.c:86-87 | a ring in front that runs empty within n sweeps costs position k at least one of n frames |
| OutSweep.EmptyRingStalls | src/udp.c:87 | without new sends no number of sweeps serves a socket behind an empty ring |
| OutRuns.SweepConserves | src/udp.c:84-108 | what a sweep takes out of the rings is exactly what it frames |
| OutRuns.EveryRunConserves | src/udp.c:80-109 | over every run of sends, openings, closes of the youngest socket, ARP changes and the single steps of sweeps, with sends and openings in the middle of a sweep, the datagrams queued, in the sweep's hand, framed, dropped with their socket and lost together are the accepted ones |
| OutRuns.EachDatagramExactlyOnce | src/socket.c:141-155 | in every reachable state an accepted datagram is in exactly one of those places exactly once; queued, it is in the ring of its own socket |
| OutRuns.SendIsEnqueue | src/socket.c:141-154 | a send goes to the tail of its connection's ring, under its descriptor, exactly when there is room |
| OutRuns.ListAndTableSteps | src/socket.c:74-75 | a new connection comes in front with an empty ring, a sweep under way stays at its ring, a close takes the front ring's datagrams with it, an ARP change is taken as it comes, a sweep starts at the front |
| OutRuns.SweepStep | src/udp.c:84-106 | one step of a sweep: an empty ring ends it; else the oldest datagram is taken out and framed, or put back at the tail of the same ring, and the next ring follows |
| OutRuns.ParkingLosesIff | src/udp.c:86-97 | a datagram taken out to be parked is lost if and only if the ring's length less one and the number of sends on its socket before the requeue make 1023 or more |
| OutRuns.SomeRunLoses | src/udp.c:97 | a run from the empty state that loses a datagram |
| OutRuns.NothingLostIff | src/udp.c:97 | a run loses nothing if and only if no requeue met a full ring |
| OutRuns.StepsAreSweep | src/udp.c:84-108 | with nothing in between, the single steps are the sweep as a whole, and nothing is lost |
| OutRuns.SweepFromStart | src/udp.c:84-108 | so from the start of a sweep |
| OutRuns.OpeningStallsTheOthers | src/udp.c:87 | after a socket is opened no sweep serves any other until something is sent on the new one |
| SweepIo.WireOf | src/udp.c:89-105 | a datagram with a resolved destination leaves as a UDP frame to that address, any other as an ARP packet of opcode reply from its source for its destination, addressed to this host |
| SweepIo.FirstFramesEnter | src/udp.c:96-105 | of the frames of a sweep exactly the first ones enter the output ring, as many as it has room for |
| SweepIo.AllFramesEnterIff | src/udp.c:96-105 | all of them do if and only if there is room for all |
| SweepIo.ServeHead | src/udp.c:86-106 | the loop body on the heap: dequeue, look up, then frame, or announce and park at the tail |
| SweepIo.ProcessOutUdp | src/udp.c:80-109 | the walk over the linked list leaves every send ring and the output ring as the sweep function says, record by record |
| Stack.ProcessOutUdp | src/udp.c:80-109 | the same from the well-formed connection list alone, stated also of the datagrams in the send rings; receive rings untouched |
| EndToEnd.FrameArrivesIff | src/udp.c:58-66 | once it is framed and transmitted, a payload arrives whole with the sender's address and port, at the first read behind those of the datagrams queued before, if and only if it has at most 65493 bytes |
| EndToEnd.LastIsFramed | src/udp.c:84-106 | a datagram put into a send ring with room is framed by the last sweep of one rotation, behind those queued before |
| EndToEnd.FramedIff | src/socket.c:152-154 | it is framed within that rotation if and only if the ring had room for it |
| EndToEnd.SocketToSocket | src/socket.c:133-155 | from one call to the other: given a resolved destination, a socket bound to it with room in its ring, a read with room enough and no ring in front that runs empty, a payload comes through whole with the sender's address and port if and only if the send ring has room for it and it has at most 65493 bytes |

## Left out

- DPDK itself: environment, ports, packet pools, timers and the inside of rings; a ring is its contract.
- `rte_ipv4_cksum` and `rte_ipv4_udptcp_cksum`: their bodies are not in the repository; their results are parameters.
- Allocation failures other than the one parameter of `hz_socket`, and the error paths and ring names of `src/conn_status.c`.
- Freeing of memory: what a program does after reading a record that an unsafe `hz_close` freed has no meaning in C, so runs are followed up to such a close only.
- `src/tcp.c` has no transitions; the TCP status names are not modelled.
- Reverse-ARP requests: `hz_get_ip_by_mac` compares addresses of arrays, so its answer depends on nothing in the table.
- The layout of ARP frames: an ARP frame is the arguments of `hz_send_arp`.
- Several receivers on one socket, and closes concurrent with a sweep or a receive: the code gives no protection against them. Sends and openings concurrent with a sweep are modelled in `OutRuns`.
- Printing, random strings, time strings and the demo servers.
- Stack.ReceiveFrom: a call on an empty ring gives the outcome `Waits`, because the wait loop is the subject of module `WakeUp`; a connection without rings cannot occur here. The caller's buffer is required to be none of a queued record's, which no caller can get hold of.
- Stack.ProcessUdp: `pkt` is the memory of the packet buffer, and is required to hold the bytes its length field announces; the code reads them without comparing with the length received.
- SweepIo.ProcessOutUdp: a frame on the output ring is the arguments of `hz_send_udp`, whose bytes are module `UdpFrame`'s subject.
- FdBitmap.FdTable.ResetFd: requires a descriptor that is not negative, because a shift by a negative remainder or an index below the table has no meaning in C; every caller passes a descriptor from the connection list.
- Connections.InitConnectionInfo: the lock on the ring names, which a failed ring creation leaves held, and the failure paths are not modelled; `hz_socket` takes one parameter for all of them.
- OutRuns.EveryRunConserves: of the closes only that of the youngest socket, outside a sweep, is a step, because after any other the list holds a freed record. A datagram counts as framed when the sweep makes its frame; what a full output ring does to frames is `SweepIo.FirstFramesEnter`.
