# MyIP-NG: a verified model of the protocol core

MyIP-NG is an IP stack in user space. Each layer is a process; the processes exchange messages
through shared memory. This project models the parts in which something has to hold over whole
runs, whatever the network, the scheduler and the other processes do, and proves that it does.
`dafny verify dfyconfig.toml` checks everything.

## How the model is built

Code that changes state step by step appears twice. A class (or a method with loops) follows the
code; its contract says that it performs exactly the step of a function on plain values. The
theorems are about those functions, over all inputs, all interleavings and all runs.
What the program cannot decide is an input: whether a queue has room (`Sends`, `room`,
`accepted`), the time, resolver replies, the order in which packets arrive, what freshly grown
memory holds (`junk`), and when a producer pushes (`Tick`). SipHash is an arbitrary function.

| file | what it models |
|---|---|
| Bytes.dfy, Permutations.dfy | bytes, byte orders; taking an element out of a sequence |
| Checksum.dfy | the Internet checksum against one's-complement addition (section 1 of RFC 1071) |
| TcpSession.dfy | the session: inbound segment, application data, sender visit |
| TcpStream.dfy | what every run of one session keeps: sending, closing, receiving |
| TcpNetwork.dfy | two sessions on a network that loses, repeats and reorders; the handshake between them |
| TcpWire.dfy | segments as bytes |
| SynCookie.dfy | MSS option, SYN cookie, stateless handshake (section 3.6 of RFC 4987) |
| Ip4Packet.dfy, Ip4Reassembly.dfy, Ip4Fragmenter.dfy | fragments (sections 3.1 and 3.2 of RFC 791) |
| ResolveTable.dfy | datagrams waiting for two MAC addresses |
| ShmQueue.dfy, ShmSenders.dfy, ShmMessage.dfy | the message queue as bytes, its concurrent senders, the envelopes |
| Icmp.dfy | ICMP errors across two processes, echo replies |
| ChunkQueue.dfy, VncCommands.dfy | reading a stream from chunks; VNC client commands (section 7.5 of RFC 6143) |
| Hextile.dfy | the Hextile encoder and a decoder (section 7.7.4 of RFC 6143) |

## Where the code does not do what one would expect

Each of these is a lemma, with the exact condition where there is one.

- The sender can forget bytes nobody received, but only through a FIN: a receiver whose application
  has no room for the data that comes with a FIN still counts the FIN and acknowledges the data
  with it. As long as no such data is refused where it is expected, while it is in flight and the
  sender's numbers do not wrap just there, nothing is forgotten undelivered, FINs included
  (`TcpNetwork.ForgottenIsDelivered`); the first such refusal is exactly what makes a loss possible
  (`TcpNetwork.TailLostIff`, with the run `TcpNetwork.FinCanLoseTheTail`), and no later delivery
  makes up for it (`TcpNetwork.NothingTakenAfterFin`). Delivered bytes remain a prefix of the queued
  ones all the same. The expected number behind a FIN is right exactly when its data was taken
  (`TcpStream.FinCountsRightIff`).
- A client counts a SYN/ACK that arrives a second time once more. Of all segments without FIN and
  RST exactly this one takes its expected number away from what it has been handed
  (`TcpStream.SynAckShiftsIff`); the server then forgets a byte the client never had, and the client
  is handed the next (`TcpNetwork.RepeatedSynAckSkipsByte`).
- Nothing is sent again unless an acknowledgement comes: any that is not beyond what is in flight
  makes the sender send again from the first byte it does not cover, and a segment that carried
  the FIN is not sent again at all (`TcpStream.AckBringsResend`).
- A data segment that is taken while its acknowledgement cannot be queued leaves the expected
  number behind (`TcpStream.TakenOnceIffAcked`), and its repeat is handed up a second time, which
  otherwise it is not (`TcpStream.RepeatTakenIffUnacked`).
- A reset, a SYN a client did not ask for, and any segment for a session already closed drop unsent
  data but not the numbering, so data queued afterwards goes out under the wrong number, exactly if
  something was dropped (`TcpStream.KeepsPlaceIff` for a step, `TcpStream.EveryDataSegmentIsTrue`
  for a run; two such runs are `TcpStream.ClosedSenderLosesItsPlace` and
  `TcpStream.ClosedSenderDropsAgain`).
- A peer that asks for an MSS below 216 gets segments of up to 536 bytes
  (`SynCookie.MssSurvivesHandshake`).
- A duplicated fragment makes a datagram incomplete for good (`Ip4Reassembly.DuplicateBlocks`).
- Whether a datagram is complete can depend on the order in which equal offsets are sorted: exactly
  if an empty fragment stands at the offset of one that is not and the list is contiguous with the
  empty ones first (`Ip4Reassembly.AnySortAgreesIff`, `Ip4Reassembly.EmptyFragmentNeedsOrder`).
- A sender that waited for room can put a message in behind ones with higher numbers. The queue is
  in the order of the numbers at every moment exactly if no sender that waited was overtaken
  (`ShmSenders.OrderedIffNeverOvertaken`, with the run `ShmSenders.BlockingBreaksOrder`).
- A SYN cookie is accepted until its 64-second slot ends, and again 2048 seconds after it was made
  (`SynCookie.CookieLifetime`).
- Pixels are little-endian, the server announces big-endian: a client that goes by the announcement
  is right only about colours with as much red as green and full blue (`Hextile.AnnouncedFormat`).
- A VNC client that asks for a depth other than 8, 24 or 32 gets no colours
  (`Hextile.OnlySupportedDepthsCarryColour`).

## Model

| member | source | states |
|---|---|---|
| Checksum.IpChecksum | src/utils/checksum.cpp:7-20 | For up to 131074 bytes, odd lengths included, the wrapping 32-bit accumulator and two folds give the complement of the one's-complement sum of RFC 1071; beyond that, what the wrapped accumulator gives. |
| Checksum.TcpUdpChecksum | src/utils/checksum.cpp:22-44 | The same with the pseudo header in front, up to 65535 bytes; beyond that, what the wrapped accumulator gives. |
| Checksum.FoldIsResidue | src/utils/checksum.cpp:16-19 | For every 32-bit accumulator, folding twice and truncating gives its residue modulo 0xffff, in 1..0xffff, or 0 for 0. |
| Checksum.OnesSumIsResidue | src/utils/checksum.cpp:11-17 | Adding every carry back at once gives the same as summing first and reducing at the end. |
| Checksum.InsertThenVerify | src/utils/checksum.cpp:7-20 | A zeroed word replaced by the checksum makes the checksum of the whole 0. |
| Checksum.StoredChecksumVerifies | src/utils/checksum.cpp:22-44 | The same for bytes stored big-endian at an even offset, behind any pseudo header. |
| Checksum.FillInChecksum | src/ip4_server.cpp:489-492 | Computing over the zeroed field and storing leaves all other bytes alone and verifies to 0. |
| Checksum.SingleWordDetection | src/utils/checksum.cpp:9-19 | In a packet that verifies, changing one word goes unnoticed if and only if it is 0x0000 to 0xffff, or 0xffff to 0x0000 with another word not zero. |
| Checksum.ReorderingUndetected | src/utils/checksum.cpp:9-19 | Any reordering of words has the same checksum. |
| Checksum.WordsAre | src/utils/checksum.cpp:11-14 | Words are big-endian and an odd packet is summed as if a zero byte followed. |
| Checksum.Rfc1071Example | src/utils/checksum.cpp:7-20 | The example of section 3 of RFC 1071. |
| Checksum.PseudoHeaderIs | src/utils/checksum.cpp:26-33 | What is added before the packet are the words of the pseudo header of section 3.1 of RFC 793. |
| TcpSession.TcpData.Peek | src/tcp_server.cpp:59-65 | Returns the first bytes, and whether they are all. |
| TcpSession.TcpData.Forget | src/tcp_server.cpp:68-78 | Removes acknowledged bytes from the front, in place, never more than there are. |
| TcpSession.TcpData.ForgetAll | src/tcp_server.cpp:81-85 | Empties the buffer. |
| TcpSession.TcpData.Append | src/tcp_server.cpp:87-92 | Adds application bytes at the end. |
| TcpSession.SendTcpPacket | src/tcp_server.cpp:226-278 | Emits the chunks of a payload until the queue refuses one; returns the bytes of the emitted chunks and of the refused one, or -1 if the refusal left nothing counted. |
| TcpStream.ChunksTilePayload | src/tcp_server.cpp:237-275 | The chunks concatenate to the payload, each at its number with the given flags and acknowledgement, all but the last of mss bytes. |
| TcpSession.AnswersTo | src/tcp_server.cpp:639-727 | Exactly what is sent to the peer and to the application for any segment after the handshake, and the new expected number. |
| TcpSession.ResetAnswers | src/tcp_server.cpp:434-447 | A closed session answers every segment with RST, a reset is not answered; both close, empty and report the session. |
| TcpSession.SynAnswers | src/tcp_server.cpp:448-509 | What a SYN causes: a reset at a client, the cookie at a server without a session established, nothing at an established one, its release if finished. |
| TcpSession.SynAckAnswers | src/tcp_server.cpp:459-479 | A SYN/ACK sets a client's expected number behind the peer's and is acknowledged with it. |
| TcpSession.SessionObject.HandleAck | src/tcp_server.cpp:530-567 | Performs the acknowledgement step: exact, partial, excessive and stale acknowledgements. |
| TcpSession.SessionObject.HandleData | src/tcp_server.cpp:639-706 | Performs the receive step: in order, full application queue, failed acknowledgement, out of order. |
| TcpSession.SessionObject.HandleFin | src/tcp_server.cpp:711-727 | Counts a first FIN and acknowledges it unless its data just was. |
| TcpSession.SessionObject.HandleInvalid | src/tcp_server.cpp:729-760 | Closes the session, empties its buffer, tells the application. |
| TcpSession.SessionObject.HandleSyn | src/tcp_server.cpp:448-509 | SYN and SYN/ACK for client and server sessions, with the quick release of a finished one. |
| TcpSession.SessionObject.HandleSegment | src/tcp_server.cpp:434-760 | One inbound segment for a known session, all branches. |
| TcpSession.SessionObject.HandleL7 | src/tcp_server.cpp:849-860 | Application bytes are appended, a FIN request is remembered. |
| TcpSession.SessionObject.Tick | src/tcp_server.cpp:781-822 | One visit of the sender thread: nothing while data is in flight or after FIN, otherwise one segment, with FIN if it empties the buffer and the application asked. |
| TcpStream.KeepsPlaceIff | src/tcp_server.cpp:434-447 | A step keeps the sender invariant if and only if it is not an abort (RST, client SYN without ACK, any segment for a closed session) that finds a non-empty buffer. |
| TcpStream.SenderAlways | src/tcp_server.cpp:533-564 | In every state of every run, closed sessions included: the buffer is the queued stream without the part that left it, and local_seq = first + forgotten + (FIN sent ? 1 : 0) modulo 2^32, less the bytes aborts have dropped; so stream, numbering and in_flight bounds hold if (and, below 2^32 bytes, only if) no abort so far found a non-empty buffer. |
| TcpStream.EveryDataSegmentIsTrue | src/tcp_server.cpp:784-820 | Each data segment of every run, first transmission or repeat, carries the next bytes of the stream, at most mss of them; under the number they stand for if (and, below 2^32 bytes, only if) no abort so far found a non-empty buffer. |
| TcpStream.TickSends | src/tcp_server.cpp:781-822 | When the sender thread sends, which stream bytes, with or without FIN, and what that leaves in flight. |
| TcpStream.AckEffect | src/tcp_server.cpp:530-567 | In plain integers: an acknowledgement beyond what is in flight changes nothing; any other sets in_flight to 0 and moves the sender on by exactly what it covers. |
| TcpStream.AckBringsResend | src/tcp_server.cpp:549-564 | At any point of any run that lost nothing, after such an acknowledgement the next visit of the sender sends the bytes from the first one not covered, at their number; after a FIN, nothing. |
| TcpStream.NoSegmentAboveMss | src/tcp_server.cpp:789-790 | No segment of any session in any run has more than mss bytes. |
| TcpStream.CloseFlagsOneWay | src/tcp_server.cpp:711-717 | Between any two moments of a run: half_closed, fin_sent and l7_send_fin never go back, closed is absorbing. |
| TcpStream.FinIsLast | src/tcp_server.cpp:784-820 | A FIN leaves only on request, on a segment that ends at the last queued byte (under the number of that place if no abort dropped data), and no later step of the run sends data or another FIN. |
| TcpStream.ClosedSenderLosesItsPlace | src/tcp_server.cpp:742-746 | A run in which a reset between two writes makes a segment carry the wrong bytes for its number. |
| TcpStream.ClosedSenderDropsAgain | src/tcp_server.cpp:434-439 | A run in which the reset drops nothing, but a later segment for the closed session does, with the same effect. |
| TcpStream.Arrival | src/tcp_server.cpp:639-727 | What any segment after the handshake, FIN included, does to delivered bytes, expected number and acknowledgements. |
| TcpStream.ReceiverAlways | src/tcp_server.cpp:639-706 | Against any peer, any order and any repetition, up to the first FIN and while acknowledgements can be queued: the application has a prefix of the peer's stream, a slice is taken exactly when it is the next one, peer_seq = first + delivered and every acknowledgement has that number, across the 2^32 wrap. |
| TcpStream.SynAckShiftsIff | src/tcp_server.cpp:459-467 | After the handshake a segment without FIN and RST, with acknowledgements queued, keeps the expected number tied to the delivered bytes if and only if it is not a SYN/ACK at a client. |
| TcpStream.TakenOnceIffAcked | src/tcp_server.cpp:655-673 | The expected number stays tied to the delivered bytes if and only if a taken segment's acknowledgement was queued. |
| TcpStream.RepeatTakenIffUnacked | src/tcp_server.cpp:655-673 | An in-order segment that arrives twice is handed up twice if and only if its first acknowledgement could not be queued. |
| TcpStream.FinCountsRightIff | src/tcp_server.cpp:711-717 | After a FIN the expected number is the one behind it if and only if its data was just taken or had been before. |
| TcpNetwork.HandshakeConnects | src/tcp_server.cpp:459-479 | SYN/ACK, acknowledgement and session opening between two of these stacks leave each side expecting the other's first number, with SYN and SYN/ACK still under way. |
| TcpNetwork.NetStepKeepsInv | src/tcp_server.cpp:530-706 | Every possible action of either endpoint or the network, a SYN repeated to an open server session included, keeps the two-endpoint invariant. |
| TcpNetwork.NetStepKeepsTail | src/tcp_server.cpp:530-727 | Every possible action that refuses no expected FIN data in flight also keeps: forgotten at most delivered, which is at most one sender buffer ahead; one FIN segment in flight; every acknowledgement counts no more than what is delivered, or cannot be accepted. |
| TcpNetwork.ForgottenIsDelivered | src/tcp_server.cpp:639-727 | In every run, FINs included, in which data that comes with a FIN at the expected number is taken by the application while it is in flight and no numbers wrap: on both sides forgotten <= delivered <= queued, throughout. |
| TcpNetwork.NothingTakenAfterFin | src/tcp_server.cpp:711-717 | Once an endpoint has counted a FIN, its application is handed nothing more in the rest of the run. |
| TcpNetwork.StreamSafety | src/tcp_server.cpp:639-706 | In every run, FINs included, what each application was handed is a prefix of what the other queued; until a side's FIN, and after it if no expected FIN data was refused, forgotten is at most delivered; no session is reset. Packets 2^32 bytes old do not arrive, acknowledgements of taken data can be queued, no SYN/ACK reaches a client twice and no SYN a finished session. |
| TcpNetwork.ShortStreamSafety | src/tcp_server.cpp:781-822 | The same, with the same exclusion of repeated SYN/ACKs, for streams under 2^32 - 1 bytes with packets of any age. |
| TcpNetwork.TailLostIff | src/tcp_server.cpp:651-723 | After any run without such a refusal, a delivery is one if and only if the same packet may come again, the acknowledgement of that may arrive, and the sender has then forgotten more than was delivered. |
| TcpNetwork.FinCanLoseTheTail | src/tcp_server.cpp:675-723 | A run in which a FIN makes the sender forget a byte that was never delivered. |
| TcpNetwork.RepeatedSynAckSkipsByte | src/tcp_server.cpp:459-479 | A run, allowed but for one repeated SYN/ACK, in which a client is handed the second byte of a stream without the first. |
| TcpWire.WireRoundTrip | src/tcp_server.cpp:242-258 | A segment written by send_tcp_packet passes run_in's size, checksum and header checks and is read back unchanged. |
| TcpWire.DecodeReads | src/tcp_server.cpp:325-394 | Which packets are dropped, and that every field of the others is where section 3.1 of RFC 793 puts it, the payload behind the options. |
| TcpWire.EncodeWrites | src/tcp_server.cpp:242-258 | send_tcp_packet writes that layout. |
| SynCookie.SelectIndex | src/tcp_server.cpp:372-375 | The table loop picks the largest entry not above the MSS, or keeps the index if all are above. |
| SynCookie.ScanOptions | src/tcp_server.cpp:364-390 | The option loop terminates on every byte string and computes the scan. |
| SynCookie.ScanSeesOptions | src/tcp_server.cpp:367-389 | On every well-formed option list the scan sees exactly the options, never the inside of one. |
| SynCookie.OddOptions | src/tcp_server.cpp:367-389 | Malformed options: a zero length ends the scan, an MSS option of another length is skipped, a lone last byte is not read. |
| SynCookie.FieldsApart | src/tcp_server.cpp:221-223 | Hash, time slot and index of a cookie do not overlap. |
| SynCookie.AcceptedIffSameSlot | src/tcp_server.cpp:568-573 | For any hash function a cookie is accepted if and only if the slot number is the one it was made in, and yields its index. |
| SynCookie.CookieLifetime | src/tcp_server.cpp:214-223 | For almost 33 minutes a cookie is accepted exactly until its 64-second slot ends; 2048 seconds after it was made it is accepted again. |
| SynCookie.MssSurvivesHandshake | src/tcp_server.cpp:605-606 | The session's mss is the largest table entry up to the peer's MSS; it is at most that MSS if and only if that is at least 216. |
| SynCookie.SegmentsFitPeer | src/tcp_server.cpp:789-790 | For a SYN whose options ask for an MSS of at least 216, no segment at any point of any run of the session its cookie opens exceeds that MSS. |
| Ip4Packet.WireParses | src/ip4_server.cpp:165-220 | Every emitted fragment passes the version, address, size, TTL, protocol and checksum tests and is read back unchanged. |
| Ip4Packet.ParseVerdicts | src/ip4_server.cpp:165-220 | Which packets are dropped, which are reported with which ICMP type and code, and what is read from the others, for headers of any length. |
| Ip4Reassembly.SortSorts | src/ip4_server.cpp:97-100 | Sorting by offset gives a sorted permutation. |
| Ip4Reassembly.AnySortAgrees | src/ip4_server.cpp:97-107 | Whatever order std::sort gives equal offsets, the verdict is that of the model if no empty fragment shares the offset of one that is not. |
| Ip4Reassembly.AnySortAgreesIff | src/ip4_server.cpp:97-107 | For every fragment list: all sorted orders give the same verdict if and only if no empty fragment shares an offset with one that is not, or the list is not contiguous even with the empty ones first. |
| Ip4Reassembly.EmptyFragmentNeedsOrder | src/ip4_server.cpp:97-107 | With an empty fragment two sorted orders of one list give different verdicts. |
| Ip4Reassembly.FragmentStore.IsComplete | src/ip4_server.cpp:92-110 | Sorts the fragment list and decides contiguity in 16-bit arithmetic. |
| Ip4Reassembly.CompleteIffExactCover | src/ip4_server.cpp:92-110 | For any slices of one datagram: complete if and only if each byte is covered exactly once. |
| Ip4Reassembly.FragmentStore.HandlePacket | src/ip4_server.cpp:174-274 | One inbound packet on the mutable store, all branches. |
| Ip4Reassembly.AcceptEffect | src/ip4_server.cpp:224-274 | Whatever came before: a whole packet goes up at once; a fragment is written over what is there and noted, and its datagram stays or goes up. |
| Ip4Reassembly.ReceiveVerdicts | src/ip4_server.cpp:174-206 | A packet is ignored, reported or accepted as its checks say; only an accepted one touches the store. |
| Ip4Reassembly.ReassemblyExact | src/ip4_server.cpp:224-266 | For any fragmenter, any order, any repetition: nothing is delivered until the fragments cover the datagram exactly, then exactly the datagram, and the store is as before. |
| Ip4Reassembly.DuplicateBlocks | src/ip4_server.cpp:103-105 | Once a byte of an incomplete datagram has arrived twice, every later fragment of the datagram is stored and none delivers it. |
| Ip4Reassembly.TrafficDoesNotMix | src/ip4_server.cpp:230-238 | Packets of other datagrams in between change nothing about a datagram's entry. |
| Ip4Fragmenter.FragmentLoop | src/ip4_server.cpp:459-512 | Emits the fragments in order until the link queue refuses one; none exceeds the MTU. |
| Ip4Fragmenter.PiecesFit | src/ip4_server.cpp:463-466 | No fragment exceeds the MTU, and none but the last could hold eight bytes more. |
| Ip4Fragmenter.PiecesCover | src/ip4_server.cpp:463-466 | The fragments cover the payload, each byte once. |
| Ip4Fragmenter.FragmentReassemble | src/ip4_server.cpp:240-266 | For payloads of 1..65535 bytes, MTU 28..65535 and every order of arrival: all fragments pass the checks, each but the last is stored, the last is answered with exactly the payload. |
| Ip4Fragmenter.ReassembleAmongTraffic | src/ip4_server.cpp:240-266 | The same on wire bytes with any other packets in between, malformed ones and fragments of other datagrams included; no other entry is touched and the datagram's own is gone at the end. |
| ResolveTable.PendingMessages.HandleEnqueue | src/ip4_server.cpp:550-582 | Files a datagram under both request numbers, or not at all. |
| ResolveTable.PendingMessages.HandleReply | src/ip4_server.cpp:388-434 | Fills in one address; dispatches and releases when both are there. |
| ResolveTable.WalkExpired | src/ip4_server.cpp:363-379 | The cleaner releases each expired datagram once, whatever keys it still has, and erases exactly their numbers. |
| ResolveTable.PendingMessages.HandleClean | src/ip4_server.cpp:352-381 | The cleaner's step on the table. |
| ResolveTable.ExactlyOnePlace | src/ip4_server.cpp:352-434 | In every interleaving each queued datagram is waiting, dispatched or dropped, exactly one; dispatched at most once, released exactly once when it leaves; dispatched with the replies to its own from and to requests. |
| ResolveTable.DroppedIffLate | src/ip4_server.cpp:363-379 | In every interleaving a step drops a datagram if and only if it is a visit of the cleaner at least 2.5 s after the datagram was queued while it still waits; none that old is left. |
| ResolveTable.ReplyEffect | src/ip4_server.cpp:388-434 | A reply is used up and noted for the side that asked; the datagram goes out with both addresses exactly if the other was there. |
| ResolveTable.ReplyIsExpected | src/ip4_server.cpp:412-423 | A reply that finds a record finds one still waiting for it: the error branch is dead. |
| ShmQueue.RecordRoundTrip | src/utils/shm.cpp:146-151 | A record is read back as it was written, whatever the padding holds. |
| ShmQueue.SharedMemory.Number | src/utils/shm.cpp:255-258 | Numbers every message except replies. |
| ShmQueue.SharedMemory.TryPut | src/utils/shm.cpp:260-275 | Accepts exactly if the padded record fits; the byte array then stands for the old list plus the message. |
| ShmQueue.SharedMemory.TryTake | src/utils/shm.cpp:143-185 | The scan and the move in place take the first message of the type and number asked for off the list the bytes stand for; the scan never lands inside a record and none of the code's assertions fails. |
| ShmQueue.TakesFirstMatch | src/utils/shm.cpp:153-165 | The message taken is the first that matches; all others stay in order. |
| ShmQueue.TakesWhatWasAskedFor | src/utils/shm.cpp:153-154 | In fields: the message taken has the type asked for, or any for 0, and the number named, and none before it has; none is taken only if none has. |
| ShmQueue.FilledIsTotal | src/utils/shm.cpp:261-263 | The fill level is the sum of the padded lengths and a multiple of eight. |
| ShmSenders.SendMessage | src/utils/shm.cpp:242-284 | Numbering and first attempt, up to the first wait. |
| ShmSenders.QueueAlways | src/utils/shm.cpp:255-284 | In every interleaving: accepted = delivered + queued as multisets, the queue fits, all messages but replies have distinct numbers, waiting ones included. |
| ShmSenders.Fates | src/utils/shm.cpp:255-284 | A new message is put in if it fits, and otherwise waits or is dropped as its sender chose; a waiting one goes in when it fits. |
| ShmSenders.KeepsOrderIff | src/utils/shm.cpp:255-284 | A step keeps the queue in the order of the numbers if and only if it is not a retry that finds a higher number queued. |
| ShmSenders.OrderedIffNeverOvertaken | src/utils/shm.cpp:255-284 | In every interleaving the queue is in order at every moment if and only if no sender that waited was overtaken. |
| ShmSenders.NonBlockingOrdered | src/utils/shm.cpp:271-275 | If nobody blocks, numbers increase strictly along the queue. |
| ShmSenders.BlockingBreaksOrder | src/utils/shm.cpp:277-283 | A run in which a blocked sender ends up behind a higher number. |
| ShmMessage.UpRoundTrip | src/utils/shm_message.cpp:38-138 | Upward envelopes: every part comes back, and the packet lies right behind the payload. |
| ShmMessage.UpTcpRoundTrip | src/utils/shm_message.cpp:61-169 | TCP envelopes: every field and part comes back. |
| ShmMessage.DownRoundTrip | src/utils/shm_message.cpp:187-250 | Downward envelopes: every part comes back. |
| ShmMessage.StartsWithMark | src/utils/shm_message.cpp:47-197 | Every envelope starts with its mark in host byte order. |
| Icmp.BuildError | src/icmp_server.cpp:137-158 | The error message from a notice, for any byte found behind the two-byte payload; it verifies to 0. |
| Icmp.ErrorQuotesPacket | src/ip4_server.cpp:42-53 | The byte behind the payload is the offending packet's first byte, so the header length read is the packet's own. |
| Icmp.ErrorFor | src/icmp_server.cpp:143-158 | Both processes together: for packets of at least 20 bytes the error holds the first min(length, IP header + 8) bytes behind an 8-byte header and verifies to 0. |
| Icmp.EchoReply | src/icmp_server.cpp:50-95 | Exactly valid echo requests are answered, with the same bytes after the checksum, verifying to 0. |
| ChunkQueue.Deque.Push | src/utils/queue.h:27-32 | Adds a chunk at the back. |
| ChunkQueue.Deque.Pop | src/utils/queue.h:44-56 | Takes the front chunk, or nothing. |
| ChunkQueue.Deque.Unpop | src/utils/queue.h:58-62 | Puts a chunk back in front. |
| ChunkQueue.Recv | src/utils/tcp-helpers.cpp:32-60 | Bytes returned followed by the flattened queue equal the old queue followed by what was pushed, empty chunks included; exactly n bytes unless stopped. |
| VncCommands.VncSession.Handle | src/vnc_server.cpp:543-693 | One state of the command loop on the bytes it asked for. |
| VncCommands.VncSession.Process | src/vnc_server.cpp:425-694 | However the stream is chunked, the session is where the machine on the plain stream is. |
| VncCommands.ReadEncodings | src/vnc_server.cpp:676-682 | The encodings loop reads every 32-bit value. |
| VncCommands.OneMessage | src/vnc_server.cpp:555-693 | Any client message takes the machine from command to command with its effect and nothing else. |
| VncCommands.Framing | src/vnc_server.cpp:543-693 | After any messages the machine waits for a command with exactly the following bytes unread, if and only if all update requests could be answered; otherwise it ended behind the first that could not. |
| VncCommands.OtherCommandEnds | src/vnc_server.cpp:633-636 | Any other command ends the loop. |
| VncCommands.NotAtBoundary | src/vnc_server.cpp:555-693 | Inside a message it never waits for a command. |
| VncCommands.ChunksDoNotMatter | src/vnc_server.cpp:561-689 | When all bytes are read and all update requests answered, nothing is half read, and encodings and depth are those last set; an answer that cannot be sent ends the session there. |
| Hextile.Differs | src/vnc_server.cpp:192-214 | The scan finds a second colour exactly if there is one. |
| Hextile.RawTile | src/vnc_server.cpp:216-232 | All 256 pixels in order. |
| Hextile.EncodeHextile | src/vnc_server.cpp:188-240 | From the bytes of the frame buffer: the tiles in order, solid exactly for uniform ones. |
| Hextile.TileRoundTrip | src/vnc_server.cpp:216-237 | Decoding one tile gives its pixels, whatever background came before and whatever follows. |
| Hextile.HextileDecodes | src/vnc_server.cpp:188-240 | For every frame buffer, supported depth and pixel the decoder returns a pixel that shows the colour of its three bytes, or their top 3, 3 and 2 bits at depth 8. |
| Hextile.PixelShown | src/vnc_server.cpp:172-185 | encode_pixel puts blue, green and red where a little-endian client with shifts 16, 8 and 0 looks for them, and the top bits at depth 8. |
| Hextile.AnnouncedFormat | src/vnc_server.cpp:507-518 | What a client sees that goes by the announced big-endian format, and exactly for which colours that is right. |
| Hextile.SolidIffUniform | src/vnc_server.cpp:216-237 | A tile takes one pixel if and only if it has one colour, otherwise 256. |
| Hextile.ExactColour | src/vnc_server.cpp:174-179 | At 24 and 32 bits the wire form determines the colour. |
| Hextile.ColourClass | src/vnc_server.cpp:180-184 | At 8 bits it determines exactly the top 3, 3 and 2 bits. |
| Hextile.OnlySupportedDepthsCarryColour | src/vnc_server.cpp:172-185 | Solid tiles can be told apart if and only if the depth is 8, 24 or 32. |

## Left out

- TCP liveness and retransmission timing: there is no retransmission timer, and the plain comparison of acknowledgement numbers stalls at the wrap; only safety is claimed.
- The TCP meta interface (opening and closing client sessions by request) and the session cleaner: the closing FIN of an erased session is not part of the model.
- TcpNetwork.StreamSafety: does not cover runs in which the acknowledgement of taken data cannot be queued, because there bytes are delivered twice (`TcpStream.RepeatTakenIffUnacked` gives the exact condition).
- TcpNetwork.StreamSafety: does not cover a SYN/ACK that reaches a client twice, because it breaks the numbering (`TcpStream.SynAckShiftsIff` gives the exact condition), nor a SYN for a session that has sent and received its FIN, which is released.
- TcpStream.ReceiverAlways: stops at the first FIN, because a FIN is counted without looking at its place (`TcpStream.FinCountsRightIff` gives the exact condition; `TcpNetwork.StreamSafety` does cover FINs).
- Sequence number of `tcp_data`, peer window and timestamps: written but never read by the modelled steps.
- Session and datagram identifiers are taken to be distinct for distinct sessions and datagrams; SipHash itself is not modelled.
- Ip4Reassembly.FragmentStore.IsComplete: takes equal offsets in one fixed order, because std::sort leaves it open; `Ip4Reassembly.AnySortAgreesIff` says exactly when the order decides the verdict.
- Ip4Fragmenter.FragmentLoop: MTUs below 28, with which the loop makes no progress, and above 65535, with which the 16-bit total length can overflow, are not modelled; nor is the five-second timeout of the fragment store.
- ResolveTable.ExactlyOnePlace: dispatched means that the datagram left the table towards the link; a datagram from an unmapped sender, or one the link queue refuses, is released in the same way without being sent. The record of an expired datagram is not freed by the code; the model drops it.
- SynCookie.ScanSeesOptions: options behind an end-of-list byte, which the code would still read, are not well formed and not covered.
- ShmSenders.QueueAlways: holds until the 64-bit message counter comes round.
- Condition variables, time-outs, mutex repair and the mapping of shared memory: waiting is modelled as releasing the lock and trying again later.
- Icmp.BuildError: unwrapping trusts the lengths in the envelope, as the code does.
- VncCommands.VncSession.Process: starts after the handshake; answers to update requests are recorded, not built. Cut text of 2^31 bytes or more, whose length is negative in the code, ends the model.
- Hextile.EncodeHextile: the output buffer grows as needed; its size in the code is not modelled.
- Memory ownership, allocation sizes, logging, configuration, threads and signals; the raw, zlib and JPEG encodings; ARP, UDP, HTTP, Gopher, NTP and the device processes; address parsing and string splitting.
