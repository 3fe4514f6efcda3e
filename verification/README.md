# Verification of the serial link, the pool allocator, select and the resolver

This project models the most intricate code of an ESP8266 firmware in Dafny and
proves it correct against what the repository's comments, headers and standards
promise. It has three parts.

**The serial link** (`user_main/`). A message is a type byte, data and a
checksum; it is stuffed so that it holds no zero byte and ends in one (COBS), put
into a ring of 32 slots by any of several contexts, carried by one task into the
UART's FIFO of 126 bytes, and on the other side taken apart byte by byte. The main
theorem, `Link.EndToEnd`, composes everything: for every interleaving of senders,
task, interrupt handler and FIFO that puts no buffer into a full ring whose write
counter has wrapped (the guard explained below), the receiver dispatches the first
of the committed packets, in commit order, each once, without counting an error,
and all of them once ring and FIFO are empty; and `Link.ArrivesInTheEnd` says that
the parties always come to that point.

- `Crc16Tables`, `Crc16`, `Crc16Dual`, `Crc16Detect`, `Crc16Start`: the table-driven
  checksums equal bit-serial division; the two are mirror images of each other;
  every error burst of up to 16 bits is detected, at any length; where they start.
- `Cobs`, `CobsCodec`, `CobsDecoder`: what a frame means, the encoder with its
  back-patched length bytes, the decoder as a state machine on arbitrary input.
- `Message`, `Receiver`: bodies, their judgement, and `struct decoder` as a class.
- `TxRing`, `TxProtocol`, `TxOwnership`, `TxConservation`, `TxSafety`, `TxRuns`:
  the transmit side as a state machine whose steps are the locked sections and
  register accesses, its invariant, and theorems about whole runs. The invariant
  is kept by every step but one (`TxSafety.InvKeptExactly`): the source tests for a
  full ring with a difference of two 16-bit counters that was promoted to `int`, so
  a full ring whose write counter has wrapped is taken for one with room.
  Runs of fewer than 65536 packets never get there (`TxRuns.EarlyRunsAreGuarded`).
- `TxProgress`: with a decreasing measure, everything committed is sent in the end.
- `TxOverwrite`: a run of 65563 small packets that does get there, and after which
  the receiver has dispatched what is no beginning of the committed packets.
- `Transmitter`: `struct transmitter` as a class; each method is proved to be a run
  of that state machine.
- `Link`: the composition.

**Two kernels of lwIP** (`lwip/core/memp.c`, `lwip/api/sockets.c`).

- `Lists`, `MempLayout`, `Memp`: the pool allocator with its tortoise-and-hare
  sanity check, which is proved to be a correct cycle detector on arbitrary links,
  and therefore to find exactly the frees of a block that is on that list already.
- `SelectProtocol`, `SelectSafety`, `SelectList`: `lwip_select` against
  `event_callback` at the granularity of the lock: no lost wake-up, one signal at
  most and only with reason, exact waiter counts, no stale list node.
- `Stream`: `lwip_recvfrom`, which loses, repeats and reorders nothing, and returns
  what it can get.

**The resolver** (`lwip/core/dns.c`). `DnsEntry` has the exact deadline of an
unanswered request, `DnsTable` the promise that every accepted request is called
back exactly once, `DnsNames` the encoding of names, skipping and comparing them.

Integers that wrap in the source wrap here: the ring's counters, `size_t`
arithmetic, error counters, `s16_t rcvevent`, the 8-bit fields and the 32-bit time
to live of resolver entries, the 8-bit label length. The model takes its sections
between lock and unlock, and single register accesses, as atomic.

Where code and documentation disagree the model follows the code:
`user_main/message.h:32` names the XModem checksum with initial value 0, but
`comm_send` and the receiver use `crc16_block`, the reflected polynomial with
initial value 0xFFFF (the step and table of appendix C.2 of RFC 1662, without the
final complement); and `COBS_ENCODED_MAX_SIZE(0)` is 1 where the encoder writes 2
bytes, so the bound holds exactly for messages of at least one byte
(`Cobs.EncodeBound`). `dns_compare_name` is meant to tell names apart; it compares
an encoded name up to that name's own end, so it accepts a proper beginning of the
query, and with a name that has a dot where the query ends it reads on behind the
query's terminating zero (`DnsNames.CompareExactly`, `DnsNames.CompareLonger`).

## Model

| member | source | states |
|---|---|---|
| Crc16Tables.ReflectedTableIsSteps | user_main/crc16.c:30-64 | every entry of `crc16_tab` is its index after eight shifts with the reflected polynomial |
| Crc16Tables.CcittTableIsSteps | user_main/crc16.c:66-99 | every entry of `crc16_ccitt_tab` is its index, in the high byte, after eight shifts with the CCITT polynomial |
| Crc16Tables.StepsInjective | user_main/crc16.h:41-44 | bit steps lose nothing: different states stay different |
| Crc16.UpdateIsRun | user_main/crc16.h:41-44 | one table-driven update is dividing the byte's eight bits in one after the other, lowest first |
| Crc16Dual.CcittUpdateIsRun | user_main/crc16.h:46-50 | the same for the CCITT update, highest bit first |
| Crc16Detect.Crc16Block | user_main/crc16.c:101-109 | the loop over the buffer computes the bit-serial remainder of the first `len` bytes from 0xFFFF |
| Crc16Detect.Crc16CcittBlock | user_main/crc16.c:111-119 | the loop computes the bit-serial CCITT remainder of the first `len` bytes from 0 |
| Crc16Dual.MirrorRun | user_main/crc16.h:41-50 | feeding bits to the one register is feeding them to the reversed other one |
| Crc16Dual.Duality | user_main/crc16.c:101-119 | the two checksums agree up to reversing the bits of every byte, of the initial state and of the result |
| Crc16Detect.RunInjective | user_main/crc16.h:41-44 | different states stay different whatever bits follow |
| Crc16Detect.WindowInjective | user_main/crc16.h:41-44 | from one state, different runs of 16 bits lead to different states |
| Crc16Detect.BurstDetected | user_main/crc16.c:101-109 | two messages of one length that differ only inside 16 consecutive bits never have the same checksum, at any length |
| Crc16Detect.ResidueZero | user_main/comm.c:214-216 | comparing a checksum with two trailer bytes succeeds if and only if the checksum over message and trailer is 0 |
| Crc16Detect.LittleEndianRoundTrip | user_main/comm.c:346-348 | the two bytes the sender stores are the word the receiver loads |
| Crc16Start.StartComplements | user_main/crc16.c:104 | the start value: the checksum of two bytes or more is the remainder, from an empty register, of the message with its first sixteen bits complemented |
| Crc16Start.CcittStartsEmpty | user_main/crc16.c:114 | the CCITT checksum is the remainder, from an empty register, of the message as it is |
| Crc16Start.CheckValues | user_main/crc16.c:101-119 | the checksums of "123456789": 0x6F91 and 0x31C3 |
| Cobs.OneZero | user_main/cobs.c:6-52 | an encoding holds exactly one zero byte, the last |
| Cobs.EncodeBound | user_main/cobs.h:11 | the encoding is at most `COBS_ENCODED_MAX_SIZE` long if and only if the message is not empty; the bound is reached by messages without zero |
| Cobs.UnstuffStuff | user_main/cobs.c:6-52 | the blocks of an encoding mean the message |
| Cobs.EncodeInjective | user_main/cobs.c:6-52 | different messages have different encodings |
| Cobs.AcceptedIsSpelling | user_main/cobs.c:84-99 | an accepted frame is its message's encoding, possibly with one more block 0x01 behind a full last block |
| Cobs.SpellingsExact | user_main/cobs.c:26-45 | which frames mean a message, both directions: the encoding, and the encoding with a block 0x01 behind it exactly if it ends in a full block |
| Cobs.DocumentedExample | user_main/message.h:22-23 | the documented example of a payload and its frame |
| CobsCodec.Encode | user_main/cobs.c:6-52 | the back-patching loop writes exactly the encoding, returns its length, never takes its error return, never wraps the 8-bit block length and touches nothing behind the encoding |
| CobsDecoder.RunConcat | user_main/cobs.c:66-106 | decoding a stream in two parts is decoding it at once |
| CobsDecoder.FrameOutcome | user_main/cobs.c:66-106 | what any frame delivers: its message if it is complete and fits the buffer, otherwise nothing; afterwards the decoder is idle |
| CobsDecoder.RoundTrip | user_main/cobs.c:66-106 | the encoding of a message that fits makes exactly one callback with exactly the message, full blocks included |
| CobsDecoder.WireDelivers | user_main/cobs.c:73-103 | a row of frames, with stray zeros anywhere between them, delivers the messages in order |
| CobsDecoder.Resynchronises | user_main/cobs.c:73-103 | from any state and after any junk, one zero byte makes all following frames come through exactly |
| CobsDecoder.ShortRunsAreSafe | user_main/cobs.c:85-93 | if no stretch without zero is longer than the buffer plus one, the decoder never writes behind its buffer |
| CobsDecoder.LongerRunOverruns | user_main/cobs.c:85-93 | that limit cannot be raised: one byte more can put an implied zero behind the buffer |
| CobsDecoder.SafeExactly | user_main/cobs.c:85-93 | exactly which frames, received from idle, stay inside the buffer |
| CobsDecoder.SafeKeepsValid | user_main/cobs.c:66-106 | the decoder's index and counters stay in range while the stream is safe |
| Message.JudgeBody | user_main/comm.c:202-223 | the receiver accepts a body `comm_send` builds and recovers type and data |
| Message.BodyLayout | user_main/comm.c:338-350 | type first, then the data, then two bytes that make the checksum over all of it 0 |
| Message.JudgeIsResidue | user_main/comm.c:209-222 | a body is accepted if and only if it has three bytes or more and checksum 0 over all of it; its first byte is then the type and all but the last two others the data |
| Message.BurstRejected | user_main/comm.c:214-219 | damage inside 16 consecutive bits of an accepted body, trailer included, is a checksum error |
| Message.BodiesAccepted | user_main/comm.c:202-223 | bodies of the sender are accepted in order without an error |
| Message.BuildBody | user_main/comm.c:338-350 | the buffer `comm_send` fills in place is type, data and checksum, low byte first |
| Receiver.Decoder.constructor | user_main/comm.c:225-235 | the decoder starts idle with cleared counters and room for the longest encoded message |
| Receiver.Decoder.CheckAndDispatch | user_main/comm.c:202-223 | fewer than three bytes count a protocol error, another residue than 0 a checksum error, and everything else calls the callback, if there is one, with type and data |
| Receiver.Decoder.PutByte | user_main/cobs.c:66-106 | the fields after one byte are the next state of the decoder machine, and the outputs those of what it delivers |
| Receiver.Decoder.Put | user_main/comm.c:237-241 | a chunk is the run of its bytes |
| Receiver.Decoder.DoRx | user_main/comm.c:243-265 | however the bytes come in, pieces of 64 at most decode to the same as the whole stream |
| TxRing.PushAppends | user_main/comm.c:129-132 | storing at the write counter and counting it up appends to the queue, counted modulo 65536 |
| TxRing.PopRemoves | user_main/comm.c:162-176 | counting the read counter up removes the oldest buffer |
| TxRing.LiteralUsedAgrees | user_main/comm.c:92 | the literal difference is the number of filled slots if and only if write >= read |
| TxRing.LiteralFullAgrees | user_main/comm.c:123 | the literal test finds a full ring if and only if the ring is not full with only the write counter wrapped |
| TxRing.WrappedFullLosesOldest | user_main/comm.c:123-132 | in that state the push goes through: the new buffer stands in the oldest one's place and once more at the end |
| TxRing.WrappedFullReached | user_main/comm.c:123-132 | pushes and pops lead from two zero counters to that state |
| TxProtocol.TokensKept | user_main/comm.c:69-83 | every step keeps `task_pending` worth exactly one DO_TX, and exactly one of RX interrupt, DO_RX and its handling |
| TxProtocol.QueueBound | user_main/comm.c:313-314 | at most one DO_TX and one DO_RX are queued, and three slots suffice with the running event counted |
| TxProtocol.PostsFindRoom | user_main/comm.c:78-81 | no event is ever lost for want of room |
| TxProtocol.FifoFitsKept | user_main/comm.c:151-170 | the FIFO never holds more than 126 bytes, `126 - fifo_cnt` never underflows, and the task never writes more than there is room |
| TxOwnership.OwnershipKeptPush | user_main/comm.c:109-139 | allocated buffers are in exactly one place and every other one was freed exactly once, kept by the pushing contexts, also those that fail the locked test |
| TxOwnership.OwnershipKeptTask | user_main/comm.c:161-180 | the same for the task that frees what it has sent |
| TxConservation.SendingKeptPush | user_main/comm.c:121-133 | wire ++ FIFO ++ rest of the head buffer ++ other slots stay the committed frames in order: the pushing contexts |
| TxConservation.SendingKeptTask | user_main/comm.c:145-180 | the same for every step of the task, with `idx_in_buf` as the position in the head buffer |
| TxSafety.WakeUpKept | user_main/comm.c:69-83 | a ring that is not empty always has a DO_TX, a running task, an enabled TX interrupt or a context on its way to wake the task |
| TxSafety.NoUseAfterFree | user_main/comm.c:161-180 | no step touches a freed buffer, and only allocated ones are freed |
| TxSafety.InvKeptExactly | user_main/comm.c:58-185 | every step keeps the whole invariant, if and only if it does not put a buffer into a full ring whose write counter has wrapped |
| TxSafety.InitInv | user_main/comm.c:316-325 | the invariant holds after `comm_init` |
| TxRuns.Reachable | user_main/comm.c:58-185 | the invariant holds in every state a guarded run reaches |
| TxRuns.EarlyRunsAreGuarded | user_main/comm.c:47-48 | runs that commit fewer than 65536 packets need no guard |
| TxRuns.WireIsPrefix | user_main/comm.c:167-170 | what was sent is a beginning of the leading zero and the committed frames |
| TxRuns.QuiescentMeansDone | user_main/comm.c:69-185 | when nothing can move any more, nothing was forgotten and nothing leaked: the ring is empty and every buffer is freed |
| TxProgress.SomeoneMoves | user_main/comm.c:69-185 | while anything is left to do some party can move, and a measure of contexts, bytes, buffers and steps decreases |
| TxProgress.Settles | user_main/comm.c:69-185 | from every state of the invariant a guarded run without a new packet comes to rest with the FIFO empty, whatever the unlocked tests and allocations yield |
| TxProgress.SettledMeansSent | user_main/comm.c:69-185 | there everything committed is on the wire and every buffer freed |
| TxOverwrite.OverwriteReached | user_main/comm.c:121-132 | a run from `comm_init` that comes to the step that overwrites the oldest unsent buffer, which is then in no slot and never freed |
| TxOverwrite.LinkBreaks | user_main/comm.c:121-132 | a run without the guard after which the dispatched packets are no beginning of the committed ones: the newest takes the place of the oldest |
| Transmitter.AdmitsExactly | user_main/comm.c:91-107 | exactly when the unlocked test admits a packet of each priority, in heap bytes and used slots; after the write counter has wrapped alone it looks at the heap only |
| Transmitter.Transmitter.constructor | user_main/comm.c:316-325 | the initial state of the protocol |
| Transmitter.Transmitter.WakeTask | user_main/comm.c:69-83 | posts one DO_TX unless one is pending |
| Transmitter.Transmitter.Precheck | user_main/comm.c:91-107 | the unlocked test as specified |
| Transmitter.EncodeIntoNew | user_main/comm.c:109-119 | the frame is the encoding and the guard byte behind it survives |
| Transmitter.Transmitter.Prepare | user_main/comm.c:88-119 | `comm_send` up to the lock is a run of the protocol; it ends with the encoded packet in hand or, dropped or out of memory, with nothing changed |
| Transmitter.Transmitter.Commit | user_main/comm.c:121-139 | the locked section and the wake-up: the whole new state in both outcomes, and a run of the protocol unless the ring is full and wrapped |
| Transmitter.Transmitter.CopyBytes | user_main/comm.c:167-170 | the inner loop stops at the end of the buffer or with the FIFO full |
| Transmitter.Transmitter.Send | user_main/comm.c:145-185 | FIFO ++ unsent stays the same byte string, the FIFO is full or the ring empty afterwards, and the TX interrupt is enabled exactly when there is more to send or the FIFO was full; a run of the protocol |
| Transmitter.Transmitter.Handler | user_main/comm.c:281-299 | which interrupts are disabled and which events posted, none of them lost; a run of the protocol |
| Transmitter.Transmitter.CommTask | user_main/comm.c:270-278 | the next event is handled to its end; a run of the protocol |
| Link.EndToEnd | user_main/comm.c:88-185 | for every guarded run the emitted bytes make the receiver dispatch a prefix of the committed packets, in order, without errors, and all of them once ring and FIFO are empty |
| Link.EndToEndEarly | user_main/comm.c:88-185 | the same, buffer safety and error counters included, without a guard for runs of fewer than 65536 packets; at rest with an empty FIFO all of them |
| Link.ArrivesInTheEnd | user_main/comm.c:69-185 | every guarded run can be continued, without a new packet, until the receiver has dispatched all committed packets |
| Link.EndToEndReached | user_main/comm.c:88-185 | the same for every state a `Transmitter` comes to |
| Link.WholeWire | user_main/comm.c:323 | the leading zero brings a receiver in any state into step; what follows comes through |
| Link.Listen | user_main/comm.c:202-265 | the receiver's code, fed the bytes in any pieces, dispatches those packets |
| Lists.Meet | lwip/core/memp.c:192-199 | on a walk that does not end, tortoise and hare meet within as many steps as there are cells |
| Lists.NoCycleMeansEnds | lwip/core/memp.c:192-199 | a walk has a cycle if and only if it has not ended after as many steps as there are cells |
| Lists.FindsCycle | lwip/core/memp.c:191-200 | the two-pointer loop terminates and finds a cycle if and only if there is one, on arbitrary links |
| MempLayout.ElementsDisjoint | lwip/core/memp.c:363-369 | two elements of any pools never overlap |
| MempLayout.PoolsInMemory | lwip/core/memp.c:172-176 | every element lies inside `memp_memory`, wherever that is |
| MempLayout.ElementInPool | lwip/core/memp.c:363-369 | every element lies inside its pool, on an aligned address |
| Memp.Pools.constructor | lwip/core/memp.c:340-378 | after `memp_init` every list is in order and nothing is handed out |
| Memp.Pools.Carve | lwip/core/memp.c:361-370 | one pool's elements become its list, and nothing else changes |
| Memp.Pools.Malloc | lwip/core/memp.c:391-429 | NULL if and only if the type is out of range or all elements are handed out; otherwise an aligned element of that pool that was not |
| Memp.Pools.Sanity | lwip/core/memp.c:184-202 | 1 if and only if no pool's list has a cycle |
| Memp.Pools.Free | lwip/core/memp.c:437-471 | the sanity assertion fails if and only if the block was on that list already; a legal free gives the block back and changes nothing else |
| Memp.Pools.Write | lwip/core/memp.c:110-111 | the user of an element may overwrite its `next` pointer |
| Memp.AfterFree | lwip/core/memp.c:463-468 | what a free does to every pool's list, also when the block belongs elsewhere |
| Memp.GoodIsSane | lwip/core/memp.c:184-202 | lists in order pass the check |
| SelectSafety.InvKept | lwip/api/sockets.c:1119-1342 | every locked section of every select and every callback keeps the invariant |
| SelectSafety.SleepsOnlyWithReason | lwip/api/sockets.c:1148-1165 | after any run, while a select is blocked and a socket of its sets has data to read, room to write or an error, as it asked, a callback is under way that comes to it |
| SelectSafety.WalkApproaches | lwip/api/sockets.c:1304-1341 | every step of that callback signals the select or brings it nearer |
| SelectSafety.WokenInTheEnd | lwip/api/sockets.c:1304-1341 | left to itself that callback does signal the select, if the condition persists |
| SelectSafety.SignalledForReason | lwip/api/sockets.c:1307-1331 | the converse: a select is signalled only by a callback whose socket has what it asked for |
| SelectSafety.EventFlags | lwip/api/sockets.c:1271-1290 | what each event does to the flags of its socket |
| SelectSafety.ScanLooks | lwip/api/sockets.c:1023-1057 | what the second scan counts as ready |
| SelectSafety.BlocksExactly | lwip/api/sockets.c:1148-1165 | a select blocks if and only if its second scan came to the end and saw nothing |
| SelectSafety.SignalledAtMostOnce | lwip/api/sockets.c:1325-1330 | no select is signalled twice |
| SelectSafety.WaitingAsserted | lwip/api/sockets.c:1141-1178 | the assertions about `select_waiting` hold |
| SelectSafety.CountedAdvance | lwip/api/sockets.c:1135-1178 | `select_waiting` stays the number of registered selects |
| SelectSafety.NoStaleNode | lwip/api/sockets.c:1333-1340 | with the counter unchanged the node a callback stands at is on the list, so no unlinked node is followed |
| SelectSafety.ArriveCovers | lwip/api/sockets.c:1304-1330 | a callback that comes to the list at or before a waiting select signals it or will come to it |
| SelectList.Selects.Enlist | lwip/api/sockets.c:1119-1132 | the doubly linked list with the new node on top |
| SelectList.Selects.Unlink | lwip/api/sockets.c:1180-1193 | the list without the node, wherever it is |
| SelectList.Selects.Onward | lwip/api/sockets.c:1333-1341 | the next node, or the first if the list has changed |
| SelectList.Selects.Look | lwip/api/sockets.c:1306-1331 | one node is signalled, once, if and only if it was not and the socket has data, room or an error that it asked for |
| SelectList.Selects.Join | lwip/api/sockets.c:1119-1132 | joining the list is the select's step in the protocol |
| SelectList.Selects.Leave | lwip/api/sockets.c:1180-1193 | leaving it is |
| SelectList.Selects.Begin | lwip/api/sockets.c:1269-1334 | the first locked section of a callback is its step in the protocol |
| SelectList.Selects.WalkOn | lwip/api/sockets.c:1304-1341 | so is every later one, from the node it stood at to the node it comes to |
| SelectList.UnlinkRemoves | lwip/api/sockets.c:1180-1193 | unlinking a node removes its number from the protocol's list |
| SelectList.SelScan | lwip/api/sockets.c:1008-1065 | exactly the ready descriptors of each set, and their number |
| Stream.Socket.RecvTcp | lwip/api/sockets.c:568-731 | what is returned is the beginning of the unread stream, the rest is kept, all of it when peeking, and the credit is what was returned; exactly how much comes back: it goes on from piece to piece while there is room, no push flag, more announced, no peeking and no refusal; -1 or 0 exactly if the first attempt is refused or finds nothing, 0 for a closed connection |
| Stream.Socket.RecvDatagram | lwip/api/sockets.c:568-731 | one datagram, cut off at the length; nothing, and -1, or 0 for a closed connection, exactly if the attempt is refused or there is none |
| Stream.Socket.ReadMany | lwip/api/sockets.c:568-731 | any sequence of reads returns a beginning of the stream and credits exactly that |
| Stream.Socket.ReadAll | lwip/api/sockets.c:568-731 | if no attempt is refused, as many reads as there are bytes return all of them |
| DnsEntry.CheckCounts | lwip/core/dns.c:661-692 | every check of a waiting request takes one off the checks and queries left, the last gives it up and calls back |
| DnsEntry.Deadline | lwip/core/dns.c:645-692 | with k servers in a row an unanswered request leaves ASKING at exactly the 7k-th check after its first query, having sent three more queries to each of the servers 0 to k - 1, in this order |
| DnsEntry.Schedule | lwip/core/dns.c:661-692 | which checks send a query and to which server: those 1, 2 and 4 checks into each server's seven; the callback is called at the last one only |
| DnsEntry.CheckKeeps | lwip/core/dns.c:635-712 | what a check leaves alone |
| DnsEntry.StaysFor | lwip/core/dns.c:695-704 | a completed entry stays exactly its time to live in checks, 2^32 checks if that is 0 |
| DnsTable.FairKeeps | lwip/core/dns.c:661-704 | leaving ASKING with one call keeps every accepted request either pending, once, or called back, once |
| DnsTable.AcceptKeeps | lwip/core/dns.c:900-905 | so does a new request in an unused or completed entry |
| DnsTable.CalledExactlyOnce | lwip/core/dns.c:661-843 | every accepted request has been called back exactly once or is still pending and has not been |
| DnsTable.ReceiveExactly | lwip/core/dns.c:768-843 | on the fields of a response: an asking entry gets the first address, for a week at most, if and only if it is a response without error to one question of that name and there is such an answer; otherwise it is given up |
| DnsTable.Resolver.Examine | lwip/core/dns.c:643-711 | the nested branches on state, timer and retries do what the deadline is proved of |
| DnsTable.Resolver.CheckEntry | lwip/core/dns.c:635-712 | the entry, the queries and the calls after one check |
| DnsTable.Resolver.CheckEntries | lwip/core/dns.c:717-725 | the timer checks every entry once; the callbacks called and the queries sent, in table order |
| DnsTable.Resolver.Recv | lwip/core/dns.c:732-849 | a response of 26 to 512 bytes goes to the entry its number names, and does there what `DnsTable.ReceiveExactly` says; any other changes nothing |
| DnsTable.Resolver.Pick | lwip/core/dns.c:867-895 | which entry a request takes: the first unused, else the completed one of greatest age; when none |
| DnsTable.Resolver.Enqueue | lwip/core/dns.c:859-914 | the first unused or else the oldest completed entry becomes ASKING with its first query sent, its name cut at 255 bytes; exactly when none is found nothing changes |
| DnsNames.HoldsLabel | lwip/core/dns.c:590-602 | what stands at the beginning of an encoded name |
| DnsNames.EncodeLabel | lwip/core/dns.c:593-600 | one label behind its length, 8 bits wide |
| DnsNames.EncodeInto | lwip/core/dns.c:587-602 | the loop writes the encoded name, its length plus two bytes, and nothing else |
| DnsNames.SkipsEncoding | lwip/core/dns.c:527-548 | skipping an encoded name ends just behind it, whatever follows |
| DnsNames.SkipsCompressed | lwip/core/dns.c:527-548 | skipping labels and a pointer ends behind the pointer's second byte |
| DnsNames.PointerAlone | lwip/core/dns.c:497-548 | a pointer alone is skipped with its second byte and compares as equal |
| DnsNames.ParseName | lwip/core/dns.c:527-548 | the loop skips as specified |
| DnsNames.CompareExactly | lwip/core/dns.c:492-518 | an encoded name no longer than the query is accepted if and only if the two agree at every position without a dot |
| DnsNames.ComparesCompressed | lwip/core/dns.c:492-518 | labels with a pointer behind them are accepted if and only if the labels agree with the query as far as they go |
| DnsNames.AcceptsOwn | lwip/core/dns.c:492-518 | a name is accepted in its own encoding |
| DnsNames.AcceptsBeginning | lwip/core/dns.c:492-518 | so is every proper beginning of the query |
| DnsNames.CompareLonger | lwip/core/dns.c:492-518 | an encoded name longer than the query is turned down, unless it agrees that far and has a dot where the query's zero is: then, and only then, the comparison reads on behind the query |
| DnsNames.LongerAccepted | lwip/core/dns.c:492-518 | the query "a" and the name "a.b": it does so, and accepts if a 'b' of an older name is left there |
| DnsNames.CompareName | lwip/core/dns.c:492-518 | the loop compares as specified |

## Left out

- UART registers, baud rate and interrupt attachment: the FIFO is a byte string that drains at any time, interrupts are steps that come at any time, and every register set or clear is one step.
- The heap: `os_malloc` succeeds or fails and the free heap has any size, at any call. A buffer in the model holds the frame; the room the allocation has behind it is only shown not to be written.
- `dropped_packets` across contexts: it is updated without the lock, so no count over interleaved contexts is claimed; the methods state what one undisturbed context does to it.
- Transmitter.Transmitter.Prepare: executes in one piece; the interleavings of its unlocked parts are in `TxProtocol`, of which it is shown to be a run.
- Transmitter.Transmitter.Commit: when the ring is full and wrapped it states the new state, not the invariant, which that state breaks.
- Receiver.Decoder.PutByte: requires that the implied zero does not land behind the buffer; the source writes it without a test, and what it overwrites then is not modelled.
- Receiver.Decoder.Put: requires that no implied zero lands behind the buffer, which the source does not test (`CobsDecoder.SafeExactly` says for which frames it does not); the callback is recorded, not called.
- Receiver.Decoder.DoRx: requires the same of all bytes that arrive; the UART's receive FIFO has no size limit, and bytes are not lost in it.
- `user_main.c`, `comm_send_ctl`, `comm_get_stats` and `comm_set_loglevel`: glue and accessors.
- `memp.c` with MEMP_MEM_MALLOC, MEMP_OVERFLOW_CHECK or MEMP_SEPARATE_POOLS, and the statistics.
- Memp.Pools.Free: the block is an element of some pool, as the source expects; foreign pointers are not modelled.
- MempLayout.AlignUp: rounds up to any alignment by division; the source's mask does so for powers of two.
- SelectSafety.SleepsOnlyWithReason: sockets are not closed while selected on, `select_cb_ctr` does not wrap, and readiness through `lastdata` set by another thread does not wake a select, in the source neither. Events before an accepted connection has its socket number are not modelled.
- SelectList.Selects.WalkOn: the loop of `event_callback` is given as its locked sections; their interleaving is in `SelectProtocol`.
- Stream.Socket.RecvTcp: addresses and `errno` are left out; the values of `rcvevent` whenever it is read, and the errors of the netconn's receive calls, are inputs, any functions of the number of the attempt.
- DnsTable.Resolver.Recv: a response comes as its fields; names in it are `DnsNames`, the header's byte order is not modelled, and callbacks do not call back into the resolver.
- DnsTable.Resolver.Pick: which entry is the oldest once the 8-bit sequence number has wrapped is stated as the source computes it, not as an age in time.
- DnsNames.ParseName: the name ends inside the buffer; the source has no such test. The root name is read as a label of length 0 followed by more, as the source does.
- DnsNames.CompareName: the comparison stays inside the bytes given for the query and the response (`DnsNames.CompareLonger` says when it leaves a query that ends in its zero byte); the source reads on.
- DnsNames.EncodeInto: the buffer has room for the name's length plus two bytes.
- The DNS local host list, `dns_gethostbyname` and the UDP side of `dns_send`.
- `espconn*.c`, `netio.c`, `ping.c`, `netdb.c`, `netifapi.c`, `api_lib.c`, `api_msg.c`: callback wiring over TCP internals that are not part of the repository.
- `lwip/app/dhcpserver.c`: option filling, and a lease scan whose uniqueness is not an invariant of its code.
