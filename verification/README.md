# SEGS protocol and game-rule proofs

A Dafny model of the parts of SEGS, a game server, in which most can go wrong: the reliable protocol over UDP with the bit
stream it is written in, the codec of the authentication link, the hash index for part names, inventories and trades, and
the consumption of resent input changes. Each object whose methods change fields in the source is a class here, with methods
in the same order of steps; each method is proved equal to a specification function on values, and the theorems are about
those functions, over all inputs, runs and reachable states.

Run `dafny verify dfyconfig.toml` to check everything.

## Files

- `Bits`, `WordAccess`, `PackedCode`, `BitStream`, `Fields`: bits, 64-bit words and bytes; packed integers; the growing bit
  buffer; whole messages.
- `Checksum`, `Acks`, `Packets`, `Frame`, `FrameStreams`: the datagram as a function of a packet and the pending acks, its
  parser, and both as stream operations. `Layout` writes out what is on the wire, and `Damage` which altered datagrams are
  rejected.
- `Siblings`, `Reassembly`: splitting, merging, and fragments arriving in any order.
- `Endpoint`, `HeldPackets`, `Protocol`, `Link`: one side of a link as a value; the protocol object with its queues and the
  ownership of every allocated packet; the driver that fixes the order of calls.
- `Network`, `SendProofs`, `BatchProofs`, `ReceiveProofs`, `NetworkSafety`: two endpoints over a network of datagrams, the
  invariant, and what holds in every run.
- `Delivery`, `LosslessRuns`, `Legibility`, `LinkRuns`: when packets are handed up, runs in which everything queued arrives,
  which runs are legible, and two link objects driven through a run.
- `Retransmits`, `AckRuns`: what every batch must send, the recovery of a lost one, and that no ack is dropped.
- `Des`, `DesKeys`, `DesTables`, `AuthCodec`, `CodingOrder`: the block cipher, its key schedule and tables, the rolling XOR,
  and the orders in which both are used. `DesStandard`, `DesBoxes` and
  `DesConforms` show that the cipher is the one of FIPS 46-3.
- `StringTable`, `PartNames`: the rehashing index and names on the wire.
- `Inventory`, `Places`, `Draws`, `Trade`, `TradeProofs`: trays and grids, where things lie, which cells a list of offers
  takes, trading between two characters, and what its checks and updates come to.
- `ControlChanges`: numbered control-state changes.

## Reading the model

Bytes and 32-bit words are bounded naturals; wrap-around is written out with a modulo. Bits are `seq<bool>`, least
significant first, and a host is little-endian. Cipher words are 64-bit vectors, because `unsigned long` is 64 bits wide on
the servers' platforms; garbage above bit 31 is part of the model and is proved harmless. A packet is a value with the unread
contents of its stream; the protocol object also knows the allocation each packet lives in, and a ghost map says who owns
it. Times are inputs: the set of numbers whose resend period has passed, and whether the link is unresponsive.

Runs may send any payload. The compressed flag is not written for a whole payload that starts with the packed number 1, as
`ConnectRequest` and `MiniMapState` do, so that its datagram may be misread or fail an assertion. A run is legible if the
receivers can read its datagrams, and read exactly if they come back as sent; the run theorems are about legible runs.
`Legibility.SoundRuns` says which payloads make every run legible, `LegibleExactly` and `IllegibleCrashes` that the condition
is exact, and `MisreadAnswer` gives a run in which it fails.

Hash and upper-casing are any functions. The chain of hashes of a key may run into a cycle, so a table grows only under the
assumption that the chain of each key leaves any three quarters of the slots of the new size before it reaches zero. `Fill`
assumes this for the sizes up to a limit that depends on how many different names are inserted: the string table starts with
4096 slots and doubles when it is three quarters full. Lookups need no such assumption: `StringTables.FindPresent` holds in
every table, `FindAbsent` and `PartNames.PackUnpack` give exact conditions for the key at hand. `StringTables.ShortChain`
shows what the hypothesis rules out, and `CountingSpreads` that it can be met.

Where the code and what is said about it differ, the model follows the code:

- A large payload reports success whatever the queue took (`SendProofs.SilentDrop` gives the exact condition), so the
  delivery theorem is about payloads of which at least one packet was queued; one of which some parts are missing blocks
  itself and all later ones for good (`NetworkSafety.CutPayloadBlocks`).
- A packet that arrives out of turn is acked and dropped (`Deliveries.HandedUpExactly`), so eventual delivery is not claimed;
  `Protocols.CrudProtocol.RecvPacket` shows that its memory is not freed either.
- The compressed flag is read always but not written for a payload that starts with the packed number 1; `Frames.RoundTrip`
  gives the exact condition under which the receiver still understands it, and `Frames.FrameParses` what it sees otherwise.
- The comment on control-state ids says that they wrap to 0, but distances are corrected by 0xffff, one less than the number
  of ids; `ControlChanges.ConsumeExact` gives the exact condition for resends, `ControlChanges.GapNoticed` that for gaps.
- `packPartname` takes the slot written on a failed search for an index, and sends text without the terminator its reader
  looks for; `PartNames.TextWhen` and `PartNames.PackUnpack` give the exact conditions.
- `moveInspiration` lets a destination right at the maximum through; `Inventories.MovedStocks` gives the exact condition.
- `AuthPacketCodec::Decode` repeats the order of `Code`; `CodingOrder.RestoredAlways` shows that this works for all keys and
  buffers exactly where one of the two steps does nothing. The links use the reverse order.
- An offer of inspirations is taken cell by cell while the cells behind move up; `Draws.InTurn` and `Draws.TakenAsOffered`
  say when it is taken as offered, and `Trades.RoomSuffices` when nothing is lost although the room checks count the offers
  (`Trades.LosingOffer`).
- An update of a trade that names its own sender leaves the acceptance of the other member standing on changed terms
  (`Trades.SelfAddressed`, `Trades.DealWithOneself`); `Trades.ChangeClears` gives the exact condition.
- Beyond the last column `removeInspiration` and `moveInspiration` call each other until the rest of the column is empty.

## Model

| member | source | states |
|---|---|---|
| NetworkSafety.InOrderDelivery | Common/CRUDP_Protocol/CRUDP_Protocol.cpp:227-333 | in every run of two fresh endpoints over datagrams that may be dropped, repeated and reordered, and whose receivers can read the datagrams (LegibleRun), the payloads handed up on either side are a prefix of those queued on the other, in order and never twice; only a payload that starts with the packed number 1 may lack its first byte, and none does if all datagrams are read exactly |
| NetworkSafety.ExactDelivery | Common/CRUDP_Protocol/CRUDP_Protocol.cpp:227-333 | in every run whose datagrams are all read exactly, the payloads handed up are bit for bit those queued, in both directions |
| NetworkSafety.CutPayloadBlocks | Common/CRUDP_Protocol/CRUDP_Protocol.cpp:472-482 | in every legible run, a payload of which only some parts could be queued is never handed up, and neither is any later one; in both directions |
| NetworkSafety.NeverCrashes | Common/CRUDP_Protocol/CRUDP_Protocol.cpp:227-333 | in no state reached by a legible run has an assertion failed, those on sibling ids included, a slot been indexed out of range or the available queue held a packet between calls |
| NetworkSafety.NoAckWithoutReceipt | Common/CRUDP_Protocol/CRUDP_Protocol.cpp:227-242 | in every state reached by a legible run each reliable packet ever numbered on either side is still queued or unacknowledged there, or the other side has seen its number |
| NetworkSafety.HeldPacketsAscend | Common/CRUDP_Protocol/CRUDP_Protocol.cpp:528-539 | in every state reached by a legible run the unacknowledged packets followed by the queued ones are strictly increasing and bounded by the last number given out, on both sides |
| NetworkSafety.RunKeepsInv | Common/CRUDP_Protocol/CRUDP_Protocol.cpp:124-570 | every legible run of moves keeps the invariant of both directions: numbering, frames in flight, reassembly groups and acks |
| NetworkSafety.StepKeepsInv | Common/CRUDP_Protocol/CRUDP_Protocol.cpp:124-570 | one send, legible batch or received datagram keeps that invariant |
| NetworkSafety.FreshWorldOk | Common/CRUDP_Protocol/CRUDP_Protocol.h:66-86 | two new endpoints satisfy the invariant |
| Legibility.SoundRuns | Common/CRUDP_Protocol/CRUDP_Protocol.cpp:387-420 | whatever the network does, a run is legible if no whole payload that starts with the packed number 1 is shorter than a byte, and is read exactly if no whole payload starts with that number |
| Legibility.LegibleExactly | Common/CRUDP_Protocol/CRUDP_Protocol.cpp:124-162 | every datagram of a batch passes the assertions of its receiver if and only if the batch is legible |
| Legibility.IllegibleCrashes | Common/CRUDP_Protocol/CRUDP_Protocol.cpp:157-160 | a batch puts a datagram in flight that fails an assertion of its receiver if and only if it is not legible |
| Legibility.MisreadAnswer | Common/CRUDP_Protocol/CRUDP_Protocol.cpp:387-420 | a run of two fresh endpoints in which the second of three datagrams is lost and a payload starting with the packed number 1 answers: it crashes the receiver if and only if the payload has fewer than eight bits, and otherwise hands it up without its first byte |
| Legibility.ThreeBits | Common/Messages/Map/MapEvents.h:195 | the three bits of the packed number 1, all that MiniMapState sends, are such a payload |
| BatchProofs.AssertionHolds | Common/CRUDP_Protocol/CRUDP_Protocol.cpp:536-537 | the check that numbers ascend as packets join the unacknowledged ones never fails from a state of the invariant |
| BatchProofs.BatchKeepsInv | Common/CRUDP_Protocol/CRUDP_Protocol.cpp:507-543 | a legible batch keeps the invariant, and every datagram it adds carries a numbered packet and acks of numbers really seen |
| ReceiveProofs.ReceiveKeepsInv | Common/CRUDP_Protocol/CRUDP_Protocol.cpp:124-162 | any datagram in flight keeps the invariant when it is received, whether new, repeated or late |
| ReceiveProofs.Genuine | Common/CRUDP_Protocol/CRUDP_Protocol.cpp:124-162 | every datagram in flight parses to the packet it was made from, as Frames.Arriving describes it |
| ReceiveProofs.Receivable | Common/CRUDP_Protocol/CRUDP_Protocol.cpp:124-162 | any datagram in flight parses, its slot exists and completing its group loses nothing: what the protocol object asks for before it takes one |
| ReceiveProofs.ArrivalFits | Common/CRUDP_Protocol/CRUDP_Protocol.cpp:281-297 | an arriving part has a slot in the storage of its own group, and the sibling ids compared there agree |
| ReceiveProofs.UnackedAscending | Common/CRUDP_Protocol/CRUDP_Protocol.cpp:227-240 | dropping acknowledged packets keeps the rest in order |
| SendProofs.SendKeepsSender | Common/CRUDP_Protocol/CRUDP_Protocol.cpp:439-483 | sending any payload keeps the sender's numbering and the order of what it holds |
| SendProofs.QueuedPackets | Common/CRUDP_Protocol/CRUDP_Protocol.cpp:439-451 | of a list of packets exactly those that fit are queued, numbered one after the other, and nothing else of the endpoint changes |
| SendProofs.SilentDrop | Common/CRUDP_Protocol/CRUDP_Protocol.cpp:456-483 | the answer is yes for a large payload, and for any other exactly if its packet was queued; it means that every packet of the payload was queued if and only if the payload is not split or the queue has room for all of its parts |
| SendProofs.AscendsUnlessWrapped | Common/CRUDP_Protocol/CRUDP_Protocol.cpp:439-451 | queueing one more packet keeps the held numbers ascending if and only if the 32-bit number does not wrap or nothing is held |
| Deliveries.HandedUpExactly | Common/CRUDP_Protocol/CRUDP_Protocol.cpp:307-333 | a whole packet is handed up exactly if its number is the next one, which nothing is behind number 2^32 - 1; otherwise it is dropped, yet its number joins the pending acks |
| Deliveries.AckedIsForgotten | Common/CRUDP_Protocol/CRUDP_Protocol.cpp:336-356 | a packet whose number is acked leaves both the unacknowledged packets and the retransmit queue |
| Deliveries.DuplicateIgnored | Common/CRUDP_Protocol/CRUDP_Protocol.cpp:281-297 | a part whose slot is taken is dropped, whatever it holds, yet its number joins the pending acks |
| Deliveries.OneAtMost | Common/CRUDP_Protocol/CRUDP_Protocol.cpp:227-333 | from an empty available queue a push leaves at most one packet there and the following receive none |
| Deliveries.OneIsSound | Common/CRUDP_Protocol/CRUDP_Protocol.cpp:314-326 | with one available packet the duplicate loop never looks at the front of an empty queue and yields the next packet or nothing |
| Deliveries.TwoAreNot | Common/CRUDP_Protocol/CRUDP_Protocol.cpp:317-324 | with two, the loop looks at an empty queue exactly when the first is a duplicate |
| Deliveries.GroupInOrder | Common/CRUDP_Protocol/CRUDP_Protocol.cpp:216-297 | the remaining fragments of a payload, in order, complete it |
| Deliveries.OnePayload | Common/CRUDP_Protocol/CRUDP_Protocol.cpp:456-483 | one payload of any size, queued and received packet by packet, comes out once and bit for bit |
| Deliveries.InOrderFeed | Common/CRUDP_Protocol/CRUDP_Protocol.cpp:227-333 | the packets queued for any payloads that fit the queue, handed to the receiver in order without datagrams, come out as these payloads, bit for bit |
| LosslessRuns.EverythingArrives | Common/CRUDP_Protocol/CRUDP_Protocol.cpp:124-570 | from every reachable world whose receiver is up to date, with nothing queued or overdue: queueing any payloads with room for them whose datagrams are read exactly, one batch, and its datagrams received once each in order is a run of the network after which exactly these payloads were handed up, in order and bit for bit, and the receiver is up to date again |
| LosslessRuns.WrapCarries | Common/CRUDP_Protocol/CRUDP_Protocol.cpp:387-437 | datagram i of a batch that is read exactly parses to packet i of the queue |
| Retransmits.LostBatchRecovered | Common/CRUDP_Protocol/CRUDP_Protocol.cpp:507-570 | from every reachable world whose receiver is up to date, with nothing queued: reliable payloads are queued, every datagram of the next batch is lost, and a later batch finds their packets, and no others, overdue; its datagrams, received once each in order, hand up exactly these payloads, in order and bit for bit |
| Retransmits.OverdueResent | Common/CRUDP_Protocol/CRUDP_Protocol.cpp:507-570 | in every reachable world with at most 16384 unacknowledged packets, each overdue or queued packet gets a datagram of the batch that parses to it, and that datagram is on the wire |
| Retransmits.EveryoneSent | Common/CRUDP_Protocol/CRUDP_Protocol.cpp:507-543 | for every endpoint with an empty retransmit queue and at most 16384 unacknowledged packets, each overdue or queued packet gets a datagram of the batch |
| Retransmits.BatchExactly | Common/CRUDP_Protocol/CRUDP_Protocol.cpp:507-570 | such a batch is exactly the overdue packets and the queued ones, counted with repetition |
| Retransmits.BatchAscends | Common/CRUDP_Protocol/CRUDP_Protocol.cpp:515-541 | the packets of a batch leave in ascending order, so each once, and those sent again before the new ones |
| Retransmits.OverdueCount | Common/CRUDP_Protocol/CRUDP_Protocol.cpp:548-570 | of any number of overdue packets as many are sent again as the retransmit queue holds |
| Retransmits.OverdueAt | Common/CRUDP_Protocol/CRUDP_Protocol.cpp:548-570 | an overdue packet is sent again at its turn unless the retransmit queue is full before |
| Retransmits.OnlyOverdue | Common/CRUDP_Protocol/CRUDP_Protocol.cpp:562-564 | no other packet is sent again |
| Retransmits.HeldAfterBatch | Common/CRUDP_Protocol/CRUDP_Protocol.cpp:528-541 | after a batch a packet waits for its ack exactly if it waited before or was queued and is reliable, and all wait in order |
| Retransmits.WrapAt | Common/CRUDP_Protocol/CRUDP_Protocol.cpp:387-437 | datagram i of a batch is that of packet i with the acks that are next then |
| AckRuns.NoAckDropped | Common/CRUDP_Protocol/CRUDP_Protocol.cpp:185-256 | in every run of two fresh endpoints, legible or not: the number of every packet that arrived is still pending as an ack, or a datagram that carries it was sent, on both sides |
| AckRuns.AcksAt | Common/CRUDP_Protocol/CRUDP_Protocol.cpp:185-214 | datagram i of a batch takes the i-th sixteen of the different pending acks in ascending order, and what follows the last of them stays pending |
| AckRuns.AckedOrPending | Common/CRUDP_Protocol/CRUDP_Protocol.cpp:185-214 | every pending ack is carried by a datagram of the batch or still pending after it |
| AckRuns.LeftPending | Common/CRUDP_Protocol/CRUDP_Protocol.cpp:185-214 | how many acks a batch leaves pending |
| Reassembly.AnyOrder | Common/CRUDP_Protocol/CRUDP_Protocol.cpp:216-297 | the fragments of a split payload, in any order with any repetitions, yield exactly one packet with the payload's bits and the first fragment's number if all arrive, and nothing otherwise |
| Reassembly.Gather | Common/CRUDP_Protocol/CRUDP_Protocol.cpp:216-333 | the same from any set of fragments already held, also after the payload was handed up once |
| Reassembly.Arrives | Common/CRUDP_Protocol/CRUDP_Protocol.cpp:281-297 | one fragment fills its slot, is ignored if the slot is taken, or completes the group |
| Reassembly.SentFragments | Common/CRUDP_Protocol/CRUDP_Protocol.cpp:358-384 | what SendPacket queues for a large payload are its fragments, numbered in sequence |
| SiblingBodies.MergeSplit | Common/CRUDP_Protocol/CRUDP_Protocol.cpp:258-279 | merging the parts of a payload in order restores every bit, a last partial byte included |
| SiblingBodies.SplitParts | Common/CRUDP_Protocol/CRUDP_Protocol.cpp:358-384 | every part holds between one and 1272 whole bytes, and a payload of at least one byte has a part |
| SiblingBodies.SplitFits | Common/CRUDP_Protocol/CRUDP_Protocol.cpp:258-279 | merging the parts of one payload never grows a stream that holds exactly one byte |
| SiblingBodies.MergeFitsAt | Common/CRUDP_Protocol/CRUDP_Protocol.cpp:265-275 | at every part of such a merge the stream does not hold exactly one byte and stays below the growth limit |
| Frames.RoundTrip | Common/CRUDP_Protocol/CRUDP_Protocol.cpp:124-162 | receiving undoes sending: number, siblings, acks, compressed flag and exact payload bits come back, whatever the padding, if and only if the payload does not start with the packed number 1, or the flag is clear and the numbers do not end on a byte boundary |
| Frames.FrameParses | Common/CRUDP_Protocol/CRUDP_Protocol.cpp:124-162 | what a receiver makes of every datagram: the packet; or, where the flag is missing and the numbers end on a byte boundary, the packet without its first byte; or a failed assertion if it is shorter than that |
| Frames.TailRoundTrip | Common/CRUDP_Protocol/CRUDP_Protocol.cpp:143-161 | the same for everything after the checksum |
| Frames.HeaderParses | Common/CRUDP_Protocol/CRUDP_Protocol.cpp:145-157 | header fields and ack table parse back whatever follows; the bit behind them is read as the compressed flag even where none was written |
| Frames.SiblingsRoundTrip | Common/CRUDP_Protocol/CRUDP_Protocol.cpp:148-154 | sibling count, position and id parse back |
| Frames.LongEnough | Common/CRUDP_Protocol/CRUDP_Protocol.cpp:426-432 | every datagram has at least 12 bytes and a length of 4 modulo 8 |
| Layouts.DatagramLayout | Common/CRUDP_Protocol/CRUDP_Protocol.cpp:387-437 | every bit of every datagram in order: bit length, checksum, debug flag, sequence number, siblings, ack table, compressed flag, zeros up to a byte, payload, zeros up to a length of 4 modulo 8 bytes |
| Layouts.TableIs | Common/CRUDP_Protocol/CRUDP_Protocol.cpp:191-213 | the ack table written out: the count, the first ack in 32 bits, then distances less one |
| Layouts.CodeIs | Components/BitStream.cpp:161-174 | the packed code of every 32-bit value written out by its six ranges, which begin at 0, 1, 4, 19, 274 and 65809 |
| Layouts.WideCodeIs | Components/BitStream.cpp:161-174 | the packed code that starts with twelve bits written out by its three ranges |
| Layouts.IndexLayout | Common/GameData/GameDataStore.cpp:195-208 | a part name sent as an index: the flag and the index in the code that starts with twelve bits |
| Layouts.SplitAt | Common/CRUDP_Protocol/CRUDP_Protocol.cpp:358-384 | every fragment but the last holds exactly 1272 bytes of the payload, in order; the last one holds the rest, a last partial byte included |
| Layouts.SplitCount | Common/CRUDP_Protocol/CRUDP_Protocol.cpp:358-384 | as many fragments as blocks of 1272 bytes are needed for the whole bytes |
| Layouts.MergedHeader | Common/CRUDP_Protocol/CRUDP_Protocol.cpp:258-279 | a merged packet has the number, sibling fields and flags of its first part |
| Layouts.LargeFrom | Common/CRUDP_Protocol/CRUDP_Protocol.cpp:456-462 | a payload is split from 1272 whole bytes on |
| Layouts.QueueTakes | Common/CRUDP_Protocol/CRUDP_Protocol.cpp:439-451 | the queue takes 16384 packets; each gets the next number, and one more changes nothing |
| Damages.RejectedExactly | Common/CRUDP_Protocol/CRUDP_Protocol.cpp:124-142 | a datagram of at least 12 bytes whose stored length passes the assertion is rejected exactly if its checksum bytes differ from those computed; one that is received carries, up to 65297 bytes behind the checksum, the Adler-32 of these bytes in network order |
| Damages.OneByteRejected | Common/CRUDP_Protocol/CRUDP_Protocol.cpp:135-142 | any one byte of any datagram altered, the checksum included and only the stored length excluded: it is rejected, and every endpoint with nothing available stays as it was |
| Damages.ExchangeRejected | Common/CRUDP_Protocol/CRUDP_Protocol.cpp:135-142 | two different neighbouring bytes behind the checksum exchanged: it is rejected |
| Damages.TailReplaced | Common/CRUDP_Protocol/CRUDP_Protocol.cpp:135-142 | everything behind the checksum replaced: it is rejected exactly if the checksum differs |
| Damages.SentSealed | Common/CRUDP_Protocol/CRUDP_Protocol.cpp:413-435 | every datagram leaves with a right checksum and a length that passes the assertion |
| Damages.DebugRefused | Common/CRUDP_Protocol/CRUDP_Protocol.cpp:144-147 | one with the debug bit set, or without room for its numbers, fails an assertion |
| Damages.LengthNotCovered | Common/CRUDP_Protocol/CRUDP_Protocol.cpp:131-137 | the stored length is not covered by the checksum |
| Damages.OneByteNoticed | Common/CRUDP_Protocol/PacketCodec.cpp:17-37 | one byte altered changes the checksum of a buffer of any length |
| Damages.ExchangeNoticed | Common/CRUDP_Protocol/PacketCodec.cpp:17-37 | two different neighbours exchanged change the checksum of any buffer of up to 65297 bytes |
| Acks.RoundTrip | Common/CRUDP_Protocol/CRUDP_Protocol.cpp:164-183 | the ids given to addAck are exactly those written, in order, and parsing stops where the table ends |
| Acks.Partition | Common/CRUDP_Protocol/CRUDP_Protocol.cpp:185-214 | a datagram takes the smallest min(16, n) distinct pending acks; those and the remaining ones are all of them, each once |
| Acks.DeltasRoundTrip | Common/CRUDP_Protocol/CRUDP_Protocol.cpp:172-182 | packed distances less one rebuild the ids |
| Acks.TableLength | Common/CRUDP_Protocol/CRUDP_Protocol.cpp:185-214 | an ack table never exceeds 2000 bits |
| Acks.SortUnique | Common/CRUDP_Protocol/CRUDP_Protocol.cpp:194-195 | sorting and dropping repeats gives an increasing list with the same members |
| Checksums.Checksum | Common/CRUDP_Protocol/PacketCodec.cpp:17-37 | the checksum of a buffer; for up to 65297 bytes it is the Adler-32 of section 2.2 of RFC 1950 |
| Checksums.DeferredModulo | Common/CRUDP_Protocol/PacketCodec.cpp:21-31 | one deferred modulo and single subtractions give the same two sums as reducing at every byte |
| Checksums.SafeLength | Common/CRUDP_Protocol/PacketCodec.cpp:21-31 | the second sum cannot reach 32 bits for any buffer of up to 65297 bytes |
| Checksums.ExactlyWhen | Common/CRUDP_Protocol/PacketCodec.cpp:17-37 | for any length the result is Adler-32 exactly if the second sum wrapped a multiple of 65521 times |
| Checksums.NetworkOrder | Common/CRUDP_Protocol/PacketCodec.cpp:32-36 | the four stored bytes are the two sums, most significant byte first |
| PackedCode.RoundTrip | Components/BitStream.cpp:298-320 | for every 32-bit value, start width 1 to 32 and following bits, the reader returns the value and stops exactly where the writer stopped |
| PackedCode.PrefixFree | Components/BitStream.cpp:161-174 | no code is the beginning of another value's code |
| PackedCode.Truncated | Components/BitStream.cpp:298-320 | a code cut short never reads as the value that was written |
| PackedCode.CodeLength | Components/BitStream.cpp:161-174 | no code is longer than 95 bits |
| BitStreams.BitStream.StoreBits | Components/BitStream.cpp:114-137 | appends exactly the low bits of the value at any bit offset, across growth; everything stored before survives |
| BitStreams.BitStream.UStoreBits | Components/BitStream.cpp:138-148 | one 64-bit read-modify-write appends the bits, never lets high bits into the readable part and stays inside the buffer |
| BitStreams.BitStream.GetBits | Components/BitStream.cpp:270-281 | returns the next bits as a number, or -1 without moving when too few are left |
| BitStreams.BitStream.UGetBits | Components/BitStream.cpp:282-295 | reads the next bits from one 64-bit word, inside the buffer |
| BitStreams.BitStream.StorePackedBits | Components/BitStream.cpp:161-174 | appends the packed code of the value and nothing else; in byte-aligned mode its 32 bits |
| BitStreams.BitStream.GetPackedBits | Components/BitStream.cpp:298-320 | reads as the code's decoder does on any bits, truncated ones included, and terminates; in byte-aligned mode reads 32 bits |
| BitStreams.BitStream.AppendBitStream | Components/BitStream.cpp:176-186 | moves all unread bits of another stream to the end of this one; a byte-aligned target ends at a byte boundary |
| BitStreams.BitStream.MoveBits | Components/BitStream.cpp:180-185 | moves up to 32 bits, losing none; a byte-aligned target adds zero bits up to the boundary; beyond the size limit the bits are read but not stored |
| BitStreams.BitStream.StoreBitArray | Components/BitStream.cpp:196-208 | appends whole bytes from the next byte boundary on and ends after exactly the given number of bits; beyond the size limit it reports an error, yet a partial byte at the end takes back the last one stored |
| BitStreams.BitStream.StoreString | Components/BitStream.cpp:217-251 | appends the characters and a terminator at any bit offset; what was there before stays unless growth starts with at most one byte written; beyond the size limit nothing is stored |
| BitStreams.BitStream.StoreView | Components/BitStream.cpp:253-256 | the form for string objects: appends the characters alone, with a terminator only in byte-aligned mode, within the size limit |
| BitStreams.BitStream.StoreText | Components/BitStream.cpp:231-250 | the loop over the characters, for either length, within the size limit |
| BitStreams.BitStream.StoreChar | Components/BitStream.cpp:234-246 | one character, split over two bytes, appends its eight bits |
| BitStreams.BitStream.GetString | Components/BitStream.cpp:339-361 | returns the characters up to a zero and stops behind it, or fails at the end of the stream |
| BitStreams.BitStream.NextChar | Components/BitStream.cpp:345-355 | one character put together from two bytes |
| BitStreams.BitStream.ByteAlign | Components/BitStream.cpp:429-442 | moves positions up to the next byte boundary; the stored bytes stay as they are |
| BitStreams.BitStream.PutBytes | Components/Buffer.cpp:97-107 | appends bytes, growing if needed; growing after exactly one byte loses that byte |
| BitStreams.BitStream.UPutBytes | Components/Buffer.cpp:108-114 | copies bytes behind the written ones |
| BitStreams.BitStream.Resize | Components/Buffer.cpp:178-214 | makes room up to the maximum size; contents survive if more than one byte was written, and the new tail is clear |
| BitStreams.BitStream.Reallocate | Components/Buffer.cpp:195-213 | copies the old bytes, if more than one was written, and clears the rest |
| BitStreams.BitStream.PutInt | Components/Buffer.h:46-57 | appends a byte or four little-endian bytes, within the size limit; beyond it, it stores nothing and reports an error |
| BitStreams.BitStream.Get32 | Components/Buffer.h:58-68 | reads four little-endian bytes, or fails leaving the position |
| BitStreams.BitStream.Patch32 | Common/CRUDP_Protocol/CRUDP_Protocol.cpp:414-415 | overwrites four stored bytes and nothing else |
| BitStreams.BitStream.constructor | Components/Buffer.cpp:40-55 | an empty stream of at least eight bytes |
| WordAccess.WriteBitsAppends | Components/BitStream.cpp:138-148 | masking, shifting and or-ing one 64-bit word equals appending the low bits behind the bits before |
| WordAccess.ReadBitsValue | Components/BitStream.cpp:282-295 | shifting and masking one 64-bit word yields the addressed bits |
| WordAccess.WriteCharAppends | Components/BitStream.cpp:234-246 | the two byte writes of a character append its bits |
| WordAccess.ReadCharValue | Components/BitStream.cpp:347-353 | the two byte reads of a character yield its bits |
| BitStreams.StringRoundTrip | Components/BitStream.cpp:339-361 | every text without a zero character reads back, and reading stops just behind its terminator |
| MessageFields.ReadBack | Components/BitStream.cpp:114-361 | any list of plain, packed and text fields reads back field for field, plain ones cut to their width, and reading stops where storing stopped |
| MessageFields.TextIsCharacters | Components/BitStream.cpp:217-251 | storing a text equals storing its characters and the terminator with eight bits each |
| Protocols.CrudProtocol.PacketAck | Common/CRUDP_Protocol/CRUDP_Protocol.cpp:336-356 | frees the unacknowledged packet of this number, if any, once, after taking it out of the retransmit queue |
| Protocols.CrudProtocol.ProcessAcks | Common/CRUDP_Protocol/CRUDP_Protocol.cpp:230-239 | after all acks of a datagram exactly the unacked packets remain, in order; each acked one was freed once |
| Protocols.CrudProtocol.FindPack | Common/CRUDP_Protocol/CRUDP_Protocol.cpp:338-341 | the first remaining packet of a number |
| Protocols.CrudProtocol.InsertSibling | Common/CRUDP_Protocol/CRUDP_Protocol.cpp:281-297 | fills the slot of a part, unless it is taken; a new group gets its size from its first part |
| Protocols.CrudProtocol.AllSiblingsAvailable | Common/CRUDP_Protocol/CRUDP_Protocol.cpp:216-225 | whether every slot of a group is filled |
| Protocols.CrudProtocol.MergeStreams | Common/CRUDP_Protocol/CRUDP_Protocol.cpp:263-275 | the streams of a complete group one after the other in a growing buffer equal the merged payload |
| Protocols.CrudProtocol.MergeSiblings | Common/CRUDP_Protocol/CRUDP_Protocol.cpp:258-279 | a complete group becomes one packet; its parts are freed and the group forgotten |
| Protocols.CrudProtocol.PushRecvPacket | Common/CRUDP_Protocol/CRUDP_Protocol.cpp:227-256 | equals the endpoint function: acks processed, number pending, packet available, waiting or dropped; ownership stays exact |
| Protocols.CrudProtocol.TakeSibling | Common/CRUDP_Protocol/CRUDP_Protocol.cpp:247-254 | a part is dropped as a duplicate, waits, or completes its group |
| Protocols.CrudProtocol.RecvPacket | Common/CRUDP_Protocol/CRUDP_Protocol.cpp:307-333 | equals the endpoint function; the queue is empty afterwards, a duplicate is freed, and an early packet stays allocated with no holder |
| Protocols.CrudProtocol.AddToSendQueue | Common/CRUDP_Protocol/CRUDP_Protocol.cpp:439-451 | numbers and queues a packet unless the queue is full |
| Protocols.CrudProtocol.QueueOrFree | Common/CRUDP_Protocol/CRUDP_Protocol.cpp:463-469 | a packet that cannot be queued is freed |
| Protocols.CrudProtocol.PacketSplit | Common/CRUDP_Protocol/CRUDP_Protocol.cpp:358-384 | newly allocated parts of one block each, the rest last |
| Protocols.CrudProtocol.QueueParts | Common/CRUDP_Protocol/CRUDP_Protocol.cpp:472-481 | parts get the count and id of their group and consecutive numbers, as far as the queue takes them |
| Protocols.CrudProtocol.SendPacket | Common/CRUDP_Protocol/CRUDP_Protocol.cpp:456-483 | equals the endpoint function, and the original of a split packet is freed |
| Protocols.CrudProtocol.StoreAcks | Common/CRUDP_Protocol/CRUDP_Protocol.cpp:185-214 | writes the table of the smallest pending acks and keeps the others |
| Protocols.CrudProtocol.WrapPacket | Common/CRUDP_Protocol/CRUDP_Protocol.cpp:387-420 | place holders, numbers, acks, flag, alignment and payload in a growing stream |
| Protocols.CrudProtocol.SendRaw | Common/CRUDP_Protocol/CRUDP_Protocol.cpp:422-437 | the datagram of a packet with its share of the pending acks, padded and checksummed |
| Protocols.CrudProtocol.ProcessRetransmits | Common/CRUDP_Protocol/CRUDP_Protocol.cpp:548-570 | overdue packets enter the retransmit queue once each while there is room |
| Protocols.CrudProtocol.SendRetransmits | Common/CRUDP_Protocol/CRUDP_Protocol.cpp:517-526 | sends and empties the retransmit queue; the packets stay unacknowledged |
| Protocols.CrudProtocol.Settle | Common/CRUDP_Protocol/CRUDP_Protocol.cpp:533-540 | a sent packet waits for its ack, in order, or is freed if unreliable |
| Protocols.CrudProtocol.SendQueued | Common/CRUDP_Protocol/CRUDP_Protocol.cpp:529-541 | sends and empties the queue |
| Protocols.CrudProtocol.BatchSend | Common/CRUDP_Protocol/CRUDP_Protocol.cpp:507-543 | equals the endpoint function, with exactly its datagrams; with at most 16384 unacknowledged packets every overdue and every queued packet gets one of them; an unresponsive link sends nothing |
| Protocols.CrudProtocol.ReceivedBlock | Common/CRUDP_Protocol/CRUDP_Protocol.cpp:124-162 | a datagram that parses is pushed; a short one, or one whose checksum bytes are not those computed from what follows, changes neither the endpoint nor any allocation |
| Protocols.CrudProtocol.constructor | Common/CRUDP_Protocol/CRUDP_Protocol.h:66-86 | a fresh endpoint that holds no packet |
| Protocols.CrudProtocol.Delete | Common/CRUDP_Protocol/CRUDP_Protocol.cpp:349-350 | only a live packet can be freed, so none is freed twice |
| FrameStreams.StoreAckTable | Common/CRUDP_Protocol/CRUDP_Protocol.cpp:191-213 | the ack table in stream form, and how many acks it took |
| FrameStreams.StoreDeltas | Common/CRUDP_Protocol/CRUDP_Protocol.cpp:203-211 | distances until the count is used up or the list ends |
| FrameStreams.StoreNumbers | Common/CRUDP_Protocol/CRUDP_Protocol.cpp:396-406 | place holders, debug flag, sequence number and siblings |
| FrameStreams.StoreBody | Common/CRUDP_Protocol/CRUDP_Protocol.cpp:410-411 | aligns with zero bits and appends the payload |
| FrameStreams.SealFrame | Common/CRUDP_Protocol/CRUDP_Protocol.cpp:413-435 | fills in the bit length, pads with zero bytes and fills in the checksum |
| FrameStreams.PadFrame | Common/CRUDP_Protocol/CRUDP_Protocol.cpp:427-432 | pads to the fixed length |
| FrameStreams.ParseSiblingFields | Common/CRUDP_Protocol/CRUDP_Protocol.cpp:148-154 | reads the sibling fields as the parser function does |
| FrameStreams.ParseAckTable | Common/CRUDP_Protocol/CRUDP_Protocol.cpp:164-183 | reads the ack table as the parser function does, on any bits |
| FrameStreams.ReadHeader | Common/CRUDP_Protocol/CRUDP_Protocol.cpp:145-156 | reads the whole header as the parser function does |
| FrameStreams.ReadPayload | Common/CRUDP_Protocol/CRUDP_Protocol.cpp:157-160 | reads the payload from the next byte boundary to the stored bit length |
| FrameStreams.ReadFrame | Common/CRUDP_Protocol/CRUDP_Protocol.cpp:124-162 | equals the parser function on every datagram that trips no assertion; what it receives is long enough, with a right checksum and an allowed length |
| Links.CrudLink.ReceivedBlock | Common/CRUDP_Protocol/CRUD_Link.cpp:162-178 | one datagram posts at most one packet, the one the protocol hands up, and leaves none available |
| Links.CrudLink.PacketsForEvent | Common/CRUDP_Protocol/CRUD_Link.cpp:69-93 | queues the event and posts the datagrams of one batch, or a disconnect on an unresponsive link |
| LinkRuns.Drive | Common/CRUDP_Protocol/CRUD_Link.cpp:69-178 | two new links, any events and any datagrams from the network in any order: each call finds the protocol as it asks for it, and posts, datagrams and endpoints are those of the run |
| LinkRuns.ServeDatagram | Common/CRUDP_Protocol/CRUD_Link.cpp:162-178 | a link takes any datagram in flight, and posts exactly what the run hands up |
| LinkRuns.ServeEvent | Common/CRUDP_Protocol/CRUD_Link.cpp:69-93 | a link queues and sends exactly what the run does |
| DesKeys.DecipherUndoesEncipher | Common/AuthProtocol/AuthPacketCodec.cpp:385-433 | for every key, table contents and buffer length, deciphering restores what was enciphered |
| DesKeys.ScheduleReversed | Common/AuthProtocol/AuthPacketCodec.cpp:345-351 | the deciphering schedule is the enciphering one with its sixteen pairs reversed |
| DesKeys.TailUntouched | Common/AuthProtocol/AuthPacketCodec.cpp:385-399 | bytes past the last whole block stay as they are |
| DesKeys.DesKey | Common/AuthProtocol/AuthPacketCodec.cpp:49-80 | the loops compute the schedule of the key, pair by pair, from the end when deciphering |
| DesKeys.Choose | Common/AuthProtocol/AuthPacketCodec.cpp:54-58 | the first choice of key bits |
| DesKeys.Rotate | Common/AuthProtocol/AuthPacketCodec.cpp:64-73 | both halves rotated by the total of the round |
| DesKeys.Gather | Common/AuthProtocol/AuthPacketCodec.cpp:63-77 | the second choice gathers the two words of a round and leaves the other words alone |
| DesKeys.CookKey | Common/AuthProtocol/AuthPacketCodec.cpp:81-100 | every raw pair is regrouped into the pair the rounds use |
| Des.OpenAfterClose | Common/AuthProtocol/AuthPacketCodec.cpp:278-344 | opening what closing left gives back the halves, exchanged, although closing leaves garbage above 32 bits |
| Des.CloseAfterOpen | Common/AuthProtocol/AuthPacketCodec.cpp:278-344 | closing the exchanged halves gives back the block |
| Des.RoundsUndone | Common/AuthProtocol/AuthPacketCodec.cpp:298-325 | the rounds with the key pairs reversed undo the rounds |
| Des.CipherUndone | Common/AuthProtocol/AuthPacketCodec.cpp:275-344 | the whole cipher with the reversed schedule restores both words of a block |
| Des.BlocksUndone | Common/AuthProtocol/AuthPacketCodec.cpp:385-433 | the same for every buffer of any length |
| Des.DesFunc | Common/AuthProtocol/AuthPacketCodec.cpp:275-344 | eight pairs of rounds in place equal the recursive rounds |
| Des.CodeBlocks | Common/AuthProtocol/AuthPacketCodec.cpp:385-399 | every whole block in place; everything else in the buffer stays as it is |
| Des.ScrunchUnscrun | Common/AuthProtocol/AuthPacketCodec.cpp:115-138 | storing a word as four bytes and loading it keeps its low 32 bits |
| DesConforms.CipherIsStandard | Common/AuthProtocol/AuthPacketCodec.cpp:25-344 | for every key and block: the result is the block whose initial permutation is what sixteen rounds of FIPS 46-3, with its own expansion, boxes, permutation and key schedule, make of that of the block, halves exchanged |
| DesConforms.BlockIsStandard | Common/AuthProtocol/AuthPacketCodec.cpp:385-399 | the same of eight bytes of a buffer |
| DesConforms.InitialInjective | Common/AuthProtocol/AuthPacketCodec.cpp:278-297 | only one block has a given initial permutation, so this determines the result |
| DesConforms.RoundsAreStandard | Common/AuthProtocol/AuthPacketCodec.cpp:298-325 | from any round on, the rounds on words turned left by one are those of the standard |
| DesConforms.MixIsStandard | Common/AuthProtocol/AuthPacketCodec.cpp:299-310 | what one half contributes to the other is the cipher function of the standard, for every half and round key |
| DesConforms.OpeningIsInitial | Common/AuthProtocol/AuthPacketCodec.cpp:278-297 | the exchanges before the rounds are the initial permutation |
| DesConforms.RoundKeyIs | Common/AuthProtocol/AuthPacketCodec.cpp:49-100 | the six bits a box is given are its part of the standard's round key as a number |
| DesStandard.ScheduleIsStandard | Common/AuthProtocol/AuthPacketCodec.cpp:25-104 | for every key, round, substitution box and bit: the key words of the round give the box the six bits that the key schedule of FIPS 46-3 gives it |
| DesStandard.SubkeyBit | Common/AuthProtocol/AuthPacketCodec.cpp:37-78 | for every key, round and bit: choosing, rotating and gathering pick the bits of the standard's round key |
| DesStandard.HalvesTurned | Common/AuthProtocol/AuthPacketCodec.cpp:42-73 | rotating by the totals equals shifting round by round as the standard does |
| DesStandard.GatheredBit | Common/AuthProtocol/AuthPacketCodec.cpp:74-77 | each of the 24 bits of a key word is set exactly if the second choice finds it set |
| DesStandard.BoxKeyIs | Common/AuthProtocol/AuthPacketCodec.cpp:81-100 | cooking gives each substitution box the next six of the 48 bits |
| DesBoxes.Box1IsStandard | Common/AuthProtocol/AuthPacketCodec.cpp:139-155 | for every input the first table is the first substitution box of FIPS 46-3 followed by its permutation P, in a word turned left by one |
| DesBoxes.Box2IsStandard | Common/AuthProtocol/AuthPacketCodec.cpp:156-172 | the same for the second one |
| DesBoxes.Box3IsStandard | Common/AuthProtocol/AuthPacketCodec.cpp:173-189 | the same for the third one |
| DesBoxes.Box4IsStandard | Common/AuthProtocol/AuthPacketCodec.cpp:190-206 | the same for the fourth one |
| DesBoxes.Box5IsStandard | Common/AuthProtocol/AuthPacketCodec.cpp:207-223 | the same for the fifth one |
| DesBoxes.Box6IsStandard | Common/AuthProtocol/AuthPacketCodec.cpp:224-240 | the same for the sixth one |
| DesBoxes.Box7IsStandard | Common/AuthProtocol/AuthPacketCodec.cpp:241-257 | the same for the seventh one |
| DesBoxes.Box8IsStandard | Common/AuthProtocol/AuthPacketCodec.cpp:258-274 | the same for the eighth one |
| AuthCodecs.RunRestored | Common/AuthProtocol/AuthPacketCodec.cpp:357-383 | from equal keys every message of a run is restored and the rolling keys stay equal, also when a key becomes zero |
| AuthCodecs.RunKeys | Common/AuthProtocol/AuthPacketCodec.cpp:357-383 | over any run of messages the key is the first one plus the total length so far, modulo 2^64, until it becomes zero and stays there; message i is coded with the key of that moment |
| AuthCodecs.NextKeyGrows | Common/AuthProtocol/AuthPacketCodec.cpp:365 | a key that is set grows by exactly the length modulo 2^64 |
| AuthCodecs.KeyDigits | Common/AuthProtocol/AuthPacketCodec.cpp:361 | the eight bytes of a key are its digits to base 256, the lowest first |
| AuthCodecs.ChainAt | Common/AuthProtocol/AuthPacketCodec.cpp:361-364 | each byte but the first is combined with the coded byte before it and key byte i modulo 8 |
| AuthCodecs.UnchainChain | Common/AuthProtocol/AuthPacketCodec.cpp:357-383 | decoding one message undoes coding it |
| AuthCodecs.LoginRestored | Common/AuthProtocol/AuthLink.cpp:57-62 | DES on part of a login request and XOR on all of it are undone by the receiving link |
| AuthCodecs.LoginEnciphered | Common/AuthProtocol/AuthLink.cpp:57-58 | of a login request exactly the three blocks behind the first byte are enciphered before the XOR, so the last six of the thirty bytes named are not |
| AuthCodecs.WholeRestored | Common/AuthProtocol/AuthPacketCodec.cpp:407-418 | one buffer under any tables and keys: decoding in the order of coding restores it if and only if no XOR key is set, or it has no whole block, or enciphering and chaining its whole blocks commute and, if bytes follow them, enciphering keeps the XOR of all bytes of these blocks |
| AuthCodecs.WrongOrder | Common/AuthProtocol/AuthPacketCodec.cpp:407-418 | with the codec's own tables it does not: nine zero bytes under the zero DES key come back changed for every XOR key that is set |
| CodingOrder.RestoredAlways | Common/AuthProtocol/AuthPacketCodec.cpp:407-418 | with the codec's tables, for every XOR key and length: every buffer of this length comes back under every DES key if and only if no XOR key is set or the length is below a block |
| CodingOrder.SomeBufferFails | Common/AuthProtocol/AuthPacketCodec.cpp:407-418 | for every XOR key that is set and every length of at least a block, a DES key and a buffer that does not come back |
| CodingOrder.BlockComplement | Common/AuthProtocol/AuthPacketCodec.cpp:275-344 | under complemented schedules of zeros and ones the cipher maps complements to complements, for any tables |
| CodingOrder.OnesSchedule | Common/AuthProtocol/AuthPacketCodec.cpp:49-100 | the key of ones makes every six-bit field of the schedule ones |
| CodingOrder.FirstBlockCommutes | Common/AuthProtocol/AuthPacketCodec.cpp:407-418 | a buffer of any length that comes back starts with a block on which enciphering and chaining commute |
| AuthCodecs.ZeroBlock | Common/AuthProtocol/AuthPacketCodec.cpp:139-344 | the codec's tables encipher a block of zeros under the zero key as 8CA64DE9 C1B123A7 |
| AuthCodecs.ChainTail | Common/AuthProtocol/AuthPacketCodec.cpp:357-366 | behind two fronts of equal length the same bytes are coded alike if and only if the XORs of the fronts agree |
| AuthCodecs.AuthPacketCodec.SetDesKey | Common/AuthProtocol/AuthPacketCodec.cpp:345-351 | both schedules, one the reverse of the other |
| AuthCodecs.AuthPacketCodec.SetXorKey | Common/AuthProtocol/AuthPacketCodec.cpp:400-406 | equal keys for both directions: zero for -1, otherwise 0x87546ca1 above a key that is not negative, and ones above a negative one |
| AuthCodecs.AuthPacketCodec.XorCodeBuf | Common/AuthProtocol/AuthPacketCodec.cpp:357-366 | chains the bytes in place; a key that is set grows by the length modulo 2^64, and no key changes nothing |
| AuthCodecs.AuthPacketCodec.XorDecodeBuf | Common/AuthProtocol/AuthPacketCodec.cpp:368-383 | undoes the chain in place; a key that is set grows by the length modulo 2^64, and no key changes nothing |
| AuthCodecs.AuthPacketCodec.DesCode | Common/AuthProtocol/AuthPacketCodec.cpp:385-399 | enciphers the whole blocks in place |
| AuthCodecs.AuthPacketCodec.DesDecode | Common/AuthProtocol/AuthPacketCodec.cpp:419-433 | deciphers the whole blocks in place |
| AuthCodecs.AuthPacketCodec.Code | Common/AuthProtocol/AuthPacketCodec.cpp:407-412 | DES, then XOR if a key is set |
| AuthCodecs.AuthPacketCodec.Decode | Common/AuthProtocol/AuthPacketCodec.cpp:413-418 | DES, then XOR if a key is set, in that order again |
| StringTables.CoXHashMap.FindIndex | Common/GameData/CoXHash.cpp:27-80 | follows the hash chain to the first hit, free slot or zero hash; long keys leave the targets alone |
| StringTables.CoXHashMap.InsertEntry | Common/GameData/CoXHash.h:121-143 | the table's keys behave as a set: a key is added exactly if it was not there, and nothing else changes; a long key overwrites slot 0 instead. A new key must escape the occupied slots; if the table grows, the keys must spread in the next size |
| StringTables.CoXHashMap.Resize | Common/GameData/CoXHash.h:102-120 | growth loses no key and no value if the keys spread in the new size |
| StringTables.CoXHashMap.GrowIfFull | Common/GameData/CoXHash.h:123-132 | doubles a table that is three quarters full, if its keys spread in twice the size |
| StringTables.CoXHashMap.Fill | Common/GameData/GameDataStore.cpp:100-160 | after any inserts, repetitions included, the keys are exactly the inserted names; they are assumed to spread only in the sizes that so many different names lead to |
| StringTables.CoXHashMap.constructor | Common/GameData/CoXHash.h:152-157 | an empty table of the next power of two |
| StringTables.NextSize | Common/GameData/CoXHash.h:172-187 | the least power of two that is at least the argument, zero when that needs 33 bits |
| StringTables.ChainRow | Common/GameData/CoXHash.cpp:39-44 | the probes are the hashes of the upper-cased key in turn, the first from zero and every other from the one before it |
| StringTables.CaseOnly | Common/GameData/CoXHash.cpp:39-44 | keys that differ only in case have the same probes |
| StringTables.FindPresent | Common/GameData/CoXHash.cpp:42-77 | an inserted key is found at its own slot |
| StringTables.FindAbsent | Common/GameData/CoXHash.cpp:42-77 | any other key ends at a free slot with a non-zero hash if and only if its probes leave the occupied slots before a hash is zero; it is never taken for a hit |
| StringTables.ShortChain | Common/GameData/CoXHash.cpp:52-77 | a key whose hashes fall among three quarters of the slots of a table violates the hypothesis for its size |
| StringTables.PlaceKeeps | Common/GameData/CoXHash.h:133-142 | placing a new key whose probes leave the occupied slots keeps every other key findable and at its slot |
| StringTables.MoveStep | Common/GameData/CoXHash.h:110-119 | moving one entry of the old table, whose keys spread in the new size, never meets a key twice |
| StringTables.LongKeyLoses | Common/GameData/CoXHash.h:133-142 | inserting a long key keeps the key set exactly if slot 0 was free |
| PartNames.PackUnpack | Common/GameData/GameDataStore.cpp:195-223 | a name sent as an index comes back if and only if it is empty or in the table, and reading stops where writing stopped; a name sent as text, without a terminator, comes back if and only if fewer than eight bits follow or the next eight are zero, and reading stops where writing stopped only in the first case |
| PartNames.TextWhen | Common/GameData/GameDataStore.cpp:195-208 | text is sent exactly for names too long to look up and for unknown ones whose search ends at free slot 0 |
| PartNames.HitOrMiss | Common/GameData/GameDataStore.cpp:195-203 | the index of a hit leads back to the name; the slot of a miss, or of a chain that reached zero, never does |
| PartNames.PackPartname | Common/GameData/GameDataStore.cpp:195-208 | writes the flag and then an index or the bare characters |
| PartNames.UnpackPartname | Common/GameData/GameDataStore.cpp:210-223 | reads an index or the text as specified, on any bits |
| Inventories.CharacterData.AddEnhancement | Common/GameData/Powers.cpp:769-788 | fills the first free slot; a full tray stays as it is |
| Inventories.CharacterData.GetEnhancement | Common/GameData/Powers.cpp:802-819 | the enhancement at an index, if the index exists and the slot is used |
| Inventories.CharacterData.NumberEnhancements | Common/GameData/Powers.cpp:821-830 | the number of enhancements carried |
| Inventories.CharacterData.TrashEnhancement | Common/GameData/Powers.cpp:861-869 | empties a slot |
| Inventories.CharacterData.AddInspiration | Common/GameData/Powers.cpp:573-600 | fills the first free cell, row by row, and records its position |
| Inventories.CharacterData.GetInspiration | Common/GameData/Powers.cpp:602-628 | the inspiration at a cell within the character's limits |
| Inventories.CharacterData.NumberInspirations | Common/GameData/Powers.cpp:630-646 | the number of inspirations carried, counted row by row |
| Inventories.CharacterData.MoveInspiration | Common/GameData/Powers.cpp:653-675 | exchanges two cells and puts their positions right; beyond the maximum it removes |
| Inventories.CharacterData.RemoveInspiration | Common/GameData/Powers.cpp:677-695 | removes an inspiration and moves those behind it up by one row; beyond the last column it removes those behind it as well |
| Inventories.AddedCarries | Common/GameData/Powers.cpp:769-788 | an added enhancement is carried exactly if a slot was free |
| Inventories.ReceivedStocks | Common/GameData/Powers.cpp:573-600 | an added inspiration is carried exactly if a cell was free |
| Inventories.RemovedStocks | Common/GameData/Powers.cpp:677-695 | removing takes out exactly one inspiration; other columns and the rows in front stay as they were |
| Inventories.RemovedOutside | Common/GameData/Powers.cpp:653-695 | removing outside the counted columns leaves the counted stock alone |
| Inventories.MovedStocks | Common/GameData/Powers.cpp:653-675 | moving conserves the counted inspirations exactly if the destination is a counted cell, or both cells hold alike; a destination at the maximum slips through the check |
| Inventories.CellsCounted | Common/GameData/Powers.cpp:648-651 | carried and free cells make up columns times rows |
| Places.PlacedAlways | Common/GameData/Powers.cpp:573-695 | after any adds, moves and removals in any order, every inspiration still records the cell it lies in |
| Places.AddedWhere | Common/GameData/Powers.cpp:769-788 | an added enhancement lands in the first free slot with that index, and no other slot changes |
| Places.TrashedWhere | Common/GameData/Powers.cpp:861-869 | a trashed slot is empty with its own index, and no other slot changes |
| Places.ReceivedWhere | Common/GameData/Powers.cpp:573-600 | an added inspiration lands in the first empty cell, row by row, and records it; no other cell changes |
| Places.FirstCell | Common/GameData/Powers.cpp:576-580 | the cell found is empty and none before it, row by row, is; none is found exactly if all are occupied |
| Places.MovedWhere | Common/GameData/Powers.cpp:653-675 | two cells exchange what they hold, and no other cell changes |
| Places.RemovedWhere | Common/GameData/Powers.cpp:677-695 | one cell is emptied; in the columns up to the maximum those behind it move up, beyond it they vanish; no other column changes |
| Trades.EnhancementsConserved | Common/GameData/Trade.cpp:366-394 | the two players' enhancements together are unchanged exactly if no add finds a full tray |
| Trades.InspirationsConserved | Common/GameData/Trade.cpp:366-394 | the two players' inspirations together are unchanged exactly if no add finds a full grid |
| Trades.RoomSuffices | Common/GameData/Trade.cpp:24-87 | if both room checks pass, every enhancement finds a slot, and every inspiration a cell if and only if both grids hold what is left in them and what is really taken out of the other; they do if the offers go from back to front |
| Trades.LosingOffer | Common/GameData/Trade.cpp:24-87 | two full columns, one offered from front to back: both room checks pass and an inspiration is lost |
| TradeProofs.RoomNecessary | Common/GameData/Trade.cpp:44-69 | both sides pass the check for enhancements if and only if every enhancement finds a slot, and the check for inspirations, with offers from back to front, if and only if every inspiration finds a cell |
| TradeProofs.RoomExactly | Common/GameData/Trade.cpp:44-69 | a side is refused for enhancements if and only if more come than slots are free once its own offer is out, and likewise for inspirations with offers from back to front |
| TradeProofs.RefusedExactly | Common/GameData/Trade.cpp:71-87 | for offers from back to front each message is given exactly for the first shortage there really is, in the order influence, enhancements, inspirations |
| TradeProofs.InfluenceRefused | Common/GameData/Trade.cpp:24-35 | influence is refused if and only if what a side ends up with, modulo 2^32, is below what it receives: what it keeps and gets reaches 2^32, or it offers more than it owns and is not paid as much back |
| TradeProofs.AgreementReached | Common/GameData/Trade.cpp:320-359 | from empty offers, by updates that name the other member: both offers are recorded, and each side is marked accepted if and only if it has room |
| TradeProofs.Conclude | Servers/MapServer/MapInstance.cpp:3074-3110 | two partners with recorded offers and room for them, driven through two updates that repeat these offers and accept: the trade ends for both and they carry the exchange of their offers |
| TradeProofs.OfferRepeated | Common/GameData/Trade.cpp:338-358 | an update that repeats the recorded offer leaves the other side as it was, whoever it names; its acceptance stands exactly if there is room, and otherwise the message says what is short |
| TradeProofs.OfferChanged | Common/GameData/Trade.cpp:338-346 | an update that changes the offer records it not accepted, and clears the other side's acceptance exactly if it names the other member |
| TradeProofs.TakeAt | Common/GameData/Trade.cpp:89-105 | taking empties exactly the offered slots |
| TradeProofs.GiveAt | Common/GameData/Trade.cpp:107-113 | the n-th enhancement given lands in the n-th free slot, and no other slot changes |
| TradeProofs.StowAt | Common/GameData/Trade.cpp:133-139 | the n-th inspiration put in lands in the n-th empty cell, row by row, and no other cell changes |
| TradeProofs.ContentExactly | Common/GameData/Trade.cpp:184-189 | two offers have equal content exactly if they agree in everything but the member and the acceptance |
| Trades.EnhancementsExchanged | Common/GameData/Trade.cpp:366-394 | each side gets the enhancements the other offered, if they fit |
| Trades.InspirationsExchanged | Common/GameData/Trade.cpp:366-394 | each side gets the inspirations the other really gives, if they fit |
| Trades.AcceptedConserves | Common/GameData/Trade.cpp:320-394 | an accepted trade whose members still carry what they carried in their latest updates, and have what they offer, exchanges all enhancements, loses no inspiration if and only if the cells suffice, and keeps total influence if and only if both own theirs; each side then gains exactly what it receives less what it offers |
| Trades.InfluenceModulo | Common/GameData/Trade.cpp:372-376 | each side gains what it receives less what it offers modulo 2^32, so total influence is unchanged modulo 2^32 |
| Trades.InfluenceExact | Common/GameData/Trade.cpp:24-35 | when both overflow checks pass, total influence is unchanged as a number exactly if both sides own what they offer |
| Trades.OfferTaken | Common/GameData/Trade.cpp:89-131 | the enhancements that leave a side are exactly those offered; of the inspirations, as many as the positions say, and all of them if the offers go from back to front; as many places become free |
| Draws.DrawOffered | Common/GameData/Trade.cpp:115-131 | offers in different columns, or from the back of a column to its front, are taken as offered |
| Draws.ShiftedOffer | Common/GameData/Trade.cpp:115-131 | two offers from the front of a column take the wrong second inspiration |
| Draws.DrawTakes | Common/GameData/Trade.cpp:115-131 | the draws take, in order, exactly what lay at first in the cells computed from the positions alone |
| Draws.TakenAsOffered | Common/GameData/Trade.cpp:115-131 | an offer of different occupied cells is taken as offered if and only if each draw takes a cell with the same goods as the offered one |
| Draws.InTurn | Common/GameData/Trade.cpp:115-131 | every draw takes the very cell that was offered if and only if within each column the offers go from the back to the front |
| Trades.BothAgreed | Common/GameData/Trade.cpp:242-245 | over every sequence of updates that name the other member, an accepted trade means both sides accepted the very offers now recorded, with room for them |
| Trades.Agreed | Common/GameData/Trade.cpp:320-359 | a member marked accepted accepted exactly the pair of offers now recorded in its latest update, and no offer changed since |
| Trades.ChangeClears | Common/GameData/Trade.cpp:338-346 | a change of content clears both acceptances if and only if the update names the other member or finds it not accepted |
| Trades.SelfAddressed | Common/GameData/Trade.cpp:320-359 | an update that names its own sender changes the offer under the standing acceptance of the other: the trade counts as accepted on terms that one side never saw |
| Trades.StillAccepted | Common/GameData/Trade.cpp:338-358 | after an update an acceptance stands only if no offer changed, and the sender's only with room |
| Trades.HasRoomForTrade | Common/GameData/Trade.cpp:71-87 | the three checks in order; what each of them means is in TradeProofs.RefusedExactly |
| Trades.UpdateTrade | Common/GameData/Trade.cpp:320-359 | equals one step of the acceptance machine, whoever source and target are; updates outside a common trade change nothing |
| Trades.FinishTrade | Common/GameData/Trade.cpp:366-394 | equals the exchange of both characters' possessions and ends the trade for both; called with one entity twice, it exchanges nothing and ends the trade for that one only |
| Trades.SelfConserved | Common/GameData/Trade.cpp:366-394 | a trade finished with oneself keeps influence, enhancements and inspirations |
| Trades.OnTradeUpdated | Servers/MapServer/MapInstance.cpp:3074-3110 | an update, and the exchange if the trade is then accepted, for any source and target |
| Trades.DealWithOneself | Servers/MapServer/MapInstance.cpp:3074-3110 | two self-addressed updates under the acceptance of the partner finish the trade with oneself: nothing changes hands, and the partner keeps a trade that nobody else is in |
| Trades.RemoveTradedEnhancements | Common/GameData/Trade.cpp:89-105 | takes out the offered slots one after the other, passing over empty ones |
| Trades.AddTradedEnhancements | Common/GameData/Trade.cpp:107-113 | adds in order |
| Trades.RemoveTradedInspirations | Common/GameData/Trade.cpp:115-131 | takes out the offered cells one after the other, passing over empty ones |
| Trades.AddTradedInspirations | Common/GameData/Trade.cpp:133-139 | adds in order |
| Trades.Trade.constructor | Common/GameData/Trade.cpp:203-207 | a new trade with empty offers that nobody has accepted |
| Trades.Trade.IsAccepted | Common/GameData/Trade.cpp:242-245 | both members are marked accepted |
| ControlChanges.ExactlyOnce | Common/GameData/Movement.cpp:637-675 | however resends overlap, without gaps and at most 0x8000 back: the stream is consumed in order and every change once throughout, if and only if no resend straddles a wrap of the ids and reaches the next expected change |
| ControlChanges.ConsumeExact | Common/GameData/Movement.cpp:648-675 | one resend is consumed correctly if and only if the ids do not wrap between its start and the next expected change, or it ends before that one |
| ControlChanges.GapNoticed | Common/GameData/Movement.cpp:648-660 | changes behind a gap fail the assertion, unless the ids wrap within a gap of one: then they are acted upon as if nothing were missing |
| ControlChanges.NoWrapNeeded | Common/GameData/Movement.cpp:637-675 | with fewer changes than ids the wrap condition holds by itself |
| ControlChanges.DeltaExact | Common/GameData/Movement.cpp:75-87 | the distance of two ids is right modulo 2^16 exactly when no correction is made, and otherwise one off |
| ControlChanges.InputState.ConsumeOne | Common/GameData/Movement.cpp:648-675 | acts on the changes of one input change that were not seen before |
| ControlChanges.InputState.ProcessNewInputs | Common/GameData/Movement.cpp:890-904 | acts on the whole queue and empties it |

## Left out

- Reactors, sockets, timers, event queues, threads and mutexes: protocol calls are atomic steps.
- `isUnresponsiveLink` and `getPacketResendDelay`: their outcomes are inputs of a batch.
- `clearQueues`, compression of payloads, debug logging, and the counters kept for display.
- Wrap-around of the 32-bit sequence numbers and sibling ids: the run theorems are about runs that use up neither.
- Eventual delivery, which does not hold; `LosslessRuns.EverythingArrives` covers runs that lose and reorder nothing, and
  `Retransmits.LostBatchRecovered` the loss of a whole batch.
- Protocols.CrudProtocol.AddToSendQueue: calls in which the number wraps at 2^32 are left out, because they break the order
  the other methods rely on; `SendProofs.AscendsUnlessWrapped` gives the exact condition.
- Protocols.CrudProtocol.QueueOrFree: the same.
- Protocols.CrudProtocol.QueueParts: the same.
- Protocols.CrudProtocol.SendPacket: the same.
- Links.CrudLink.PacketsForEvent: the same.
- `Set`, the container of received acks, is a mathematical set of the ids given to `addAck`; its ordering is not modelled.
- Time stamps and retransmit counts of packets.
- Trades.FinishTrade: two different entities are the two members of their common trade.
- Sorting of the available packets: there is never more than one (`Deliveries.OneAtMost`).
- Packets are values with an allocation number; two packets sharing one stream are not modelled.
- The stream over a caller's array: the model gives it the seven bytes of safe area that the source's constructor leaves out.
- The `BitStream` copy constructor and assignment, `GetBitArray`, `Get64Bits`, floats and compressed strings.
- BitStreams.BitStream.StorePackedBits: streams with a size limit are not modelled; its steps are (`StoreBits`).
- BitStreams.BitStream.AppendBitStream: the same (`MoveBits`), and at least one unread bit, because the source asserts on
  reading none.
- BitStreams.BitStream.PutBytes: a write position inside a byte, where the source would overwrite the partial byte.
- BitStreams.BitStream.UPutBytes: the same.
- BitStreams.BitStream.PutInt: the same.
- `AuthLink::bytes_to_event`, which resynchronises on partial buffers, apart from the order of its two decoding steps.
- Flags of the string hash other than 0x3D, entry flags, which nothing sets, and the Jenkins hash itself.
- `CoXGenericHashMap` and colour packing.
- Names with a zero character, and tables of 2^31 slots, in part-name packing.
- Data of an enhancement or inspiration beyond category, power set, power, name, level and combines.
- Invitations and declining of trades; `discardTrade` appears only at the end of a finished trade.
- The effect of a control-state change on movement: the model records which changes are acted upon, and in which order.
- `StateInterpolator`, movement physics, serialisers, data stores, settings, teams, friends and costumes.
