# A model of fb-adb's protocol and data structures

fb-adb runs a command on a device and carries its standard input, output and
error over one connection. The project states, in Dafny, what the parts of the
repository that do this promise, and proves that they keep it. A class or a
method stands for code that works by changing things, and is proved against a
function that says what it computes; the lemmas are about those functions, and
about all runs of several parts together.

- **LZ4** (lz4.c). `Lz4Format` defines sequences, blocks and a byte-at-a-time
  reference decoder; `Lz4Match` the hash table, the match search and the
  common-prefix count, and `Lz4Words` the comparison of eight bytes at once by
  trailing zero bits; `Lz4Compressor` the two compressors, writing into an array;
  `Lz4Decoder` the decoder with its eight-bytes-at-a-time copies. A block whose
  match has an offset of zero has no meaning of its own, since the copy then
  reads what the output buffer held before; the reference decoder says so instead
  of giving a text.
- **The stream protocol** (core.c, channel.c, ringbuf.c, adbenc.c). `AdbEnc` is
  the escape encoding, `RingBuf` and `Bits` the ring buffer with wrapping
  counters, `Messages` the wire format, `Channels` one channel with its polls,
  `Peer` one end of the connection as a value, and `Endpoint` the pump as code
  that does what `Peer` allows; `PumpRounds` says what its rounds do and when the
  last one comes. `Streams` and `Links` hold what is always true of one stream
  and of one wire; `Protocol` runs two peers and two wires in any order, with any
  partial transfers and errors, and draws the conclusions; `Session`
  shows that the pump and the polls belong to those runs.
- **The splay tree** (tree.h). `SplayTrees` are the shapes, and trees taken apart
  while they are splayed; `SplayOps` the operations on nodes that point to each
  other, and what they are on a sorted sequence and on a finite map.
- **The JDWP proxy** (cmd_jdwp.c). `JdwpRouting` numbers commands, routes replies
  and puts packets aside, in runs of debugger, proxy and app; `ReftypeCache` keeps
  reference types in a splay tree and flushes it; `ReftypeTable` says what that
  means for the tables of fake and real IDs, `ReftypeRuns` adds a VM that counts
  references and loads and unloads classes, and `ReftypeRefresh` looks types up
  again that were flushed.
- **The JSON writer** (json.c, utf8.c). `Utf8` relates the table automaton to
  RFC 3629, `Utf8Repair` says how a byte string that is not UTF-8 is cut up,
  `JsonText` and `JsonValue` print values and parse the whole grammar of
  RFC 8259, `JsonDoc` is the value under construction, `JsonClose` completes it,
  and `JsonWriter` is the writer.
- **SHA-256** (sha2.c). `Sha256` is FIPS 180-4, `Sha256Words` the machine's words
  and `Sha256Context` the context whose buffer is also the message schedule.

Machine integers are natural numbers with their wrap-around written out
wherever it can happen (counters, masks, hash values, credits, IDs, turns);
SHA-256 and LZ4's bit counting use bit vectors. Reads and writes of descriptors, what the other end
sends and what the VM answers are arbitrary choices or arguments. Dying is a
result.

Where the code does not do what one might expect of it, the code is what is
modelled, and a lemma says exactly when it does:

- lz4.h says that the compressor for a given destination size fills the
  destination completely. A shortened final run may leave up to two bytes
  unused, depending only on the room it is given (`Lz4Compressor.FinalRunFills`,
  `CompressDestSizeGeneric`, `DestinationNotFilled`).
- The counter that decides which channel comes first wraps round at 2^32, which
  five does not divide: the round in which it overflows passes over one channel
  (`PumpRounds.RoundVisits`).
- The pump sends empty messages for ever if the channel to the peer is closed, or
  closes in this round before anything has been sent, and two streams are stuck:
  they have data to send, and the most that fits into an outgoing message is five
  bytes, or eight for a stream that compresses and has 13 bytes or more
  (`PumpRounds.EndlessGoesOn`, `Endpoint.FbAdbSh.XmitData`). In every other case
  it ends (`PumpRounds.EndComesNearer`, `Endpoint.FbAdbSh.PumpAtMost`), even with
  one stuck stream: up to 2^32 rounds later, one round passes over that stream.
  So it can only happen to the end that runs the command (`PumpRounds.AbandonedEndless`,
  `OneSenderEnds`).
- Looking up the classes of a signature may flush the class that was looked up;
  it is then reported as unloaded, and never looked up again
  (`ReftypeRefresh.FoundInLastPart`, `LostByItsOwnLookup`).
- A flush sends reference counts as signed 32-bit numbers, so that not all of a
  count from 2^31 on is given back (`ReftypeRuns.FlushGivesBack`).
- json_pop_to_saved_context cannot return to a context that waits for a single
  value once that value has been begun (`JsonClose.PopReaches`).

## Model

| member | source | states |
|---|---|---|
| Lz4Format.CopyMatchIs | lz4.c:1246-1273 | the byte-at-a-time copy of an overlapping match is the one text that starts with what was there and repeats itself at that distance |
| Lz4Format.DecodeSequences | lz4.c:1149-1274 | decoding well-formed sequences that describe a text yields that text and leaves exactly the rest of the block, whatever follows, as long as the end-of-block rules leave room for it |
| Lz4Format.BlockRoundTrip | lz4.c:861-886 | sequences that describe a text, and a final literal run, decode into a buffer of exactly the right size to the text and the run, given at least five final literals and no match starting in the last twelve bytes |
| Lz4Format.MalformedLeft | lz4.c:1282-1284 | wherever decoding fails, it fails within the block: at most as many bytes are left as there were |
| Lz4Decoder.SkipTables | lz4.c:1136-1137 | dec32table and dec64table move the source of a short-offset match by whole multiples of the offset, and the moved source stays inside what has been written |
| Lz4Decoder.PeriodMultiple | lz4.c:1248-1258 | a stretch of bytes with some period also has every multiple of it as a period |
| Lz4Decoder.WidePeriodIsNarrow | lz4.c:1248-1258 | a stretch that continues with a multiple of a period, after a first part that has the period, has the period throughout |
| Lz4Decoder.WildCopy | lz4.c:206-213 | eight bytes at a time, overlapping its own output: everything before the target is kept, and for distances of at least eight every byte up to the end equals the one that far before it |
| Lz4Decoder.CopyFirstEight | lz4.c:1248-1258 | the first eight bytes of a match come out right for every offset, and the copy can go on from a source at least eight bytes back at a multiple of the offset |
| Lz4Decoder.CopyMatchFast | lz4.c:1246-1273 | for every offset of at least one and every length, the table prologue and eight-byte copies write what the byte-at-a-time copy would, failing exactly when the match reaches into the last five bytes |
| Lz4Decoder.Decompress | lz4.c:1110-1290 | on every block and every output size the decoder returns what the reference decoder says: the decoded bytes and their number, or the same negative position of the error |
| Lz4Match.FindMatch | lz4.c:763-784 | whatever the hash table holds, a match that is found lies before the position and repeats at least four bytes, early enough in the input, and the table keeps only earlier positions |
| Lz4Match.CatchUp | lz4.c:786-787 | extending a match backwards keeps its distance, passes neither the anchor nor the start of the input, and the longer stretch still repeats |
| Lz4Match.CommonLengthIsMaximal | lz4.c:315-331 | the common length is the longest stretch that repeats below the limit |
| Lz4Words.NbCommonBytesIs | lz4.c:248-259 | the exclusive-or of two eight-byte words is zero exactly if the bytes are equal; otherwise its trailing zero bits, divided by eight, number the first byte that differs |
| Lz4Words.DeBruijnIsCount | lz4.c:261-262 | multiplying the lowest set bit by the De Bruijn constant and looking up the upper six bits gives the same, for every difference |
| Lz4Match.Count | lz4.c:315-331 | comparing eight bytes at a time by the trailing zero bits of a difference, then four, two and one, gives the length of the longest common prefix up to the limit |
| Lz4Compressor.ChooseLength | lz4.c:817-829 | the match length that is encoded repeats, leaves the last five bytes alone, and its length bytes fit; it is shortened only to end exactly at the reserve |
| Lz4Compressor.WriteMatch | lz4.c:813-839 | patching the token and appending offset and length bytes turns a literal run into one encoded sequence, and changes nothing before it |
| Lz4Compressor.EncodeMatchToFit | lz4.c:813-841 | one more match keeps everything written so far an encoding of the input up to the new anchor, and leaves room and distance for the final run |
| Lz4Compressor.FinalRunFits | lz4.c:861-871 | the shortened final literal run never exceeds the remaining input, fits, wastes at most two bytes and keeps the five final literals and the twelve-byte match limit |
| Lz4Compressor.FinalRunFills | lz4.c:865-870 | a shortened final run fills the destination completely if and only if (room + 239) mod 255 is at least (room + 239) / 255 |
| Lz4Compressor.DestinationNotFilled | lz4.c:894-930 | 300 bytes without a repetition, compressed into a destination of 271, become 270 bytes that decode to the first 268: a byte stays unused, contrary to the comment in lz4.h that the destination is filled completely |
| Lz4Compressor.CompressDestSizeGeneric | lz4.c:722-891 | for every input and every target size: never more than the target is written, what is written decodes to exactly the bytes reported as consumed, and if not everything was consumed at most two bytes stay unused, and none exactly if (room + 239) mod 255 is at least (room + 239) / 255 for the room left at the final run |
| Lz4Compressor.CompressGeneric | lz4.c:435-654 | with the bound's room it always succeeds and stays within n + n/255 + 16; with a limit it gives up or stays inside; whatever it writes decodes to the whole input |
| Lz4Compressor.CompressDestSize | lz4.c:894-930 | the same guarantees for the choice between the two |
| Lz4Compressor.CompressThenDecompress | core.c:319-396 | compressing into a destination of any positive size and decompressing with the reported size gives back exactly the bytes reported as consumed |
| AdbEnc.NeverForbidden | adbenc.c:27-63 | an encoding never contains '~' |
| AdbEnc.RoundTrip | adbenc.c:27-97 | decoding an encoding gives the plain text and ends outside an escape |
| AdbEnc.ResumedRoundTrip | adbenc.c:27-97 | the rest of an encoding that was interrupted inside an escape decodes, from inside the escape, to the rest of the text |
| AdbEnc.DecodingAppend | adbenc.c:65-97 | decoding may be split anywhere |
| AdbEnc.EncodingFromAppend | adbenc.c:27-63 | a resumed encoding of more text is the resumed encoding of the text and the encoding of the rest |
| AdbEnc.Encode | adbenc.c:27-63 | what was written, followed by what the new state has still to write, is the encoding asked for; nothing else in the buffer changes; it stops only when the input or the space is used up |
| AdbEnc.Decode | adbenc.c:65-97 | the bytes written and the new state are the decoding of the bytes taken, and it stops only when the input or the space is used up |
| AdbEnc.ReadAllEncoded | adbenc.c:99-128 | reading in pieces of any size, a wire that starts with the encoding of a text as long as the buffer gives that text, consumes exactly its encoding and ends outside an escape |
| Bits.MaskIsRemainder | ringbuf.c:46-52 | masking with a power of two less one is the remainder |
| Bits.SmearedFills | util.c:837-853 | doubling shifts fill every bit below the highest set one |
| Bits.NextPow2 | util.c:837-853 | the least power of two not below the argument for 1 to 2^63, and 0 for 0 or more |
| RingBuf.CellAdvance | ringbuf.c:46-52 | the cell of a counter moved on, wrapping at the machine word, is the cell moved on around the memory |
| RingBuf.RegionIsWindow | ringbuf.c:79-98 | the two parts of an I/O region, put together, are the bytes from a position on, around the end of the memory |
| RingBuf.RingBuffer.Create | ringbuf.c:30-44 | an empty buffer of the next power of two, or none for a size that is 0 or too large |
| RingBuf.RingBuffer.CopyIn | ringbuf.c:138-146 | bytes are put behind the contents, which stay as they are |
| RingBuf.RingBuffer.NoteAdded | ringbuf.c:100-106 | the contents grow at the end by the bytes that lie behind them |
| RingBuf.RingBuffer.NoteRemoved | ringbuf.c:108-118 | the contents lose their first bytes; counters wrap or start over at zero without any other effect |
| RingBuf.RingBuffer.CopyOut | ringbuf.c:167-175 | the first bytes of the contents, in order, from one or two parts of the memory |
| Messages.ParseInverts | core.c:222-267 | a message at the front of the receive buffer is detected with its size and read back as it was serialized |
| Messages.DetectFirst | core.c:62-83 | with the start of any sequence of messages in a buffer that can hold the largest, the first is found exactly if it is complete, and nothing is ever found impossible |
| Channels.StepContinues | channel.c:206-313 | every read, write, error, close and buffering keeps a channel's numbers in range and its escape state resumable, and never reopens it |
| Channels.Channel.Close | channel.c:255-276 | a destination with bytes left stays open and remembers to close; anything else closes now |
| Channels.Channel.Write | channel.c:206-253 | bytes are passed on directly only if nothing is buffered before them, and otherwise appended; a closed channel swallows them |
| Channels.Channel.PollRead | channel.c:278-313 | what a poll for reading does, by outcome: bytes within room and credit are taken and credit is used up, end of file closes, an error marks the channel as failed; through the escape encoding, chunks are taken and the channel closes exactly if they added nothing |
| Channels.Channel.PollWrite | channel.c:278-313 | what a poll for writing does: bytes leave in order and are counted, a pending close is completed once nothing is left, an error purges the buffer; the same through the escape encoding |
| Channels.Channel.Poll | channel.c:346-370 | what a poll does is a sequence of reads, writes, an error and a closing, each possible in its turn, and nothing if there is neither room to read nor anything to write |
| Channels.Channel.ReadEncoded | channel.c:89-127 | chunks of encoded input of any size are decoded into the buffer with the state carried over; what was added is counted, and is never more than wanted |
| Channels.Channel.WriteEncoded | channel.c:129-192 | with short writes of any size, the bytes on the wire are always a prefix of the encoding of the bytes consumed and still buffered |
| Channels.Channel.ResumeAfter | channel.c:161-187 | re-running the encoder over only the bytes that were written leaves the state and the consumed count from which the rest of the encoding is exactly what has not been written |
| Peer.DoKeeps | core.c:269-462 | every piece of work of the pump and of channel I/O leaves a peer well formed: in particular no message overflows the outgoing ring |
| Streams.DataArrives | core.c:85-116 | a data message taken by the receiver keeps credit, order and the rule that nothing follows the end |
| Streams.EndArrives | core.c:195-206 | after its CLOSE a stream has nothing under way, and a receiver that has closed without an error has written it all |
| Links.MessageTaken | core.c:62-83 | what is in the rings and on the wire always spells, through the escape encoding, the messages handed over and not yet processed; so the first message found is the first one sent |
| Protocol.MoveKeepsInv | core.c:85-462 | whatever either peer does next, credit, order, end and spelling of every stream and link still hold |
| Protocol.InitialInv | cmd_shex.c:2324-2344 | they hold when the channels have been set up |
| Protocol.RunsKeepInv | core.c:85-462 | they hold after every run of the two peers, with any interleaving, partial I/O, temporary and permanent errors |
| Protocol.NeverDies | core.c:99-115 | in no reachable state does a peer find an impossible message, a window desync (core.c:101-104, 143-146), a window overflow (core.c:189-191) or another protocol error: the first message can always be processed |
| Protocol.CreditConserved | core.c:276-292 | a stream's window, buffered bytes, bytes under way, unacknowledged bytes and acknowledgements under way never add up to more than the receiver's capacity, and exactly to it while both ends are open |
| Protocol.DeliveredInOrder | core.c:294-317 | what has been written is a prefix of what was read; while the receiver is open, it, the receiver's buffer, the bytes under way and the sender's buffer make up all that was read |
| Protocol.DeliveredCompletely | core.c:426-462 | a receiver that was told of the end, and has closed without an I/O error, has written all that was read |
| Endpoint.FbAdbSh.XmitAcks | core.c:276-292 | an acknowledgement is sent exactly if there is something to acknowledge and room for it |
| Endpoint.FbAdbSh.XmitDataUncompressed | core.c:294-317 | as much as fits behind the header, possibly nothing, or no message if not even the header fits |
| Endpoint.FbAdbSh.XmitDataLz4 | core.c:319-396 | at most one message, whose block decodes to the bytes taken from the buffer; none exactly if the header does not fit, and an empty one exactly if the limit is the header and one more |
| Endpoint.FbAdbSh.XmitData | core.c:400-424 | no message exactly if there is nothing to send or no room for the header; an empty one exactly at the limit that leaves no room for data, which is five bytes, or eight for 13 bytes or more with compression; from a stuck stream into a closed channel, one that changes nothing and counts as work |
| Endpoint.FbAdbSh.XmitEof | core.c:426-450 | the end is announced exactly if the channel is closed, empty, unannounced and there is room |
| Endpoint.FbAdbSh.DoPendingClose | core.c:452-462 | a destination that has to close does so exactly when nothing is left in its buffer |
| Endpoint.FbAdbSh.ProcessMsg | core.c:222-267 | the first message is taken off and has the effect the protocol model gives it, or the peer dies exactly when that says so |
| PumpRounds.SendProgress | core.c:556-572 | every message sent shrinks the measure of outgoing room, bytes to send and ends to announce, if it carries something or the channel is open |
| PumpRounds.StuckRound | core.c:556-572 | a round that visits a stuck stream counts work, and leaves the outgoing channel closed and the same streams stuck |
| PumpRounds.VisitsUnless | core.c:544-562 | a round passes over a stream if and only if the 32-bit turn it starts with is the one that makes the counter overflow there |
| PumpRounds.EndlessGoesOn | core.c:556-572 | if the outgoing channel is closed, or closes in this round before anything is sent, and two streams are or would be stuck, the round counts work and the same holds for the next: there is no last round |
| PumpRounds.EndComesNearer | core.c:556-572 | in every other case a round that counts work lowers a rank of bytes and room left and of the turns up to the overflow, and the next round is such a case again |
| PumpRounds.AbandonedEndless | core.c:556-572 | a peer of that kind, with two streams of 13 bytes and a limit of five bytes, or eight with compression |
| PumpRounds.OneSenderEnds | cmd_shex.c:2324-2344 | an end with at most one stream to send, as the client is, is never of that kind: there the pump always ends |
| Endpoint.FbAdbSh.SendRound | core.c:556-572 | one round does to the peer what the analysis of rounds says, and advances the 32-bit turn |
| Endpoint.FbAdbSh.SendAtMost | core.c:556-572 | the loop of the rounds, cut off after any number of them: it has never ended in the case without a last round, and in every other it has after as many rounds as the rank |
| Endpoint.FbAdbSh.SendAll | core.c:556-572 | so the loop itself terminates in every other case, with no channel left with anything it could do if the last round visited them all |
| PumpRounds.AcksKeepEnd | core.c:544-554 | acknowledgements never decide whether the rounds have an end, nor put it off: where two streams would stick, an empty outgoing channel has no room for one |
| Endpoint.EndlessIfMayBe | core.c:522-572 | whatever receiving makes of a peer, its rounds have an end unless two streams stick and the outgoing channel is closed, or empty and about to close; for a closed channel they have one only then |
| Endpoint.FbAdbSh.Pump | core.c:522-572 | if the rounds have an end after whatever receiving may make of the peer, and unless a message cannot be processed, the pump terminates with no whole message left, acknowledgements sent or no room for them, and no channel left with anything it could do; its effect is a sequence of the protocol model's steps |
| Endpoint.FbAdbSh.PumpAtMost | core.c:522-572 | the pump cut off after any number of rounds has never ended if the rounds of the peer that receiving has left have no end, and has after as many as its rank if they have one |
| PumpRounds.RoundVisits | core.c:544-562 | a round visits every channel if and only if its 32-bit counter does not overflow on the way |
| Session.PumpReaches | core.c:522-572 | what the pump does leads from one reachable state of the two peers to another |
| Session.PollReaches | channel.c:346-370 | so does what a poll of any channel does, with what it reads from the other end taken off the wire |
| Session.PumpNeverDies | core.c:522-572 | in a reachable state the pump never meets a message it has to reject |
| SplayTrees.WholeInOrder | tree.h:110-115 | putting the two paths and the middle of a split tree together keeps its in-order sequence |
| SplayTrees.WholeOrdered | tree.h:110-115 | and gives a search tree |
| SplayOps.SplayTree.RotateRight | tree.h:86-90 | a rotation through two links keeps the split well linked, ordered and in the same sequence |
| SplayOps.SplayTree.LinkLeft | tree.h:98-102 | moving the root to the right path keeps the split well linked, ordered and in the same sequence, though one link is left stale |
| SplayOps.SplayTree.Assemble | tree.h:110-115 | the four assignments make one well-linked search tree of the split, in the same sequence |
| SplayOps.SplayTree.Splay | tree.h:219-252 | the in-order sequence and the nodes stay the same, and the root has the sought key or no other key lies between the two |
| SplayOps.SplayTree.Find | tree.h:132-141 | the node with the key if there is one, else null |
| SplayOps.SplayTree.Next | tree.h:143-155 | the node after the given one in order, else null |
| SplayOps.SplayTree.Insert | tree.h:174-195 | the node is inserted in its place, or the one that has the key already is returned and nothing changes |
| SplayOps.SplayTree.Remove | tree.h:197-217 | exactly the node with the key goes, and the rest keep their order |
| SplayOps.SplayTree.MinMax | tree.h:257-288 | the first or the last node in order is returned, at the root |
| SplayOps.LookupIsMap | tree.h:132-141 | looking a key up in the sequence is looking it up in the finite map it spells |
| SplayOps.InsertedIsMap | tree.h:174-195 | insertion extends the map by one entry and keeps the order |
| SplayOps.RemovedIsMap | tree.h:197-217 | removal takes one key out of the map and keeps the order |
| SplayOps.FollowerIsNext | tree.h:143-155 | the follower has the least key above the node's, and there is none only if no key is above it |
| JdwpRouting.Proxy.MakeId | cmd_jdwp.c:1969-1977 | the first number from the counter on, around 2^32, that no pending command has |
| JdwpRouting.Proxy.SendCommand | cmd_jdwp.c:2094-2102 | a command from the debugger gets a number no pending command has, and is remembered with its own; if it will be answered, that is the run's event of asking |
| JdwpRouting.Proxy.RouteReply | cmd_jdwp.c:2105-2132 | a reply goes out under the original number of the first pending command with its number, which is then no longer pending; a reply to none is dropped |
| JdwpRouting.Proxy.HandleFromApp | cmd_jdwp.c:4847-4874 | the next packet from the app, a deferred one first, is the run's event of delivery: a reply goes to the debugger as the answer it records, a command as it is |
| JdwpRouting.Proxy.AwaitReply | cmd_jdwp.c:3364-3389 | deferred packets and packets still to come are, together, what they were minus the first reply to the transaction, in the same order, although both lists insert at the head |
| JdwpRouting.Proxy.Transact | cmd_jdwp.c:3349-3398 | a question of the proxy's own gets a free number, and whatever the app does meanwhile the reply comes exactly if the run can end the transaction, with the packets it then leaves |
| JdwpRouting.EventKeeps | cmd_jdwp.c:1733-1769 | whatever the debugger, the app or the proxy does next, all answers owed or on their way are awaited by exactly one command |
| JdwpRouting.NumbersDistinct | cmd_jdwp.c:1969-1977 | in every run, pending commands have different numbers, and the proxy's own command yet another |
| JdwpRouting.AnsweredOnce | cmd_jdwp.c:2118-2132 | in every run, the debugger sees at most one answer to each command, under that command's own number |
| JdwpRouting.ReplyRouted | cmd_jdwp.c:2118-2185 | in every run, each reply read between transactions answers a pending command and goes to the debugger as its answer |
| JdwpRouting.OwnAnswered | cmd_jdwp.c:3360-3371 | the reply a transaction takes is the one to its own command |
| ReftypeCache.Proxy.ListDisposals | cmd_jdwp.c:4308-4331 | the packet lists the first entries of the cache in order of ID with their counts, although every step restructures the tree |
| ReftypeCache.Proxy.RemoveFirst | cmd_jdwp.c:4333-4343 | exactly those entries are removed, and their fake types forget them |
| ReftypeCache.Proxy.Flush | cmd_jdwp.c:4348-4371 | if a packet can hold one entry, every cached ID is given back exactly once with its count, every packet fits the limit and is not empty, and the cache ends empty; otherwise nothing happens |
| ReftypeCache.Proxy.Translate | cmd_jdwp.c:4373-4442 | the tables afterwards are those of the abstract translation; the answer is the class's fake ID; what was flushed to make room is given back in full |
| ReftypeCache.Proxy.TranslateBack | cmd_jdwp.c:4504-4529 | the tables and the answer are those of the abstract translation back, refreshing the classes of the signature if need be |
| ReftypeTable.FlushedOk | cmd_jdwp.c:4308-4371 | flushing forgets every real type and nothing else |
| ReftypeTable.FakeIsFree | cmd_jdwp.c:4408-4410 | the fake type of a class that is not cached knows no real type: the assertion in translate_and_cache_real_reftype holds |
| ReftypeTable.TranslatedOk | cmd_jdwp.c:4373-4442 | a translation keeps real and fake types mutually inverse, gives the class its one fake ID and never changes or reuses another |
| ReftypeRuns.FlushGivesBack | cmd_jdwp.c:4318-4331 | after a flush the VM counts no reference but to the type just received, if and only if every count was below 2^31, since counts are sent as signed 32-bit numbers |
| ReftypeRuns.FakesLast | cmd_jdwp.c:4424-4435 | over whole runs, with flushes and with classes coming and going in the VM, a fake ID keeps its class and new ones are above all old ones |
| ReftypeRuns.CachedBothWays | cmd_jdwp.c:4373-4442 | in every run, a cached ID's fake stands for it and for the class the VM gives it: there and back is the identity |
| ReftypeRuns.CountsAgree | cmd_jdwp.c:4399-4400 | in every run, the proxy's reference counts are the VM's |
| ReftypeRefresh.FoundIfCached | cmd_jdwp.c:4504-4529 | a fake type whose real type is cached is translated to it, and nothing changes |
| ReftypeRefresh.Survives | cmd_jdwp.c:4373-4387 | a cached type outlasts a refresh if and only if everything new in the list fits into the cache beside what is there |
| ReftypeRefresh.FoundIfItFits | cmd_jdwp.c:4504-4529 | a fake type whose class the VM lists is translated back if and only if what the list names after it fits into the cache; otherwise the class is taken for unloaded |
| ReftypeRefresh.FoundInLastPart | cmd_jdwp.c:4504-4529 | from the table before and the list alone: the class is found if and only if the list overflows the cache nowhere, or no further overflow follows the class, the first being at the first place without room and then one every cacheMax places |
| ReftypeRefresh.LostToTheNext | cmd_jdwp.c:4504-4529 | in any table with one free place in the cache, of two classes with one signature the first is cached, flushed for the second, and marked as unloaded |
| ReftypeRefresh.LostByItsOwnLookup | cmd_jdwp.c:4516-4527 | there is such a table for a cache of every size |
| Utf8.WholeIsChar | utf8.c:25-44 | the byte ranges of RFC 3629 section 4 describe exactly the encodings of section 3 |
| Utf8.PartialIsBegun | utf8.c:25-44 | a string has begun a character by those ranges exactly if some encoding properly extends it |
| Utf8.DecodeMeans | utf8.c:46-51 | one step of the table automaton accepts exactly when a character is complete, rejects exactly when none can follow, and else is in the state for what has been read |
| Utf8Repair.BadLengthLongest | json.c:265-275 | an ill-formed run is the longest beginning of a character, or a single byte if none begins there |
| Utf8Repair.FeedByteMeans | json.c:251-282 | taking one more byte, reconsidering it if it breaks off a character, finds what cutting up the whole string finds |
| Utf8Repair.FeedAll | json.c:245-310 | reading a string byte by byte and ending it cuts it into the characters and ill-formed runs it consists of |
| Utf8Repair.FeedAppend | json.c:245-283 | it makes no difference where the string is split |
| Utf8Repair.WellFormedUnharmed | json.c:251-264 | a string that is UTF-8 already is read as the characters it encodes |
| JsonText.StringInverts | json.c:207-229 | a reader of RFC 8259 section 7 finds the characters that were written, and U+FFFD for every ill-formed run |
| JsonValue.NumberEnds | json.c:343-361 | a decimal number is read to its end and no further |
| JsonValue.ValueInverts | json.c:141-156 | parsing a printed value followed by anything that cannot continue it gives the value's meaning and the rest |
| JsonValue.RoundTrip | json.c:141-156 | what is printed for a value is a JSON text that parses to what the value means |
| JsonDoc.AttachText | json.c:151-156 | a completed value adds its own text to everything written for the containers around it, and nothing else |
| JsonDoc.AfterText | json.c:141-377 | every call leaves a proper stack of contexts, and adds to the text just what the value under construction needs |
| JsonClose.PopReaches | json.c:385-413 | popping to a saved context succeeds if and only if nothing has been begun in it or it is an array or object; then it completes everything inside and leaves everything around alone |
| JsonClose.SlotUsedUp | json.c:409-412 | a saved slot for a value in which something has been begun is used up: the writer closes everything and dies |
| JsonClose.Completable | json.c:385-413 | every text the writer has begun can be continued to a JSON text, if need be after completing a character in a writer that would die of its loss |
| JsonClose.RunParses | json.c:158-377 | calls that empty the context stack have written one JSON text that parses to the value they describe |
| JsonClose.StringInParts | json.c:244-311 | a string given in any parts is the string of all its bytes, repaired; the writer dies of it if and only if it is set to and those bytes are ill-formed somewhere |
| JsonWriter.Writer.EmitPart | json.c:244-283 | the loop that steps its index back terminates, never fills its buffer of five, and writes the repaired bytes; it dies exactly if it must on an ill-formed run |
| JsonWriter.Writer.BeginArray | json.c:173-179 | accepted exactly where a value may begin; text, contexts and described value stay in step |
| JsonWriter.Writer.EndArray | json.c:181-188 | accepted exactly in an array; the array becomes part of what is around it |
| JsonWriter.Writer.BeginField | json.c:312-325 | accepted exactly in an object between fields; the name is repaired and a value is to come |
| JsonWriter.Writer.EmitStringPart | json.c:244-283 | accepted exactly in a string, unless the writer dies on ill-formed UTF-8 |
| JsonWriter.Writer.EndString | json.c:301-310 | what is left in the buffer counts as one ill-formed run, and the string becomes part of what is around it |
| JsonWriter.Writer.EmitString | json.c:327-335 | a whole string at once |
| JsonWriter.Writer.EmitInteger | json.c:343-361 | accepted exactly where a value may begin; the number becomes a value of what is around it, spelled in decimal |
| JsonWriter.Writer.EmitBool | json.c:371-377 | the same for true and false |
| JsonValue.DigitsInvert | json.c:343-361 | the decimal digits of a number have its value |
| JsonWriter.Writer.PopToSaved | json.c:385-413 | does what popping to a saved context should, and fails where that cannot be reached |
| Sha256Words.LoadReversed | sha2.c:136-140 | a little-endian word, reversed by REVERSE32, is the big-endian word of its bytes |
| Sha256Words.StoredReversed64 | sha2.c:141-148 | a count reversed by REVERSE64 and stored is the big-endian count |
| Sha256Context.CircularMore | sha2.c:487-496 | sixteen words in a circle hold what the next schedule word needs, and overwriting the oldest keeps them the latest sixteen |
| Sha256Context.Context.FirstRounds | sha2.c:463-485 | rounds 0 to 15 on the block, also when it lies in the buffer that is being overwritten |
| Sha256Context.Context.LaterRounds | sha2.c:487-508 | rounds 16 to 63 with the circular schedule are those with the schedule of 64 words |
| Sha256Context.Context.Transform | sha2.c:446-522 | the chaining value becomes that of FIPS 180-4 section 6.2.2 for the block |
| Sha256Context.Context.Update | sha2.c:526-572 | after any number of calls, whole blocks of all bytes given so far have been hashed and the rest is in the buffer |
| Sha256Context.Context.Final | sha2.c:574-637 | the digest of all bytes given is the one-shot digest of the padded message, and the context is cleared |
| Sha256Context.OneMoreBlock | sha2.c:588-618 | up to 55 left-over bytes and the padding of FIPS 180-4 section 5.1.1 make up one block |
| Sha256Context.TwoMoreBlocks | sha2.c:596-618 | more make up two |

## Left out

- Lz4Decoder.Decompress: says nothing about a block with a zero offset beyond staying inside the output buffer, because its result depends on what the buffer held; and it requires that the bytes of the first literal length exist, since the code reads them before it checks. Endpoint.FbAdbSh.Unpack treats shorter blocks as undecodable.
- Lz4Match.Count: only 64-bit little-endian machines.
- Lz4Compressor.CompressGeneric: only the 16-bit hash table, which every call from the protocol uses; the 32-bit and pointer tables, streaming, dictionaries and partial decoding are not modelled, nor is memory beyond the arrays, which is why eight-byte copies past the wanted end stay within explicit bounds instead.
- Lz4Decoder.CopyFirstEight: copies inside one buffer are modelled as reading all bytes before writing any, for four or eight bytes; the overflow checks on pointers never apply to unbounded numbers.
- Endpoint.FbAdbSh.ProcessMsg: a message for the channel number just past the last, which the code lets through, is treated as a protocol error; a compressed block with a zero offset may be delivered as anything of the right length, and what follows it is then not tied to the protocol model. MSG_ERROR and the other messages, queue_message_synch, signals and terminals are not modelled.
- Endpoint.FbAdbSh.Pump: if the outgoing channel is open, empty and about to close, and two streams would stick, whether the rounds have an end depends on how much of the messages just received was written directly; the condition speaks of all that can have been.
- Channels.Channel.Write: the ring buffer inside a channel is its contents; that the ring buffer is such a queue is shown separately. The nonblocking hack and the poll descriptors are not modelled; errors in a read or write are an outcome of the call.
- Protocol.NeverDies: both ends run this code with the channels of a shell session, five on each side, and outgoing limits that fit the other end's receive buffer.
- AdbEnc.ReadAllEncoded: a read that fails is the end of the wire; write_all_adb_encoded, which counts encoded bytes as plain ones, is not modelled.
- SplayOps.SplayTree.MinMax: shares the loop of Splay, with a key below or above all others, instead of repeating it. Keys are 64-bit numbers; trees ordered by other comparisons are not modelled.
- JdwpRouting.EventKeeps: the app answers every command it can answer once, with its number; the narrowing of an ID in error replies, and errors of a transaction, are not modelled. Packets have a number and say what they answer, and no other content.
- ReftypeRuns.FakesLast: fake IDs are unbounded, class loaders are part of a class's name, and the VM names a class by one ID while the proxy holds it; in the runs counts are below 2^31, and a VM that is asked to take back a negative number of references takes back none. Status, type tags, class-loader disposal and the reply that lists all classes are not modelled.
- ReftypeCache.Proxy.Translate: the tables of fake types are maps; the splay trees they are kept in have the same operations as the one that is modelled. A node and the type it carries are two objects instead of one.
- ReftypeRefresh.FoundIfItFits: the list of classes is given; parsing the VM's answer is not modelled.
- JsonValue.RoundTrip: numbers are compared as the tokens that spell them, and repeated names in an object are kept as they come.
- JsonWriter.Writer.EmitPart: the replacement for ill-formed runs is the default one; errors of the output file are not modelled. After the writer has died of ill-formed UTF-8 nothing is claimed about it.
- Sha256Context.Context.Final: the message is shorter than 2^64 bits, as FIPS 180-4 requires; a big-endian machine, the unrolled rounds, SHA-384 and SHA-512 are not modelled.
- Sending JDWP packets, heap dumps, compound JDWP values, tar, ELF, red-black trees, shell quoting, argument parsing, processes, daemons and the commands themselves would only add easy members or depend on what is not part of this model.
