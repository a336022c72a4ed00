# Hysteria: a Dafny model of its protocol core

This project models the parts of the Hysteria implementation whose correctness does not depend on I/O, and proves
what they promise: the ACL glob matcher, the wire codecs, UDP fragmentation end to end, the Gecko and Salamander
obfuscators, the send queue shared by sockets and their worker, the server's UDP session table, the Brutal congestion
controller, the QUIC sniffer's frame and packet-number decoding, the realm client's event reader, STUN responses and
hole-punch candidates.

`dafny verify dfyconfig.toml` checks all of it.

## How to read it

Bytes are integers below 256 and text is its UTF-8 bytes. Masks, shifts and or-ing of disjoint bits are written as the
arithmetic they amount to; XOR is computed bit by bit. Wrap-around and saturation are written out wherever a machine
width matters. Randomness, clocks, the hash function, UTF-8 validation and JSON parsing are parameters, so every
statement holds for all of them.

| file | what it holds |
|---|---|
| `Bytes`, `Sets`, `Slots`, `Subsequences` | bytes, big-endian numbers, XOR, concatenation; set sizes; slots that fill one at a time; subsequences |
| `Varint`, `Proxy` | QUIC varints (RFC 9000, section 16) and the Hysteria stream and datagram messages |
| `Fragment`, `FragmentRuns` | splitting and the single-slot defragmenter; the defragmenter on arbitrary arrivals |
| `UdpPipeline`, `UdpMixing`, `UdpInOrder`, `UdpLongRun` | sender and receiving session; safety over any channel; delivery over an order-keeping one; a run that shows where both end |
| `Salamander`, `Gecko`, `Reassembler`, `GeckoRuns`, `GeckoMixing`, `GeckoShutOut` | masking, framing, the reassembly table, whole runs of the receiver, sender and receiver together, a source at its cap |
| `SendQueue` | the bounded queue, its wakers and the worker, as a state machine over atomic steps |
| `Sessions` | the UDP receive loop interleaved with its session tasks |
| `Brutal` | the sample ring against a log of calls; rate, window and pacing bounds |
| `QuicSniff` | packet numbers (RFC 9000, appendix A.3) and CRYPTO frames (section 19.6) |
| `EventStream` | the chunked line reader against a reading of the whole input |
| `Stun`, `Punch` | the STUN attribute walk (RFC 5389, sections 6, 15.1, 15.2); candidate expansion |
| `Wildcard` | the greedy matcher against the declarative glob |

Code that updates fields or arrays is modelled by classes and loops, each proved equal to a function on values; the
results about whole runs are then lemmas about those functions.

## What turned out not to hold as one might expect

Each of these is proved of the code as it is; where a promise fails, the exact condition under which it holds is proved.

- The glob matcher tests for equal bytes before it tests for `*`, so a `*` byte in the value forces the pattern's `*`
  to be literal. It agrees with the glob for every pattern if and only if `*` occurs nowhere in the value except
  possibly as its last byte (`Wildcard.AgreesWithGlobExactlyWhen`).
- A TCP request with an empty address, and a UDP message with an empty address or empty data, can be written but are
  refused when read (`Proxy.RequestRoundTrip`, `Proxy.UdpRoundTrip`).
- Pieces of two split messages of a session under one packet id and piece count can be joined into one message. Over
  all channels, everything handed up was submitted if and only if every such piece-wise mix is itself a submission
  (`UdpMixing.SafeExactlyWhen`). Even with the session's own order kept and nothing lost, a message is lost exactly when
  it repeats the id and count of the session's previous split message (`UdpInOrder.InOrderDeliversExactlyWhen`).
  Neither happens within 65535 calls of a sender, and both happen in a run of 65536 (`UdpLongRun`).
- Gecko message ids repeat after 256 long-header packets of a socket, whatever their destinations, and nothing outside
  the tests expires entries, so chunks of two packets to one destination can meet in one entry. Every packet reassembled
  there was sent there if and only if every chunk-wise mix of packets to it under one id and count was
  (`GeckoMixing.SafeExactlyWhen`): so for any 256 packets of the socket, and not for a run of 257 to one destination.
- Eight incomplete messages shut a source out: for as long as nothing arrives under them and none expires or is
  evicted, no frame of it for another message is stored or handed up (`GeckoShutOut.ShutOut`), and eight first chunks
  bring that about (`GeckoShutOut.CapIsReachable`).
- The ack rate can leave the interval from 4/5 to 1 exactly when the multiplied counters saturate although fewer than
  four fifths of the packets were acknowledged (`Brutal.RateSoundExactlyWhen`). The window is at least twice the
  bandwidth-delay product exactly when 128 bits can express so wide a window at the current rate
  (`Brutal.WindowBounds`), which is so below 18.4 billion acknowledgements in five seconds (`Brutal.CalmRatesFit`).
- The port-hopping socket's drop uses `notify_waiters`, which stores no permit; its worker can then be parked for good,
  in exactly the states `SendQueue.HoppingDropStrandsExactlyWhen` names. The other two sockets use `notify_one`, for
  which the shutdown wake-up is never lost.
- A worker that stops wakes nobody, so the drop of a socket can leave a registered waker behind for good, exactly when
  it does not find the worker past its check and about to pop (`SendQueue.DropLeavesWakerExactlyWhen`). Of the groups
  queued at the drop the worker takes the one it is about to pop, if any, and leaves the rest, which can be all 1024
  that were accepted (`SendQueue.StoppedWorkerLeavesQueue`, `SendQueue.DropCanLoseAll`).
- Truncated packet numbers also decode outside their window at both ends of the number space, and nowhere else
  (`QuicSniff.PacketNumberDecodesExactlyWhen`).
- The event reader's documentation speaks of oversized events; the code limits the buffered bytes plus the arriving
  chunk. Some call trips the limit if and only if some chunk does not fit beside the unfinished line before it
  (`EventStream.TripsExactlyWhen`), so one large chunk of blank lines trips it and the same bytes in two chunks do not
  (`EventStream.LargeChunkTrips`).
- A punch event whose data does not parse is reported and its data kept. It spoils the punch events that follow, each
  parsed from the old data joined with its own, until one of them parses or an event of another name clears it
  (`EventStream.WrittenEventIsRead`, `EventStream.BadEventSpoilsNext`).
- The session token is never what saves a later session's entry: until the loop ends, a finishing task's entry is
  always its own (`Sessions.FinishRemovesOwnEntry`).

## Model

| member | source | states |
|---|---|---|
| Wildcard.WildcardMatches | crates/hysteria/src/outbound.rs:565-586 | the loop ends in bounds and returns the literal-first reading for every pattern and value; true implies the glob accepts; with `*` at most last in the value, true exactly when the glob accepts |
| Wildcard.AgreesWithGlobExactlyWhen | crates/hysteria/src/outbound.rs:565-586 | the values on which matcher and glob agree for all patterns are exactly those with no `*` before their last byte |
| Wildcard.LiteralFirstIsSound | crates/hysteria/src/outbound.rs:569-585 | whatever the matcher accepts the glob accepts, for all inputs |
| Wildcard.GlobIsLiteralFirst | crates/hysteria/src/outbound.rs:569-585 | the converse, for values with `*` at most last |
| Wildcard.InteriorStarFails | crates/hysteria/src/outbound.rs:570-576 | for every value with an interior `*`, a pattern the glob accepts and the matcher refuses |
| Wildcard.ShiftedSegment | crates/hysteria/src/outbound.rs:577-580 | why remembering one `*` suffices: no later start of a matched segment reaches the rest earlier |
| Wildcard.OneByte | crates/hysteria/src/outbound.rs:573-576 | the asterisk alone accepts everything, any other byte only itself |
| Varint.DecodeVarintLoop | crates/hysteria-protocol/src/varint.rs:47-59 | the shifting loop equals the sniffer's fold on every input, truncated ones included |
| Varint.VarintRoundTrip | crates/hysteria-protocol/src/varint.rs:7-40 | every value up to 2^62-1 decodes to itself from exactly `varint_len` bytes |
| Varint.EncodingIsShortest | crates/hysteria-protocol/src/varint.rs:7-14 | decoded values fit 62 bits and no shorter string encodes them |
| Varint.VarintUniquePerLength | crates/hysteria-protocol/src/varint.rs:21-40 | one encoding per value and length |
| Varint.EveryLengthIsRead | crates/hysteria-protocol/src/varint.rs:47-59 | each of the four lengths with room for a value is read as it, shortest or not |
| Varint.FailsExactlyWhen | crates/hysteria-protocol/src/varint.rs:21-59 | reading fails exactly on input shorter than its first byte announces, writing exactly beyond 62 bits |
| Varint.ReadIgnoresSuffix | crates/hysteria-protocol/src/varint.rs:47-59 | decoding reads exactly its own bytes and leaves the rest |
| Varint.AcceptedPrefix | crates/hysteria/src/sniff.rs:336-349 | an accepted input is an encoding of the value followed by what is left |
| Proxy.RequestRoundTrip | crates/hysteria-protocol/src/proxy.rs:21-74 | writable exactly within limits; read back from the front of any stream, leaving it, exactly when the address is not empty |
| Proxy.RequestBodyExactlyWhen | crates/hysteria-protocol/src/proxy.rs:56-73 | the body decoder accepts exactly the length-prefixed addresses of 1 to 2048 bytes followed by lawful padding |
| Proxy.RequestExactlyWhen | crates/hysteria-protocol/src/proxy.rs:43-49 | the request decoder accepts exactly frame type 0x401 followed by such a body |
| Proxy.SkipPaddingExactlyWhen | crates/hysteria-protocol/src/proxy.rs:64-70 | padding is skipped exactly when it is length-prefixed and at most 4096 bytes |
| Proxy.ResponseRoundTrip | crates/hysteria-protocol/src/proxy.rs:88-129 | writable exactly within limits, and then read back leaving the stream |
| Proxy.ResponseExactlyWhen | crates/hysteria-protocol/src/proxy.rs:109-129 | accepts exactly a status byte, a message of at most 2048 bytes and lawful padding; success exactly for status 0 |
| Proxy.UdpRoundTrip | crates/hysteria-protocol/src/proxy.rs:143-206 | writable exactly within the address limit, in exactly `encoded_size` bytes; read back exactly when address and data are not empty, with the error otherwise |
| Proxy.UdpDecodeIsFaithful | crates/hysteria-protocol/src/proxy.rs:180-205 | an accepted datagram is the encoding of its value, byte for byte, exactly when no longer than it |
| Proxy.UdpExactlyWhen | crates/hysteria-protocol/src/proxy.rs:180-215 | the decoder accepts exactly the eight fixed bytes, a length-prefixed address of 1 to 2048 bytes and some data, with a length varint of any lawful length |
| Proxy.FixedBytes | crates/hysteria-protocol/src/proxy.rs:88-173 | the eight fixed bytes of a datagram and the status byte of a response |
| Proxy.RequestErrors | crates/hysteria-protocol/src/proxy.rs:43-73 | which error each refused request gets |
| Proxy.MessageErrors | crates/hysteria-protocol/src/proxy.rs:109-205 | which error each refused response or datagram gets |
| Proxy.ShortAndLong | crates/hysteria-protocol/src/proxy.rs:21-232 | input that ends within a length, and lengths over the limits when writing |
| Fragment.FragmentUdpMessage | crates/hysteria-protocol/src/fragment.rs:8-32 | the splitter's result; when it splits, 2 to 255 numbered non-empty pieces that fit, alike but for their data, which concatenates to the message's |
| Fragment.SplitLoop | crates/hysteria-protocol/src/fragment.rs:22-30 | the loop pushes exactly the ceiling's number of pieces, each the next slice |
| Fragment.FragmentsAreLawful | crates/hysteria-protocol/src/fragment.rs:15-31 | every message that splits does so lawfully, every piece fits and all but the last are full |
| Fragment.SplittingFailsExactlyWhen | crates/hysteria-protocol/src/fragment.rs:12-21 | nothing is returned exactly when the header leaves no room, an error exactly when 255 pieces cannot hold the data; a message that fits is passed through |
| Fragment.TooManyNamesTheCount | crates/hysteria-protocol/src/fragment.rs:17-21 | the error names how many pieces it would take |
| Fragment.Defragger.constructor | crates/hysteria-protocol/src/fragment.rs:35-40 | starts empty |
| Fragment.Defragger.Accept | crates/hysteria-protocol/src/fragment.rs:45-81 | the in-place step is the step on values that the run lemmas are about |
| Fragment.FeedFreshPiece | crates/hysteria-protocol/src/fragment.rs:54-58 | a piece under a new id or count starts over with just itself |
| Fragment.FeedHeldPiece | crates/hysteria-protocol/src/fragment.rs:59-79 | a repeat changes nothing; the last missing piece hands up all the data joined, with its own address |
| Fragment.AnyOrderJoins | crates/hysteria-protocol/src/fragment.rs:45-81 | numbered pieces of whatever origin, in any order with any repeats: exactly the last missing one hands up what they join to |
| Fragment.AnyOrderReassembles | crates/hysteria-protocol/src/fragment.rs:45-81 | pieces in any order with any repeats, from any state not already reserved for that id and count: exactly one arrival, the last missing one, hands up the original with fragment fields 0 and 1 |
| FragmentRuns.SlotsHoldFirstPieces | crates/hysteria-protocol/src/fragment.rs:45-81 | on arbitrary arrivals the slot belongs to the latest piece's id and count, and holds the first piece of each number since it was last taken over |
| FragmentRuns.HandsUpExactly | crates/hysteria-protocol/src/fragment.rs:45-81 | exactly what every arrival hands up after anything: itself if not split, the first data of every number if it completes the stretch, else nothing |
| FragmentRuns.StretchHasOneKey | crates/hysteria-protocol/src/fragment.rs:54-58 | all pieces since the slot was taken over are under one id and count |
| UdpPipeline.DatagramSender.NextPacketId | crates/hysteria-transport/src/udp.rs:57-69 | the loop over the wrapping counter ends and yields a non-zero id |
| UdpPipeline.IdsRepeatExactlyEveryPeriod | crates/hysteria-transport/src/udp.rs:57-69 | ids are never 0 and two draws agree exactly when a multiple of 65535 apart, across the 32-bit wrap |
| UdpPipeline.DatagramSender.Send | crates/hysteria-transport/src/udp.rs:25-55 | the counter a call leaves, why it is refused if it is, and otherwise the datagrams it sends in order, each within the connection's limit, up to the first the connection refuses |
| UdpPipeline.RefusedExactlyWhen | crates/hysteria-transport/src/udp.rs:25-55 | a call is refused exactly when it has nothing to put on the wire |
| UdpPipeline.PlanShape | crates/hysteria-transport/src/udp.rs:25-45 | a call sends nothing, the message, or a lawful fragmentation under the next id; PlanBySizes says which |
| UdpPipeline.PlanBySizes | crates/hysteria-transport/src/udp.rs:25-45 | by sizes alone: the message as it is exactly when it fits both limits, nothing exactly when it cannot be sent, a fragmentation otherwise; an id is drawn exactly when the message exceeds the connection's limit but not 4096 bytes |
| UdpPipeline.DatagramsFit | crates/hysteria-transport/src/udp.rs:25-55 | no datagram exceeds the connection's limit or 4096 bytes |
| UdpPipeline.RefusalBySizes | crates/hysteria-transport/src/udp.rs:25-55 | which refusal a call gets, by sizes alone |
| UdpPipeline.ShortRunsHaveDistinctIds | crates/hysteria-transport/src/udp.rs:57-69 | any 65535 calls have distinct ids, so every session has distinct keys |
| UdpPipeline.IncomingIsGenuine | crates/hysteria-transport/src/udp.rs:97-114 | what reaches a session was sent for it |
| UdpMixing.FeedStaysMixed | crates/hysteria-transport/src/udp.rs:193-204 | when mixes are submissions, the slot only ever holds pieces of calls under its key, and hands up only submitted data |
| UdpMixing.SafeExactlyWhen | crates/hysteria-transport/src/udp.rs:25-69 | over all losing, reordering, repeating channels: everything a session hands up was submitted for it exactly when every piece-wise mix of its split calls under one id and count is itself submitted |
| UdpMixing.MixCanBeHandedUp | crates/hysteria-protocol/src/fragment.rs:54-79 | for every mix a channel that makes the session hand it up, with the address of any of its calls |
| UdpMixing.ReceivedWasSubmitted | crates/hysteria-transport/src/udp.rs:25-69 | hence with distinct ids or counts everything handed up was submitted |
| UdpLongRun.LongRunMixes | crates/hysteria-transport/src/udp.rs:57-69 | a run of 65536 calls, from any counter, that some channel makes hand up data nobody submitted |
| UdpLongRun.LongRunCollides | crates/hysteria-transport/src/udp.rs:57-69 | the same run, in order and without loss, loses its last call |
| UdpInOrder.DeliverableBySizes | crates/hysteria-transport/src/udp.rs:25-45 | which calls are to be delivered to a session, by address, data and sizes alone |
| UdpInOrder.InOrderMessage | crates/hysteria-protocol/src/fragment.rs:45-81 | a message in order gives one result and leaves the slot full |
| UdpInOrder.FullSlotIgnores | crates/hysteria-protocol/src/fragment.rs:54-61 | pieces under a full slot's id and count are all dropped |
| UdpInOrder.IncomingOfOwn | crates/hysteria-transport/src/udp.rs:97-114 | what reaches a session depends only on the datagrams that carry its id |
| UdpInOrder.InOrderDeliversExactlyWhen | crates/hysteria-transport/src/udp.rs:25-45 | over a channel that keeps the session's own order, however it interleaves the others, its output equals its input exactly when no split message repeats the previous one's id and count |
| UdpInOrder.ShortRunsDeliverExactly | crates/hysteria-transport/src/udp.rs:25-69 | hence any 65535 calls are delivered exactly |
| Salamander.MaskInvolution | crates/hysteria-obfs/src/salamander.rs:64-69 | masking twice is the identity |
| Salamander.ObfuscateRoundTrip | crates/hysteria-obfs/src/salamander.rs:60-89 | for every password, digest and salt, a payload comes back unless empty, which is refused |
| Salamander.DeobfuscateRoundTrip | crates/hysteria-obfs/src/salamander.rs:78-89 | every accepted packet is the masked form of what it opens to |
| Salamander.WireBytes | crates/hysteria-obfs/src/salamander.rs:60-100 | on the wire: the salt, then each byte with the bits of the digest of password and salt flipped, repeating every 32 bytes |
| Gecko.FrameRoundTrip | crates/hysteria-obfs/src/gecko.rs:93-134 | encodable exactly with count 2 to 8, index below it and padding up to 65535; then decodes to itself |
| Gecko.DecodeFrameIsFaithful | crates/hysteria-obfs/src/gecko.rs:112-134 | re-encoding a decoded frame restores all but the unused bits of the first byte |
| Gecko.DecodeFrameExactlyWhen | crates/hysteria-obfs/src/gecko.rs:112-134 | a datagram decodes to a frame exactly when it is that encoding with the flag bit set, the other bits of the first byte aside |
| Gecko.FrameBytes | crates/hysteria-obfs/src/gecko.rs:93-105 | the five header bytes of a frame, then its padding and payload |
| Gecko.FrameErrors | crates/hysteria-obfs/src/gecko.rs:93-134 | which error each invalid frame or input gets, in both directions |
| Gecko.PaddedSizeInRange | crates/hysteria-obfs/src/gecko.rs:268-280 | padded sizes are at least the minimum, and at most the maximum exactly when the unpadded size is |
| Gecko.EverySizeIsDrawn | crates/hysteria-obfs/src/gecko.rs:268-280 | every size in the range a chunk allows is drawn by some random number |
| Gecko.ChunksTile | crates/hysteria-obfs/src/gecko.rs:201-210 | the chunks concatenate to the packet for every count |
| Gecko.ChunkSizes | crates/hysteria-obfs/src/gecko.rs:201-210 | all chunks but the last have the rounded-down equal share, and the last the rest |
| Gecko.MessageIdsCycle | crates/hysteria-obfs/src/gecko.rs:196-200 | message ids run through 256 values in order, across the counter's wrap |
| Gecko.GeckoEncoder.constructor | crates/hysteria-obfs/src/gecko.rs:171-176 | starts at message counter 0 with validated options |
| Gecko.GeckoEncoder.EncodePacket | crates/hysteria-obfs/src/gecko.rs:184-224 | never fails; nothing, one masked datagram, or one masked padded frame per chunk, each in the size range when possible |
| Gecko.DatagramSize | crates/hysteria-obfs/src/gecko.rs:211-221 | every datagram's wire size is in range exactly when its unpadded size allows |
| Gecko.OpenDatagram | crates/hysteria-obfs/src/gecko.rs:239-243 | the receiver sees exactly the frame that was masked |
| Gecko.OpenShortHeader | crates/hysteria-obfs/src/gecko.rs:239-242 | a short-header packet comes back from its one datagram |
| Gecko.OpensWholeExactlyWhen | crates/hysteria-obfs/src/gecko.rs:239-242 | a datagram opens to a whole packet exactly when it is the masked form of that short-header packet |
| Gecko.OpensFrameExactlyWhen | crates/hysteria-obfs/src/gecko.rs:243-248 | and to a frame exactly when it is the masked form of that frame, unused first-byte bits aside |
| Gecko.OpenedFramesAreValid | crates/hysteria-obfs/src/gecko.rs:243-248 | only frames with count and index in range reach reassembly |
| Reassembler.CountsLookup | crates/hysteria-obfs/src/gecko.rs:343 | a source has a counter exactly when it has entries, equal to their number |
| Reassembler.AcceptKeepsInv | crates/hysteria-obfs/src/gecko.rs:333-378 | every arrival keeps both caps and well-formed entries, whichever oldest entry is evicted |
| Reassembler.FirstSlot | crates/hysteria-obfs/src/gecko.rs:349-370 | a first chunk never completes a message |
| Reassembler.ExpiredKeepsInv | crates/hysteria-obfs/src/gecko.rs:380-390 | so does a sweep |
| Reassembler.Reassembler.constructor | crates/hysteria-obfs/src/gecko.rs:326-330 | starts empty and valid |
| Reassembler.Reassembler.DropEntry | crates/hysteria-obfs/src/gecko.rs:403-413 | removes the entry and its share of the counter without underflow, dropping a counter that reaches zero |
| Reassembler.Reassembler.EvictOldest | crates/hysteria-obfs/src/gecko.rs:392-401 | removes an entry of least deadline |
| Reassembler.Reassembler.AddEntry | crates/hysteria-obfs/src/gecko.rs:349-358 | inserts the entry and counts it |
| Reassembler.Reassembler.Locate | crates/hysteria-obfs/src/gecko.rs:338-359 | finds or makes the entry exactly when neither count nor cap turns the arrival away |
| Reassembler.Reassembler.Fill | crates/hysteria-obfs/src/gecko.rs:361-377 | fills a free slot; the last one yields the joined packet and removes the entry |
| Reassembler.Reassembler.AcceptFrame | crates/hysteria-obfs/src/gecko.rs:333-378 | the in-place arrival is the arrival on values and keeps counters and table in step |
| Reassembler.Reassembler.Expire | crates/hysteria-obfs/src/gecko.rs:380-390 | leaves exactly the entries whose deadline has not passed, in any removal order |
| Reassembler.Join | crates/hysteria-obfs/src/gecko.rs:371-375 | concatenates the filled slots in order |
| GeckoRuns.RunKeepsInv | crates/hysteria-obfs/src/gecko.rs:332-414 | every step of every run keeps the table well formed and within both caps |
| GeckoRuns.CapsHold | crates/hysteria-obfs/src/gecko.rs:332-414 | in every run from the empty table: at most 8 entries per source and 4096 in all, 2 to 8 slots per entry, `received` the number filled and below the total |
| GeckoRuns.ShortHeaderIsHandedUp | crates/hysteria-obfs/src/gecko.rs:233-242 | a short-header packet's datagram hands it up at once, whatever the table, and leaves the table alone |
| GeckoRuns.StrayIsDropped | crates/hysteria-obfs/src/gecko.rs:233-249 | what is neither such a datagram nor a valid frame is dropped without a trace |
| GeckoRuns.EntryEvolves | crates/hysteria-obfs/src/gecko.rs:361-370 | an entry keeps its count and each slot its first payload |
| GeckoRuns.EntryBorn | crates/hysteria-obfs/src/gecko.rs:342-358 | an entry that appears was made by that arrival and holds just its chunk |
| GeckoRuns.EntrySurvivesExactlyWhen | crates/hysteria-obfs/src/gecko.rs:380-401 | an event for something else removes an entry exactly by expiry, or as the victim of an admitted new entry when 4096 are stored |
| GeckoRuns.DeadlineIsFixed | crates/hysteria-obfs/src/gecko.rs:349-357 | the deadline is eight seconds after the first chunk and does not move |
| GeckoRuns.CompletionNeedsAll | crates/hysteria-obfs/src/gecko.rs:366-377 | a packet is handed up only from a stored entry all of whose slots are then filled, which is removed |
| GeckoRuns.SlotsHoldFirstPayloads | crates/hysteria-obfs/src/gecko.rs:333-378 | in every run each slot holds the first matching payload since its entry was made |
| GeckoRuns.ReassembledFromOneEntry | crates/hysteria-obfs/src/gecko.rs:333-378 | in every run a reassembled packet is the index-order concatenation of exactly `total` first payloads of one source, id and total, since one uninterrupted entry was made |
| GeckoRuns.OwnArrival | crates/hysteria-obfs/src/gecko.rs:361-377 | a packet's own datagram is ignored if repeated and delivers the packet if it was the last missing |
| GeckoRuns.GeckoRoundTrip | crates/hysteria-obfs/src/gecko.rs:233-249 | from any table without an entry under that source and id, datagrams of a packet in any order, repeated and interleaved with anything else, hand up exactly the packet at the last missing one and clear the entry, given room and no eviction or expiry |
| GeckoMixing.ReassembledIsMix | crates/hysteria-obfs/src/gecko.rs:333-378 | every packet reassembled from a sender is, chunk by chunk, from packets sent to this destination under one id and count whose datagrams arrived while one entry was there |
| GeckoMixing.SafeExactlyWhen | crates/hysteria-obfs/src/gecko.rs:184-249 | for one destination of a socket whose destinations share the id counter, over all runs of the receiver: every packet handed up was sent to it exactly when every chunk-wise mix of packets to it under one id and count was |
| GeckoMixing.MixCanBeHandedUp | crates/hysteria-obfs/src/gecko.rs:333-378 | for every mix of packets to the destination a run of a fresh receiver there that hands it up |
| GeckoMixing.ShortRunsAreSafe | crates/hysteria-obfs/src/gecko.rs:196-200 | any 256 packets of a socket are handed up as sent or not at all, in every run |
| GeckoMixing.LongRunMixes | crates/hysteria-obfs/src/gecko.rs:196-200 | of 257 packets to one destination the first and last can be handed up as one that neither is |
| GeckoShutOut.ShutOut | crates/hysteria-obfs/src/gecko.rs:338-348 | a source with eight incomplete messages has every frame for another message turned away, for as long as nothing arrives under those and none expires or is evicted |
| GeckoShutOut.QuietSpares | crates/hysteria-obfs/src/gecko.rs:380-401 | with no sweep and fewer than 4096 entries none of them does |
| GeckoShutOut.CapIsReachable | crates/hysteria-obfs/src/gecko.rs:338-359 | eight first chunks put a source there |
| SendQueue.SharedSendState.constructor | crates/hysteria-transport/src/obfs_socket.rs:724-728 | starts empty |
| SendQueue.SharedSendState.WakeWriters | crates/hysteria-transport/src/obfs_socket.rs:689-695 | wakes every registered waker once, in order, and forgets them |
| SendQueue.SharedSendState.Send | crates/hysteria-transport/src/obfs_socket.rs:755-782 | reports a pending error once, refuses when full, otherwise appends |
| SendQueue.SharedSendState.Poll | crates/hysteria-transport/src/obfs_socket.rs:832-852 | is the poll whose answers PollAnswers lists: reports an error once, is ready below capacity, otherwise registers the waker once |
| SendQueue.SharedSendState.Pop | crates/hysteria-transport/src/obfs_socket.rs:860-867 | takes the oldest group and wakes all waiters |
| SendQueue.SharedSendState.Fail | crates/hysteria-transport/src/obfs_socket.rs:873-877 | records the error and wakes all waiters |
| SendQueue.SendAnswers | crates/hysteria-transport/src/obfs_socket.rs:755-782 | a pending error is returned and cleared, 1024 groups block, anything else encodable is appended, and no other answer changes the state |
| SendQueue.PollAnswers | crates/hysteria-transport/src/obfs_socket.rs:832-852 | an error is returned and cleared, fewer than 1024 groups are ready, and otherwise the caller is pending and among the waiters behind those already there |
| SendQueue.PendingStaysRegistered | crates/hysteria-transport/src/obfs_socket.rs:832-852 | whoever is told to wait is registered, and in every run stays so until a group is taken or an error recorded |
| SendQueue.PacketsGoOutInOrder | crates/hysteria-transport/src/obfs_socket.rs:855-881 | in every run the wire is the packets of the groups taken, in order and to their destinations, each group whole or cut short by an error that is recorded |
| SendQueue.StepKeepsInv | crates/hysteria-transport/src/obfs_socket.rs:855-881 | every step of every party keeps the protocol invariant |
| SendQueue.ReachableStatesAreSafe | crates/hysteria-transport/src/obfs_socket.rs:741-782 | in every interleaving: at most 1024 groups, first in first out, a waiter implies a full queue and no pending error, a parked worker with no notification to come implies an empty, unclosed queue, and errors surface in order |
| SendQueue.ErrorsSurfaceOnce | crates/hysteria-transport/src/obfs_socket.rs:755-881 | of the errors the worker records each is reported at most once, in order, and the latest is pending or the last reported |
| SendQueue.WorkerIsNeverStuck | crates/hysteria-transport/src/obfs_socket.rs:855-881 | with a non-empty queue and an open socket some step that advances the worker is possible |
| SendQueue.StepTowardsPop | crates/hysteria-transport/src/obfs_socket.rs:855-881 | no step moves the worker away from its next pop, and its own steps move it closer |
| SendQueue.QueueMoves | crates/hysteria-transport/src/obfs_socket.rs:855-881 | a non-empty queue is popped within a bounded number of such steps |
| SendQueue.WaitersAreWoken | crates/hysteria-transport/src/obfs_socket.rs:832-881 | in every interleaving, drops included, a waker that stays registered has seen at most a bounded number of steps that advance the worker |
| SendQueue.WaiterHasAWayOn | crates/hysteria-transport/src/obfs_socket.rs:832-881 | while a waker is registered such a step can happen, unless the worker has stopped |
| SendQueue.DropLeavesWakerExactlyWhen | crates/hysteria-transport/src/obfs_socket.rs:741-746 | after the drop a registered waker can be left for good exactly when the worker is not about to pop |
| SendQueue.LeftForever | crates/hysteria-transport/src/obfs_socket.rs:855-859 | a waker registered with a stopped worker stays so in every run |
| SendQueue.DropCanLeaveWaker | crates/hysteria-transport/src/obfs_socket.rs:741-782 | 1024 completed sends, a poll and the drop reach such a state |
| SendQueue.DropLeavesQueue | crates/hysteria-transport/src/obfs_socket.rs:741-746 | after the drop nothing is accepted and at most the group about to be popped is taken |
| SendQueue.StoppedWorkerLeavesQueue | crates/hysteria-transport/src/obfs_socket.rs:855-859 | once the worker has stopped, every other group queued at the drop is left |
| SendQueue.DropCanLoseAll | crates/hysteria-transport/src/obfs_socket.rs:741-782 | which can be all 1024 accepted groups |
| SendQueue.ClosedWorkerIsNeverStuck | crates/hysteria-transport/src/obfs_socket.rs:741-746 | after the drop the worker always has a way on until it stops |
| SendQueue.ClosedWorkerStops | crates/hysteria-transport/src/obfs_socket.rs:490-495 | and stops within a bounded number of steps |
| SendQueue.StrandedForever | crates/hysteria-transport/src/obfs_socket.rs:956-961 | a worker parked after a missed notification stays parked |
| SendQueue.HoppingDropStrandsExactlyWhen | crates/hysteria-transport/src/obfs_socket.rs:956-961 | with `notify_waiters` the worker can be parked for good exactly when it has found its queue empty, or is next to, and is not yet waiting, with no permit left |
| SendQueue.HoppingDropCanStrand | crates/hysteria-transport/src/obfs_socket.rs:956-961 | such a state is reachable |
| Sessions.ServerSessions.constructor | crates/hysteria-transport/src/udp.rs:248 | starts empty, in the initial state of the interleaving |
| Sessions.ServerSessions.Lookup | crates/hysteria-transport/src/udp.rs:276-280 | is the receive step of the interleaving: the channel of the unfinished task that serves the session, or nothing exactly if none does |
| Sessions.ServerSessions.Insert | crates/hysteria-transport/src/udp.rs:288-297 | is the insertion step: from then on the new task and no other serves the session |
| Sessions.ServerSessions.RemoveServerSession | crates/hysteria-transport/src/udp.rs:425-433 | is the finishing step: the token test removes exactly the own entry, and no task serves the session any more |
| Sessions.ServerSessions.Clear | crates/hysteria-transport/src/udp.rs:306-309 | is the end of the loop: the table is empty then and in every continuation |
| Sessions.FinishRemovesOwnEntry | crates/hysteria-transport/src/udp.rs:425-433 | a finishing task removes exactly its own entry, never a later session's, even if tokens were to wrap |
| Sessions.StepKeepsInv | crates/hysteria-transport/src/udp.rs:259-305 | every step of loop and tasks keeps table and tasks in step |
| Sessions.EntriesMirrorTasks | crates/hysteria-transport/src/udp.rs:258-310 | in every interleaving until the loop ends: an entry exactly when one unfinished task serves the session, with its token; in every interleaving, a task's channel holds at most 1024 messages, is fed only its session's, in the order received, and loses none: what was fed is what the task took followed by what waits |
| Sessions.FedExactlyWhen | crates/hysteria-transport/src/udp.rs:276-298 | a message passed on is appended to its channel exactly if the task is unfinished and fewer than 1024 wait there; otherwise no channel changes |
| Sessions.StepKeepsAccount | crates/hysteria-transport/src/udp.rs:258-310 | every step keeps channels first in, first out and without loss |
| Sessions.RemovalNeedsTheToken | crates/hysteria-transport/src/udp.rs:425-433 | for arbitrary tables, an exit removes the session's entry exactly if it carries the token, and no other |
| Sessions.TokensAreUnique | crates/hysteria-transport/src/udp.rs:258-287 | tokens repeat only after 2^64 sessions |
| Brutal.Brutal.constructor | crates/hysteria-transport/src/congestion.rs:377-387 | starts with an empty ring and rate 1 |
| Brutal.Brutal.Record | crates/hysteria-transport/src/congestion.rs:389-405 | keeps ring and rate those of the log of calls, extended by this one |
| Brutal.Brutal.UpdateAckRate | crates/hysteria-transport/src/congestion.rs:407-442 | the fold over the slots yields the rate of their totals |
| Brutal.Brutal.OnAck | crates/hysteria-transport/src/congestion.rs:461-473 | takes the round-trip time and records one acknowledgement |
| Brutal.Brutal.OnCongestionEvent | crates/hysteria-transport/src/congestion.rs:475-488 | records losses, if any |
| Brutal.Brutal.Metrics | crates/hysteria-transport/src/congestion.rs:498-510 | the window before any round-trip time, and pacing exactly, in every state; with a clock that does not go back and fewer than 2^64/5 packets in the window, both bounds of pacing and the window's upper bound, and its lower bound exactly when 128 bits can express it, as for up to 18.4 billion acknowledgements |
| Brutal.RingSaysLog | crates/hysteria-transport/src/congestion.rs:389-403 | each slot holds the latest second that shares it and that second's saturated counts |
| Brutal.FoldSaturates | crates/hysteria-transport/src/congestion.rs:414-426 | folding with saturating addition gives the saturated sum |
| Brutal.RingRefinesLog | crates/hysteria-transport/src/congestion.rs:389-427 | after any run with non-decreasing times the totals at second t are the saturated sums over all calls in t-4..t, although the filter also admits t-5 |
| Brutal.RateSoundExactlyWhen | crates/hysteria-transport/src/congestion.rs:427-441 | the rate is between 4/5 and 1 exactly unless 5 acks saturate while below 4 samples |
| Brutal.RateIsClampedShare | crates/hysteria-transport/src/congestion.rs:427-441 | away from saturation the rate is the acknowledged share, at least 4/5, or 1 under 50 samples |
| Brutal.RateOfSoundExactlyWhen | crates/hysteria-transport/src/congestion.rs:407-442 | the same on every log of calls, by the counts of its last five seconds |
| Brutal.SaturatedRateFails | crates/hysteria-transport/src/congestion.rs:433-441 | a log of calls that reaches an unsound rate: 2^63 acknowledgements and a report of as many losses |
| Brutal.RateOfIsSound | crates/hysteria-transport/src/congestion.rs:407-442 | with fewer than 2^64/5 packets in the window the rate is sound |
| Brutal.WindowBounds | crates/hysteria-transport/src/congestion.rs:444-457 | with a sound rate the window is at most 2.5 bandwidth-delay products, clamped to 64 bits and one datagram, and at least 2 exactly when 128 bits can express that at the rate |
| Brutal.CalmRatesFit | crates/hysteria-transport/src/congestion.rs:444-457 | for up to 18.4 billion acknowledgements the lower bound holds whatever the bandwidth and round-trip time |
| Brutal.SaturatedWindowFails | crates/hysteria-transport/src/congestion.rs:448-456 | a log of calls after which 128-bit saturation breaks the lower bound |
| Brutal.TopSaturatesOnce | crates/hysteria-transport/src/congestion.rs:448-451 | the chained saturating products saturate exactly when the whole product does not fit |
| Brutal.WindowIsExact | crates/hysteria-transport/src/congestion.rs:444-457 | the window is the rounded-down quotient of the saturated product, but at least one datagram and at most 2^64-1 |
| Brutal.NoRoundTripYet | crates/hysteria-transport/src/congestion.rs:444-447 | without a round-trip time the window is 10240 bytes |
| Brutal.PacingBounds | crates/hysteria-transport/src/congestion.rs:501-508 | at a sound rate pacing is between 8 and 10 bits per byte of bandwidth, saturating |
| Brutal.PacingIsExact | crates/hysteria-transport/src/congestion.rs:501-508 | pacing is eight times the rounded-down quotient of bandwidth and rate, or 2^64-1 exactly when that does not fit |
| QuicSniff.PacketNumberDecodesExactlyWhen | crates/hysteria/src/sniff.rs:288-301 | for 1 to 4 bytes, decoding inverts truncation exactly on the window and at the two ends of the number space |
| QuicSniff.Assemble | crates/hysteria/src/sniff.rs:325-333 | returns a string exactly when it is not empty, at most 256 KiB and tiled by the kept frames |
| QuicSniff.ExtractCryptoFrames | crates/hysteria/src/sniff.rs:303-334 | both loops: a string is returned exactly when the payload is made of lawful frames and fillers whose last-kept frames tile it without gap or overlap |
| QuicSniff.ExtractsExactlyWhen | crates/hysteria/src/sniff.rs:305-324 | the reader accepts exactly the payloads made of lawful things and keeps exactly their frames |
| QuicSniff.ReadIsWritten | crates/hysteria/src/sniff.rs:306-323 | whatever one step accepts is padding, a ping or a CRYPTO frame within the limit |
| QuicSniff.TilingIsUnique | crates/hysteria/src/sniff.rs:326-332 | frames tile at most one string |
| QuicSniff.GapOrOverlap | crates/hysteria/src/sniff.rs:327-330 | a frame not starting where the last one ended rules out every string |
| QuicSniff.ParseWritten | crates/hysteria/src/sniff.rs:305-324 | frames, padding and pings as written are read back, with varints of any length |
| QuicSniff.CryptoRoundTrip | crates/hysteria/src/sniff.rs:303-334 | any string up to 256 KiB cut into non-empty chunks and written in any order, with repeats and fillers, is extracted |
| EventStream.EventStream.constructor | crates/hysteria-realm/src/client.rs:393-399 | starts with nothing buffered |
| EventStream.EventStream.HandleInput | crates/hysteria-realm/src/client.rs:449-480 | the in-place line step is the step on values |
| EventStream.EventStream.ReadMore | crates/hysteria-realm/src/client.rs:431-445 | called only with no newline buffered; appends a chunk, reports a transport failure, notices the end, or trips the limit exactly when it is exceeded |
| EventStream.EventStream.NextEvent | crates/hysteria-realm/src/client.rs:417-447 | the nested loops are one call on values |
| EventStream.NextTakesTheFirst | crates/hysteria-realm/src/client.rs:417-447 | on every stream a call takes the first of the outcomes the rest calls for, transport failures and oversized chunks included, or reports the end exactly when none is left |
| EventStream.TripsExactlyWhen | crates/hysteria-realm/src/client.rs:436-440 | some call trips the limit exactly when some chunk does not fit beside the bytes after the last newline before it |
| EventStream.LargeChunkTrips | crates/hysteria-realm/src/client.rs:436-440 | an input that trips in one chunk and not in two |
| EventStream.CallsMatchWholeInput | crates/hysteria-realm/src/client.rs:417-447 | on every stream call n returns outcome n of the bytes read line by line, each failure and each oversized chunk, whose bytes are dropped, reported after the lines complete before it; then the end for ever |
| EventStream.WholeOfChunks | crates/hysteria-realm/src/client.rs:417-447 | a stream of chunks that fit, without failures, reads as the lines of all its bytes |
| EventStream.ChunkingDoesNotMatter | crates/hysteria-realm/src/client.rs:417-447 | two streams that both fit and agree on the failures and the bytes between them give the same results |
| EventStream.SmallInputFits | crates/hysteria-realm/src/client.rs:436-440 | input within the limit altogether fits however it is cut |
| EventStream.FieldLineIsRead | crates/hysteria-realm/src/client.rs:462-477 | an event or data line sets its field to the value, with or without the space and the carriage return; every other field, and a comment, changes nothing |
| EventStream.BareLineIsIgnored | crates/hysteria-realm/src/client.rs:465-467 | a line without a colon changes nothing |
| EventStream.BadTextIsReported | crates/hysteria-realm/src/client.rs:425-426 | a line that is not UTF-8 is reported and changes nothing |
| EventStream.LinesAsText | crates/hysteria-realm/src/client.rs:469-477 | the lines of a written event are the text `event: punch` and `data: ` with the value, and data is joined by newlines |
| EventStream.WrittenEventIsRead | crates/hysteria-realm/src/client.rs:449-480 | from any state a written punch event yields exactly what the kept data joined with its own parses to, unparsable data is reported and kept, and an event of any other name yields nothing and clears it |
| EventStream.BadEventSpoilsNext | crates/hysteria-realm/src/client.rs:450-458 | a punch event that does not parse makes the next one be parsed together with it |
| Stun.ParseBindingResponse | crates/hysteria-realm/src/stun.rs:243-287 | on arbitrary bytes the walk stays in bounds, ends, and returns an address exactly when the bytes are a response that means it |
| Stun.ParsesExactlyWhen | crates/hysteria-realm/src/stun.rs:243-287 | accepted bytes are exactly header, attributes in padded layout and a tail, meaning the address |
| Stun.WalkedIsLaidOut | crates/hysteria-realm/src/stun.rs:264-282 | whatever the walk accepts is laid out as attributes and a tail |
| Stun.AddressRoundTrip | crates/hysteria-realm/src/stun.rs:289-326 | both families, plain and masked, are read back |
| Stun.AddressExactlyWhen | crates/hysteria-realm/src/stun.rs:289-326 | and no other value reads as that address |
| Stun.MaskedBytes | crates/hysteria-realm/src/stun.rs:289-326 | the mask is the cookie and then the transaction, bit by bit, and the cookie's first half for the port |
| Stun.AddressBytes | crates/hysteria-realm/src/stun.rs:289-326 | zero, family 1 or 2, port, octets |
| Stun.NotedAllIsMeant | crates/hysteria-realm/src/stun.rs:276-280 | only the last attribute of each mapped kind matters |
| Stun.ResponseIsReadAsMeant | crates/hysteria-realm/src/stun.rs:243-287 | for every transaction and attribute list: the last XOR-MAPPED-ADDRESS if well formed, else the last MAPPED-ADDRESS, else an error |
| Stun.MaskedAddressIsReturned | crates/hysteria-realm/src/stun.rs:276-287 | a masked address is returned unless another masked one follows it |
| Stun.PlainAddressIsReturned | crates/hysteria-realm/src/stun.rs:276-287 | a plain address among unrelated attributes is returned |
| Stun.ResponseErrors | crates/hysteria-realm/src/stun.rs:243-257 | which error a bad header gets |
| Punch.ChooseFamilies | crates/hysteria-realm/src/engine.rs:181-207 | the requested family, or those of the local addresses, or both |
| Punch.PredictableIsNeighbourly | crates/hysteria-realm/src/engine.rs:167-172 | comparing neighbours decides whether every port but the largest is followed within 4 |
| Punch.ExpandHost | crates/hysteria-realm/src/engine.rs:152-162 | adds exactly the lowest 32 missing ports of the range, at that host only |
| Punch.ExtraIsLowest | crates/hysteria-realm/src/engine.rs:152-162 | at most 32, the lowest, and fewer only if all missing ports are taken |
| Punch.MissingByRange | crates/hysteria-realm/src/engine.rs:152-162 | a port is missing exactly when it is not named and lies between two named ports or up to four above |
| Punch.CandidatePunchAddresses | crates/hysteria-realm/src/engine.rs:126-165 | strictly sorted and exactly the specified addresses, for any order of hosts |
| Punch.CandidatesAreUsable | crates/hysteria-realm/src/engine.rs:132-136 | never port 0, always an allowed family, added ports within the host's range |
| Punch.PeersAreCandidates | crates/hysteria-realm/src/engine.rs:132-136 | every usable peer address is included |
| Punch.AscendingIsUnique | crates/hysteria-realm/src/engine.rs:146-164 | a sorted list is determined by its members, so hash order cannot show |
| Punch.LessIsByNumber | crates/hysteria-realm/src/engine.rs:132-164 | the order: IPv4 by address and port, before IPv6 by address, port, flow and scope |

## Left out

- Sockets, timers, the async runtime, QUIC, HTTP/3 and TLS: foreign calls; a notification is one stored permit, a lock is an atomic step, a channel may drop.
- UTF-8: text is bytes; the lossy conversion of invalid text is taken as the identity.
- BLAKE2b, header protection and packet decryption: the digest is a parameter and the other two are not modelled.
- Gecko and Salamander option defaults and password checks: field validation.
- When expiry sweeps happen: a sweep is a step that may come at any time, with no promise that it comes; the documentation asks the UDP wrapper to call it periodically, and outside its own tests the repository never does.
- BBR and Reno fallback controllers, and the switch between them and Brutal.
- SNI extraction from a client hello, HTTP host sniffing, CIDR and geo matchers, ACL syntax: parsing that would add only easy members.
- IPv6 zone and address text forms, and the network side of hole punching.
- The port-hopping worker's choice of socket and remote: it shares the queue protocol, whose shutdown difference is modelled.
- GeckoRuns.GeckoRoundTrip: assumes the entry is neither evicted nor expired, which EntrySurvivesExactlyWhen describes step by step.
- Overlapping sends within one session: delivery is stated for a session whose own datagrams go out call by call; when they interleave, only the results about every channel apply.
