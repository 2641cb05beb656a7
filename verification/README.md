# Verified models of the transport, codec and counting code under the chat app

The application links four pieces of C and C++ whose correctness is not obvious from reading
them. This project models each of them in Dafny 4.11 and proves what it is for.
`dafny verify dfyconfig.toml` checks everything.

**DTLS handshake transport** (`d1_both.cc`, `dtls_record.cc`, `dtls_method.cc`; RFC 6347).
`HandshakeWire`, `ReplayWindow`, `Reassembly` and `IncomingRing` are the data structures in
place, each proved against a set or a sequence. `DtlsReceive` and `DtlsSend` say what the two
halves of a connection do as functions on values; the classes of `DtlsReceiver` and
`DtlsSender` do it on arrays and fields and are proved to agree with them call by call. Over
those functions: what one pass sends (`DtlsTiling`) and how it ends (`DtlsProgress`), which
record number each seal uses and when two are the same (`DtlsAttempts`, `DtlsNumbers`,
`DtlsReuse`), which records are accepted (`DtlsReplay`), and, with a network that loses,
repeats and reorders, that the messages delivered are the messages hashed (`DtlsDelivery`),
that a flight whose records arrive in time is delivered (`DtlsLiveness`), up to which MTU
they are records the receiver accepts (`DtlsLimits`), and both ends together
(`DtlsEndToEnd`).

**nanopb** (`pb_encode.c`, `pb_decode.c`, `pb_common.c`; the Protocol Buffers encoding).
`PbEncode` and `PbDecode` give the encoding of a message under a descriptor and what a byte
string decodes to; `PbRoundTrip`, `PbLaws`, `PbSound` and `PbNormal` prove the round trip, the
merge law, the packed equivalence and that decoded messages are within bounds. `PbEncoder`,
`PbIter`, `PbRequired` and `PbDecoder` are the code itself: streams, the two-pass encoder,
the wrapping field iterator, the words of `fields_seen`, substreams. Integer widths are
modelled where they matter: `Words` gives shifts and ors on unsigned words as arithmetic.

**TLS write path and handshake framing** (`s3_pkt.cc`, `s3_both.cc`, `ssl_buffer.cc`).
`TlsWrite` is the specification, `TlsWriter` the code with its buffer, `TlsConservation` the
conservation and order results over whole runs; `TlsFraming` cuts the stream of record bodies
back into messages, `TlsReadBuffer` does it on the growing array, and `TlsDelivery` puts the
two ends together.

**TLS 1.0 to 1.2 handshake machines** (`handshake_client.cc`, `handshake_server.cc`,
`handshake.cc`). `HandshakeClient` and `HandshakeServer` are the two state machines,
`HandshakeScript` the conversation that an offer and a server configuration lead to. Each
machine is proved to follow it (`HandshakeClientFollows`, `HandshakeServerFollows`), two
machines joined by streams are proved never to fail, to agree and to be able to finish
(`HandshakeRun`, `HandshakeOutcome`, `HandshakeProgress`), and the driving loops are proved to
be such runs (`HandshakeEndpoint`, `HandshakeClientDriver`, `HandshakeServerDriver`).

**Saturating reference count** (`refcount_c11.c`, `refcount_lock.c`). `Refcount` is the atomic
object and what follows from it for concurrent histories; `RefcountCas` and `RefcountLock`
run the two implementations in every interleaving; `RefcountLoops` has the loops as one thread
runs them.

Some properties one might expect are false of the code. The project keeps the code as it is,
gives an input or a run that shows it, and proves exactly when the property holds:

- A record number is never reused: a new connection reuses one when it has attempted more than
  2^48 records in an epoch (`DtlsReuse.SealingRun`) or come round to an epoch after 2^16
  switches (`DtlsReuse.SwitchingRun`). Exactly when: `DtlsNumbers.RepeatsExactly`,
  `DtlsReuse.ReusedExactly`; a guard to check before each call: `DtlsReuse.NumbersAreUnique`.
- No record is accepted twice: one is after 2^16 epoch switches (`DtlsReplay.SwitchingRun`);
  `DtlsReplay.SafeSwitches` is exact. Without renegotiation the library switches once.
- A pass over a flight leaves no gap: one does when a seal fails after part of a packet was
  sealed (`DtlsProgress.LosesFirst`). Exactly when: `DtlsTiling.RunTiles` with
  `DtlsProgress.FlightVerdict`; never with numbers left and short records:
  `DtlsProgress.NothingLost`.
- A pass fails only because the MTU is too small: it also fails because the MTU is so large
  that a record outgrows its 16-bit length (`DtlsProgress.TooLongAgain`). Exactly when:
  `DtlsProgress.FlightCompletes`.
- An honest record is accepted: not if the MTU makes it longer than 2^14 octets of plain text
  (`DtlsLimits.HonestButFatal`) or than any record may be (`DtlsLimits.HonestButDropped`).
  Exactly when: `DtlsLimits.FitsExactly`, `DtlsLiveness.RecordVerdict`.
- A fragment ahead of the window is ignored: the first one past it is a fatal error
  (`DtlsLimits.EighthFails`). Exactly when: `DtlsDelivery.FragmentVerdict`.
- What encodes decodes: a string without a NUL does not (`PbRoundTrip.FullBufferLost`). Exactly
  when: `PbRoundTrip.MessageRoundTrip`.
- Decoding a concatenation is decoding its parts: a zero tag ends the message early
  (`PbLaws.ZeroTagHides`). Exactly when: `PbLaws.MergeLaw`.
- A refused write changes nothing: one that is too short loses count of what was sent
  (`TlsConservation.TooShortForgets`). Exactly when: `TlsConservation.WriteKeepsInStepIff`.

`pb_decode_varint32_eof` checks the top bits of the octet at bit 28 only when it is the last
one, and counts bits in eight bits; the model does the same.

## Model

| member | source | states |
|---|---|---|
| `DtlsDelivery.DeliversPrefix` | Project/Pods/BoringSSL-GRPC/ssl/d1_both.cc:297-438 | Over every run of queueing, sending, failed writes, retransmission, epoch switches and a network that loses, repeats and reorders records at will, the messages delivered are a prefix of the messages the sender hashed, in order and byte for byte (header rebuilt, body reassembled). |
| `DtlsDelivery.ActionKeepsInv` | Project/Pods/BoringSSL-GRPC/ssl/d1_both.cc:152-438 | Each single action of sender, network and receiver keeps the invariant behind that result: every record is a fragment of a hashed message, every slot holds only bytes of the message with its number, and the delivered messages are the first read_seq ones. |
| `DtlsDelivery.FreshSystem` | Project/Pods/BoringSSL-GRPC/ssl/dtls_method.cc:71-107 | Two fresh connections satisfy the invariant, so the result covers every run from the start. |
| `DtlsDelivery.FragmentVerdict` | Project/Pods/BoringSSL-GRPC/ssl/d1_both.cc:265-295 | Exactly when a fragment of an honest sender is a fatal error: it exceeds the size limit, or is not the current message in epoch 1, or is numbered read_seq plus the ring size, which passes the ignore test and then fails. |
| `DtlsDelivery.FragmentKeepsGenuine` | Project/Pods/BoringSSL-GRPC/ssl/d1_both.cc:371-403 | A fragment of the sender's message leaves every slot holding bytes of the message with its number only. |
| `DtlsDelivery.FrontIsMessage` | Project/Pods/BoringSSL-GRPC/ssl/d1_both.cc:408-424 | A complete slot at the front is exactly the message the sender hashed under that number. |
| `DtlsDelivery.MessageRebuilt` | Project/Pods/BoringSSL-GRPC/ssl/d1_both.cc:152-199 | The stored 12-byte header and the body give back the bytes of the message, independent of how it was fragmented. |
| `DtlsEndToEnd.SentIsDeliveredAcross` | Project/Pods/BoringSSL-GRPC/ssl/d1_both.cc:297-834 | End to end, across a change of cipher: a sender with proper messages, numbers left and an MTU within limits makes a pass; the network brings each of its records in time under the epoch it is of, in any order and with any repetitions, among other harmless records; then the receiver fails on nothing, changes its cipher, and delivers exactly the flight's messages, in order and byte for byte. |
| `DtlsEndToEnd.SentIsDelivered` | Project/Pods/BoringSSL-GRPC/ssl/d1_both.cc:297-834 | The same for the messages of one epoch. |
| `DtlsEndToEnd.PassGoesOut` | Project/Pods/BoringSSL-GRPC/ssl/d1_both.cc:644-827 | The pass of such a sender succeeds, its records tile the whole flight, and each is one the receiver accepts. |
| `DtlsEndToEnd.SmallestFlight` | Project/Pods/BoringSSL-GRPC/ssl/d1_both.cc:297-834 | That can all be met: a flight of one message, conveyed as it was sent to a new receiver, is delivered. |
| `DtlsLiveness.FlightDelivered` | Project/Pods/BoringSSL-GRPC/ssl/d1_both.cc:297-490 | Liveness over the record layer, for a flight with a ChangeCipherSpec: once each of its records under the old epoch has arrived in time (new, authentic, not too long, less than 64 behind the window) and then each under the new one, in any order, any number of times and among any harmless records, dtls1_open_handshake has failed on nothing, the ChangeCipherSpec is taken, the switch of epochs is not refused, and the messages read off before and after it are exactly the flight's, in order and byte for byte. |
| `DtlsLiveness.EpochDelivered` | Project/Pods/BoringSSL-GRPC/ssl/d1_both.cc:297-438 | The same within one epoch: the messages of the flight under the epoch being read are all delivered, in order. |
| `DtlsLiveness.PassCompletes` | Project/Pods/BoringSSL-GRPC/ssl/d1_both.cc:211-406 | After such a pass the slot of every message of the flight under this epoch that the receiver takes is complete, whatever the fragmentation. |
| `DtlsLiveness.ReceiveLands` | Project/Pods/BoringSSL-GRPC/ssl/dtls_record.cc:177-272 | Whatever comes before it, a record within the replay window is let in, or its double was, and what it carries is kept. |
| `DtlsLiveness.ReceiveKeeps` | Project/Pods/BoringSSL-GRPC/ssl/d1_both.cc:297-406 | A sequence of harmless records is taken without a failure, and no slot or byte already received is lost. |
| `DtlsLiveness.RecordVerdict` | Project/Pods/BoringSSL-GRPC/ssl/d1_both.cc:297-406 | Exactly when a record of an honest sender is a fatal error: it is of the epoch being read, authentic, not longer than a record may be, not stopped by the replay window, and then its plain text is over 2^14 octets, its fragment is one that fails, its type is out of place or its ChangeCipherSpec malformed. |
| `DtlsLiveness.PassCovers` | Project/Pods/BoringSSL-GRPC/ssl/d1_both.cc:644-734 | In a pass that tiles the flight every byte of every message is carried by some record, sealed under the message's epoch. |
| `DtlsLiveness.Switches` | Project/Pods/BoringSSL-GRPC/ssl/dtls_method.cc:81-95 | With the messages of the epoch read off and nothing beyond them received, the cipher change is not refused for leftover data. |
| `DtlsLiveness.ReadsInOrder` | Project/Pods/BoringSSL-GRPC/ssl/d1_both.cc:408-438 | Complete slots are read out as consecutive messages of the transcript, byte for byte. |
| `DtlsLiveness.InOrderInTime` | Project/Pods/BoringSSL-GRPC/ssl/dtls_record.cc:140-150 | Records that arrive in the order of their numbers in a fresh epoch are in time. |
| `DtlsLimits.FitsExactly` | Project/Pods/BoringSSL-GRPC/ssl/dtls_record.cc:252-257 | The first record of every message is one the receiver accepts if and only if the MTU exceeds the overhead of a record by at most 2^14 octets. |
| `DtlsLimits.FlightFits` | Project/Pods/BoringSSL-GRPC/ssl/d1_both.cc:644-734 | With such an MTU every record of every pass is one the receiver accepts, under both epochs in use. |
| `DtlsLimits.RecordSize` | Project/Pods/BoringSSL-GRPC/ssl/d1_both.cc:690-716 | How long the plain text and the body of a sealed record are, from the room and the octets left. |
| `DtlsLimits.HonestButFatal` | Project/Pods/BoringSSL-GRPC/ssl/dtls_record.cc:252-257 | Under an MTU of 20000 a message of 16400 octets goes out as one record, which is a fatal error at a new receiver. |
| `DtlsLimits.HonestButDropped` | Project/Pods/BoringSSL-GRPC/ssl/dtls_record.cc:196-205 | One of 17000 octets goes out as a record longer than any receiver reads, and every receiver drops it every time. |
| `DtlsLimits.EighthFails` | Project/Pods/BoringSSL-GRPC/ssl/d1_both.cc:265-371 | Of nine honest messages that arrive first at a new receiver the seventh is kept, the eighth is a fatal error and the ninth is ignored. |
| `DtlsTiling.RunTiles` | Project/Pods/BoringSSL-GRPC/ssl/d1_both.cc:739-834 | One run of the send loop hands to the transport records that tile the flight from the old cursor to the new one, with no gap, overlap or repetition, if and only if no packet is given up to a seal error after some of its records were sealed; DtlsProgress.FlightVerdict says from lengths and record numbers when that is. |
| `DtlsTiling.StepTiles` | Project/Pods/BoringSSL-GRPC/ssl/d1_both.cc:644-734 | A sealed record is the fragment owed at the cursor and moves the cursor past it; anything else leaves the cursor alone. |
| `DtlsTiling.TilesMoves` | Project/Pods/BoringSSL-GRPC/ssl/d1_both.cc:739-780 | The cursor (message, offset) strictly increases lexicographically with every packet sent. |
| `DtlsTiling.EachByteOnce` | Project/Pods/BoringSSL-GRPC/ssl/d1_both.cc:644-734 | In a tiling each byte between the two cursors is carried exactly once and no other byte at all. |
| `DtlsTiling.TilesCompose` | Project/Pods/BoringSSL-GRPC/ssl/d1_both.cc:782-827 | Passes interrupted by failed writes compose: resuming where the cursor was restored continues the same tiling. |
| `DtlsTiling.TilesUnique` | Project/Pods/BoringSSL-GRPC/ssl/d1_both.cc:644-734 | A start and the records sent determine where the cursor ends. |
| `DtlsProgress.FlightVerdict` | Project/Pods/BoringSSL-GRPC/ssl/d1_both.cc:782-827 | For every sender of a proper queue, every MTU, record number and behaviour of the transport: where a pass leaves the cursor and both record counters, what it returns, which error, and whether it gives up a partly sealed packet, is what a forecast from lengths and record numbers alone says. |
| `DtlsProgress.FlightCompletes` | Project/Pods/BoringSSL-GRPC/ssl/d1_both.cc:782-827 | With record numbers left and a transport that takes everything, the pass hands over the whole flight if and only if the MTU fits a record of every remaining message and no record is forecast to be too long for its 16-bit length; otherwise one of those two is the error. |
| `DtlsProgress.FlightOutlook` | Project/Pods/BoringSSL-GRPC/ssl/d1_both.cc:739-827 | What the forecast comes to with record numbers left, for every transport: only a record too long for its length field loses a packet, and none is if the MTU or every message is below 2^16. |
| `DtlsProgress.NothingLost` | Project/Pods/BoringSSL-GRPC/ssl/d1_both.cc:739-827 | With numbers left and records short enough no pass loses a partly sealed packet, whatever the transport does. |
| `DtlsProgress.PacketVerdict` | Project/Pods/BoringSSL-GRPC/ssl/d1_both.cc:739-780 | A packet ends where, and fails as, forecast: the cursor, the counters, the error and the number of records. |
| `DtlsProgress.StepVerdict` | Project/Pods/BoringSSL-GRPC/ssl/d1_both.cc:644-734 | One message's next record is sealed, does not fit, or fails, as forecast, and the rest of the sender stays as it was. |
| `DtlsProgress.SealVerdict` | Project/Pods/BoringSSL-GRPC/ssl/dtls_record.cc:294-351 | A record that fits its room is sealed if and only if its number is not the last of all and its length is below 2^16; its number is spent either way. |
| `DtlsProgress.TooLongStops` | Project/Pods/BoringSSL-GRPC/ssl/dtls_record.cc:337-343 | A first record forecast to be too long stops the pass with nothing sent and the cursor in place, so every later pass stops there too. |
| `DtlsProgress.TooLongAgain` | Project/Pods/BoringSSL-GRPC/ssl/dtls_record.cc:337-343 | It happens: an MTU of 80000 and a message of 70000 octets, at the first pass and at every retransmission. |
| `DtlsProgress.LosesFirst` | Project/Pods/BoringSSL-GRPC/ssl/d1_both.cc:739-780 | A packet is lost: with one record number left and two messages, the first is sealed and given up, and the cursor stays behind it. |
| `DtlsAttempts.CallSpends` | Project/Pods/BoringSSL-GRPC/ssl/d1_both.cc:644-845 | Every call spends record numbers one after another from the counter of the epoch it seals under, failures, rolled back packets and retransmissions under the previous epoch included. |
| `DtlsNumbers.NumberOfAttempt` | Project/Pods/BoringSSL-GRPC/ssl/dtls_record.cc:294-351 | Over every run from every sender, the record an attempt seals carries the epoch of its age modulo 2^16 and the number that counting the attempts of that age gives, modulo 2^48. |
| `DtlsNumbers.RepeatsExactly` | Project/Pods/BoringSSL-GRPC/ssl/dtls_record.cc:294-351 | A run repeats no (epoch, number) if and only if no two attempts that sealed records have ages equal modulo 2^16 and counts equal modulo 2^48. |
| `DtlsNumbers.LogIsRecords` | Project/Pods/BoringSSL-GRPC/ssl/d1_both.cc:644-845 | The records a run seals, sent or not, are those of its successful attempts, in order. |
| `DtlsReuse.NumbersAreUnique` | Project/Pods/BoringSSL-GRPC/ssl/dtls_record.cc:294-351 | If before every call as many numbers are left as the call has records to seal, and the epoch has a successor, no two records of the run carry the same epoch and number. |
| `DtlsReuse.CallSpending` | Project/Pods/BoringSSL-GRPC/ssl/d1_both.cc:782-845 | No call makes more attempts to seal than that guard counts: one for an octet of body and one for a message. |
| `DtlsReuse.ReusedExactly` | Project/Pods/BoringSSL-GRPC/ssl/tls_record.cc:154-163 | For a connection that starts at zero, with records that fit their length field and fewer than 2^16 epoch switches, some number is reused if and only if some epoch has sealed 2^48 records or more. |
| `DtlsReuse.FurtherSealRepeats` | Project/Pods/BoringSSL-GRPC/ssl/tls_record.cc:154-163 | One further record repeats a number exactly when its epoch has sealed 2^48 - 1 records already. |
| `DtlsReuse.SealingRun` | Project/Pods/BoringSSL-GRPC/ssl/tls_record.cc:154-163 | Such a run: a new connection that attempts n records of application data repeats a number exactly when n is above 2^48. |
| `DtlsReuse.SwitchingRun` | Project/Pods/BoringSSL-GRPC/ssl/dtls_method.cc:97-107 | And another: one record, k epoch switches and one more record repeat a number exactly when k is a positive multiple of 2^16. |
| `DtlsReplay.NeverAcceptedTwice` | Project/Pods/BoringSSL-GRPC/ssl/dtls_record.cc:177-272 | Over every run of arriving records, messages read and fewer than 2^16 epoch switches no record number is accepted twice. |
| `DtlsReplay.SafeSwitches` | Project/Pods/BoringSSL-GRPC/ssl/dtls_method.cc:81-95 | That is how many are safe: no run with up to k switches accepts a record twice if and only if k is below 2^16. |
| `DtlsReplay.SwitchingRun` | Project/Pods/BoringSSL-GRPC/ssl/dtls_method.cc:81-95 | The same record before and after k switches is accepted both times exactly when k is a positive multiple of 2^16. |
| `DtlsReplay.ForgeryLeavesWindow` | Project/Pods/BoringSSL-GRPC/ssl/dtls_record.cc:231-259 | A record that does not open leaves window, ring and every other field as they were. |
| `ReplayWindow.ToU64Be` | Project/Pods/BoringSSL-GRPC/ssl/dtls_record.cc:128-136 | The loop of shifts and ors computes the big-endian value of the octets. |
| `ReplayWindow.Bitmap.ShouldDiscard` | Project/Pods/BoringSSL-GRPC/ssl/dtls_record.cc:140-150 | The bitmap discards a number exactly when the set of all numbers recorded holds it or it lies 64 or more below the largest. |
| `ReplayWindow.Bitmap.Record` | Project/Pods/BoringSSL-GRPC/ssl/dtls_record.cc:155-175 | Recording on the 64-bit map is adding to the set of recorded numbers, in all three branches (shift, far jump, set one bit). |
| `ReplayWindow.Bitmap.Reset` | Project/Pods/BoringSSL-GRPC/ssl/dtls_method.cc:81-95 | A reset bitmap stands for the empty set. |
| `Reassembly.MarkRange` | Project/Pods/BoringSSL-GRPC/ssl/d1_both.cc:211-238 | The masks for the first, middle and last byte mark exactly the given bits and leave the others. |
| `Reassembly.AllMarked` | Project/Pods/BoringSSL-GRPC/ssl/d1_both.cc:240-250 | The completeness scan succeeds exactly when every bit up to the message length is marked. |
| `Reassembly.BitRangeBits` | Project/Pods/BoringSSL-GRPC/ssl/d1_both.cc:203-205 | The bit mask of a range has exactly the bits of the range. |
| `Reassembly.HmFragment.Accept` | Project/Pods/BoringSSL-GRPC/ssl/d1_both.cc:371-399 | Accepting a fragment on the array and the bitmask is taking its bytes into the set of received bytes; the bitmask is dropped exactly when all bytes are there. |
| `Reassembly.HmFragment.constructor` | Project/Pods/BoringSSL-GRPC/ssl/d1_both.cc:152-199 | A new slot has the message's 12-byte header in its buffer, nothing received, and no bitmask if the message is empty. |
| `IncomingRing.Ring.IsComplete` | Project/Pods/BoringSSL-GRPC/ssl/d1_both.cc:255-259 | The current message is complete exactly when its slot is occupied and lacks no byte. |
| `IncomingRing.Ring.Insert` | Project/Pods/BoringSSL-GRPC/ssl/d1_both.cc:265-295 | A new slot goes to its number's index, and the others stay. |
| `IncomingRing.Ring.Accept` | Project/Pods/BoringSSL-GRPC/ssl/d1_both.cc:371-399 | A fragment changes its own slot only, and as the byte sets say. |
| `IncomingRing.Ring.Take` | Project/Pods/BoringSSL-GRPC/ssl/d1_both.cc:265-295 | Taking a fragment in: the first one opens its slot, one that disagrees with its slot is refused and changes nothing, and the bytes of the others are added unless the message is complete. |
| `IncomingRing.Ring.Reset` | Project/Pods/BoringSSL-GRPC/ssl/d1_both.cc:426-438 | Freeing a slot empties it and leaves the others. |
| `DtlsReceive.RingAdvances` | Project/Pods/BoringSSL-GRPC/ssl/d1_both.cc:265-295 | Every occupied slot has a number in [read_seq, read_seq + 7) congruent to its index, also after the front message is taken, so the assertion at line 275 holds. |
| `DtlsReceive.CompleteKept` | Project/Pods/BoringSSL-GRPC/ssl/d1_both.cc:388-438 | Once the current message is complete no record changes it, so the assertions of dtls1_next_message hold after dtls1_get_message. |
| `DtlsReceive.OpenRecord` | Project/Pods/BoringSSL-GRPC/ssl/dtls_record.cc:177-272 | A record that is discarded or fails changes nothing; one that is let in is of the epoch being read, authentic and new, and is in the window from then on, and nothing else changes. |
| `DtlsReceive.TakeFragment` | Project/Pods/BoringSSL-GRPC/ssl/d1_both.cc:338-403 | Taking in one fragment keeps the invariant of the ring, on every branch of the ignore, create, compare and copy logic. |
| `DtlsReceiver.Connection.OpenRecord` | Project/Pods/BoringSSL-GRPC/ssl/dtls_record.cc:177-272 | The class updates its epoch, window and queues exactly as the specification function says, outcome included. |
| `DtlsReceiver.Connection.TakeFragment` | Project/Pods/BoringSSL-GRPC/ssl/d1_both.cc:338-403 | One fragment on the ring of slots in place is one fragment on the specification. |
| `DtlsReceiver.Connection.OpenHandshake` | Project/Pods/BoringSSL-GRPC/ssl/d1_both.cc:297-406 | All fragments of a record, with the error and the part already taken in when one fails. |
| `DtlsReceiver.Connection.GetMessage` | Project/Pods/BoringSSL-GRPC/ssl/d1_both.cc:408-424 | The current message if complete, and has_message set. |
| `DtlsReceiver.Connection.NextMessage` | Project/Pods/BoringSSL-GRPC/ssl/d1_both.cc:426-438 | The slot is freed and read_seq advanced. |
| `DtlsReceiver.Connection.HasUnprocessed` | Project/Pods/BoringSSL-GRPC/ssl/d1_both.cc:440-457 | True exactly when a ChangeCipherSpec or any slot but the current message's is waiting. |
| `DtlsReceiver.Connection.SetReadState` | Project/Pods/BoringSSL-GRPC/ssl/dtls_method.cc:81-95 | The epoch is advanced and the window cleared, unless data of the old epoch is left. |
| `DtlsReceiver.Connection.OpenChangeCipherSpec` | Project/Pods/BoringSSL-GRPC/ssl/d1_both.cc:475-490 | The queued ChangeCipherSpec is consumed, or a record is read for it. |
| `DtlsRecord.IncrementAddsOne` | Project/Pods/BoringSSL-GRPC/ssl/tls_record.cc:154-163 | The big-endian increment adds one, or has wrapped from all ones to all zeros. |
| `DtlsRecord.IncrementCounts` | Project/Pods/BoringSSL-GRPC/ssl/tls_record.cc:154-163 | On six octets it counts modulo 2^48, and fails at the last number and nowhere else. |
| `DtlsRecord.SequenceUpdate` | Project/Pods/BoringSSL-GRPC/ssl/tls_record.cc:154-163 | The in-place loop is that increment. |
| `DtlsSend.SealRecord` | Project/Pods/BoringSSL-GRPC/ssl/dtls_record.cc:294-351 | A sealed record has the type and payload asked for, the epoch and the number its counter held, and fits the room; the counter moves to the next number and the other counter stays. |
| `DtlsSend.SealNextMessage` | Project/Pods/BoringSSL-GRPC/ssl/d1_both.cc:644-734 | One message's next record fits the room, moves the offset within the message, and clears it when the message is done. |
| `DtlsSender.DatagramBio.Write` | Project/Pods/BoringSSL-GRPC/ssl/d1_both.cc:782-827 | The transport takes a whole packet or nothing. |
| `DtlsSender.Connection.SealRecord` | Project/Pods/BoringSSL-GRPC/ssl/dtls_record.cc:294-351 | Sealing on the two counter arrays is the specification's sealing, failures included. |
| `DtlsSender.Connection.SealNextMessage` | Project/Pods/BoringSSL-GRPC/ssl/d1_both.cc:644-734 | The branches for ChangeCipherSpec, fragments, no room and bad queue entries in place. |
| `DtlsSender.Connection.SealNextPacket` | Project/Pods/BoringSSL-GRPC/ssl/d1_both.cc:739-780 | The packing loop in place, with the cursor where it leaves it on every exit. |
| `DtlsSender.Connection.SendLoop` | Project/Pods/BoringSSL-GRPC/ssl/d1_both.cc:806-827 | The send loop in place: a failed write restores the cursor, a seal error does not. |
| `DtlsSender.Connection.SendFlight` | Project/Pods/BoringSSL-GRPC/ssl/d1_both.cc:782-827 | Shutdown check, MTU update, loop and flush. |
| `DtlsSender.Connection.FlushFlight` | Project/Pods/BoringSSL-GRPC/ssl/d1_both.cc:829-834 | Completes the flight and sends from the cursor. |
| `DtlsSender.Connection.Retransmit` | Project/Pods/BoringSSL-GRPC/ssl/d1_both.cc:836-845 | Starts over from the first message. |
| `DtlsSender.Connection.ClearOutgoing` | Project/Pods/BoringSSL-GRPC/ssl/d1_both.cc:500-509 | Lets go of the flight and of the cursor into it. |
| `DtlsSender.Connection.AddOutgoing` | Project/Pods/BoringSSL-GRPC/ssl/d1_both.cc:555-594 | Queues a message and adds it to the transcript, clearing a completed flight first; too many messages are an error. |
| `DtlsSender.Connection.SetWriteState` | Project/Pods/BoringSSL-GRPC/ssl/dtls_method.cc:97-107 | Keeps the old counter and key for retransmission and starts the new epoch at zero. |
| `HandshakeWire.ParseInvertsSerialise` | Project/Pods/BoringSSL-GRPC/ssl/d1_both.cc:459-473 | Parsing a written fragment gives back header, body and whatever follows. |
| `HandshakeWire.SerialiseInvertsParse` | Project/Pods/BoringSSL-GRPC/ssl/d1_both.cc:459-473 | Writing what was parsed gives back the bytes. |
| `HandshakeWire.FinishedMessageIsWhole` | Project/Pods/BoringSSL-GRPC/ssl/d1_both.cc:511-537 | dtls1_init_message and dtls1_finish_message give a message that is one fragment covering it all. |
| `HandshakeWire.ParseWholeMessage` | Project/Pods/BoringSSL-GRPC/ssl/d1_both.cc:668-684 | A queued message parses to itself. |
| `PbRoundTrip.MessageRoundTrip` | Project/Pods/nanopb/pb_decode.c:901-1063 | Decoding what pb_encode wrote succeeds if and only if every string in it, at every depth, has a NUL in its buffer, and then gives the message back with absent members set to their defaults; for every descriptor and message without fixed-count arrays. |
| `PbRoundTrip.FullBufferLost` | Project/Pods/nanopb/pb_decode.c:1428-1461 | Four characters in a buffer of four octets encode and are refused by the decoder; three come back. |
| `PbRoundTrip.ItemRoundTrip` | Project/Pods/nanopb/pb_decode.c:1289-1508 | One value of any type survives, nested submessages included, and what follows it is left unread; an unterminated string encodes but does not decode. |
| `PbRoundTrip.ArrayRoundTrip` | Project/Pods/nanopb/pb_decode.c:419-459 | An array, packed or entry by entry, is decoded to the same elements. |
| `PbRoundTrip.CellRoundTrip` | Project/Pods/nanopb/pb_decode.c:401-475 | A member of any kind (required, optional, proto3, repeated, oneof) is decoded to the same state of the struct. |
| `PbNormal.NormMsgSame` | Project/Pods/nanopb/pb_encode.c:215-392 | If no proto3 member has a default other than zero, nothing is lost by setting absent members to their defaults: the encoding is the same. |
| `PbNormal.NonzeroDefaultShows` | Project/Pods/nanopb/pb_encode.c:215-392 | With such a default it is not the same: a member that starts at five and holds zero is not written, and comes back as five. |
| `PbLaws.MergeLaw` | Project/Pods/nanopb/pb_decode.c:901-1049 | Decoding a followed by b without initialisation is decoding a and then b into the result, when both succeed, exactly as long as no zero tag ends a early; then b is never looked at. |
| `PbLaws.LoopConcat` | Project/Pods/nanopb/pb_decode.c:924-1003 | The same for the loop itself, with the required fields seen so far. |
| `PbLaws.SeenMore` | Project/Pods/nanopb/pb_decode.c:1012-1046 | Having seen more required fields never changes a successful result. |
| `PbLaws.PackedUnpacked` | Project/Pods/nanopb/pb_decode.c:419-459 | The same numbers as separate entries and in any number of packed chunks give the same array and the same overflow verdict. |
| `PbLaws.ChunksAppend` | Project/Pods/nanopb/pb_decode.c:419-459 | Any number of packed chunks append their numbers, or fail when they do not all fit. |
| `PbLaws.ZeroTagHides` | Project/Pods/nanopb/pb_decode.c:293-315 | A zero octet in front of an encoding hides it: the decoder stops there and succeeds. |
| `PbLaws.ChunkAppends` | Project/Pods/nanopb/pb_decode.c:419-450 | A packed chunk appends its numbers, or fails when they do not fit. |
| `PbLaws.EntriesAppend` | Project/Pods/nanopb/pb_decode.c:451-459 | Single entries append one by one to the same effect. |
| `PbSound.MessageSound` | Project/Pods/nanopb/pb_decode.c:901-1049 | Whatever the input, a successful decode leaves every count within its array, every string terminated in its buffer and every byte array within its bounds. |
| `PbSound.SoundEncodes` | Project/Pods/nanopb/pb_encode.c:494-516 | A message with those bounds can be encoded and decoded again. |
| `PbSound.DecodedReencodes` | Project/Pods/nanopb/pb_encode.c:494-516 | Whatever was decoded from any input can be encoded, and decodes to itself up to absent members. |
| `PbVarint.Varint64RoundTrip` | Project/Pods/nanopb/pb_decode.c:250-270 | Every 64-bit number survives encoding as a varint. |
| `PbVarint.Varint32RoundTrip` | Project/Pods/nanopb/pb_decode.c:182-247 | Every 32-bit number survives, with the overflow and sign-extension checks in place. |
| `PbVarint.ZigZagRoundTrip` | Project/Pods/nanopb/pb_decode.c:1240-1252 | Zigzag decoding inverts zigzag encoding for every 64-bit value. |
| `PbVarint.NumberRoundTrip` | Project/Pods/nanopb/pb_decode.c:1289-1389 | Every number a field of its type and width can hold survives: sign-extended negatives, zigzag, fixed widths and the narrowing checks. |
| `PbVarint.NumberInRange` | Project/Pods/nanopb/pb_decode.c:1289-1389 | Whatever decodes fits the variable. |
| `PbVarint.LittleEndianRoundTrip` | Project/Pods/nanopb/pb_decode.c:1254-1286 | The fixed-width octets give the number back. |
| `PbDecode.DefaultsTyped` | Project/Pods/nanopb/pb_decode.c:812-895 | The initial struct is a value of the descriptor. |
| `PbEncode.JoinLaws` | Project/Pods/nanopb/pb_encode.c:494-516 | Encoding members one after another is associative and fails when any of them fails. |
| `PbEncoder.OStream.Write` | Project/Pods/nanopb/pb_encode.c:101-119 | Writes all of the data or fails; a sizing stream only counts. |
| `PbEncoder.VarintOctets` | Project/Pods/nanopb/pb_encode.c:574-594 | The loop over the local buffer yields the varint, in at most ten octets. |
| `PbEncoder.EncodeVarint` | Project/Pods/nanopb/pb_encode.c:574-594 | Writes exactly the varint or fails for lack of room. |
| `PbEncoder.EncodeTag` | Project/Pods/nanopb/pb_encode.c:635-639 | Writes exactly the tag. |
| `PbEncoder.EncodeString` | Project/Pods/nanopb/pb_encode.c:674-680 | Writes exactly length and data. |
| `PbEncoder.EncodeNumber` | Project/Pods/nanopb/pb_encode.c:734-808 | Writes exactly the number as its type demands. |
| `PbEncoder.EncodeItem` | Project/Pods/nanopb/pb_encode.c:810-868 | Writes exactly the value, or fails where there is no encoding. |
| `PbEncoder.EncodeSubmessage` | Project/Pods/nanopb/pb_encode.c:682-730 | Sizing first and writing second give the length and the very octets counted; the size can never change between the two passes. |
| `PbEncoder.EncodePacked` | Project/Pods/nanopb/pb_encode.c:165-181 | Writes exactly the numbers of a packed array. |
| `PbEncoder.PackedSize` | Project/Pods/nanopb/pb_encode.c:140-163 | Multiplying out or counting gives the size of what will be written. |
| `PbEncoder.EncodeArray` | Project/Pods/nanopb/pb_encode.c:126-211 | Writes exactly the array, or fails when the count exceeds the array. |
| `PbEncoder.EncodeEntries` | Project/Pods/nanopb/pb_encode.c:183-208 | Writes exactly the tagged entries. |
| `PbEncoder.EncodeCell` | Project/Pods/nanopb/pb_encode.c:307-392 | Writes exactly the member, or nothing when it is absent. |
| `PbEncoder.HasDefaultItem` | Project/Pods/nanopb/pb_encode.c:215-303 | Recognises a proto3 default value of every type, through submessages. |
| `PbEncoder.HasDefaultCell` | Project/Pods/nanopb/pb_encode.c:215-303 | Recognises an absent member of any kind. |
| `PbEncoder.EncodeMsg` | Project/Pods/nanopb/pb_encode.c:494-516 | Succeeds exactly when there is an encoding and room for it, writes exactly that, and on a sizing stream counts exactly its length: sizing equals writing. |
| `PbEncoder.GetEncodedSize` | Project/Pods/nanopb/pb_encode.c:533-542 | The size is the length of the encoding, or nothing when there is none. |
| `PbIter.LayoutIsTheOne` | Project/Pods/nanopb/pb.h:382-403 | The offsets of a descriptor determine the addresses of the struct's members, by prefix sums that unions do not advance. |
| `PbIter.FieldIter.Next` | Project/Pods/nanopb/pb_common.c:20-76 | The iterator goes round in a cycle, with the address of the member it is on and the number of required fields before it. |
| `PbIter.FieldIter.FindTag` | Project/Pods/nanopb/pb_common.c:78-95 | From any position the search ends within one cycle, finds a tag exactly when the descriptor has it, and is then on that field with its address and required index; otherwise it is where it was. |
| `PbIter.FieldIter.constructor` | Project/Pods/nanopb/pb_common.c:8-18 | Begins on the first field. |
| `PbRequired.SeenIffBits` | Project/Pods/nanopb/pb_decode.c:1012-1046 | Each of the first 64 required fields was decoded exactly when the bits of all indexes in use are set. |
| `PbRequired.MarkWords` | Project/Pods/nanopb/pb_decode.c:988-993 | Setting one bit of one word records one more required field and nothing else. |
| `PbRequired.OnesIffBits` | Project/Pods/nanopb/pb_decode.c:1030-1044 | A word with no higher bits equals the mask of ones exactly when all the bits are set. |
| `PbRequired.MaskOfOnes` | Project/Pods/nanopb/pb_decode.c:1038-1044 | Shifting all ones right by 32 - r gives r ones. |
| `PbRequired.RequiredStrict` | Project/Pods/nanopb/pb_common.c:61-66 | Required indexes grow from required field to required field. |
| `PbRequired.CountRequired` | Project/Pods/nanopb/pb_decode.c:1012-1028 | Running to the end of the field array counts the required fields, the last one included. |
| `PbRequired.AllRequiredSeen` | Project/Pods/nanopb/pb_decode.c:1012-1046 | The comparison of whole words and of the remaining bits succeeds exactly when every required field of the first 64 was seen. |
| `PbDecoder.IStream.ReadByte` | Project/Pods/nanopb/pb_decode.c:136-152 | The next octet, or failure at the end. |
| `PbDecoder.IStream.Read` | Project/Pods/nanopb/pb_decode.c:85-132 | The next octets, or failure when there are too few. |
| `PbDecoder.DecodeVarint32Eof` | Project/Pods/nanopb/pb_decode.c:182-242 | The loop with its narrow bit counter decodes as specified, on arbitrary input, and reports the end of the stream exactly when nothing was there. |
| `PbDecoder.DecodeVarint` | Project/Pods/nanopb/pb_decode.c:250-270 | At most ten octets, bits past the 64th lost. |
| `PbDecoder.SkipVarint` | Project/Pods/nanopb/pb_decode.c:273-282 | Skips to the first octet without its top bit. |
| `PbDecoder.SkipField` | Project/Pods/nanopb/pb_decode.c:316-326 | Skips a field of any wire type, or fails. |
| `PbDecoder.DecodeTag` | Project/Pods/nanopb/pb_decode.c:293-314 | A tag, the end mark or an error, told apart as the source does. |
| `PbDecoder.MakeSubstream` | Project/Pods/nanopb/pb_decode.c:367-380 | The substream holds exactly the declared octets, strictly fewer than there were, and they are deducted from the parent. |
| `PbDecoder.CloseSubstream` | Project/Pods/nanopb/pb_decode.c:382-395 | The parent goes on exactly behind the declared length, however much of the substream was read. |
| `PbDecoder.DecodeNumber` | Project/Pods/nanopb/pb_decode.c:1289-1389 | Reads a number with the range checks of its type. |
| `PbDecoder.MessageDefaults` | Project/Pods/nanopb/pb_decode.c:884-895 | The loop over the iterator sets every member to its default. |
| `PbDecoder.DecodeItem` | Project/Pods/nanopb/pb_decode.c:1289-1508 | Reads one value in place and leaves the stream exactly behind it. |
| `PbDecoder.DecodeSubmessage` | Project/Pods/nanopb/pb_decode.c:1463-1485 | Decodes into the held message, or into defaults for an array entry, and leaves the stream behind the whole submessage even when a zero tag ended it early. |
| `PbDecoder.DecodePacked` | Project/Pods/nanopb/pb_decode.c:424-450 | The loop over a packed chunk, with its overflow and element failures. |
| `PbDecoder.DecodeCell` | Project/Pods/nanopb/pb_decode.c:401-475 | One field into its member, by kind. |
| `PbDecoder.DecodeFound` | Project/Pods/nanopb/pb_decode.c:988-1002 | Marks a required field in the two words and decodes it. |
| `PbDecoder.DecodeField` | Project/Pods/nanopb/pb_decode.c:933-998 | One field with its tag read: found and decoded, skipped, or refused. |
| `PbDecoder.DecodeNoinit` | Project/Pods/nanopb/pb_decode.c:901-1049 | The whole loop, with iterator, words and skipping, succeeds and gives the struct exactly as specified, on arbitrary input, and terminates because each tag takes at least one octet. |
| `PbDecoder.DecodeMessage` | Project/Pods/nanopb/pb_decode.c:1051-1063 | Defaults first, then the loop. |
| `TlsConservation.RunConserves` | Project/Pods/BoringSSL-GRPC/ssl/s3_both.cc:135-279 | Over every run of application writes, handshake messages, alerts and flushes, with any short or failed transport writes, what the transport has taken is a prefix of the records sealed, in sealing order, and all of them once nothing is buffered. |
| `TlsConservation.NewWriterInStep` | Project/Pods/BoringSSL-GRPC/ssl/s3_pkt.cc:129-200 | A new connection satisfies both invariants of the writing half, so the results cover every run from the start. |
| `TlsConservation.ActConserves` | Project/Pods/BoringSSL-GRPC/ssl/s3_pkt.cc:129-423 | Each call keeps what was sealed on the wire, in the write buffer or in the flight, in that order. |
| `TlsConservation.FlightDrainedConserves` | Project/Pods/BoringSSL-GRPC/ssl/s3_both.cc:250-278 | Writing the flight keeps the order because the write buffer has been emptied first. |
| `TlsConservation.DrainBufferConserves` | Project/Pods/BoringSSL-GRPC/ssl/ssl_buffer.cc:239-252 | Writing out the buffer moves its octets to the transport and loses none. |
| `TlsConservation.DoWriteConserves` | Project/Pods/BoringSSL-GRPC/ssl/s3_pkt.cc:221-289 | Moving the flight to the front of the write buffer before sealing keeps the order. |
| `TlsConservation.RunSealsStream` | Project/Pods/BoringSSL-GRPC/ssl/s3_pkt.cc:129-218 | Over every run in which writes pass windows of one stream, the application data sealed is the part reported as written and the part still owed: every octet once and in order, however often writes are cut short and retried. |
| `TlsConservation.WriteKeepsInStep` | Project/Pods/BoringSSL-GRPC/ssl/s3_pkt.cc:129-200 | A positive result r means that exactly the first r octets of the window have been sealed; otherwise what is owed continues the stream. |
| `TlsConservation.WriteKeepsInStepIff` | Project/Pods/BoringSSL-GRPC/ssl/s3_pkt.cc:142-161 | A call keeps in step with the stream if and only if its length is not below what was already sent of it; the refusal of a shorter one forgets that count. |
| `TlsConservation.TooShortForgets` | Project/Pods/BoringSSL-GRPC/ssl/s3_pkt.cc:142-161 | It happens: after one octet of two has got out, a call with length zero is refused and forgets that octet. |
| `TlsConservation.RetryExact` | Project/Pods/BoringSSL-GRPC/ssl/s3_pkt.cc:202-218 | With an arbitrary buffer, what a successful retry reports was sealed exactly when the buffer begins with the octets owed from before. |
| `TlsConservation.WriteLoopSeals` | Project/Pods/BoringSSL-GRPC/ssl/s3_pkt.cc:163-199 | The loop seals exactly the part of the buffer behind what is owed. |
| `TlsConservation.DoWriteSeals` | Project/Pods/BoringSSL-GRPC/ssl/s3_pkt.cc:221-289 | One record is sealed when none is pending and only then. |
| `TlsConservation.AddChunksPlain` | Project/Pods/BoringSSL-GRPC/ssl/s3_both.cc:184-196 | The records of a message carry the message and nothing else. |
| `TlsConservation.OthersKeepInStep` | Project/Pods/BoringSSL-GRPC/ssl/s3_pkt.cc:377-423 | Handshake messages, alerts and flushes change nothing for the application's stream. |
| `TlsDelivery.MessagesDelivered` | Project/Pods/BoringSSL-GRPC/ssl/s3_both.cc:184-583 | Messages queued between writes, flushes and alerts of any kind arrive at the peer's reader as a prefix of the list, whatever the cutting into record bodies, and when all is read as exactly the list, with the sender's transcript equal to the octets of the messages read. |
| `TlsDelivery.RunHandshake` | Project/Pods/BoringSSL-GRPC/ssl/s3_both.cc:184-205 | The handshake records of a run carry the queued messages end to end, and so does the transcript. |
| `TlsFraming.FramingRoundTrip` | Project/Pods/BoringSSL-GRPC/ssl/s3_both.cc:399-583 | For every list of messages, every cutting into record bodies and every order of calls, the messages read are a prefix of the list, and exactly the list once all bodies are taken in and none waits. |
| `TlsFraming.StepKeepsFramed` | Project/Pods/BoringSSL-GRPC/ssl/s3_both.cc:427-583 | Messages read so far followed by hs_buf are always all the bodies received. |
| `TlsFraming.WirePrefix` | Project/Pods/BoringSSL-GRPC/ssl/s3_both.cc:399-425 | The octets of a list of messages determine the list. |
| `TlsFraming.ParseRaw` | Project/Pods/BoringSSL-GRPC/ssl/s3_both.cc:399-425 | A message is recognised as soon as its last octet is there. |
| `TlsFraming.ParseSound` | Project/Pods/BoringSSL-GRPC/ssl/s3_both.cc:399-425 | What is recognised is what the buffer begins with. |
| `TlsFraming.ParseShort` | Project/Pods/BoringSSL-GRPC/ssl/s3_both.cc:399-425 | Short of its last octet a message is not recognised and no more than it is asked for. |
| `TlsFraming.OpenVerdict` | Project/Pods/BoringSSL-GRPC/ssl/s3_both.cc:441-560 | A record is turned away exactly when a message waits, or the one that has begun is longer than allowed, or it is no handshake record. |
| `TlsReadBuffer.HandshakeBuffer.ParseFront` | Project/Pods/BoringSSL-GRPC/ssl/s3_both.cc:399-425 | Parses the front of the array in place: the message found is what the buffer begins with, and none is reported missing that the buffer begins with. |
| `TlsReadBuffer.HandshakeBuffer.GetMessage` | Project/Pods/BoringSSL-GRPC/ssl/s3_both.cc:427-439 | Hands out that message and sets has_message, or neither; the buffer stays. |
| `TlsReadBuffer.HandshakeBuffer.OpenHandshake` | Project/Pods/BoringSSL-GRPC/ssl/s3_both.cc:474-560 | The body of a handshake record goes behind what is buffered; a refused record leaves the buffer as it was. |
| `TlsReadBuffer.HandshakeBuffer.NextMessage` | Project/Pods/BoringSSL-GRPC/ssl/s3_both.cc:562-583 | The octets of the message and then what is left in the array are what was there before, and an empty buffer is released after the handshake. |
| `TlsReadBuffer.BufMem.MoveDown` | Project/Pods/BoringSSL-GRPC/ssl/s3_both.cc:562-583 | The memmove from front to back on overlapping ranges drops the first octets and keeps the rest in order. |
| `TlsReadBuffer.BufMem.Append` | Project/Pods/BoringSSL-GRPC/crypto/buf/buf.c:134-146 | New octets go behind those in use, in a larger array if need be. |
| `TlsReadBuffer.BufMem.Reserve` | Project/Pods/BoringSSL-GRPC/crypto/buf/buf.c:89-116 | The array grows by a third more than is asked for, and keeps its contents. |
| `TlsWriter.StreamBio.Write` | Project/Pods/BoringSSL-GRPC/ssl/ssl_buffer.cc:239-252 | The transport takes a prefix of what it is offered or fails. |
| `TlsWriter.SslBuffer.EnsureCap` | Project/Pods/BoringSSL-GRPC/ssl/ssl_buffer.cc:47-81 | Capacity grows without changing the contents, aligned as asked, or fails above 65535. |
| `TlsWriter.SslBuffer.Append` | Project/Pods/BoringSSL-GRPC/ssl/ssl_buffer.cc:83-88 | New octets go behind those in use. |
| `TlsWriter.SslBuffer.Consume` | Project/Pods/BoringSSL-GRPC/ssl/ssl_buffer.cc:90-97 | Drops octets from the front. |
| `TlsWriter.SslBuffer.Clear` | Project/Pods/BoringSSL-GRPC/ssl/ssl_buffer.cc:39-45 | Empties the buffer. |
| `TlsWriter.DrainBuffer` | Project/Pods/BoringSSL-GRPC/ssl/ssl_buffer.cc:239-252 | The flush loop in place, stopping where the transport fails. |
| `TlsWriter.DrainFlight` | Project/Pods/BoringSSL-GRPC/ssl/s3_both.cc:259-269 | The loop over the pending flight, with the offset where it stopped. |
| `TlsWriter.Connection.FlushFlight` | Project/Pods/BoringSSL-GRPC/ssl/s3_both.cc:231-279 | Write buffer first, then the flight, then the transport's own flush. |
| `TlsWriter.Connection.AddRecord` | Project/Pods/BoringSSL-GRPC/ssl/s3_both.cc:135-165 | Seals a record onto the flight. |
| `TlsWriter.Connection.AddMessage` | Project/Pods/BoringSSL-GRPC/ssl/s3_both.cc:184-205 | Cuts a message into records of the allowed size and adds it to the transcript. |
| `TlsWriter.Connection.WritePending` | Project/Pods/BoringSSL-GRPC/ssl/s3_pkt.cc:202-218 | A retry must match the pending write, and then finishes it. |
| `TlsWriter.Connection.StageFlight` | Project/Pods/BoringSSL-GRPC/ssl/s3_pkt.cc:233-267 | The unsent flight becomes the start of the write buffer. |
| `TlsWriter.Connection.DoWrite` | Project/Pods/BoringSSL-GRPC/ssl/s3_pkt.cc:221-289 | One record sealed and written, or the pending one finished, with every refusal. |
| `TlsWriter.Connection.WriteAppData` | Project/Pods/BoringSSL-GRPC/ssl/s3_pkt.cc:129-200 | The whole call in place, with wnum as every exit leaves it. |
| `TlsWriter.Connection.SendAlert` | Project/Pods/BoringSSL-GRPC/ssl/s3_pkt.cc:377-403 | An alert closes the connection for writing and goes out if nothing is being written. |
| `TlsWriter.Connection.DispatchAlert` | Project/Pods/BoringSSL-GRPC/ssl/s3_pkt.cc:405-423 | The queued alert is written, and flushed when fatal. |
| `RefcountCas.CasLinearizable` | Project/Pods/BoringSSL-GRPC/crypto/refcount_c11.c:37-65 | Under every interleaving of any number of threads, with exchanges failing for no reason, the calls are explained by one atomic saturating counter whose value is the shared word. |
| `RefcountCas.StepKeepsInv` | Project/Pods/BoringSSL-GRPC/crypto/refcount_c11.c:37-65 | Every step of every thread keeps that explanation; a release that has read zero is bound to abort from then on. |
| `RefcountCas.FailureMeansProgress` | Project/Pods/BoringSSL-GRPC/crypto/refcount_c11.c:41-46 | An exchange that fails for a reason means that since this thread read the count some other thread's operation has taken place. |
| `RefcountLock.LockLinearizable` | Project/Pods/BoringSSL-GRPC/crypto/refcount_lock.c:29-51 | The plain reads and writes under the lock implement the same counter under every interleaving. |
| `RefcountLock.StepKeepsInv` | Project/Pods/BoringSSL-GRPC/crypto/refcount_lock.c:29-51 | At most one thread is inside, and what it has read is still the count. |
| `Refcount.MaxAbsorbs` | Project/Pods/BoringSSL-GRPC/crypto/internal.h:399-416 | Once at the maximum the count stays there. |
| `Refcount.CountBalances` | Project/Pods/BoringSSL-GRPC/crypto/internal.h:399-416 | Below the maximum the count is the initial one plus increments minus decrements. |
| `Refcount.FreedOnce` | Project/Pods/BoringSSL-GRPC/crypto/internal.h:399-416 | If nobody uses an object whose count has reached zero, exactly one release reports zero, and it does so when the count is zero. |
| `Refcount.ReplayPrefix` | Project/Pods/BoringSSL-GRPC/crypto/internal.h:399-416 | Every prefix of an explained history is explained. |
| `RefcountLoops.RefcountInc` | Project/Pods/BoringSSL-GRPC/crypto/refcount_c11.c:37-47 | The loop performs one increment of the atomic counter, or none at the maximum, whatever the others do meanwhile. |
| `RefcountLoops.RefcountDec` | Project/Pods/BoringSSL-GRPC/crypto/refcount_c11.c:49-65 | The loop performs one decrement with its result, or none at zero and at the maximum. |
| `RefcountLoops.LockedCount.Inc` | Project/Pods/BoringSSL-GRPC/crypto/refcount_lock.c:29-35 | The locked body is the atomic increment. |
| `RefcountLoops.LockedCount.Dec` | Project/Pods/BoringSSL-GRPC/crypto/refcount_lock.c:37-51 | The locked body is the atomic decrement with its result. |
| `HandshakeRun.NeitherFails` | Project/Pods/BoringSSL-GRPC/ssl/handshake.cc:491-628 | For every pair of configurations and every schedule of turns, pauses, partial and blocked writes, unless the server insists on a certificate the client lacks: neither machine ever fails, and what each has hashed is the one conversation up to its place, so one transcript is always a prefix of the other. |
| `HandshakeRun.StepKeeps` | Project/Pods/BoringSSL-GRPC/ssl/handshake.cc:491-628 | Every step of either machine keeps the invariant that the messages in flight are exactly those of the conversation between the two places. |
| `HandshakeOutcome.DoneTogether` | Project/Pods/BoringSSL-GRPC/ssl/handshake.cc:380-476 | When both are done their transcripts are equal, both read and write under the new cipher, they agree on resumption and cipher suite, and nothing is left in flight. |
| `HandshakeOutcome.OneFinishedEach` | Project/Pods/BoringSSL-GRPC/ssl/handshake_client.cc:1457-1512 | In every conversation each side says Finished exactly once, over everything before it and under the new cipher, and changes its cipher exactly once, before that. |
| `HandshakeOutcome.SignedTranscriptIsThere` | Project/Pods/BoringSSL-GRPC/ssl/handshake_client.cc:1373-1455 | Whenever CertificateVerify is about to be signed or checked the raw transcript has not been freed, and it is the conversation so far. |
| `HandshakeOutcome.SchedulesAgree` | Project/Pods/BoringSSL-GRPC/ssl/handshake.cc:491-628 | Pause-insensitivity over whole runs: under any two schedules a machine that has got equally far has hashed the same messages. |
| `HandshakeProgress.CompletesIff` | Project/Pods/BoringSSL-GRPC/ssl/handshake_server.cc:1018-1026 | A handshake can be completed if and only if the server does not insist on a client certificate that the client does not have. |
| `HandshakeProgress.Completes` | Project/Pods/BoringSSL-GRPC/ssl/handshake.cc:491-628 | From every reachable state, whatever happened before, the handshake can be brought to its end. |
| `HandshakeProgress.SomebodyMoves` | Project/Pods/BoringSSL-GRPC/ssl/handshake.cc:491-628 | No deadlock: as long as one of the two is not done, one of them has a step to take. |
| `HandshakeProgress.ClientMoves` | Project/Pods/BoringSSL-GRPC/ssl/handshake_client.cc:1707-1789 | Such a step brings the client closer to its end, although its states form a cycle, because resumption is settled by ServerHello. |
| `HandshakeProgress.ServerMoves` | Project/Pods/BoringSSL-GRPC/ssl/handshake_server.cc:1539-1621 | The same for the server. |
| `HandshakeClientFollows.ClientFollows` | Project/Pods/BoringSSL-GRPC/ssl/handshake_client.cc:385-1789 | Every turn of the client keeps its invariant, says exactly what is its to say at its place of the conversation or takes in exactly what the server says there, and gets further. |
| `HandshakeServerFollows.ServerFollows` | Project/Pods/BoringSSL-GRPC/ssl/handshake_server.cc:426-1621 | Every turn of the server does the same, except that it refuses an empty certificate where it insists on one. |
| `HandshakeServerFollows.EmptyCertificateRefused` | Project/Pods/BoringSSL-GRPC/ssl/handshake_server.cc:1018-1026 | That refusal, and that it happens only where the two do not agree. |
| `HandshakeServerFollows.ParametersSelected` | Project/Pods/BoringSSL-GRPC/ssl/handshake_server.cc:572-684 | What the server decides about resumption, ticket, client certificate and NPN is what was to be negotiated. |
| `HandshakeServerFollows.HelloAnswered` | Project/Pods/BoringSSL-GRPC/ssl/handshake_server.cc:686-752 | What ServerHello says about Channel ID, NPN and OCSP is what was to be negotiated. |
| `HandshakeServerFollows.CertificateVerifyTaken` | Project/Pods/BoringSSL-GRPC/ssl/handshake_server.cc:1269-1363 | An honest CertificateVerify passes, is hashed after the raw transcript is let go, and is consumed. |
| `HandshakeServerFollows.LastFlightSent` | Project/Pods/BoringSSL-GRPC/ssl/handshake_server.cc:1463-1509 | Ticket, ChangeCipherSpec and Finished go out in that order, Finished under the new cipher and over the ticket too. |
| `HandshakeClientFollows.LastFlightSent` | Project/Pods/BoringSSL-GRPC/ssl/handshake_client.cc:1457-1512 | ChangeCipherSpec, NPN, Channel ID and Finished go out in that order, those after the first under the new cipher. |
| `HandshakeClientFollows.ServerHelloFound` | Project/Pods/BoringSSL-GRPC/ssl/handshake_client.cc:535-759 | The client finds the ServerHello of the conversation and may accept it. |
| `HandshakeClientFollows.CertificateVerifySent` | Project/Pods/BoringSSL-GRPC/ssl/handshake_client.cc:1373-1455 | The client signs the raw transcript up to its place and lets it go. |
| `HandshakeClientFollows.ServerKeyExchangeAbsent` | Project/Pods/BoringSSL-GRPC/ssl/handshake_client.cc:891-906 | A missing ServerKeyExchange is accepted where the cipher suite does not require one, and the message read instead is kept. |
| `HandshakeClientWaits.MessageExpected` | Project/Pods/BoringSSL-GRPC/ssl/handshake_client.cc:535-1672 | Whenever the client waits for a message the next thing the server says is one, under the cipher the client reads with. |
| `HandshakeServerWaits.MessageExpected` | Project/Pods/BoringSSL-GRPC/ssl/handshake_server.cc:432-1461 | The same for the server. |
| `HandshakeClientWaits.CipherComes` | Project/Pods/BoringSSL-GRPC/ssl/handshake_client.cc:1566-1656 | Whenever the client waits for ChangeCipherSpec that is what comes next. |
| `HandshakeServerWaits.CipherComes` | Project/Pods/BoringSSL-GRPC/ssl/handshake_server.cc:1365-1377 | The same for the server. |
| `HandshakeClient.RetryChangesNothing` | Project/Pods/BoringSSL-GRPC/ssl/handshake_client.cc:871-1512 | A client state that asks for more time has not done anything yet. |
| `HandshakeServer.RetryChangesNothing` | Project/Pods/BoringSSL-GRPC/ssl/handshake_server.cc:432-1267 | A server state that asks for more time has not done anything yet. |
| `HandshakeScript.NegotiatedValid` | Project/Pods/BoringSSL-GRPC/ssl/t1_lib.cc:902-1560 | What an offer and a server configuration lead to is consistent: nothing is answered that was not offered, and certificates, OCSP and key exchange fit the cipher suite. |
| `HandshakeFlow.FlowSays` | Project/Pods/BoringSSL-GRPC/ssl/handshake.cc:176-184 | Saying more appends to what is on its way to the peer. |
| `HandshakeFlow.FlowTakes` | Project/Pods/BoringSSL-GRPC/ssl/handshake.cc:215-222 | Taking in what comes next takes it off what is on its way. |
| `HandshakeClientDriver.ClientConnection.RunHandshake` | Project/Pods/BoringSSL-GRPC/ssl/handshake.cc:491-628 | The driver's loop over a client is a run of the steps above; it returns 1 only when the handshake is complete, and otherwise because the transport or the application holds it up. |
| `HandshakeClientDriver.ClientConnection.HandshakeLoop` | Project/Pods/BoringSSL-GRPC/ssl/handshake_client.cc:1707-1789 | The loop over the client's states ends, and when it does not have to wait the handshake is complete. |
| `HandshakeClientDriver.ClientConnection.ResolveWait` | Project/Pods/BoringSSL-GRPC/ssl/handshake.cc:495-609 | Resolving what the client waits for. |
| `HandshakeEndpoint.Endpoint.ResolveWait` | Project/Pods/BoringSSL-GRPC/ssl/handshake.cc:495-609 | The switch over what a handshake waits for, in place, for either side: what is sent, what is read, and when the call has to return. |
| `HandshakeServerDriver.ServerConnection.RunHandshake` | Project/Pods/BoringSSL-GRPC/ssl/handshake.cc:491-628 | The same driver over a server. |
| `HandshakeServerDriver.ServerConnection.HandshakeLoop` | Project/Pods/BoringSSL-GRPC/ssl/handshake_server.cc:1539-1621 | The loop over the server's states ends, and when it does not have to wait the handshake is complete. |
| `HandshakeServerDriver.ServerConnection.ResolveWait` | Project/Pods/BoringSSL-GRPC/ssl/handshake.cc:495-609 | Resolving what the server waits for. |

## Left out

- DtlsDelivery.DeliversPrefix: covers fewer than 65536 messages a connection, because handshake_write_seq and handshake_read_seq are 16-bit counters that would wrap.
- DtlsLiveness.FlightDelivered: is about the first arrival of each record under an epoch; a record that comes 64 or more behind the window is dropped by the code and needs another pass. Alerts, which go to ssl_process_alert, are not among the harmless records.
- DtlsProgress.FlightVerdict: requires a queue built by add_outgoing from finished messages under the current or the previous epoch, and AEADs that keep to their MaxOverhead; other queues fail with an internal error.
- DtlsReuse.NumbersAreUnique: its guard is sufficient, not necessary, because it counts an octet a record; DtlsNumbers.RepeatsExactly is exact.
- DtlsReuse.ReusedExactly: starts at zero and takes MTUs and buffers below 2^16; DtlsNumbers.RepeatsExactly has every start and every size.
- DtlsReplay.NeverAcceptedTwice: takes fewer than 2^16 epoch switches; DtlsReplay.SafeSwitches shows that this is exact.
- PbVarint.Varint32RoundTrip: is about encoder output; on other input the decoder's behaviour is modelled bit by bit, but not every overlong varint is rejected by the code.
- PbNormal.NormMsgSame: takes proto3 members without a default other than zero, as the generator makes them; PbNormal.NonzeroDefaultShows has the other case.
- TlsConservation.RunSealsStream: the caller does not shrink a retry below what was sent, as the code demands; TlsConservation.WriteKeepsInStepIff has the other case.
- TlsFraming.FramingRoundTrip: does not model the V2ClientHello of SSL 2.0, which bypasses the record layer, nor the limit on consecutive empty records.
- HandshakeRun.NeitherFails: two honest sides, whose certificates verify and whose callbacks may ask for time but do not fail; failing callbacks and hostile peers are not modelled.
- HandshakeClient.RetryChangesNothing: what the code builds, parses or caches before it pauses has no field in the model, so that it is not built twice is not captured.
- HandshakeServer.RetryChangesNothing: the same on the server's side.
- Cryptography: an AEAD is a bounded overhead and a flag for authentic records (DTLS), or a function from record number and plaintext to octets (TLS); the octets of Finished and CertificateVerify are the transcript they cover. X.509, hashes and random numbers are not modelled.
- Handshake message bodies beyond what decides which messages follow (randoms, cipher lists, keys, ALPN contents, session identifiers) and the checks on them.
- The do_ functions of the two handshake machines are functions on a value for SSL_HANDSHAKE, which the driver methods update in place; aliasing between the handshake and its connection is not captured.
- The interplay of the TLS record layer with the handshake machines: records carry one message each in HandshakeRun, as ssl3_add_message does with messages of allowed size; cutting and joining is the subject of TlsFraming and TlsDelivery.
- TLS 1.3, DTLS in the handshake machines (HelloVerifyRequest), SSL 3.0, renegotiation, early data and handoff.
- tls_open_record and tls_seal_record beyond what the layers above use; ssl_asn1.cc and handoff.cc.
- DTLS timers are not modelled; a retransmission may happen at any time. flight_has_reply and on_handshake_complete only decide when a flight is let go.
- dtls_write_buffer_flush, application data over DTLS, and the read buffer, which cuts a datagram off at the size of one largest record.
- The C memory of a nanopb struct: members are values, a oneof is a choice, and the iterator's addresses are numbers. Length prefixes of 2^32 octets and more, size_t wrap-around and allocation failures everywhere.
- nanopb extensions, callbacks, pointer fields, fixed-count arrays, custom streams and the other compile-time variants; PB_FIELD_32BIT is fixed, as the pod's build settings have it.
- pb_encode_delimited, pb_encode_nullterminated and their decoding counterparts, which are compositions of modelled calls.
- Memory ordering weaker than sequential consistency for the reference count.
- The SwiftUI application itself, Firebase and the other pods: user interface, declarations and calls into code that is not part of this model.
