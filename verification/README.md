# Message transport in the vendored C and C++ libraries

The application ships two libraries whose job is to carry messages over byte
streams and datagrams: BoringSSL (`mealSwipeExchange/Pods/BoringSSL-GRPC`) and
nanopb (`mealSwipeExchange/Pods/nanopb`). This project models their protocol
code and proves what it is for: what one side sends is what the other receives.
`dafny verify dfyconfig.toml` checks all of it.

Every file pairs a specification, given by functions on values, with classes
and loops in the form of the C code whose contracts equate them with those
functions; the theorems are about the functions.

**DTLS handshake transport** (RFC 6347 sections 4.1.2.6, 4.2.2 to 4.2.4).
`DtlsSender` cuts a flight into records for any MTU and rewinds what was not
taken, and `DtlsResume` says where the next attempt goes on; `DtlsWriter`
numbers and seals records in the current and the previous epoch; `DtlsRecord`
and `ReplayWindow` open them and refuse repeats; `HandshakeFragment` and
`DtlsReceiver` reassemble messages in a ring of seven slots with a bit mask
each; `DtlsFlight` builds flights. `DtlsSession` is what a sender puts on the
network over any attempts, failed ones included, and `DtlsEndToEnd` puts sender,
network and receiver together. The network delivers packets and parts of them in
any order, any number of times or never, and anything else that does not open.
`DtlsLimits` says when something fatal can arrive, and `DtlsChain` has flights
and changes of keys one after another, with the records of earlier flights and
epochs still arriving; `DtlsKeys` has the keys of each epoch in it: what a chain
opens, and the same theorems for a reader that undoes the writer's ciphers. What
is to be expected of anything but an honest peer is in `DtlsArrivals`, the
receiver against any records at all, and `DtlsOutgoing`, the flight over any run
of calls. Main results: `EndToEnd`, `EndToEndUnderKeys`, `EndToEndWithinLimits`,
`CompleteTransmission`, `ChainOfFlights`, `ChainUnderKeys`, `ChainDeliversExactly`,
`ArrivalsExactly`, `FlightOverRuns`, `BuiltEndToEnd`, `NoRecordTwice`,
`DeliveredExactly`, `RecordNumbersIncrease`, `SealedUnderItsKey`,
`NoncesNeverRepeat`, `SendTiles`, `SendSucceeds`.

**nanopb** (Protocol Buffers Encoding specification: Base 128 Varints, Message
Structure, Signed Integers, Packed Repeated Fields). `PbSchema` has descriptors
and messages, `PbEncode` and `PbDecode` say what is written and what is made of
bytes, `PbVarint` has the number formats, `PbOutput` and `PbInput` are the
streams with their loops, `PbIter` the wrapping field iterator and the
required-field bitmap. `PbRoundTrip` has the theorems about what the encoder
wrote; `PbFields` says what the decoder makes of any bytes, against a reading of
them as a list of fields, and `PbListing` what list the encoder writes. Messages
are maps from tags to slots, so the layout of the struct appears only in `PbIter`.
Main results: `MessageIsRead` (decoding with a descriptor that lacks fields, at
any depth, is projection), `RoundTripExactly`, `ValueIsSkipped`, `MessageSays`,
`LastMemberChosen`, `RequiredPresent`, `MessageListed`,
`OutputStream.WriteMessage` and `EncodedSize` (sizing is exact),
`FieldIter.FindTag` and `AllSeen`.

**TLS 1.0 to 1.2 handshake** (RFC 5246 section 7.3, RFC 5077 section 3.1).
`HandshakeScript` is the message flow for given parameters, `HandshakeMachines`
the two state machines, `HandshakeProduct` the invariant that links two honest
ends and everything between them, `HandshakeRuns` the theorems over all runs,
and `HandshakeDriver`, `HandshakeClient` and `HandshakeServer` the machines with
their loops. Keys are secrets derived from transcripts by uninterpreted
functions. `HandshakeOpen` has one end alone, whatever records come to it: the
order it enforces, the keys it expects, and that it accepts a Finished exactly if
that is the MAC of its own transcript, so that with an injective MAC two ends
accept each other's exactly because their transcripts agree; `HandshakeWireOpen`
has the same over any bytes. In `HandshakeRuns` a record holds one message;
`HandshakeRecords` gives
both ends the handshake buffer of `TlsRead` and lets flights be cut into records
anywhere, `HandshakeFollows` shows how they follow the ends that exchange one
message to a record, and `HandshakeRecordRuns` carries the theorems over. Main
results: `Agreement`, `AgreementHoweverCut`, `CompletesHoweverCut`,
`ClientAccepts`, `ServerAccepts`, `FinishedBinds`, `WireAccepts`,
`PausesErased`, `SamePlacesSameFlights`.

**TLS records.** `SslBuffer` and `TlsWriter` write, `TlsWrite` specifies and
proves order and conservation, `TlsFragments` how large the records are, and
`TlsRetry` what becomes of a blocked write that is retried with too few bytes;
`TlsRead` reads messages out of records; `TlsStream` joins the two. The transport
takes any number of bytes at a time or fails. Main results: `WireOrder`,
`ReportedIsOut`, `RunWithin`, `ShortThenFull`, `BoundariesInvisible`,
`BufferBounded`, `ChunkingIsUndone`.

**Cipher choice and reference counts.** `CipherChoice` has the
equal-preference groups; `Refcount` shows that the compare-and-swap version
linearizes to the lock version under any interleaving.

`RecordTypes` has what TLS and DTLS records share, and `Bits` and `Bytes` hold
words as natural numbers, with an explicit width wherever the C code has one.

## Where the code surprises

- The receiver's window test lets number `read_seq + 7` through to a check that
  refuses it as an internal error, while every larger number is ignored
  (`DtlsReceiver.WindowEdge`).
- A fragment repeated after its message was taken is ignored, except in epoch 1,
  where it is fatal: the receiver survives that epoch exactly if nothing opens
  after its message was taken (`DtlsLimits.EndToEndWithinLimits`).
- An MTU beyond 2^14 plus the seal overhead lets the sender seal records that end
  the connection, or that are dropped unopened if sealing makes them longer still
  (`DtlsLimits.LargeMtuFatal`).
- Sealing the record with the last number fails, but only after the counter has
  gone round to zero, so a caller that went on would use number zero again
  (`DtlsWriter.WrapRestartsNumbers`).
- A string that fills its array without a terminator is encoded but cannot be
  decoded into the same array (`PbRoundTrip.UnterminatedString`).
- The 32-bit varint decoder accepts encodings longer than ten bytes, which the
  64-bit decoder refuses (`PbVarint.ElevenBytes`).
- Searching a descriptor without fields finds tag zero, at its terminator
  (`PbIter.FieldIter.FindTag`), so decoding fails there; any other descriptor
  skips that tag, and the comment at pb_decode.c:915 expects the same of an
  empty one.
- An application write that is retried with fewer bytes than were written forgets
  how many that was. With a record pending, as after any blocked write, and a
  buffer that may not move, every later write from the same address is then
  refused for good. If the buffer may move, a full retry counts the pending record
  as its first bytes and seals again from behind them; and with no record pending,
  after a failure to seal in the middle of a write, it seals all of them again
  (`TlsRetry.ShortThenFull`, `TlsRetry.RefusedForGood`).
- A flight whose packet cannot be sealed to its end is resumed behind the records
  that were sealed and never sent (`DtlsResume.ResumesExactly`).
- A write buffer of nearly 2^16 bytes whose aligned start lies a few bytes in makes
  the 16-bit offset wrap when almost all of it is consumed at once or in parts
  (`SslBuffer.Buffer.Consume`).

## Model

| member | source | states |
|---|---|---|
| DtlsEndToEnd.EndToEnd | mealSwipeExchange/Pods/BoringSSL-GRPC/ssl/d1_both.cc:297-438 | For every sender session (any sequence of send attempts and rewinds, any MTUs, also too small ones, any transport answers and failures to seal) and every schedule in which the network loses, duplicates, reorders and splits its records and the handshake looks for messages whenever it likes: the receiver fails if and only if something fatal arrives (a record that opens to more than 2^14 bytes, a ChangeCipherSpec under encryption, or in epoch 1 a fragment of another message), and otherwise what it has taken is exactly the sender's messages of its epoch, whole and in order, with the next one available if and only if accepted fragments cover all its bytes |
| DtlsLimits.EndToEndWithinLimits | mealSwipeExchange/Pods/BoringSSL-GRPC/ssl/d1_both.cc:297-438 | With MTUs up to 2^14 plus the seal overhead, or messages that fit a record, nothing is fatal in any epoch but 1; in epoch 1, encrypted and with its one message, the receiver fails if and only if something opens after that message was taken |
| DtlsLimits.SafeExactly | mealSwipeExchange/Pods/BoringSSL-GRPC/ssl/d1_both.cc:373-378 | Over every run within the limits: safe in any epoch but 1, and in epoch 1 exactly when nothing opens after the message was taken |
| DtlsLimits.OverlongExactly | mealSwipeExchange/Pods/BoringSSL-GRPC/ssl/dtls_record.cc:190-257 | By its length a record is fatal if and only if its body is admitted, it is fresh, opens, and holds more than 2^14 bytes; a longer body is dropped with its whole packet and changes nothing |
| DtlsLimits.LargeMtuFatal | mealSwipeExchange/Pods/BoringSSL-GRPC/ssl/d1_both.cc:693-724 | A sender's handshake record holds more than 2^14 bytes if and only if the MTU exceeds 2^14 plus the seal overhead and the message has that much left; delivered, it is fatal if and only if its body is still admitted, and dropped otherwise |
| DtlsLimits.SessionWithin | mealSwipeExchange/Pods/BoringSSL-GRPC/ssl/d1_both.cc:644-845 | Within the limits no record of a session holds more than 2^14 bytes |
| DtlsChain.ChainOfFlights | mealSwipeExchange/Pods/BoringSSL-GRPC/ssl/d1_both.cc:297-438 | Over any chain of flights and changes of keys, while records of earlier flights and of other epochs still arrive: the receiver fails if and only if something fatal arrives, no change of keys is refused, and otherwise all messages of all flights and epochs are taken in order, numbered on across epochs |
| DtlsChain.ChainFromStart | mealSwipeExchange/Pods/BoringSSL-GRPC/ssl/d1_both.cc:555-594 | From the first flight on, with any number of flights of at most seven messages in any number of epochs |
| DtlsChain.ChangeExactly | mealSwipeExchange/Pods/BoringSSL-GRPC/ssl/dtls_method.cc:81-95 | A change of keys is refused if and only if a fragment of a message not yet taken has arrived; otherwise it keeps the correspondence between ring and sender |
| DtlsChain.OtherEpochIgnored | mealSwipeExchange/Pods/BoringSSL-GRPC/ssl/dtls_record.cc:225-234 | A record of another epoch, such as a retransmission from before the change of keys, changes nothing |
| DtlsKeys.EndToEndUnderKeys | mealSwipeExchange/Pods/BoringSSL-GRPC/ssl/d1_both.cc:297-438 | End to end with the ciphers: when the reader's cipher undoes the writer's for that epoch, and whatever opens in the epoch is a record the sender made, the receiver fails if and only if something fatal arrives, and otherwise the handshake gets the flight in order; that the plaintexts are the sender's is no assumption |
| DtlsKeys.ChainUnderKeys | mealSwipeExchange/Pods/BoringSSL-GRPC/ssl/d1_both.cc:297-438 | The same for a whole chain of flights and key changes from the first flight on, each flight sealed under what the reader of its time undoes |
| DtlsKeys.SessionOpens | mealSwipeExchange/Pods/BoringSSL-GRPC/ssl/dtls_record.cc:294-351 | Every record of a session, retransmissions and the previous epoch included, opens to exactly the plaintext that was sealed in it, under the epoch and number in its own header |
| DtlsKeys.SentIsAccepted | mealSwipeExchange/Pods/BoringSSL-GRPC/ssl/dtls_record.cc:177-272 | Every handshake record that a session puts on the network is accepted with its plaintext wherever it arrives fresh and is not fatal |
| DtlsKeys.ChainDeliversExactly | mealSwipeExchange/Pods/BoringSSL-GRPC/ssl/dtls_record.cc:177-272 | At the end of any chain of flights and accepted key changes the next record is opened to a plaintext if and only if it is of the epoch that the last change began, fresh in it, not too long, and the key given to that change makes that plaintext of it; if that key does not open it, it is dropped |
| DtlsKeys.FirstUnderNewKeys | mealSwipeExchange/Pods/BoringSSL-GRPC/ssl/dtls_method.cc:81-95 | Right after an accepted change of keys, a record of the new epoch is delivered with plaintext p if and only if the cipher given to the change opens it to p within 2^14 bytes, and is dropped if that cipher does not open it; reader and ring are in the new epoch |
| DtlsEndToEnd.NewFlightKeepsInv | mealSwipeExchange/Pods/BoringSSL-GRPC/ssl/d1_both.cc:555-594 | A new flight fits the ring once all messages before it were taken |
| DtlsFlight.BuiltEndToEnd | mealSwipeExchange/Pods/BoringSSL-GRPC/ssl/d1_both.cc:511-602 | From a flight as it is built, message by message with epoch changes in between, to the messages its receiver gets, numbered from where the writer's sequence stood |
| DtlsEndToEnd.CompleteTransmission | mealSwipeExchange/Pods/BoringSSL-GRPC/ssl/d1_both.cc:644-845 | If one whole transmission of the flight is accepted, in any order and among any other records, taking the missing messages delivers exactly the whole flight, whatever MTUs cut it |
| DtlsEndToEnd.RunExactly | mealSwipeExchange/Pods/BoringSSL-GRPC/ssl/d1_both.cc:203-403 | Over every run of an honest network the receiver fails if and only if something fatal arrives, and otherwise each ring slot holds the sender's message of that number restricted to the byte positions that accepted fragments carried, and nothing else |
| DtlsEndToEnd.DeliverExactly | mealSwipeExchange/Pods/BoringSSL-GRPC/ssl/d1_both.cc:350-403 | An honest arrival is fatal if and only if it is not harmless; a harmless one, opened, discarded, repeated or for a message already taken, keeps that correspondence and takes no message |
| DtlsEndToEnd.AcceptPiece | mealSwipeExchange/Pods/BoringSSL-GRPC/ssl/d1_both.cc:380-403 | A piece of message j adds exactly its byte positions to the slot of j, and nothing if j was already taken |
| DtlsEndToEnd.CurrentMessage | mealSwipeExchange/Pods/BoringSSL-GRPC/ssl/d1_both.cc:408-424 | A message is available if and only if the current one is completely covered, and it is then the sender's message |
| DtlsEndToEnd.TakeKeepsInv | mealSwipeExchange/Pods/BoringSSL-GRPC/ssl/d1_both.cc:426-438 | Taking a message frees its slot for the message seven further on without losing what arrived of the others |
| DtlsSession.SessionSendsPieces | mealSwipeExchange/Pods/BoringSSL-GRPC/ssl/d1_both.cc:782-845 | Every record of every session, across blocked writes, failures to seal and retransmissions, carries one piece of one message of the flight or its ChangeCipherSpec |
| DtlsEndToEnd.SessionIsLog | mealSwipeExchange/Pods/BoringSSL-GRPC/ssl/d1_both.cc:644-845 | A session's records of an epoch are pieces of the messages that were added in that epoch |
| DtlsEndToEnd.PacketIsFromNetwork | mealSwipeExchange/Pods/BoringSSL-GRPC/ssl/dtls_record.cc:190-234 | A packet as it was sent, from any of its records on, is opened at that record, which is consumed exactly, so that sent packets are among what the theorems let the network deliver |
| DtlsSession.SessionFits | mealSwipeExchange/Pods/BoringSSL-GRPC/ssl/d1_both.cc:693-700 | No record of a session is larger than the largest MTU used, and its handshake plaintext leaves room in it for all that sealing may add |
| DtlsSession.PacketParses | mealSwipeExchange/Pods/BoringSSL-GRPC/ssl/dtls_record.cc:190-205 | From any record on, a packet parses as that record and the rest, unless the body is longer than the limit |
| DtlsSession.FragmentFits | mealSwipeExchange/Pods/BoringSSL-GRPC/ssl/d1_both.cc:693-724 | A fragment carries the rest of the message or exactly what the MTU leaves after both headers and the seal overhead |
| DtlsSession.PieceInEpoch | mealSwipeExchange/Pods/BoringSSL-GRPC/ssl/d1_both.cc:650-656 | A record of an epoch carries a piece of a message added in that epoch |
| DtlsEndToEnd.TransmissionCovers | mealSwipeExchange/Pods/BoringSSL-GRPC/ssl/d1_both.cc:644-827 | The pieces of one transmission cover every byte of every message, and touch every empty one |
| DtlsEndToEnd.Drain | mealSwipeExchange/Pods/BoringSSL-GRPC/ssl/d1_both.cc:408-438 | Once the rest is covered, as many takes as messages are missing deliver exactly those |
| DtlsFlight.BuiltFlightIsNumbered | mealSwipeExchange/Pods/BoringSSL-GRPC/ssl/d1_both.cc:511-602 | However a flight is built, its messages of each epoch are unfragmented and numbered consecutively: from the writer's next number in the epoch it began in, and moved on by the messages added before in a later one |
| DtlsFlight.AddKeepsBuilt | mealSwipeExchange/Pods/BoringSSL-GRPC/ssl/d1_both.cc:555-602 | Adding a message, a ChangeCipherSpec or a new epoch keeps that numbering |
| DtlsFlight.NewMessageIsWhole | mealSwipeExchange/Pods/BoringSSL-GRPC/ssl/d1_both.cc:511-541 | A message as it is built parses back as one whole fragment under the next number |
| DtlsReceiver.AcceptFragmentKeepsRing | mealSwipeExchange/Pods/BoringSSL-GRPC/ssl/d1_both.cc:353-403 | Every fragment, honest or not, keeps: slot i is empty or holds a message numbered in [read_seq, read_seq+7) with number congruent to i; a refused one changes nothing |
| DtlsReceiver.AcceptFragmentsKeepsRing | mealSwipeExchange/Pods/BoringSSL-GRPC/ssl/d1_both.cc:350-405 | So does every record of fragments, well formed or not |
| DtlsReceiver.HandleRecordKeepsRing | mealSwipeExchange/Pods/BoringSSL-GRPC/ssl/d1_both.cc:297-405 | So does every opened record, and it leaves complete messages and the read position alone |
| DtlsReceiver.CompleteStays | mealSwipeExchange/Pods/BoringSSL-GRPC/ssl/d1_both.cc:393-396 | A completed message never changes again, whatever arrives |
| DtlsReceiver.NextMessageKeepsRing | mealSwipeExchange/Pods/BoringSSL-GRPC/ssl/d1_both.cc:426-438 | Advancing the window keeps the ring invariant, also where the 16-bit number wraps around |
| DtlsReceiver.WindowEdge | mealSwipeExchange/Pods/BoringSSL-GRPC/ssl/d1_both.cc:380-385 | The edge of the window as coded: number read_seq+7 is fatal, every larger one is ignored |
| DtlsReceiver.EpochOneEdge | mealSwipeExchange/Pods/BoringSSL-GRPC/ssl/d1_both.cc:373-378 | In epoch 1 a fragment is fatal if and only if it is not of the current message |
| DtlsArrivals.ArrivalsExactly | mealSwipeExchange/Pods/BoringSSL-GRPC/ssl/d1_both.cc:297-438 | Whatever records come, made by anybody, in any order with looks and takes in between: the connection ends exactly at the first one that is not lawful; until then the ring is what the fragments that came make, the messages taken are numbered on from the first, every byte of theirs came in a fragment of their number, type and length, and the next one is there if and only if all of it came; a reply is noted if and only if a message was taken after the own flight was sent |
| DtlsArrivals.MeetsExactly | mealSwipeExchange/Pods/BoringSSL-GRPC/ssl/d1_both.cc:297-405 | Any record is fatal if and only if it is not a ChangeCipherSpec of one byte 1 in the clear, application data under encryption, or a handshake record of admitted fragments that agree with those before |
| DtlsArrivals.HandshakeExactly | mealSwipeExchange/Pods/BoringSSL-GRPC/ssl/d1_both.cc:350-403 | A handshake record is accepted if and only if it is nothing but whole fragments, each within its message and the length limit and of a number that is waited for, and those of the window agree in type and length with all before them |
| DtlsArrivals.FragmentExactly | mealSwipeExchange/Pods/BoringSSL-GRPC/ssl/d1_both.cc:353-403 | The same for one fragment, which then adds its bytes to the message it is of and to nothing else |
| DtlsArrivals.CurrentExactly | mealSwipeExchange/Pods/BoringSSL-GRPC/ssl/d1_both.cc:408-424 | A message is handed out if and only if all of it came, with its header in front and every byte as it came |
| DtlsArrivals.LeftOverExactly | mealSwipeExchange/Pods/BoringSSL-GRPC/ssl/d1_both.cc:440-457 | Data is left over if and only if a ChangeCipherSpec came or a fragment of a message not taken yet, other than the one looked at |
| DtlsReceiver.HandshakeReceiver.constructor | mealSwipeExchange/Pods/BoringSSL-GRPC/ssl/d1_both.cc:265-270 | An empty ring that satisfies the ring invariant |
| DtlsReceiver.HandshakeReceiver.GetIncoming | mealSwipeExchange/Pods/BoringSSL-GRPC/ssl/d1_both.cc:265-295 | The slot's message if it agrees with the header, a new one if the slot is empty; outside the window or on a mismatch an alert and no change |
| DtlsReceiver.HandshakeReceiver.BeginSlot | mealSwipeExchange/Pods/BoringSSL-GRPC/ssl/d1_both.cc:288-294 | A new message in its slot, complete at once if it is empty |
| DtlsReceiver.HandshakeReceiver.AddTo | mealSwipeExchange/Pods/BoringSSL-GRPC/ssl/d1_both.cc:393-402 | The body is copied into place and marked, unless the message is complete; every other slot is unchanged |
| DtlsReceiver.HandshakeReceiver.PlaceOne | mealSwipeExchange/Pods/BoringSSL-GRPC/ssl/d1_both.cc:387-402 | Refines the specification of placing a fragment within the window |
| DtlsReceiver.HandshakeReceiver.AcceptOne | mealSwipeExchange/Pods/BoringSSL-GRPC/ssl/d1_both.cc:353-402 | Refines the specification of one fragment: length check, epoch-1 rule, window, mismatch, copy |
| DtlsReceiver.HandshakeReceiver.AcceptPayload | mealSwipeExchange/Pods/BoringSSL-GRPC/ssl/d1_both.cc:350-405 | Refines the specification of all fragments of a record, in order, up to the first error |
| DtlsReceiver.HandshakeReceiver.OpenHandshake | mealSwipeExchange/Pods/BoringSSL-GRPC/ssl/d1_both.cc:297-405 | Refines the specification of an opened record, including ChangeCipherSpec and application data in place of a handshake record |
| DtlsReceiver.HandshakeReceiver.Get | mealSwipeExchange/Pods/BoringSSL-GRPC/ssl/d1_both.cc:408-424 | Returns the current message, header and body as its sender wrote them, if and only if it is complete |
| DtlsReceiver.HandshakeReceiver.Next | mealSwipeExchange/Pods/BoringSSL-GRPC/ssl/d1_both.cc:426-438 | Drops exactly the current message |
| DtlsReceiver.HandshakeReceiver.Unprocessed | mealSwipeExchange/Pods/BoringSSL-GRPC/ssl/d1_both.cc:440-457 | True if and only if a message other than the one looked at is in the ring |
| HandshakeFragment.FragmentRoundTrip | mealSwipeExchange/Pods/BoringSSL-GRPC/ssl/d1_both.cc:459-473 | Every fragment is parsed back exactly from the front of any input it starts |
| HandshakeFragment.FragmentParsesExactly | mealSwipeExchange/Pods/BoringSSL-GRPC/ssl/d1_both.cc:459-473 | Any bytes begin with a fragment if and only if they are its bytes and whatever follows |
| HandshakeFragment.FragmentLayout | mealSwipeExchange/Pods/BoringSSL-GRPC/ssl/d1_both.cc:459-473 | The header's fields at their places, high bytes first: type, 24-bit length, 16-bit number, 24-bit offset and length, then the body |
| HandshakeFragment.MarkedMask | mealSwipeExchange/Pods/BoringSSL-GRPC/ssl/d1_both.cc:203-236 | The bit operations on a range, within one byte or across several, add exactly its positions to the received set |
| HandshakeFragment.FullExactly | mealSwipeExchange/Pods/BoringSSL-GRPC/ssl/d1_both.cc:238-247 | The byte-wise completeness test succeeds if and only if every position was received |
| HandshakeFragment.MarkBits | mealSwipeExchange/Pods/BoringSSL-GRPC/ssl/d1_both.cc:226-236 | The loop sets in each byte exactly the bits of the range |
| HandshakeFragment.TestFull | mealSwipeExchange/Pods/BoringSSL-GRPC/ssl/d1_both.cc:238-247 | The loop decides the completeness test |
| HandshakeFragment.HmFragment.constructor | mealSwipeExchange/Pods/BoringSSL-GRPC/ssl/d1_both.cc:152-199 | A new message with no byte received; complete at once, with no mask, if it is empty |
| HandshakeFragment.HmFragment.Mark | mealSwipeExchange/Pods/BoringSSL-GRPC/ssl/d1_both.cc:211-251 | The received set grows by exactly the range, and the mask is dropped if and only if it is then full |
| HandshakeFragment.HmFragment.Add | mealSwipeExchange/Pods/BoringSSL-GRPC/ssl/d1_both.cc:399-402 | The in-place copy and mark refine receiving a piece on the map of received bytes |
| HandshakeFragment.HmFragment.IsComplete | mealSwipeExchange/Pods/BoringSSL-GRPC/ssl/d1_both.cc:255-259 | Complete if and only if the mask is gone |
| HandshakeFragment.HmFragment.Raw | mealSwipeExchange/Pods/BoringSSL-GRPC/ssl/d1_both.cc:408-424 | A complete buffer is the unfragmented message with its header |
| DtlsSender.SendTiles | mealSwipeExchange/Pods/BoringSSL-GRPC/ssl/d1_both.cc:782-827 | Every attempt sends non-empty packets within the MTU; their records, and then those left behind in a packet that could not be sealed to its end, are consecutive pieces from the position it began at to the one it ends at; a packet the transport did not take is rewound exactly |
| DtlsResume.ResumesExactly | mealSwipeExchange/Pods/BoringSSL-GRPC/ssl/d1_both.cc:800-822 | The next attempt resumes exactly where what the transport took ended if and only if no record was sealed into a packet before it failed: only a packet that was not taken is rewound |
| DtlsResume.LastNumberSkips | mealSwipeExchange/Pods/BoringSSL-GRPC/ssl/d1_both.cc:745-768 | Such a failure: with two messages left and two record numbers, the first is sealed, the second cannot be, nothing is sent, and the position is behind the first |
| DtlsSender.PacketTiles | mealSwipeExchange/Pods/BoringSSL-GRPC/ssl/d1_both.cc:739-780 | A packet, even one on which sealing fails, fits the MTU, and its records are consecutive pieces of the flight |
| DtlsSender.NextMessageTiles | mealSwipeExchange/Pods/BoringSSL-GRPC/ssl/d1_both.cc:644-734 | One record carries the next piece: the rest of the message or as much as fits, never an empty piece of a non-empty body |
| DtlsSender.SendSucceeds | mealSwipeExchange/Pods/BoringSSL-GRPC/ssl/d1_both.cc:782-827 | With room for a header and one byte and no counter near its end, sending ends only by sending all or by a transport that blocks, and sends all if it never does |
| DtlsSender.FillPacketSucceeds | mealSwipeExchange/Pods/BoringSSL-GRPC/ssl/d1_both.cc:739-780 | Under the same conditions a packet always carries something |
| DtlsSender.NextMessageSucceeds | mealSwipeExchange/Pods/BoringSSL-GRPC/ssl/d1_both.cc:644-734 | Under the same conditions sealing the next message never fails |
| DtlsSender.NextMessageAdvances | mealSwipeExchange/Pods/BoringSSL-GRPC/ssl/d1_both.cc:726-733 | A partial record strictly decreases the bytes left and stays in its message |
| DtlsSender.FillPacketAdvances | mealSwipeExchange/Pods/BoringSSL-GRPC/ssl/d1_both.cc:741-769 | A packet decreases (messages left, bytes left) lexicographically, which is why sending terminates |
| DtlsOutgoing.FlightOverRuns | mealSwipeExchange/Pods/BoringSSL-GRPC/ssl/d1_both.cc:495-602 | Over any run of adding, flushing, sending again, clearing, replies and new ciphers, the flight is exactly the messages added since it was dropped or, behind a flush, since the one that began it; it has at most seven, and the next number is that of all handshake messages added, modulo 2^16 |
| DtlsOutgoing.AddExactly | mealSwipeExchange/Pods/BoringSSL-GRPC/ssl/d1_both.cc:555-602 | Adding succeeds if and only if the flight was flushed or has fewer than seven messages and the data is below 2^32 bytes; behind a flush it begins a flight of its own, with position and reply flag cleared |
| DtlsOutgoing.SentExactly | mealSwipeExchange/Pods/BoringSSL-GRPC/ssl/d1_both.cc:782-834 | A flight counts as sent if and only if this end was not shut down, the transport took all that was left of it, and was flushed; its packets then carry all from the old position to the end, and an end that was shut down sends nothing |
| DtlsOutgoing.ResentWhole | mealSwipeExchange/Pods/BoringSSL-GRPC/ssl/d1_both.cc:836-845 | A retransmission that counts as sent has carried the whole flight again, from its first message to its last |
| DtlsOutgoing.WholeExactly | mealSwipeExchange/Pods/BoringSSL-GRPC/ssl/d1_both.cc:658-682 | Data goes out if and only if it is one whole unfragmented message and nothing else |
| DtlsSender.FlightSender.constructor | mealSwipeExchange/Pods/BoringSSL-GRPC/ssl/d1_both.cc:495-509 | An empty flight |
| DtlsSender.FlightSender.Clear | mealSwipeExchange/Pods/BoringSSL-GRPC/ssl/d1_both.cc:500-509 | Empties the flight and its position |
| DtlsSender.FlightSender.Add | mealSwipeExchange/Pods/BoringSSL-GRPC/ssl/d1_both.cc:555-602 | Appends the message under the epoch of the writer; a flushed flight gives way first, an eighth message is refused |
| DtlsSender.FlightSender.SealNext | mealSwipeExchange/Pods/BoringSSL-GRPC/ssl/d1_both.cc:644-734 | Refines sealing the next record of the flight |
| DtlsSender.FlightSender.SealPacket | mealSwipeExchange/Pods/BoringSSL-GRPC/ssl/d1_both.cc:739-780 | The loop refines filling one packet |
| DtlsSender.FlightSender.Send | mealSwipeExchange/Pods/BoringSSL-GRPC/ssl/d1_both.cc:782-827 | The loop refines sending the flight, with its rewind on a failed write |
| DtlsSender.FlightSender.Flush | mealSwipeExchange/Pods/BoringSSL-GRPC/ssl/d1_both.cc:829-834 | Marks the flight complete and sends it |
| DtlsSender.FlightSender.Retransmit | mealSwipeExchange/Pods/BoringSSL-GRPC/ssl/d1_both.cc:836-845 | Sends the whole flight again from its start |
| DtlsRecord.NoRecordTwice | mealSwipeExchange/Pods/BoringSSL-GRPC/ssl/dtls_record.cc:177-272 | Over any sequence of packets and epoch changes no (epoch, number) is delivered twice, and the window stands for exactly the numbers delivered in the epoch |
| DtlsRecord.RefusedExactly | mealSwipeExchange/Pods/BoringSSL-GRPC/ssl/dtls_record.cc:225-249 | In the current epoch a record is refused unopened if and only if it was delivered before or lies 64 or more below the largest; one that fails to open changes nothing |
| DtlsRecord.ReadStepKeepsInv | mealSwipeExchange/Pods/BoringSSL-GRPC/ssl/dtls_record.cc:177-272 | One packet or epoch change keeps that correspondence |
| DtlsRecord.RecordRoundTrip | mealSwipeExchange/Pods/BoringSSL-GRPC/ssl/dtls_record.cc:190-205 | A record is parsed back whole from the front of a packet, unless its body is longer than the limit |
| DtlsRecord.ParsesExactly | mealSwipeExchange/Pods/BoringSSL-GRPC/ssl/dtls_record.cc:190-205 | Any bytes begin with a record if and only if they are its bytes and whatever follows, and its body is within the limit |
| DtlsRecord.RecordLayout | mealSwipeExchange/Pods/BoringSSL-GRPC/ssl/dtls_record.cc:311-349 | The header's fields at their places, high bytes first: type, version, epoch, 48-bit number, length, then the body |
| DtlsRecord.DeliveredExactly | mealSwipeExchange/Pods/BoringSSL-GRPC/ssl/dtls_record.cc:177-272 | Over any run of packets and key changes, any record that comes next is delivered with a plaintext if and only if it is of the current epoch, was not delivered, lies less than 64 below every number delivered in the epoch, is not too long, and the key of the epoch admits its version and makes that plaintext of it; what becomes of every other record, what is consumed, and that nothing is opened after a close |
| DtlsRecord.RecordReader.constructor | mealSwipeExchange/Pods/BoringSSL-GRPC/ssl/dtls_method.cc:81-95 | The first epoch with an empty window |
| DtlsRecord.RecordReader.Open | mealSwipeExchange/Pods/BoringSSL-GRPC/ssl/dtls_record.cc:177-272 | Refines opening a record: what is delivered, discarded or fatal, what is consumed and how the window moves |
| DtlsRecord.RecordReader.SetCipher | mealSwipeExchange/Pods/BoringSSL-GRPC/ssl/dtls_method.cc:81-95 | Refused without change while handshake data is left over; otherwise the next epoch, modulo 2^16, with an empty window and the cipher given |
| ReplayWindow.DiscardsExactly | mealSwipeExchange/Pods/BoringSSL-GRPC/ssl/dtls_record.cc:140-153 | A number is discarded if and only if it was recorded or lies below the window |
| ReplayWindow.RecordAdds | mealSwipeExchange/Pods/BoringSSL-GRPC/ssl/dtls_record.cc:155-175 | Recording a number adds exactly it to the set the bitmap stands for, with or without a slide |
| ReplayWindow.SlideBits | mealSwipeExchange/Pods/BoringSSL-GRPC/ssl/dtls_record.cc:157-166 | Shifting the map moves every bit with its number |
| ReplayWindow.Bitmap.Clear | mealSwipeExchange/Pods/BoringSSL-GRPC/ssl/dtls_method.cc:81-95 | An epoch change empties the window |
| ReplayWindow.Bitmap.Discards | mealSwipeExchange/Pods/BoringSSL-GRPC/ssl/dtls_record.cc:140-153 | Decides the discard test on the 64-bit word |
| ReplayWindow.Bitmap.Mark | mealSwipeExchange/Pods/BoringSSL-GRPC/ssl/dtls_record.cc:155-175 | Refines recording a number |
| DtlsWriter.RecordNumbersIncrease | mealSwipeExchange/Pods/BoringSSL-GRPC/ssl/dtls_record.cc:294-351 | Over every run of seals in the current epoch, retransmissions in the previous one, failed seals and epoch changes, record numbers strictly increase within each epoch if and only if no epoch is sealed in after its last number was used |
| DtlsWriter.WriteStepExactly | mealSwipeExchange/Pods/BoringSSL-GRPC/ssl/dtls_record.cc:294-351 | One step keeps them increasing if and only if it does not run the cipher past the last number of its epoch, current or previous |
| DtlsWriter.WrapRestartsNumbers | mealSwipeExchange/Pods/BoringSSL-GRPC/ssl/dtls_record.cc:331-336 | In either epoch the seal that uses the last number fails but leaves the counter at zero, so that a seal after it uses number 0 again |
| DtlsWriter.NoncesNeverRepeat | mealSwipeExchange/Pods/BoringSSL-GRPC/ssl/ssl_aead_ctx.cc:325-369 | Over every such run no key is run twice under one nonce, prepended or XORed: any two runs of a cipher in one epoch were of the one cipher of that epoch, each under the number noted for it, and the nonces of these numbers differ |
| DtlsWriter.NoncesDistinct | mealSwipeExchange/Pods/BoringSSL-GRPC/ssl/ssl_aead_ctx.cc:325-369 | Distinct record numbers give distinct nonces, in both forms |
| DtlsWriter.FixedPartsDistinct | mealSwipeExchange/Pods/BoringSSL-GRPC/ssl/ssl_aead_ctx.cc:325-369 | Distinct fixed parts give distinct nonces for one record number, in both forms |
| DtlsWriter.UsedUnderKeys | mealSwipeExchange/Pods/BoringSSL-GRPC/ssl/dtls_record.cc:294-351 | Over every run, each run of a cipher was of the one cipher of its epoch, under the epoch and number noted for it, and made the body noted |
| DtlsWriter.SealedUnderItsKey | mealSwipeExchange/Pods/BoringSSL-GRPC/ssl/dtls_record.cc:294-351 | After every run from the first record on, the next record carries the epoch reached, the current version and the number its cipher ran under, and its body is what the cipher of its epoch makes under exactly that epoch and number; the number is above all used in the epoch, unless the last one was used |
| DtlsWriter.SealedIsOpened | mealSwipeExchange/Pods/BoringSSL-GRPC/ssl/dtls_record.cc:177-351 | A record that was sealed is opened to the type and plaintext sealed by every reader whose cipher undoes the writer's at the epoch and number in the header |
| DtlsWriter.AssembleNonce | mealSwipeExchange/Pods/BoringSSL-GRPC/ssl/ssl_aead_ctx.cc:325-369 | The in-place assembly of the nonce, from the record number or random bytes, prepended or padded and XORed, is the specified nonce |
| DtlsWriter.SealedRecordFits | mealSwipeExchange/Pods/BoringSSL-GRPC/ssl/dtls_record.cc:294-351 | A sealed record is within the output and the declared overhead, and sealing succeeds given that room and a counter before its end |
| DtlsWriter.RecordSealer.SetCipher | mealSwipeExchange/Pods/BoringSSL-GRPC/ssl/dtls_method.cc:97-107 | The old cipher and counter become those of the previous epoch; the new epoch starts at number 0 |
| DtlsWriter.RecordSealer.Seal | mealSwipeExchange/Pods/BoringSSL-GRPC/ssl/dtls_record.cc:294-351 | Refuses overlapping buffers without change, except for sealing in place; otherwise refines sealing a record in either epoch under its own epoch and number and writes its bytes into the output; which counter moves, also on failure |
| PbRoundTrip.MessageIsRead | mealSwipeExchange/Pods/nanopb/pb_decode.c:901-1063 | Schema projection: bytes written under one descriptor and read under one that lacks any of its fields at any depth give exactly the message without them, all bytes consumed, if and only if embedded lengths fit 32 bits and every string the reader knows leaves room for its terminator |
| PbRoundTrip.RoundTrip | mealSwipeExchange/Pods/nanopb/pb_encode.c:494-516 | Round trip with the same descriptor: absent fields at their defaults, everything else as it was, under the same exact condition |
| PbRoundTrip.RoundTripExactly | mealSwipeExchange/Pods/nanopb/pb_encode.c:494-516 | A message whose absent fields hold their defaults comes back identical if and only if that condition holds |
| PbRoundTrip.NormalProjects | mealSwipeExchange/Pods/nanopb/pb_decode.c:812-899 | Such a message is its own projection, at every depth |
| PbRoundTrip.UnterminatedString | mealSwipeExchange/Pods/nanopb/pb_decode.c:1428-1461 | The condition is needed: a string that fills its array is written but not read back |
| PbRoundTrip.ValueIsSkipped | mealSwipeExchange/Pods/nanopb/pb_decode.c:273-326 | Skipping an unknown field consumes exactly the bytes the encoder emitted for its value, if and only if its length fits 32 bits |
| PbRoundTrip.ValueIsRead | mealSwipeExchange/Pods/nanopb/pb_decode.c:401-475 | Reading a value gives its projection and leaves exactly what followed it |
| PbRoundTrip.TaggedIsRead | mealSwipeExchange/Pods/nanopb/pb_decode.c:401-475 | One tagged field of a message changes exactly its own slot; for a oneof it becomes the only member chosen |
| PbRoundTrip.PackedArrayIsRead | mealSwipeExchange/Pods/nanopb/pb_decode.c:419-448 | A packed array is read back entry by entry, and fails if and only if its length does not fit |
| PbRoundTrip.PackedIsRead | mealSwipeExchange/Pods/nanopb/pb_decode.c:427-444 | The payload of a packed array decodes to its entries in order |
| PbRoundTrip.EntriesAreRead | mealSwipeExchange/Pods/nanopb/pb_decode.c:449-459 | An array written entry by entry is read back whole, fixed or counted |
| PbRoundTrip.SlotIsRead | mealSwipeExchange/Pods/nanopb/pb_decode.c:919-997 | What the decoding loop makes of the bytes of one field, whatever its rule |
| PbRoundTrip.FieldsAreRead | mealSwipeExchange/Pods/nanopb/pb_decode.c:919-997 | What the decoding loop makes of all fields behind one another |
| PbRoundTrip.FinishIsProjection | mealSwipeExchange/Pods/nanopb/pb_decode.c:999-1048 | After the last field the message is the projection, no fixed-count array is half full and every checked required field was seen |
| PbRoundTrip.AbsorbFacts | mealSwipeExchange/Pods/nanopb/pb_decode.c:401-475 | Reading one field leaves every other field alone |
| PbRoundTrip.ZeroMessageProjects | mealSwipeExchange/Pods/nanopb/pb_encode.c:215-293 | Leaving out a proto3 zero message loses nothing: it reads back as the defaults |
| PbRoundTrip.NumberIsRead | mealSwipeExchange/Pods/nanopb/pb_decode.c:1289-1388 | Every integer kind and size the encoder accepts is decoded to the same value, sign extension included |
| PbRoundTrip.BlobIsRead | mealSwipeExchange/Pods/nanopb/pb_decode.c:1391-1508 | Bytes and strings are decoded back, except exactly a string without room for its terminator |
| PbRoundTrip.PrefixedIsTaken | mealSwipeExchange/Pods/nanopb/pb_decode.c:367-398 | A length-delimited value is taken whole if and only if its length fits 32 bits |
| PbRoundTrip.TagIsRead | mealSwipeExchange/Pods/nanopb/pb_decode.c:293-314 | Every tag up to 2^29-1 and wire type is read back |
| PbFields.MessageSays | mealSwipeExchange/Pods/nanopb/pb_decode.c:901-1049 | On any bytes: decoding over what a message holds succeeds if and only if the bytes are fields, each can be read, the last fixed-count array is full and the first 64 required fields occur; and then every field of the message is what its own entries say |
| PbFields.LoopIsFields | mealSwipeExchange/Pods/nanopb/pb_decode.c:919-997 | On any bytes, one pass with its state is the same as splitting the bytes into fields by their sizes alone and reading each from its own bytes |
| PbFields.SlotLocal | mealSwipeExchange/Pods/nanopb/pb_decode.c:401-475 | A field is read from exactly as many bytes as its kind and wire type say, whatever follows |
| PbFields.LastMemberChosen | mealSwipeExchange/Pods/nanopb/pb_decode.c:461-471 | In every message decoded from any bytes, a member of a oneof is chosen if and only if the last field of that oneof in the bytes is that member, and its value is that of this last field alone |
| PbFields.OneMemberChosen | mealSwipeExchange/Pods/nanopb/pb_decode.c:461-471 | So at most one member of a oneof is chosen |
| PbFields.RequiredPresent | mealSwipeExchange/Pods/nanopb/pb_decode.c:1008-1045 | No bytes decode to a message unless each of its first 64 required fields is among them |
| PbFields.LastValueWins | mealSwipeExchange/Pods/nanopb/pb_decode.c:411-417 | A singular field that is no message has the value of its last occurrence, and without one its default |
| PbFields.MessagesMerge | mealSwipeExchange/Pods/nanopb/pb_decode.c:1463-1485 | A singular message is its occurrences merged, one into another |
| PbFields.MergeExactly | mealSwipeExchange/Pods/nanopb/pb_decode.c:1463-1485 | Merging into a message: each field is what the new bytes say over what it was |
| PbFields.UnmentionedStays | mealSwipeExchange/Pods/nanopb/pb_decode.c:1463-1485 | And what the new bytes do not mention stays as it was |
| PbFields.ArrayIsAllItems | mealSwipeExchange/Pods/nanopb/pb_decode.c:419-459 | An array holds the items of all its occurrences in order, packed or not, and never more than its size; one of fixed count is its last run, and is full if it occurs at all |
| PbFields.IntegerExactly | mealSwipeExchange/Pods/nanopb/pb_decode.c:1289-1372 | A varint is read as n if and only if n fits the field's C type and is what the varint stands for: the same modulo 2^64, or 2^32 in up to 32 bits; the same value; or the number that zigzag gives the code to |
| PbFields.BlobExactly | mealSwipeExchange/Pods/nanopb/pb_decode.c:1391-1508 | Bytes are taken if they fit; a string up to its first zero, with room for the terminator; bytes of a fixed length whole or, if none came, as zeros |
| PbFields.LittleEndianLayout | mealSwipeExchange/Pods/nanopb/pb_decode.c:1254-1285 | Four or eight bytes are a number, low byte first |
| PbFields.TagExactly | mealSwipeExchange/Pods/nanopb/pb_decode.c:293-314 | A tag is the first varint without its low three bits; the end of the bytes or a zero ends the message |
| PbFields.SkippedAsRead | mealSwipeExchange/Pods/nanopb/pb_decode.c:316-329 | An unknown field is skipped over exactly the bytes that a field of its wire type is read from, and any other wire type is an error |
| PbFields.DefaultsExactly | mealSwipeExchange/Pods/nanopb/pb_decode.c:812-899 | What is not in the bytes reads as the descriptor's default, else as zero, nothing or zeros, and as not present |
| PbVarint.VarintRoundTrip | mealSwipeExchange/Pods/nanopb/pb_decode.c:250-271 | Every 64-bit value is decoded from its encoding, whatever follows |
| PbVarint.EncodedVarint | mealSwipeExchange/Pods/nanopb/pb_encode.c:574-594 | An encoding is one varint, and its base-128 value is the value encoded |
| PbVarint.SixtyFourBits | mealSwipeExchange/Pods/nanopb/pb_encode.c:574-594 | A 64-bit value takes at most ten bytes |
| PbVarint.EncodedLength | mealSwipeExchange/Pods/nanopb/pb_encode.c:574-594 | A value below 2^(7n) takes at most n bytes |
| PbVarint.EncodeToBuffer | mealSwipeExchange/Pods/nanopb/pb_encode.c:574-594 | The in-place loop never overruns its ten-byte buffer and leaves the encoding in it |
| PbVarint.Varint32Agrees | mealSwipeExchange/Pods/nanopb/pb_decode.c:182-271 | What the 32-bit decoder accepts in at most ten bytes the 64-bit decoder accepts too, with the same bytes consumed and the low 32 bits equal |
| PbVarint.Varint32AgreesExactly | mealSwipeExchange/Pods/nanopb/pb_decode.c:182-271 | Ten bytes are the exact bound: the two agree on an accepted encoding if and only if it is no longer |
| PbVarint.ElevenBytes | mealSwipeExchange/Pods/nanopb/pb_decode.c:182-242 | The eleven-byte encoding on which they differ |
| PbVarint.Varint32RoundTrip | mealSwipeExchange/Pods/nanopb/pb_decode.c:182-248 | Every 32-bit value is decoded by the 32-bit decoder |
| PbVarint.Varint32Refuses | mealSwipeExchange/Pods/nanopb/pb_decode.c:216-237 | Every longer value up to 63 bits is refused as an overflow, not truncated |
| PbVarint.ZigzagBijection | mealSwipeExchange/Pods/nanopb/pb_encode.c:596-605 | Zigzag and its inverse are a bijection between int64 and uint64, and small magnitudes get small codes |
| PbVarint.LittleEndianRoundTrip | mealSwipeExchange/Pods/nanopb/pb_decode.c:1254-1285 | Fixed-size integers are decoded from their little-endian bytes |
| PbOutput.EncodedSize | mealSwipeExchange/Pods/nanopb/pb_encode.c:533-542 | The sizing pass succeeds if and only if the message can be encoded, and counts exactly the bytes of its encoding at every nesting depth |
| PbOutput.FixedPayload | mealSwipeExchange/Pods/nanopb/pb_encode.c:145-153 | The size computed up front for packed fixed-size entries is the size of what is written |
| PbListing.MessageListed | mealSwipeExchange/Pods/nanopb/pb_encode.c:494-516 | The encoding of a message, split into fields, is field by field in the order of the descriptor what is there and nothing else: no proto3 zero, no absent value, an array that can be packed as one field, any other entry by entry |
| PbOutput.OutputStream.Sizing | mealSwipeExchange/Pods/nanopb/pb_encode.c:533-538 | An empty sizing stream |
| PbOutput.OutputStream.Over | mealSwipeExchange/Pods/nanopb/pb_encode.c:84-99 | An empty stream over part of a buffer |
| PbOutput.OutputStream.Write | mealSwipeExchange/Pods/nanopb/pb_encode.c:101-119 | Appends all bytes if they fit and nothing otherwise; sizing only counts |
| PbOutput.OutputStream.WriteVarint | mealSwipeExchange/Pods/nanopb/pb_encode.c:574-594 | Appends the varint, if it fits |
| PbOutput.OutputStream.WritePrefixed | mealSwipeExchange/Pods/nanopb/pb_encode.c:674-680 | Appends length and bytes, if they fit |
| PbOutput.OutputStream.WriteTag | mealSwipeExchange/Pods/nanopb/pb_encode.c:635-672 | Appends tag and wire type, if they fit |
| PbOutput.OutputStream.WriteNumber | mealSwipeExchange/Pods/nanopb/pb_encode.c:734-808 | Appends the number by its kind and size, if it has one of the supported sizes and fits |
| PbOutput.OutputStream.WriteBlob | mealSwipeExchange/Pods/nanopb/pb_encode.c:810-869 | Appends bytes or text, if they are within their field and fit |
| PbOutput.OutputStream.WriteValue | mealSwipeExchange/Pods/nanopb/pb_encode.c:734-869 | Succeeds if and only if the value can be encoded and fits, and then appends exactly its encoding |
| PbOutput.OutputStream.WriteSubmessage | mealSwipeExchange/Pods/nanopb/pb_encode.c:682-730 | The two passes agree: length and body are appended exactly, and "submsg size changed" never happens |
| PbOutput.OutputStream.WritePart | mealSwipeExchange/Pods/nanopb/pb_encode.c:708-729 | The writing pass of a submessage always succeeds within the size the sizing pass found |
| PbOutput.OutputStream.WriteTagged | mealSwipeExchange/Pods/nanopb/pb_encode.c:342-362 | Appends tag and value, if both can be encoded and fit |
| PbOutput.OutputStream.WriteItems | mealSwipeExchange/Pods/nanopb/pb_encode.c:173-180 | The loop appends the packed entries in order |
| PbOutput.OutputStream.WriteEntries | mealSwipeExchange/Pods/nanopb/pb_encode.c:183-208 | The loop appends the tagged entries in order |
| PbOutput.OutputStream.WriteArray | mealSwipeExchange/Pods/nanopb/pb_encode.c:126-211 | Appends the array, packed or not, with the exact size in front; sizing skips writing but counts the same |
| PbOutput.OutputStream.WriteSlot | mealSwipeExchange/Pods/nanopb/pb_encode.c:307-392 | Appends the field by its rule: present, zero, counted, chosen |
| PbOutput.OutputStream.WriteMessage | mealSwipeExchange/Pods/nanopb/pb_encode.c:494-516 | A bounded write succeeds if and only if the message can be encoded and its encoding fits, and then the buffer has grown by exactly it |
| PbOutput.OutputStream.PackedSize | mealSwipeExchange/Pods/nanopb/pb_encode.c:145-165 | The size in front of a packed array is exactly the size of its entries |
| PbInput.InputStream.constructor | mealSwipeExchange/Pods/nanopb/pb_decode.c:154-176 | A stream over part of a buffer |
| PbInput.InputStream.Read | mealSwipeExchange/Pods/nanopb/pb_decode.c:100-132 | Takes exactly the bytes asked for, or fails |
| PbInput.InputStream.ReadByte | mealSwipeExchange/Pods/nanopb/pb_decode.c:136-152 | Takes the next byte; an empty stream is the only failure |
| PbInput.InputStream.ReadVarint64 | mealSwipeExchange/Pods/nanopb/pb_decode.c:250-270 | The loop refines the 64-bit varint: at most ten bytes, low 64 bits |
| PbInput.InputStream.ReadVarint32 | mealSwipeExchange/Pods/nanopb/pb_decode.c:182-248 | The loop refines the 32-bit varint with its 8-bit shift counter and its overflow test |
| PbInput.InputStream.ReadTag | mealSwipeExchange/Pods/nanopb/pb_decode.c:293-314 | Tag and wire type, end of the message, or an error |
| PbInput.InputStream.OpenPrefixed | mealSwipeExchange/Pods/nanopb/pb_decode.c:367-380 | A substream over exactly the delimited bytes, and the stream behind them |
| PbInput.InputStream.Close | mealSwipeExchange/Pods/nanopb/pb_decode.c:382-398 | Skips what the substream left and goes on behind it |
| PbInput.InputStream.Skip | mealSwipeExchange/Pods/nanopb/pb_decode.c:316-329 | Refines skipping a field by its wire type |
| PbInput.InputStream.SkipVarint | mealSwipeExchange/Pods/nanopb/pb_decode.c:273-282 | Consumes one varint of any length |
| PbInput.InputStream.SkipString | mealSwipeExchange/Pods/nanopb/pb_decode.c:284-291 | Consumes length and bytes |
| PbInput.InputStream.ReadNumber | mealSwipeExchange/Pods/nanopb/pb_decode.c:1289-1388 | Refines reading an integer of the field's kind and size with its range check |
| PbInput.InputStream.ReadBlob | mealSwipeExchange/Pods/nanopb/pb_decode.c:1391-1508 | Refines reading bytes, text or fixed-length bytes |
| PbInput.InputStream.ReadValue | mealSwipeExchange/Pods/nanopb/pb_decode.c:1463-1485 | Refines reading a value; a submessage is decoded over what the field holds and its substream closed |
| PbInput.InputStream.ReadArray | mealSwipeExchange/Pods/nanopb/pb_decode.c:419-459 | Refines reading an entry or a packed run of entries into an array with room |
| PbInput.InputStream.ReadSlot | mealSwipeExchange/Pods/nanopb/pb_decode.c:401-475 | Refines reading one field by its rule: the function that PbFields.LastMemberChosen and LastValueWins are about, on any bytes |
| PbInput.InputStream.ReadFound | mealSwipeExchange/Pods/nanopb/pb_decode.c:964-996 | Refines one field found in the descriptor: fixed-count bookkeeping, the required-field bit and the value |
| PbInput.InputStream.ReadMessage | mealSwipeExchange/Pods/nanopb/pb_decode.c:901-1049 | The whole loop, from any iterator position, refines decoding a message, with its final checks of the fixed-count array and of the required fields: the function that PbFields.MessageSays and RequiredPresent are about, on any bytes |
| PbInput.DecodeBuffer | mealSwipeExchange/Pods/nanopb/pb_decode.c:1051-1063 | Decoding a buffer is the decoding function that the round-trip theorems are about |
| PbInput.AgreeNext | mealSwipeExchange/Pods/nanopb/pb_decode.c:988-993 | Marking the iterator's required-field index records exactly that tag as seen |
| PbIter.FieldIter.constructor | mealSwipeExchange/Pods/nanopb/pb_common.c:8-18 | The iterator at the first field |
| PbIter.FieldIter.Next | mealSwipeExchange/Pods/nanopb/pb_common.c:20-76 | To the next field or around to the first, with the required-field index and the offset of the new place |
| PbIter.FieldIter.FindTag | mealSwipeExchange/Pods/nanopb/pb_common.c:78-95 | From any position, finds the tag if and only if some field has it; otherwise comes back to where it was |
| PbIter.FieldIter.CountRequired | mealSwipeExchange/Pods/nanopb/pb_decode.c:1008-1022 | From any position, counts the required fields of the whole descriptor, the last one included |
| PbIter.RequiredIndex | mealSwipeExchange/Pods/nanopb/pb_common.c:65-70 | The running index of a required field is its place among the required fields |
| PbIter.MembersDisjoint | mealSwipeExchange/Pods/nanopb/pb_common.c:41-74 | Where the running offset puts a member, it ends before every later one begins, unless another member of its union follows |
| PbIter.UnionShares | mealSwipeExchange/Pods/nanopb/pb_common.c:44-50 | The members of a union share one place |
| PbIter.WordSays | mealSwipeExchange/Pods/nanopb/pb_decode.c:1029-1044 | A word of the bitmap equals the expected ones if and only if all its indices were marked |
| PbIter.MarkSeen | mealSwipeExchange/Pods/nanopb/pb_decode.c:988-993 | Sets exactly the bit of the index in its word |
| PbIter.AllSeen | mealSwipeExchange/Pods/nanopb/pb_decode.c:1024-1045 | The two-word test passes if and only if each of the first 64 required fields was decoded |
| HandshakeRuns.Agreement | mealSwipeExchange/Pods/BoringSSL-GRPC/ssl/handshake_client.cc:1707-1789 | In no run of an honest client and server, full or resumed, with any optional messages and whatever is paused, blocked or delayed, does either end fail; transcripts are always prefixes of one script, each message hashed once, and at the end equal, with the same secret and nothing on its way |
| HandshakeRuns.RunKeepsInv | mealSwipeExchange/Pods/BoringSSL-GRPC/ssl/handshake_server.cc:1539-1621 | Over every run both ends are at places of the message flow of RFC 5246 section 7.3 and RFC 5077 section 3.1, with exactly the records between those places on their way |
| HandshakeRuns.BothOnScript | mealSwipeExchange/Pods/BoringSSL-GRPC/ssl/handshake.cc:215-222 | What each end has hashed is the script up to its place, so both compute the same Finished over the same messages |
| HandshakeRuns.PausesErased | mealSwipeExchange/Pods/BoringSSL-GRPC/ssl/handshake.cc:491-628 | Whatever a run with pauses at any retry wait and with blocked flushes comes to, from any state, some run without any comes to as well: the same states, transcripts, flights and channels, where an end paused at that moment counts as resumed |
| HandshakeRuns.StepSmoothed | mealSwipeExchange/Pods/BoringSSL-GRPC/ssl/handshake.cc:558-607 | One step with pauses is, once resumed, nothing or what steps without pauses do |
| HandshakeRuns.SamePlacesSameFlights | mealSwipeExchange/Pods/BoringSSL-GRPC/ssl/handshake.cc:491-628 | Any two runs, with pauses, blocks and delays in different places, have at equal places of both ends the same transcripts, secrets and keys, and the same records on their way in both directions |
| HandshakeRuns.KeysByPlace | mealSwipeExchange/Pods/BoringSSL-GRPC/ssl/handshake_client.cc:1649-1656 | In every run, the keys an end reads and writes under are the new ones exactly behind the ChangeCipherSpec of that direction in the script |
| HandshakeRuns.NoDeadlock | mealSwipeExchange/Pods/BoringSSL-GRPC/ssl/handshake.cc:491-628 | With both ends at their places, something can happen unless both are done |
| HandshakeRuns.NextProgresses | mealSwipeExchange/Pods/BoringSSL-GRPC/ssl/handshake.cc:491-628 | Whatever can happen next gets strictly nearer to the end |
| HandshakeRuns.Completes | mealSwipeExchange/Pods/BoringSSL-GRPC/ssl/handshake.cc:491-628 | With both ends at their places, the handshake can be completed |
| HandshakeRuns.AlwaysCompletes | mealSwipeExchange/Pods/BoringSSL-GRPC/ssl/handshake.cc:491-628 | Wherever a run has got to, nothing can happen any more if and only if both ends are done, and the run can be continued to completion |
| HandshakeRecordRuns.AgreementHoweverCut | mealSwipeExchange/Pods/BoringSSL-GRPC/ssl/handshake.cc:491-628 | Agreement over real records: flights are cut into records anywhere, several messages in one or one in several, even inside a header, and written in any portions, and messages are read out of the handshake buffer. In no run does either end fail, no record is refused, transcripts are prefixes of the one script, and when both are done they are all of it, with the same secret and no byte left in a buffer or on the way |
| HandshakeRecordRuns.CompletesHoweverCut | mealSwipeExchange/Pods/BoringSSL-GRPC/ssl/handshake.cc:491-628 | From wherever such a run has got to, the handshake can be completed with records of any size |
| HandshakeRecordRuns.RunFollows | mealSwipeExchange/Pods/BoringSSL-GRPC/ssl/handshake.cc:491-628 | Whatever two ends do over real records, two ends that exchange one message to a record can do: same states, transcripts, secrets and keys, and the same messages on their way |
| HandshakeRecordRuns.NextIsNearer | mealSwipeExchange/Pods/BoringSSL-GRPC/ssl/handshake.cc:491-628 | Each act on the way to completion decreases a measure of states, records on their way and waits |
| HandshakeRecordRuns.NoDeadlockPair | mealSwipeExchange/Pods/BoringSSL-GRPC/ssl/handshake.cc:491-628 | With nothing left that either end can do, both are done |
| HandshakeRecordRuns.ChunkedFlightCuts | mealSwipeExchange/Pods/BoringSSL-GRPC/ssl/s3_both.cc:184-205 | The writer's own cut, message by message into records of at most a given size, is a proper cut of a flight |
| HandshakeFollows.ReceiveFollows | mealSwipeExchange/Pods/BoringSSL-GRPC/ssl/s3_both.cc:474-560 | A record that arrives is never refused, as a message in the middle or as a ChangeCipherSpec, and keeps the correspondence |
| HandshakeFollows.ProceedFollows | mealSwipeExchange/Pods/BoringSSL-GRPC/ssl/handshake.cc:491-628 | A step of either machine on the message in front of the buffer is steps of the one that waits for its message first |
| HandshakeFollows.SendFollows | mealSwipeExchange/Pods/BoringSSL-GRPC/ssl/s3_both.cc:257-269 | Writing a flight in portions that end anywhere keeps the correspondence |
| HandshakeRecords.FirstMessage | mealSwipeExchange/Pods/BoringSSL-GRPC/ssl/s3_both.cc:399-425 | Bytes at the front of the stream parse as its first message if they are all of it, and otherwise as needing no more than the limit |
| HandshakeFollows.NextPart | mealSwipeExchange/Pods/BoringSSL-GRPC/ssl/s3_both.cc:441-459 | The next record on the wire goes on with the message the buffer has begun, under the same keys |
| HandshakeFollows.NextCcs | mealSwipeExchange/Pods/BoringSSL-GRPC/ssl/s3_pkt.cc:351-378 | A ChangeCipherSpec comes as a record of its own with no byte before it |
| HandshakeFollows.OnTheWay | mealSwipeExchange/Pods/BoringSSL-GRPC/ssl/handshake_client.cc:1707-1789 | Every message on its way to an end is one of the script |
| HandshakeFollows.ClientAsksOrIgnores | mealSwipeExchange/Pods/BoringSSL-GRPC/ssl/handshake_client.cc:1707-1789 | A client step without a message asks for one, however it is run, or does the same with any message |
| HandshakeFollows.ServerAsksOrIgnores | mealSwipeExchange/Pods/BoringSSL-GRPC/ssl/handshake_server.cc:1539-1621 | So does a server step |
| HandshakeRuns.ClientStepNearer | mealSwipeExchange/Pods/BoringSSL-GRPC/ssl/handshake_client.cc:1707-1789 | Every client step that does not fail gets nearer to the end |
| HandshakeRuns.ServerStepNearer | mealSwipeExchange/Pods/BoringSSL-GRPC/ssl/handshake_server.cc:1539-1621 | Every server step that does not fail gets nearer to the end |
| HandshakeScript.CarriesProgress | mealSwipeExchange/Pods/BoringSSL-GRPC/ssl/handshake.cc:215-222 | Receiving the records between two places of the script takes transcript and secret from one to the other |
| HandshakeProduct.EmitLinked | mealSwipeExchange/Pods/BoringSSL-GRPC/ssl/handshake.cc:165-184 | Sending the message of one's phase moves one place on and puts exactly it on the way, under the keys in use |
| HandshakeProduct.EmitCcsLinked | mealSwipeExchange/Pods/BoringSSL-GRPC/ssl/handshake_client.cc:1471-1474 | Sending ChangeCipherSpec switches the write keys behind it |
| HandshakeProduct.SkipLinked | mealSwipeExchange/Pods/BoringSSL-GRPC/ssl/handshake_client.cc:1707-1789 | Skipping a phase that the negotiated flags leave out keeps both ends in step |
| HandshakeProduct.Peek | mealSwipeExchange/Pods/BoringSSL-GRPC/ssl/handshake.cc:165-174 | The message an end looks at is the next the script has for it, with the body its sender computed over the same transcript |
| HandshakeProduct.AcceptLinked | mealSwipeExchange/Pods/BoringSSL-GRPC/ssl/handshake.cc:215-222 | Hashing and consuming it moves one place on |
| HandshakeProduct.FlushLinked | mealSwipeExchange/Pods/BoringSSL-GRPC/ssl/handshake.cc:500-506 | Any part of a flight may leave first |
| HandshakeProduct.ArriveLinked | mealSwipeExchange/Pods/BoringSSL-GRPC/ssl/handshake.cc:508-546 | A record that arrives at an end waiting for a message is a handshake record under the keys in use |
| HandshakeProduct.ArriveCcsLinked | mealSwipeExchange/Pods/BoringSSL-GRPC/ssl/handshake.cc:510-516 | A record that arrives at an end waiting for ChangeCipherSpec is one, and the buffer is empty |
| HandshakeProduct.ClientHelloSteps | mealSwipeExchange/Pods/BoringSSL-GRPC/ssl/handshake_client.cc:385-489 | The client stays in step with the server over its start, early-data and ServerHello steps |
| HandshakeProduct.ClientCertificateSteps | mealSwipeExchange/Pods/BoringSSL-GRPC/ssl/handshake_client.cc:771-889 | The client stays in step with the server over its server certificate, OCSP status and verification steps, with the status message optional |
| HandshakeProduct.ClientKeyExchangeStep | mealSwipeExchange/Pods/BoringSSL-GRPC/ssl/handshake_client.cc:891-1071 | The client stays in step with the server over its ServerKeyExchange step, optional for PSK without a hint |
| HandshakeProduct.ClientServerDoneSteps | mealSwipeExchange/Pods/BoringSSL-GRPC/ssl/handshake_client.cc:1073-1167 | The client stays in step with the server over its CertificateRequest and ServerHelloDone steps |
| HandshakeProduct.ClientSendSteps | mealSwipeExchange/Pods/BoringSSL-GRPC/ssl/handshake_client.cc:1169-1455 | The client stays in step with the server over its client certificate, key exchange and certificate verify steps |
| HandshakeProduct.ClientFinishedStep | mealSwipeExchange/Pods/BoringSSL-GRPC/ssl/handshake_client.cc:1457-1512 | The client stays in step with the server over its ChangeCipherSpec, NextProto, ChannelID and Finished |
| HandshakeProduct.ClientCcsSteps | mealSwipeExchange/Pods/BoringSSL-GRPC/ssl/handshake_client.cc:1538-1705 | The client stays in step with the server over its flight, False Start and ChangeCipherSpec steps |
| HandshakeProduct.ClientTicketStep | mealSwipeExchange/Pods/BoringSSL-GRPC/ssl/handshake_client.cc:1566-1647 | The client stays in step with the server over its session ticket step |
| HandshakeProduct.ClientReadsFinished | mealSwipeExchange/Pods/BoringSSL-GRPC/ssl/handshake_client.cc:1658-1672 | The client stays in step with the server over its server Finished step, which accepts the peer's Finished |
| HandshakeProduct.ClientStepMoves | mealSwipeExchange/Pods/BoringSSL-GRPC/ssl/handshake_client.cc:1707-1789 | Every client step, retried or not, takes an honest client to its place in the script without an error |
| HandshakeProduct.ClientKeepsInv | mealSwipeExchange/Pods/BoringSSL-GRPC/ssl/handshake_client.cc:1707-1789 | So does everything that happens at the client |
| HandshakeProduct.ServerHelloSteps | mealSwipeExchange/Pods/BoringSSL-GRPC/ssl/handshake_server.cc:426-684 | The server stays in step with the client over its accept, ClientHello, certificate selection and parameter steps |
| HandshakeProduct.ServerHelloSent | mealSwipeExchange/Pods/BoringSSL-GRPC/ssl/handshake_server.cc:686-752 | The server stays in step with the client over its ServerHello step, full or resumed |
| HandshakeProduct.ServerFlightSteps | mealSwipeExchange/Pods/BoringSSL-GRPC/ssl/handshake_server.cc:754-947 | The server stays in step with the client over its certificate, key exchange, request and done steps |
| HandshakeProduct.ServerCertificateSteps | mealSwipeExchange/Pods/BoringSSL-GRPC/ssl/handshake_server.cc:949-1363 | The server stays in step with the client over its client certificate, key exchange and certificate verify steps |
| HandshakeProduct.ServerCcsSteps | mealSwipeExchange/Pods/BoringSSL-GRPC/ssl/handshake_server.cc:1365-1377 | The server stays in step with the client over its ChangeCipherSpec and final steps |
| HandshakeProduct.ServerReadSteps | mealSwipeExchange/Pods/BoringSSL-GRPC/ssl/handshake_server.cc:1379-1437 | The server stays in step with the client over its NextProto and ChannelID steps |
| HandshakeProduct.ServerReadsFinished | mealSwipeExchange/Pods/BoringSSL-GRPC/ssl/handshake_server.cc:1439-1461 | The server stays in step with the client over its client Finished step |
| HandshakeProduct.ServerFinishedStep | mealSwipeExchange/Pods/BoringSSL-GRPC/ssl/handshake_server.cc:1463-1509 | The server stays in step with the client over its ticket, ChangeCipherSpec and Finished |
| HandshakeProduct.ServerStepMoves | mealSwipeExchange/Pods/BoringSSL-GRPC/ssl/handshake_server.cc:1539-1621 | Every server step takes an honest server to its place in the script without an error |
| HandshakeProduct.ServerKeepsInv | mealSwipeExchange/Pods/BoringSSL-GRPC/ssl/handshake_server.cc:1539-1621 | So does everything that happens at the server |
| HandshakeDriver.Handshake.HashMessage | mealSwipeExchange/Pods/BoringSSL-GRPC/ssl/handshake.cc:215-222 | The transcript grows by exactly the message; the secret is derived where the script says |
| HandshakeDriver.Handshake.AddMessage | mealSwipeExchange/Pods/BoringSSL-GRPC/ssl/handshake.cc:176-184 | The message is hashed once and queued under the write keys in use |
| HandshakeDriver.Handshake.AddChangeCipherSpec | mealSwipeExchange/Pods/BoringSSL-GRPC/ssl/handshake_client.cc:1471-1474 | Queued under the old keys; what follows is under the new ones |
| HandshakeDriver.Handshake.TakeMessage | mealSwipeExchange/Pods/BoringSSL-GRPC/ssl/handshake.cc:215-222 | The message looked at is hashed once and gone |
| HandshakeDriver.Handshake.ReadKind | mealSwipeExchange/Pods/BoringSSL-GRPC/ssl/handshake.cc:165-174 | Waits, refuses with unexpected-message and no change, or takes the message |
| HandshakeDriver.Handshake.ReadAndCheck | mealSwipeExchange/Pods/BoringSSL-GRPC/ssl/handshake.cc:380-429 | The expected body is over the transcript before the message; a mismatch is refused, for a Finished after it was hashed: the function that HandshakeOpen.ServerChecksExactly and ClientChecksExactly are about, on any message |
| HandshakeDriver.Handshake.ChangeReadKeys | mealSwipeExchange/Pods/BoringSSL-GRPC/ssl/handshake_server.cc:1370-1377 | Keys for reading change only with no message buffered |
| HandshakeClient.ClientHandshake.constructor | mealSwipeExchange/Pods/BoringSSL-GRPC/ssl/handshake_client.cc:176-195 | The client before its first step |
| HandshakeClient.ClientHandshake.StepHello | mealSwipeExchange/Pods/BoringSSL-GRPC/ssl/handshake_client.cc:385-889 | The steps up to certificate verification refine the client machine |
| HandshakeClient.ClientHandshake.StepServerDone | mealSwipeExchange/Pods/BoringSSL-GRPC/ssl/handshake_client.cc:891-1167 | The steps up to ServerHelloDone refine the client machine |
| HandshakeClient.ClientHandshake.StepSend | mealSwipeExchange/Pods/BoringSSL-GRPC/ssl/handshake_client.cc:1169-1512 | The sending steps refine the client machine |
| HandshakeClient.ClientHandshake.StepFinish | mealSwipeExchange/Pods/BoringSSL-GRPC/ssl/handshake_client.cc:1538-1705 | The closing steps refine the client machine |
| HandshakeClient.ClientHandshake.Step | mealSwipeExchange/Pods/BoringSSL-GRPC/ssl/handshake_client.cc:1707-1789 | The dispatch on the state refines the client machine |
| HandshakeClient.ClientHandshake.DoHandshake | mealSwipeExchange/Pods/BoringSSL-GRPC/ssl/handshake_client.cc:1707-1789 | The loop is a run of the product system, ends at a wait or when done, and terminates |
| HandshakeClient.ClientHandshake.RunHandshake | mealSwipeExchange/Pods/BoringSSL-GRPC/ssl/handshake.cc:491-628 | The driver loop over flushes, reads and pauses is a run of the product system that consumes a prefix of the input; it fails if and only if a step failed |
| HandshakeClient.ClientHandshake.Receive | mealSwipeExchange/Pods/BoringSSL-GRPC/ssl/handshake.cc:508-546 | One incoming record is one arrival of the product system |
| HandshakeClient.ClientHandshake.FlushSome | mealSwipeExchange/Pods/BoringSSL-GRPC/ssl/handshake.cc:500-506 | Part of a flight leaves as one flush of the product system |
| HandshakeClient.ClientHandshake.Unpause | mealSwipeExchange/Pods/BoringSSL-GRPC/ssl/handshake.cc:558-607 | Calling again after a pause is one resume of the product system |
| HandshakeClient.ClientAdvances | mealSwipeExchange/Pods/BoringSSL-GRPC/ssl/handshake_client.cc:1707-1789 | No step goes back, and one that does not wait for input moves on, which is why the loop terminates |
| HandshakeServer.ServerHandshake.constructor | mealSwipeExchange/Pods/BoringSSL-GRPC/ssl/handshake_server.cc:175-197 | The server before its first step |
| HandshakeServer.ServerHandshake.StepHello | mealSwipeExchange/Pods/BoringSSL-GRPC/ssl/handshake_server.cc:426-752 | The steps up to ServerHello refine the server machine |
| HandshakeServer.ServerHandshake.StepFlight | mealSwipeExchange/Pods/BoringSSL-GRPC/ssl/handshake_server.cc:754-947 | The steps up to ServerHelloDone refine the server machine |
| HandshakeServer.ServerHandshake.StepClientFlight | mealSwipeExchange/Pods/BoringSSL-GRPC/ssl/handshake_server.cc:949-1363 | The steps that read the client's flight refine the server machine |
| HandshakeServer.ServerHandshake.StepFinish | mealSwipeExchange/Pods/BoringSSL-GRPC/ssl/handshake_server.cc:1365-1537 | The closing steps refine the server machine |
| HandshakeServer.ServerHandshake.Step | mealSwipeExchange/Pods/BoringSSL-GRPC/ssl/handshake_server.cc:1539-1621 | The dispatch on the state refines the server machine |
| HandshakeServer.ServerHandshake.DoHandshake | mealSwipeExchange/Pods/BoringSSL-GRPC/ssl/handshake_server.cc:1539-1621 | The loop is a run of the product system, ends at a wait or when done, and terminates |
| HandshakeServer.ServerHandshake.RunHandshake | mealSwipeExchange/Pods/BoringSSL-GRPC/ssl/handshake.cc:491-628 | The driver loop for the server is a run of the product system that consumes a prefix of the input; it fails if and only if a step failed |
| HandshakeServer.ServerHandshake.Receive | mealSwipeExchange/Pods/BoringSSL-GRPC/ssl/handshake.cc:508-546 | One incoming record is one arrival of the product system |
| HandshakeServer.ServerHandshake.FlushSome | mealSwipeExchange/Pods/BoringSSL-GRPC/ssl/handshake.cc:500-506 | Part of a flight leaves as one flush of the product system |
| HandshakeServer.ServerHandshake.Unpause | mealSwipeExchange/Pods/BoringSSL-GRPC/ssl/handshake.cc:558-607 | Calling again after a pause is one resume of the product system |
| HandshakeServer.ServerAdvances | mealSwipeExchange/Pods/BoringSSL-GRPC/ssl/handshake_server.cc:1539-1621 | No server step goes back, and one that does not wait for input moves on |
| HandshakeOpen.ClientAccepts | mealSwipeExchange/Pods/BoringSSL-GRPC/ssl/handshake_client.cc:1707-1789 | Whatever records come to a client, made by anybody: while it has not failed, its transcript has exactly the messages of the script up to its state, those that the server may leave out if and only if they came; every Finished, signature and channel ID in it is the one for exactly the messages before it, under the secret that these fix; what it has read and sent are its transcript's messages in order, each under the new keys if and only if a ChangeCipherSpec came before |
| HandshakeOpen.ServerAccepts | mealSwipeExchange/Pods/BoringSSL-GRPC/ssl/handshake_server.cc:1539-1621 | The same for a server, whose script leaves nothing open: a client that skips, repeats or reorders a message, or changes keys at another place, is refused |
| HandshakeOpen.ClientChecksExactly | mealSwipeExchange/Pods/BoringSSL-GRPC/ssl/handshake.cc:380-429 | A client goes on from the server's Finished if and only if that is the MAC of the client's own transcript under its secret; any other body is a failed digest check, any other message unexpected |
| HandshakeOpen.ServerChecksExactly | mealSwipeExchange/Pods/BoringSSL-GRPC/ssl/handshake.cc:380-429 | The same for a server, and for the client's CertificateVerify and channel ID, which have to be the signatures of the server's transcript |
| HandshakeOpen.FinishedBinds | mealSwipeExchange/Pods/BoringSSL-GRPC/ssl/handshake.cc:380-429 | What Finished is for: whatever records come to either end, and whatever parameters each believes in, if one accepts the Finished that the other made, and the MAC is injective, both have seen the same messages before it and hold the same secret; if it was the last message of both, all of the handshake is the same |
| HandshakeOpen.ClientAlone | mealSwipeExchange/Pods/BoringSSL-GRPC/ssl/handshake_client.cc:1707-1789 | What every input to a client keeps, from which these follow |
| HandshakeOpen.ServerAlone | mealSwipeExchange/Pods/BoringSSL-GRPC/ssl/handshake_server.cc:1539-1621 | The same for a server |
| HandshakeOpen.ClientPausesExactly | mealSwipeExchange/Pods/BoringSSL-GRPC/ssl/handshake.cc:558-607 | As long as an answer from outside is not there (on the server's certificate, for the own one, its signature or the channel ID) the client stays exactly where it is; nothing else depends on it, and it pauses besides only to hand back early with False Start |
| HandshakeOpen.ServerPausesExactly | mealSwipeExchange/Pods/BoringSSL-GRPC/ssl/handshake.cc:558-607 | The same for a server: on the hello, certificate and parameters, its signature, the client's certificate and the decryption of the secret |
| HandshakeOpen.KeysBetweenMessages | mealSwipeExchange/Pods/BoringSSL-GRPC/ssl/handshake_server.cc:1370-1377 | No end changes its read keys while it looks at a message; where it should, it fails |
| HandshakeWireOpen.WireAccepts | mealSwipeExchange/Pods/BoringSSL-GRPC/ssl/s3_both.cc:399-583 | The same over real records holding any bytes under any keys, cut in any way: while the end has not failed, what it has taken off the wire is byte for byte the peer's messages of its transcript and its ChangeCipherSpec, under the keys of their time, and then its buffer; if the ChangeCipherSpec came in the middle of a message, the next step fails |
| TlsWrite.WireOrder | mealSwipeExchange/Pods/BoringSSL-GRPC/ssl/s3_pkt.cc:221-289 | Over any interleaving of messages, ChangeCipherSpec, alerts, flushes, application writes and closing, with any short or failing transport writes, the transport bytes are a prefix of all sealed records in sealing order; application plaintext sealed is what was reported plus what is in flight |
| TlsWrite.ReportedIsOut | mealSwipeExchange/Pods/BoringSSL-GRPC/ssl/s3_pkt.cc:129-200 | A positive result of an application write counts only bytes whose records are all on the wire |
| TlsWrite.WriteAppConserves | mealSwipeExchange/Pods/BoringSSL-GRPC/ssl/s3_pkt.cc:129-200 | A call that repeats the bytes, no fewer than were written and as many more as it likes, seals each byte once and in order |
| TlsWrite.WriteLoopConserves | mealSwipeExchange/Pods/BoringSSL-GRPC/ssl/s3_pkt.cc:162-199 | So does the loop over chunks, from any resume point |
| TlsWrite.WriteChunk | mealSwipeExchange/Pods/BoringSSL-GRPC/ssl/s3_pkt.cc:221-289 | One record of a write is sealed whole or not at all, and reported only when it is out |
| TlsWrite.RetryExactly | mealSwipeExchange/Pods/BoringSSL-GRPC/ssl/s3_pkt.cc:141-157 | The bookkeeping of a write holds exactly as long as it should: after a call with the same bytes, what the writer counts as written and pending still accounts for what is sealed if and only if the call offered no fewer bytes than were written |
| TlsWrite.ForgottenIsRepeated | mealSwipeExchange/Pods/BoringSSL-GRPC/ssl/s3_pkt.cc:141-157 | With no record pending, fewer bytes than that and a later retry with all of them seal the first of them a second time, even if the transport is blocked |
| TlsRetry.ShortThenFull | mealSwipeExchange/Pods/BoringSSL-GRPC/ssl/s3_pkt.cc:141-157 | For a call with fewer of the same bytes than are in flight, which is always refused, and a full retry at the same address that nothing else stops: the retry reports other bytes than were sealed if and only if the first call offered fewer than were written and either no record is pending or the buffer may move; then exactly as many bytes too many are sealed as were forgotten, all bytes in flight a second time if none were pending and those behind the pending record otherwise. A first call that is short only of the pending record changes nothing; with a record pinned to its address the full retry is refused as well |
| TlsRetry.RefusedForGood | mealSwipeExchange/Pods/BoringSSL-GRPC/ssl/s3_pkt.cc:202-219 | From then on, over any run of messages, flushes, alerts, closing and writes from that address, whatever they offer and whatever the transport takes, every write is refused, the record stays pending and no application data is sealed |
| TlsRetry.BlockedWriteIsMidway | mealSwipeExchange/Pods/BoringSSL-GRPC/ssl/s3_pkt.cc:162-199 | These states are reached: from an idle writer, a transport that takes the first record of a longer write whole and is then blocked leaves the second pending at its place, with the length of the first counted as written |
| TlsRetry.BlockedStaysMidway | mealSwipeExchange/Pods/BoringSSL-GRPC/ssl/s3_pkt.cc:129-200 | And kept: repeating the same bytes and being blocked, however often, leaves the pending record at the place the next call resumes at |
| TlsRetry.LoopFinishes | mealSwipeExchange/Pods/BoringSSL-GRPC/ssl/s3_pkt.cc:162-199 | The loop takes a pending record for the next bytes of the input, whatever it holds, and seals exactly what is behind them |
| TlsRetry.LostStays | mealSwipeExchange/Pods/BoringSSL-GRPC/ssl/s3_pkt.cc:129-289 | No single step frees a record that is pending at a forgotten place |
| TlsWrite.AppKeepsInv | mealSwipeExchange/Pods/BoringSSL-GRPC/ssl/s3_pkt.cc:129-200 | At any point of a run, a write of the same bytes keeps order and conservation if and only if it offers no fewer than were written |
| TlsWrite.WriteRecordInOrder | mealSwipeExchange/Pods/BoringSSL-GRPC/ssl/s3_pkt.cc:221-289 | A record keeps wire order; a pending one is finished before anything else is sealed |
| TlsWrite.SealIntoInOrder | mealSwipeExchange/Pods/BoringSSL-GRPC/ssl/s3_pkt.cc:254-285 | The unflushed flight goes in front of the record sealed behind it |
| TlsWrite.RoomExactly | mealSwipeExchange/Pods/BoringSSL-GRPC/ssl/s3_pkt.cc:237-252 | On a transport that takes everything, a record goes out if and only if there is room for it behind the unsent flight, and flushing the flight always makes room |
| TlsWrite.FlushBufferInOrder | mealSwipeExchange/Pods/BoringSSL-GRPC/ssl/ssl_buffer.cc:239-252 | Flushing the buffer loses, repeats and reorders nothing, and a positive result means it is empty |
| TlsWrite.SendFlightInOrder | mealSwipeExchange/Pods/BoringSSL-GRPC/ssl/s3_both.cc:257-269 | Writing the flight, however short each write, loses, repeats and reorders nothing |
| TlsWrite.FlushFlightInOrder | mealSwipeExchange/Pods/BoringSSL-GRPC/ssl/s3_both.cc:231-279 | A flushed flight means that every record sealed so far is on the wire |
| TlsWrite.AddRecordInOrder | mealSwipeExchange/Pods/BoringSSL-GRPC/ssl/s3_both.cc:135-165 | A record added to the flight is sealed last and goes out last |
| TlsWrite.AddMessageInOrder | mealSwipeExchange/Pods/BoringSSL-GRPC/ssl/s3_both.cc:184-205 | The chunks of a message are its bytes in order, as handshake records |
| TlsFragments.MessageIsCut | mealSwipeExchange/Pods/BoringSSL-GRPC/ssl/s3_both.cc:184-205 | The records of a message hold exactly the largest fragment each, but for a last one that holds no more and, unless the message is empty, something; an empty message is one empty record |
| TlsFragments.WriteIsCut | mealSwipeExchange/Pods/BoringSSL-GRPC/ssl/s3_pkt.cc:162-199 | So do the records of a write of application data |
| TlsFragments.RunWithin | mealSwipeExchange/Pods/BoringSSL-GRPC/ssl/s3_both.cc:184-205 | Over every run no record of handshake or application data exceeds the largest fragment, and none of application data is empty |
| TlsFragments.SealsExactly | mealSwipeExchange/Pods/BoringSSL-GRPC/ssl/s3_pkt.cc:221-289 | A record of its own is sealed if and only if none is pending, it holds between one byte and 2^14, nothing is left in the buffer, there is room behind the flight, and the cipher seals it |
| TlsFragments.FlushedExactly | mealSwipeExchange/Pods/BoringSSL-GRPC/ssl/s3_both.cc:231-279 | A flight is reported out only by a transport whose last answer, to the flush itself, was good; one longer than an int, or of an end that was shut down, is not even begun |
| TlsWrite.StepKeepsInv | mealSwipeExchange/Pods/BoringSSL-GRPC/ssl/s3_pkt.cc:129-289 | Every step keeps wire order, with the flight behind all application data |
| TlsWrite.StartInv | mealSwipeExchange/Pods/BoringSSL-GRPC/ssl/s3_both.cc:138-145 | A new connection satisfies the invariant |
| TlsWriter.RecordWriter.constructor | mealSwipeExchange/Pods/BoringSSL-GRPC/ssl/ssl_buffer.cc:39-45 | A writer with nothing sealed |
| TlsWriter.RecordWriter.WriteBuffer | mealSwipeExchange/Pods/BoringSSL-GRPC/ssl/ssl_buffer.cc:241-249 | One transport call consumes exactly what was taken |
| TlsWriter.RecordWriter.FlushBuffer | mealSwipeExchange/Pods/BoringSSL-GRPC/ssl/ssl_buffer.cc:239-252 | The loop refines flushing the buffer |
| TlsWriter.RecordWriter.WriteFlight | mealSwipeExchange/Pods/BoringSSL-GRPC/ssl/s3_both.cc:258-269 | One transport call advances the flight's offset by exactly what was taken |
| TlsWriter.RecordWriter.SendFlight | mealSwipeExchange/Pods/BoringSSL-GRPC/ssl/s3_both.cc:257-269 | The loop refines writing the flight |
| TlsWriter.RecordWriter.FlushFlight | mealSwipeExchange/Pods/BoringSSL-GRPC/ssl/s3_both.cc:231-279 | Refines flushing buffer and flight in that order |
| TlsWriter.RecordWriter.AddRecord | mealSwipeExchange/Pods/BoringSSL-GRPC/ssl/s3_both.cc:135-165 | Refines adding a sealed record to the flight |
| TlsWriter.RecordWriter.AddMessage | mealSwipeExchange/Pods/BoringSSL-GRPC/ssl/s3_both.cc:184-205 | The loop refines adding a message chunk by chunk: the function that TlsFragments.MessageIsCut is about |
| TlsWriter.RecordWriter.WritePending | mealSwipeExchange/Pods/BoringSSL-GRPC/ssl/s3_pkt.cc:202-219 | Refines finishing a pending record, with its check of the caller's retry |
| TlsWriter.RecordWriter.MoveFlight | mealSwipeExchange/Pods/BoringSSL-GRPC/ssl/s3_pkt.cc:254-266 | The rest of the flight is moved behind the buffer's contents, and the flight is gone |
| TlsWriter.RecordWriter.SealInto | mealSwipeExchange/Pods/BoringSSL-GRPC/ssl/s3_pkt.cc:254-285 | Refines sealing a record behind the flight in the buffer |
| TlsWriter.RecordWriter.PutRecord | mealSwipeExchange/Pods/BoringSSL-GRPC/ssl/s3_pkt.cc:268-285 | The sealed record is appended and becomes the pending one |
| TlsWriter.RecordWriter.WriteRecord | mealSwipeExchange/Pods/BoringSSL-GRPC/ssl/s3_pkt.cc:221-289 | Refines writing one record |
| TlsWriter.RecordWriter.WriteChunk | mealSwipeExchange/Pods/BoringSSL-GRPC/ssl/s3_pkt.cc:177-187 | One chunk of application data refines writing one record |
| TlsWriter.RecordWriter.WriteFrom | mealSwipeExchange/Pods/BoringSSL-GRPC/ssl/s3_pkt.cc:162-199 | The loop refines writing from a resume point |
| TlsWriter.RecordWriter.WriteAppData | mealSwipeExchange/Pods/BoringSSL-GRPC/ssl/s3_pkt.cc:129-200 | Refines the application write with its resume position |
| SslBuffer.Buffer.constructor | mealSwipeExchange/Pods/BoringSSL-GRPC/ssl/ssl_buffer.cc:39-45 | An empty buffer |
| SslBuffer.Buffer.Clear | mealSwipeExchange/Pods/BoringSSL-GRPC/ssl/ssl_buffer.cc:39-45 | Empty again, capacity released |
| SslBuffer.Buffer.EnsureCap | mealSwipeExchange/Pods/BoringSSL-GRPC/ssl/ssl_buffer.cc:47-81 | Grows by moving to an aligned start, keeping the contents, or leaves all as it is; fails if and only if the capacity asked for is too large |
| SslBuffer.Buffer.Put | mealSwipeExchange/Pods/BoringSSL-GRPC/ssl/ssl_buffer.cc:83-88 | Appends exactly the bytes behind the contents |
| SslBuffer.Buffer.Consume | mealSwipeExchange/Pods/BoringSSL-GRPC/ssl/ssl_buffer.cc:90-97 | Drops bytes at the front if and as long as the 16-bit offset does not wrap; if it wraps, the contents are taken from 2^16 bytes too far in front |
| SslBuffer.Buffer.DiscardConsumed | mealSwipeExchange/Pods/BoringSSL-GRPC/ssl/ssl_buffer.cc:99-103 | Keeps the contents; frees the storage when empty |
| TlsRead.BoundariesInvisible | mealSwipeExchange/Pods/BoringSSL-GRPC/ssl/s3_both.cc:399-583 | Over every sequence of records and takes, messages taken followed by the buffered bytes are the bytes received, and taken plus still buffered messages are the messages of that byte stream |
| TlsRead.SameStreamSameMessages | mealSwipeExchange/Pods/BoringSSL-GRPC/ssl/s3_both.cc:399-439 | Two ways to cut one stream into records give the same messages |
| TlsRead.FeedDelivers | mealSwipeExchange/Pods/BoringSSL-GRPC/ssl/s3_both.cc:474-583 | A stream of messages within the length limit, in any cut, is never refused and delivers exactly those messages |
| TlsRead.NeverRefused | mealSwipeExchange/Pods/BoringSSL-GRPC/ssl/s3_both.cc:441-459 | The check for too much buffered data never refuses such a stream |
| TlsRead.StepKeepsInv | mealSwipeExchange/Pods/BoringSSL-GRPC/ssl/s3_both.cc:399-583 | One record or take keeps the correspondence, also when it fails |
| TlsRead.FramesAfter | mealSwipeExchange/Pods/BoringSSL-GRPC/ssl/s3_both.cc:399-425 | Whole messages in front of a stream are parsed off first |
| TlsRead.UnprocessedIsBehind | mealSwipeExchange/Pods/BoringSSL-GRPC/ssl/s3_both.cc:461-472 | Unprocessed data is reported if and only if something lies behind the message looked at |
| TlsRead.RefusedExactly | mealSwipeExchange/Pods/BoringSSL-GRPC/ssl/s3_both.cc:441-459 | Any record is refused if and only if a whole message was not taken yet, the one begun announces more than is admitted, or it is no handshake record; anything else is appended |
| TlsRead.BufferBounded | mealSwipeExchange/Pods/BoringSSL-GRPC/ssl/s3_both.cc:441-459 | So whatever comes, no more is ever buffered than a message of the length admitted and the rest of one record |
| TlsRead.MessageExactly | mealSwipeExchange/Pods/BoringSSL-GRPC/ssl/s3_both.cc:399-425 | A message is its type, its 24-bit length, high byte first, and that many bytes, as soon as all are there |
| TlsRead.LookingExactly | mealSwipeExchange/Pods/BoringSSL-GRPC/ssl/s3_both.cc:427-583 | Looking at a message and taking it: what is unprocessed is what lies behind the one looked at, and else whatever is there; an empty buffer is not kept once the handshake is done |
| TlsRead.MoveDown | mealSwipeExchange/Pods/BoringSSL-GRPC/ssl/s3_both.cc:571-574 | The overlapping move keeps the bytes behind the message |
| TlsRead.HandshakeBuffer.constructor | mealSwipeExchange/Pods/BoringSSL-GRPC/ssl/s3_both.cc:474-484 | An empty buffer |
| TlsRead.HandshakeBuffer.Get | mealSwipeExchange/Pods/BoringSSL-GRPC/ssl/s3_both.cc:427-439 | The first whole message, if there is one |
| TlsRead.HandshakeBuffer.Next | mealSwipeExchange/Pods/BoringSSL-GRPC/ssl/s3_both.cc:562-583 | Drops exactly it, in place, and releases an empty buffer after the handshake |
| TlsRead.HandshakeBuffer.Append | mealSwipeExchange/Pods/BoringSSL-GRPC/ssl/s3_both.cc:553-559 | Appends the whole record body |
| TlsRead.HandshakeBuffer.Accept | mealSwipeExchange/Pods/BoringSSL-GRPC/ssl/s3_both.cc:529-560 | Refines accepting a record: the two refusals, the wrong type, or an append |
| TlsRead.HandshakeBuffer.Unprocessed | mealSwipeExchange/Pods/BoringSSL-GRPC/ssl/s3_both.cc:461-472 | Decides whether unprocessed data is buffered |
| TlsStream.ChunkingIsUndone | mealSwipeExchange/Pods/BoringSSL-GRPC/ssl/s3_both.cc:184-205 | Over any run with flushes, alerts, application data and blocked writes in between, what the sender cut into records the receiver puts together: the messages added are exactly the messages taken |
| TlsStream.RunSeals | mealSwipeExchange/Pods/BoringSSL-GRPC/ssl/s3_both.cc:184-205 | Over any run the handshake plaintext sealed is the messages added, one behind another |
| CipherChoice.Select | mealSwipeExchange/Pods/BoringSSL-GRPC/ssl/handshake_server.cc:390-423 | The loop finds a cipher if and only if some usable one is in a closed group; it is in the first such group, and of its usable members the one earliest in the other side's list |
| CipherChoice.ChooseCipher | mealSwipeExchange/Pods/BoringSSL-GRPC/ssl/handshake_server.cc:357-424 | For a well-formed grouping: none if and only if no cipher is usable by both sides; by server preference the best of the first usable group, otherwise the client's first usable |
| CipherChoice.ClosedGroupWins | mealSwipeExchange/Pods/BoringSSL-GRPC/ssl/internal.h:1860-1893 | The best of the first group with a usable member is the best over the whole list |
| Refcount.Linearizable | mealSwipeExchange/Pods/BoringSSL-GRPC/crypto/refcount_c11.c:37-65 | For any number of threads, any interleaving and any spurious failures, the operations that took effect, in that order, give every outcome and the count the lock version gives, and every thread returns the outcome of its own effect, once a call |
| Refcount.NextKeepsInv | mealSwipeExchange/Pods/BoringSSL-GRPC/crypto/refcount_c11.c:37-65 | One atomic step of any thread keeps that |
| Refcount.EffectIsLockStep | mealSwipeExchange/Pods/BoringSSL-GRPC/crypto/refcount_c11.c:37-65 | The step at which a call takes effect changes the count exactly as the lock version does; no other step changes it |
| Refcount.SwapExactly | mealSwipeExchange/Pods/BoringSSL-GRPC/crypto/refcount_c11.c:37-65 | The compare-and-swap succeeds if and only if the count is what the thread expects and it does not fail spuriously; a thread that fails looks again |
| Refcount.Conservation | mealSwipeExchange/Pods/BoringSSL-GRPC/crypto/refcount_lock.c:29-51 | An unsaturated count is the initial one plus increments minus decrements |
| Refcount.SaturatedStays | mealSwipeExchange/Pods/BoringSSL-GRPC/crypto/refcount_lock.c:29-51 | A saturated count never moves again |
| Refcount.CountOverRuns | mealSwipeExchange/Pods/BoringSSL-GRPC/crypto/refcount_c11.c:37-65 | Both over every run of the compare-and-swap version |
| Refcount.ZeroReportedExactly | mealSwipeExchange/Pods/BoringSSL-GRPC/crypto/refcount_lock.c:37-51 | A decrement reports zero if and only if its own effect reached zero |
| Refcount.LockedCount.constructor | mealSwipeExchange/Pods/BoringSSL-GRPC/crypto/refcount_lock.c:22-31 | The count as initialised |
| Refcount.LockedCount.Increment | mealSwipeExchange/Pods/BoringSSL-GRPC/crypto/refcount_lock.c:29-35 | Refines the atomic increment, saturating |
| Refcount.LockedCount.DecrementAndTestZero | mealSwipeExchange/Pods/BoringSSL-GRPC/crypto/refcount_lock.c:37-51 | Refines the atomic decrement; at zero the process aborts, at saturation nothing moves |

## Left out

- Swift code: views, Firebase session, notifications and tests are calls into frameworks.
- Cryptography: sealing and opening, hashes, the PRF, signatures and certificates are uninterpreted functions with length and round-trip properties.
- TLS 1.3, SSL 3.0, V2ClientHello, renegotiation, early data, handoff and the contents of extensions: separate machines or code that is not here.
- `tls_seal_record`, `ssl_record_sequence_update` and the body of `tls_open_record` are contracts; the record layer's limit on empty records is not modelled.
- Allocation failures, the error queue, callbacks and logging.
- HelloVerifyRequest and the DTLS timers: what triggers a retransmission is left to the caller.
- `ssl_asn1.cc`, `ssl_cert.cc`, `handoff.cc`: straight-line field lists over helpers that are not here.
- nanopb callbacks, extensions, pointer allocation, custom streams and `PB_WITHOUT_64BIT`: foreign calls and build variants; the build with 32-bit sizes is modelled.
- DtlsEndToEnd.EndToEnd: message numbers of an epoch stay below 65536, because a number that wraps around is taken for an old one; the reader is not closed by an alert, and an honest sender's flight holds no alerts.
- DtlsChain.ChainOfFlights: the reader's change of keys; when the sender changes its own is in the flights it builds, and what that does to record numbers is proved for the writer. Message numbers over all epochs stay below 65536.
- DtlsKeys.EndToEndUnderKeys: that a record which opens was made by the sender is a hypothesis, as the cipher is uninterpreted.
- DtlsArrivals.ArrivalsExactly: from an empty ring, while message numbers stay below 65536.
- DtlsWriter.NoncesNeverRepeat: for ciphers whose nonce is the record number; that random nonces of the CBC ciphers differ is not claimed.
- DtlsFlight.BuiltFlightIsNumbered: for bodies below 2^24 bytes, which is what the length field can say.
- PbRoundTrip.MessageIsRead: for encodings below 2^63 bytes; a fixed-count array inside a proto3 singular message is excluded, because there the zero test reads array data as a count.
- PbRoundTrip.RoundTrip: the writer's struct holds values of its descriptor's types; a union holds only the member that is chosen.
- PbListing.MessageListed: for encodings below 2^32 bytes, since longer lengths are not read.
- PbVarint.Varint32Refuses: up to 63 bits; beyond that some encodings pass the sign-extension test, as the code says.
- PbInput.InputStream.ReadArray: entries of a fixed-count array that are not decoded keep no previous contents, since an incomplete array is refused anyway.
- PbInput.InputStream.ReadMessage: error messages are not modelled, nor what a failed decoding leaves in the struct.
- PbOutput.OutputStream.WriteMessage: for structs whose values have the C types of their fields; bytes left in the buffer by a failed write are not specified.
- HandshakeRuns.Agreement: both ends share the negotiated parameters and are honest; rejected certificates, failed key operations and policy errors end a real handshake and are left out, as is what follows False Start before the handshake is done.
- HandshakeOpen.FinishedBinds: the MAC is assumed injective; who can compute it is not modelled.
- HandshakeOpen.ClientAccepts: one handshake message per record; HandshakeWireOpen.WireAccepts is about any bytes.
- HandshakeWireOpen.WireAccepts: the messages' contents are read and written by a codec that loses nothing.
- HandshakeRuns.PausesErased: an answer that is not ready is a Boolean; which callback gave it is not modelled.
- HandshakeProduct.ArriveLinked: one handshake message per record; HandshakeRecordRuns.AgreementHoweverCut is about any cut.
- HandshakeRecordRuns.AgreementHoweverCut: the bytes of the script's messages are given by an uninterpreted codec, and a record is its plaintext and the keys it is under; no record is empty.
- HandshakeFollows.ReceiveFollows: the transport hands over whole records; reading a record in parts is not modelled.
- HandshakeClient.ClientHandshake.RunHandshake: an early return for False Start is a pause like the others.
- SslBuffer.Buffer.EnsureCap: allocation succeeds and its address is a parameter.
- TlsWriter.RecordWriter.WriteRecord: a room within the alignment slack of 0xffff is excluded, because there the buffer's 16-bit offset can wrap.
- TlsWriter.RecordWriter.WriteChunk: the same bound.
- TlsWriter.RecordWriter.WriteFrom: the same bound.
- TlsWriter.RecordWriter.WriteAppData: the same bound.
- TlsWrite.WriteAppConserves: the caller offers the same bytes again; a negative length is left out.
- TlsStream.ChunkingIsUndone: over runs in which no adding of a message fails, since a failure ends the handshake.
- TlsRetry.ShortThenFull: the record pending is one of the write; while an alert is pending, every write of application data is refused.
- TlsWrite.WireOrder: nothing is added to a flight that is being written, as the code asserts.
- TlsRead.FeedDelivers: the type and length checks of the record layer are left out.
- CipherChoice.ChooseCipher: version and key tests are one set of compatible ciphers.
- Refcount.Linearizable: a thread's retry loop is a sequence of atomic steps; that every loop ends is not claimed, since weak compare-and-swap may fail forever.
