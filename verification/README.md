# A Dafny model of the TLS and DTLS library

This project models the protocol cores of the vendored BoringSSL library and proves
properties of the model with Dafny 4.11. `dafny verify dfyconfig.toml` checks everything.

What is modelled, and in which files:

- **DTLS handshake transport.** `Fragment`, `BitMask`, `Reassembly`, `ReassemblyOrder`,
  `HandshakeReader` and `ReaderRing` are the receiving half: fragments, the byte bitmask, the
  ring of seven messages. `HandshakeWriter`, `FlightWriter` and `FlightCoverage` are the
  sending half: the flight that is kept for retransmission and packed at any MTU. `Delivery`
  connects both over a network that loses, repeats and reorders packets (what is received is what
  was sent), and `DeliveryComplete` shows that what arrives completely becomes complete.
  `FlushSuccess` says when writing succeeds, `StrayRecords` that records which come out of order
  but may do so change nothing, and `ReaderBounds` what no records can do to the ring.
- **DTLS records.** `Aead`, `ReplayWindow`, `DtlsRecord`, `DtlsRecordLayer` and `RecordRuns`:
  nonces and additional data, the replay window, sealing and opening, epochs and counters, and
  what holds over whole runs. `RecordLayouts` has the headers byte by byte, `RecordBinding` shows
  that no record can be passed off as another, and `AlertRuns` what alerts do in a run.
- **Cipher preferences.** `CipherRules` and `CipherStrength` say what rules do to sequences;
  `CipherList` does it to the doubly linked list while walking it. `CipherScanner` is the rule
  language, `CipherProgram` its grammar and meaning, `CipherAliases` the meaning of `+`,
  `CipherNames` what names, rules and groups do over texts, `CipherListShape` and `CipherFate` what
  every rule string keeps, `CipherPreferences`, `CipherDefaultOrder`, `CipherDefaultSort` and
  `CipherListBuilder` the whole construction, `CipherChoice` the server's choice.
- **TLS write path.** `WriteBuffer`, `TlsWriter` and `WriteRetries`: the pending flight, the
  write buffer, partial writes and retries.
- **Handshake state machines.** `HandshakeScript` is the order of messages both sides must agree
  on; `HandshakeMachines` has the two machines one turn at a time and `HandshakeMoves` what their
  turns come to. `HandshakeChecks`, `HandshakeOrder` and `HandshakeOneSided` are about one side
  against any peer. `HandshakeSteps` and `HandshakeServerSteps` show that turns follow the order,
  `HandshakeRun`, `HandshakeOutcome` and `HandshakeEndings` compose them, `HandshakeLoops`,
  `HandshakeConnect` and `HandshakeAccept` are the loops.
- **Smaller pieces.** `ConstantTime`, `ConstantTime32` and `Premaster` (the branch-free RSA check),
  `Refcount` (the compare-and-swap loops against the locked functions), `Der`, `DerCanonical`,
  `SessionDer`, `SessionRoundTrip`, `SessionTrailing`, `SessionSample` and `SessionLimits`
  (sessions).

Where the source changes state in place the model has classes and arrays whose methods are
proved against functions on values; the properties are then proved of those functions and of
runs of them.

Assumptions of the model:

- An AEAD is any pair of functions in which opening undoes sealing and the ciphertext is longer
  by a bounded overhead; that it binds the nonce and the additional data is asked for only where
  forged records are the point (`RecordBinding.Binding`). The hash of the Finished messages is any
  function both sides share.
- What the transport, the random number generator, the allocator and the application return is
  decided by functions that are parameters, so that every property holds for all of them.
- The tables of ciphers and aliases are parameters.

Where the code and its comments or documentation differ, the model follows the code:

- A fragment whose number is exactly seven ahead passes the test for fragments to be ignored
  (`d1_both.c`, lines 367-372) and is refused afterwards (271-273): it fails the connection.
  `ReassemblyOrder.OutsideTheWindow` gives the exact condition.
- An empty fragment at the end of a message whose length is a multiple of eight makes the marking
  look at a mask byte that does not exist (`d1_both.c`, lines 230-231). `HmFragment.Receive` and all
  its callers report exactly this case and leave the message as it was; `HmFragment.Mark` asks for
  the byte. `HandshakeReader.FirstRecordMarksPastEnd` gives a record.
- In a rule `A+B` an alias with a protocol version followed by one without makes the whole rule
  select nothing (`ssl_cipher.c`, lines 1122-1127): `CipherAliases.PlusIsIntersection`.
- The count of bytes written is cleared before the length of a retry is checked (`s3_pkt.c`,
  lines 198-211): `WriteRetries.RetryTracks`.
- After 65535 handshake messages the sixteen-bit number wraps and an old message can be taken for
  a new one: `Delivery.AfterWrapAnOldMessageIsNew`. The end-to-end theorem is for fewer messages.
- After the record counter has wrapped the library returns an error, and a caller that went on
  would use number zero again: `RecordRuns.AfterWrapTheNextNumberIsZero`.
- The integers of the time and timeout fields of a session may be followed by anything within
  their element (`SessionTrailing.TrailingIsIgnored`); the other explicitly tagged fields may not.
- A session with a negative verification result is printed as a number that the parser refuses
  (`ssl_asn1.c`, lines 240-242 and 531-542): `SessionRoundTrip.RoundTrip` has both cases.

## Model

| member | source | states |
|---|---|---|
| Fragment.ParseEncode | app/libs/boringssl/ssl/d1_both.c:476-490 | parsing undoes encoding of a handshake fragment and consumes nothing that follows it |
| Fragment.EncodeParse | app/libs/boringssl/ssl/d1_both.c:476-490 | every payload that parses is the encoding of the fragment found, followed by the rest |
| RecordLayouts.HandshakeHeader | app/libs/boringssl/ssl/d1_both.c:476-490 | the twelve bytes of a fragment header one by one (section 4.2.2 of RFC 6347) |
| BitMask.BitRangeExact | app/libs/boringssl/ssl/d1_both.c:211-213 | bit k of the mask is set exactly if start <= k < end |
| Reassembly.HmFragment.constructor | app/libs/boringssl/ssl/d1_both.c:155-207 | the header is the one of a single fragment, no body byte is marked, an empty message is complete at once |
| Reassembly.MarkRange | app/libs/boringssl/ssl/d1_both.c:219-243 | after marking, bit i is set exactly if byte i was marked before or lies in the range; no other bit changes |
| Reassembly.AllMarked | app/libs/boringssl/ssl/d1_both.c:245-254 | the final scan finds the message complete exactly if every body byte is marked, with a partial last mask byte too |
| Reassembly.HmFragment.Mark | app/libs/boringssl/ssl/d1_both.c:219-255 | the bytes received become the union with the range, and the mask is released exactly when they are all there |
| Reassembly.HmFragment.Receive | app/libs/boringssl/ssl/d1_both.c:387-391 | copies a fragment body and marks it; reports when an empty range would touch a mask byte that does not exist |
| ReassemblyOrder.ReceivedExactly | app/libs/boringssl/ssl/d1_both.c:187-199 | over any number of fragments, a byte has been received exactly if it was there or some fragment covers it |
| ReassemblyOrder.CompleteIfCovered | app/libs/boringssl/ssl/d1_both.c:219-255 | a message is complete exactly if the fragments cover it, whatever their order, repetition and overlap |
| ReassemblyOrder.AnyOrderGivesTheBody | app/libs/boringssl/ssl/d1_both.c:302-395 | fragments cut from one body that cover it give that body in whatever order they arrive |
| ReassemblyOrder.OutsideTheWindow | app/libs/boringssl/ssl/d1_both.c:367-376 | stale and far fragments are ignored, but the number right behind the window fails the connection |
| HandshakeReader.SlotHoldsItsMessage | app/libs/boringssl/ssl/d1_both.c:275-281 | the asserted fact: the slot of a number in the window holds the message of that number |
| HandshakeReader.ProcessFragment | app/libs/boringssl/ssl/d1_both.c:302-395 | every branch keeps the ring invariant: slot i holds a message with seq % 7 == i inside the window |
| HandshakeReader.Release | app/libs/boringssl/ssl/d1_both.c:439-452 | giving up the front message keeps the ring invariant, and at number 65535 the ring is empty, so that wrapping to 0 is sound |
| ReaderRing.HandshakeRing.GetIncomingMessage | app/libs/boringssl/ssl/d1_both.c:269-298 | finds or creates the message in its slot, refuses a different type or length, and numbers beyond the window |
| ReaderRing.HandshakeRing.ProcessFragment | app/libs/boringssl/ssl/d1_both.c:346-394 | the object refines the step on values, and reports exactly when the marking would look at a mask byte that does not exist |
| HandshakeReader.FirstFragmentMarksPastEnd | app/libs/boringssl/ssl/d1_both.c:219-243 | an empty first fragment at the end of a message of eight bytes does |
| HandshakeReader.FirstRecordMarksPastEnd | app/libs/boringssl/ssl/d1_both.c:302-395 | so does the first record of a connection that holds it, and it is consumed like any other |
| StrayRecords.OtherRecords | app/libs/boringssl/ssl/d1_both.c:322-335 | of the records that are not handshake, application data in the encrypted epoch and a ChangeCipherSpec before it are passed over; every other one ends the connection |
| StrayRecords.StrayRecordsChangeNothing | app/libs/boringssl/ssl/d1_both.c:322-328 | wherever such stray records come among the others, the receiver, the messages and the failures are the same as without them; only more records are read |
| StrayRecords.StrayNeverFails | app/libs/boringssl/ssl/d1_both.c:313-328 | end to end: a genuine record of application data of the second epoch, or a ChangeCipherSpec of the first, never ends the connection, whatever epoch the receiver is in when it arrives |
| StrayRecords.MisplacedFails | app/libs/boringssl/ssl/d1_both.c:322-335 | in the other epoch such a record ends the connection exactly if it is opened |
| ReaderBounds.FragmentKeeps | app/libs/boringssl/ssl/d1_both.c:353-376 | a fragment that fails leaves the ring as it was; one that is too long, reaches past its message, or is of another message in the second epoch fails |
| ReaderBounds.ReadingKeeps | app/libs/boringssl/ssl/d1_both.c:353-365 | however many records are read, no message longer than the limit is ever put together, and in the second epoch none but the one expected |
| HandshakeReader.BufferedExactly | app/libs/boringssl/ssl/d1_both.c:461-474 | other messages are buffered exactly if the ring is not empty once the current one is released |
| ReaderRing.HandshakeRing.ProcessHandshakeRecord | app/libs/boringssl/ssl/d1_both.c:302-395 | the loop over the fragments of a record refines the fold over them, stopping at the first failure, and reports exactly when one of them marks past the end of the mask |
| ReaderRing.HandshakeRing.ReleaseCurrentMessage | app/libs/boringssl/ssl/d1_both.c:439-452 | frees the front slot and moves the window, sixteen bits wide |
| ReaderRing.HandshakeRing.IsCurrentMessageComplete | app/libs/boringssl/ssl/d1_both.c:259-263 | true exactly if the front slot holds a message with all its bytes |
| ReaderRing.HandshakeRing.CurrentMessage | app/libs/boringssl/ssl/d1_both.c:431-437 | what is hashed: the header as a single fragment and the body |
| ReaderRing.HandshakeRing.ReadRecords | app/libs/boringssl/ssl/d1_both.c:406-428 | reads records until the front message is complete, or blocks or fails, and marks it as the current one; reports exactly when one of them marks past the end |
| ReaderRing.HandshakeRing.GetMessage | app/libs/boringssl/ssl/d1_both.c:397-429 | releases the message handed out last unless it is to be used again, then reads the next |
| ReaderRing.HandshakeRing.HasIncomingMessages | app/libs/boringssl/ssl/d1_both.c:461-474 | true exactly if a slot other than that of the current message is occupied |
| ReplayWindow.Bitmap.ShouldDiscard | app/libs/boringssl/ssl/dtls_record.c:138-148 | discards exactly the numbers recorded already and those at least 64 below the maximum |
| ReplayWindow.Bitmap.Record | app/libs/boringssl/ssl/dtls_record.c:153-173 | the 64-bit shift register goes on representing exactly the set of recorded numbers, with the new one |
| ReplayWindow.Bitmap.Slide | app/libs/boringssl/ssl/dtls_record.c:155-163 | shifting by any distance, also by 64 and more, keeps the bits of the numbers still in the window |
| DtlsRecordLayer.SequenceUpdate | app/libs/boringssl/ssl/tls_record.c:148-157 | adds one to a big-endian counter in place and reports failure exactly on wrapping to zero |
| DtlsRecordLayer.NumberOnWire | app/libs/boringssl/ssl/dtls_record.c:126-134 | the eight bytes are two of epoch and six of counter |
| DtlsRecordLayer.RecordWriter.Advance | app/libs/boringssl/ssl/dtls_record.c:322-325 | advances the counter of the epoch used and reports its wrapping |
| DtlsRecordLayer.RecordWriter.SealRecord | app/libs/boringssl/ssl/dtls_record.c:275-334 | the object refines sealing on values: both counters, previous-epoch sends, failures after the number was used |
| DtlsRecordLayer.RecordWriter.SetWriteState | app/libs/boringssl/ssl/dtls_method.c:124-133 | the counter is saved for retransmission and starts again from zero in the next epoch |
| DtlsRecordLayer.RecordReader.OpenRecord | app/libs/boringssl/ssl/dtls_record.c:175-250 | the object refines opening on values, branch by branch, and the window changes only after authentication |
| DtlsRecordLayer.RecordReader.ReceiveAlert | app/libs/boringssl/ssl/tls_record.c:460-513 | warnings, close notifications and fatal alerts, and the limit on warnings |
| DtlsRecordLayer.RecordReader.SetReadState | app/libs/boringssl/ssl/dtls_method.c:106-122 | a new epoch forgets the window, and is refused while messages are buffered |
| DtlsRecord.NumberRoundTrip | app/libs/boringssl/ssl/dtls_record.c:126-134 | a record number survives its eight bytes |
| DtlsRecord.OpenRecord | app/libs/boringssl/ssl/dtls_record.c:175-250 | never consumes more than the packet holds and keeps the reader valid and in its epoch |
| RecordRuns.SealRecordBytes | app/libs/boringssl/ssl/dtls_record.c:275-334 | a record that is produced consists of exactly the header and body of its ingredients |
| RecordLayouts.RecordHeader | app/libs/boringssl/ssl/dtls_record.c:300-331 | the thirteen bytes of a record header one by one (section 4.1 of RFC 6347) |
| RecordLayouts.SealedOnWire | app/libs/boringssl/ssl/dtls_record.c:275-334 | what is produced begins with its type, the version in use, the epoch and counter it was sealed under, and the length of the rest |
| FlushSuccess.SealsExactly | app/libs/boringssl/ssl/dtls_record.c:275-334 | when a record is produced: it fits, and its number is not the last one |
| RecordRuns.DecodeSealed | app/libs/boringssl/ssl/dtls_record.c:179-199 | the header of a sealed record decodes to its parts whatever follows it in the packet |
| RecordRuns.OpenSealedRecord | app/libs/boringssl/ssl/dtls_record.c:175-250 | round trip: an acceptable record comes back with its type and body, and exactly its bytes are used up |
| RecordRuns.SuiteRoundTrip | app/libs/boringssl/ssl/ssl_aead_ctx.c:82-117 | for every bulk cipher that can be set up for DTLS: what one side seals the other opens, if the number is fresh |
| RecordRuns.OpenedParts | app/libs/boringssl/ssl/dtls_record.c:175-250 | how much of the packet each way out uses up, and that a success is of the reader's epoch and what decrypts under its cipher |
| RecordRuns.OpenOwnRecord | app/libs/boringssl/ssl/dtls_record.c:175-250 | whatever the window, nothing but what was sealed comes out, and one record or the rest of the packet is used up |
| RecordRuns.OpenPacketOf | app/libs/boringssl/ssl/dtls_record.c:175-250 | a packet of several records parses back in order |
| RecordRuns.NoRecordAcceptedTwice | app/libs/boringssl/ssl/dtls_record.c:200-247 | over every run no record number is accepted twice, and every record accepted is of the epoch the reader was in at that moment (section 4.1.2.6 of RFC 6347) |
| RecordLayouts.ReorderedIsTaken | app/libs/boringssl/ssl/dtls_record.c:138-148 | over every run a genuine record of the current epoch is taken if and only if its number has not been received and is less than 64 behind the greatest that has; otherwise it is discarded and nothing changes |
| AlertRuns.AlertResult | app/libs/boringssl/ssl/tls_record.c:460-513 | what every record comes to, told from its decrypted bytes: data, warning, close_notify, fatal alert, anything else |
| AlertRuns.WarningsCounted | app/libs/boringssl/ssl/tls_record.c:490-497 | over every run the count is the number of warnings since the last record that was no alert; what is discarded neither counts nor resets it |
| AlertRuns.FifthWarningFails | app/libs/boringssl/ssl/tls_record.c:135-137 | so the fifth warning in a row, and only that, ends the connection |
| RecordRuns.NumbersNeverRepeat | app/libs/boringssl/ssl/dtls_record.c:275-334 | through retransmission, previous-epoch sends and failed seals no record number is used twice before the counter reports wrapping |
| RecordRuns.NoncesNeverRepeat | app/libs/boringssl/ssl/ssl_aead_ctx.c:276-328 | hence the nonces of a sequence-derived context are pairwise distinct (section 3 of RFC 5288, section 2 of RFC 7905) |
| RecordRuns.AfterWrapTheNextNumberIsZero | app/libs/boringssl/ssl/dtls_record.c:322-325 | wrapping must end the connection: the next seal would use number zero again |
| Aead.OpenSealed | app/libs/boringssl/ssl/ssl_aead_ctx.c:155-336 | in every mode, opening rebuilds the nonce and the additional data of sealing and returns the plaintext |
| RecordBinding.AdditionalDataLayout | app/libs/boringssl/ssl/ssl_aead_ctx.c:155-180 | eight bytes of record number, type, version, and the length of the plaintext unless omitted (section 6.2.3.3 of RFC 5246) |
| RecordBinding.AdditionalDataBinds | app/libs/boringssl/ssl/ssl_aead_ctx.c:155-180 | equal additional data are those of one type, version, number and length |
| RecordBinding.OpensAsItself | app/libs/boringssl/ssl/ssl_aead_ctx.c:205-336 | under a primitive that binds nonce and additional data, in every mode a sealed body opens under a type, version and number if and only if they are those it was sealed with |
| RecordBinding.AlteredRecordDiscarded | app/libs/boringssl/ssl/dtls_record.c:175-250 | a record whose type, version or number was altered on the way is discarded and the reader stays as it was, so no record can be replayed under another number |
| RecordBinding.XorByteExact | app/libs/boringssl/ssl/ssl_aead_ctx.c:305-312 | exclusive or, bit by bit |
| RecordBinding.NonceLayout | app/libs/boringssl/ssl/ssl_aead_ctx.c:276-312 | the nonce byte by byte: fixed part then variable part, or the padded number masked with the fixed part |
| RecordBinding.SuiteShapes | app/libs/boringssl/ssl/ssl_aead_ctx.c:82-117 | which suites have an explicit nonce, a random one, a masked one, and a length in the additional data |
| Aead.NonceInjective | app/libs/boringssl/ssl/ssl_aead_ctx.c:276-312 | under one context different variable parts give different nonces, in the xor and in the prefix construction |
| Aead.XorByteInjective | app/libs/boringssl/ssl/ssl_aead_ctx.c:305-312 | exclusive or with one key byte loses nothing |
| Aead.AssembleNonce | app/libs/boringssl/ssl/ssl_aead_ctx.c:213-245 | the in-place construction in a fixed buffer gives the nonce, of the fixed length |
| FlightWriter.OutgoingFlight.AddOutgoing | app/libs/boringssl/ssl/d1_both.c:539-571 | a message is kept for retransmission with the epoch it belongs to, or refused when seven are kept |
| FlightWriter.OutgoingFlight.SealFragment | app/libs/boringssl/ssl/d1_both.c:651-711 | one fragment as large as fits, or no progress, or an error, as the value model has it |
| FlightWriter.OutgoingFlight.SealNextMessage | app/libs/boringssl/ssl/d1_both.c:621-711 | the object refines the step on values, with the bytes of the record |
| FlightWriter.OutgoingFlight.SealNextPacket | app/libs/boringssl/ssl/d1_both.c:716-757 | the bytes of the packet are those of its records in order, and never more than the limit |
| FlightWriter.OutgoingFlight.FlushFlight | app/libs/boringssl/ssl/d1_both.c:759-799 | terminates; the packets on the wire, the cursor and the return code are those of the value model, with the rewind after a refused write |
| FlightWriter.OutgoingFlight.RetransmitOutgoingMessages | app/libs/boringssl/ssl/d1_both.c:801-810 | starts over at the first message |
| HandshakeWriter.SealNextMessage | app/libs/boringssl/ssl/d1_both.c:621-711 | a record is between one byte and the limit, no progress leaves the flight as it was |
| FlushSuccess.ProgressExactly | app/libs/boringssl/ssl/d1_both.c:621-671 | no progress is made if and only if there is not room for a ChangeCipherSpec or for one byte of the message |
| FlushSuccess.PartialFillsRoom | app/libs/boringssl/ssl/d1_both.c:673-680 | a fragment that does not finish its message is as large as fits |
| FlushSuccess.AddedThenSealed | app/libs/boringssl/ssl/d1_both.c:551-565 | a message goes out in the epoch and under the keys that were current when it was added, also after a change of keys |
| HandshakeWriter.FillPacket | app/libs/boringssl/ssl/d1_both.c:716-757 | the records of a packet fit the limit together |
| HandshakeWriter.Flush | app/libs/boringssl/ssl/d1_both.c:759-799 | every packet taken is between one byte and the MTU, and the measure (messages left, bytes left) decreases |
| FlushSuccess.FlushSucceeds | app/libs/boringssl/ssl/d1_both.c:759-799 | a flight of well-formed messages is flushed to its end by a transport that takes every packet, if the MTU has room for one byte of a message and the record numbers do not run out |
| HandshakeWriter.PacketMakesProgress | app/libs/boringssl/ssl/d1_both.c:716-757 | each packet leaves fewer messages, or fewer bytes of the same one |
| FlightCoverage.MessageCovers | app/libs/boringssl/ssl/d1_both.c:621-711 | one call emits the next piece of the flight: same header fields, next bytes |
| FlightCoverage.RecordIngredients | app/libs/boringssl/ssl/d1_both.c:626-651 | each record has the epoch, number and keys of the epoch its message was added in |
| FlightCoverage.PacketCovers | app/libs/boringssl/ssl/d1_both.c:716-757 | the records of a packet take the flight on piece by piece |
| FlightCoverage.FlushCovers | app/libs/boringssl/ssl/d1_both.c:759-799 | over a whole flush nothing is skipped, repeated or reordered, and a refused packet is rewound exactly to its start |
| FlightCoverage.FragmentsAreContiguous | app/libs/boringssl/ssl/d1_both.c:651-711 | the fragments of one message on the wire, side by side, are its body between the two positions |
| FlightCoverage.EmptyBodyOneFragment | app/libs/boringssl/ssl/d1_both.c:651-711 | an empty body has exactly one fragment |
| FlightCoverage.FlushSendsEveryMessageOnce | app/libs/boringssl/ssl/d1_both.c:759-799 | a complete flush puts each body on the wire exactly once |
| Delivery.StepKeeps | app/libs/boringssl/ssl/d1_both.c:519-571 | every step of sender, network and receiver keeps the invariant that all that is in flight or buffered is genuine |
| Delivery.TranscriptsAgree | app/libs/boringssl/ssl/d1_both.c:431-437 | on every schedule of loss, repetition, reordering, retransmission and MTU, what the receiver hashes is a prefix of what the sender hashed, and a complete message is the one buffered under its number (section 4.2.6 of RFC 6347) |
| DeliveryComplete.FlushSent | app/libs/boringssl/ssl/d1_both.c:621-810 | a complete flush is the pieces of the flight in order, each under the next number of its epoch |
| DeliveryComplete.NumbersDiffer | app/libs/boringssl/ssl/dtls_record.c:275-334 | no two records of a flush have the same number in the first epoch |
| DeliveryComplete.ByteSent | app/libs/boringssl/ssl/d1_both.c:519-571 | every byte of every message is in some record of the flush, of the message's epoch |
| DeliveryComplete.FragmentArrives | app/libs/boringssl/ssl/d1_both.c:346-394 | a genuine fragment of a message that is not too far ahead does not fail, and the ring has its bytes afterwards |
| DeliveryComplete.CompleteFlushArrives | app/libs/boringssl/ssl/d1_both.c:759-810 | if every packet of a complete flush arrives at a receiver within reach, in any order and number, nothing fails and every message of the first epoch not yet released becomes complete, as hashed by the sender |
| Delivery.AllDelivered | app/libs/boringssl/ssl/d1_both.c:439-452 | a receiver that is handed messages one after the other from a fresh start expects the next number, sixteen bits wide |
| Delivery.AfterWrapAnOldMessageIsNew | app/libs/boringssl/ssl/d1_both.c:439-452 | the bound of 65535 messages is needed: after 65536 messages handed to a fresh receiver a late copy of the first is taken for the next one (this concerns the receiver alone) |
| CipherList.CipherOrderList.Detach | app/libs/boringssl/ssl/ssl_cipher.c:741-756 | taking a node out keeps the list linked in both directions over the other nodes |
| CipherList.CipherOrderList.AppendTail | app/libs/boringssl/ssl/ssl_cipher.c:741-759 | the node goes behind all others, which keep their order |
| CipherList.CipherOrderList.AppendHead | app/libs/boringssl/ssl/ssl_cipher.c:761-779 | the node goes before all others, which keep their order |
| CipherList.CipherOrderList.Remove | app/libs/boringssl/ssl/ssl_cipher.c:922-943 | a killed node leaves the list for good |
| CipherList.CipherOrderList.ApplyForward | app/libs/boringssl/ssl/ssl_cipher.c:863-947 | although nodes move behind the cursor every original node is visited once: ADD and ORD give rest ++ matched, KILL gives rest |
| CipherList.CipherOrderList.ApplyBackward | app/libs/boringssl/ssl/ssl_cipher.c:845-920 | the reverse walk of DEL gives matched ++ rest, both in order |
| CipherList.CipherOrderList.ApplyRule | app/libs/boringssl/ssl/ssl_cipher.c:833-950 | the list surgery refines the rule on sequences; the early return skips only rules without effect |
| CipherList.NextNode | app/libs/boringssl/ssl/ssl_cipher.c:875 | the node behind the one being visited is still its successor of the original order |
| CipherList.PreviousNode | app/libs/boringssl/ssl/ssl_cipher.c:875 | the same for the reverse walk |
| CipherList.CipherOrderList.MaxStrength | app/libs/boringssl/ssl/ssl_cipher.c:958-968 | the greatest strength of an active cipher |
| CipherList.CipherOrderList.CountUses | app/libs/boringssl/ssl/ssl_cipher.c:970-984 | the number of active ciphers of each strength |
| CipherList.CipherOrderList.StrengthSort | app/libs/boringssl/ssl/ssl_cipher.c:952-995 | the sequence of ORD rules leaves the order specified for @STRENGTH |
| CipherStrength.SortingStep | app/libs/boringssl/ssl/ssl_cipher.c:986-991 | each ORD rule of the loop moves one strength behind the stronger ones |
| CipherStrength.StableByStrength | app/libs/boringssl/ssl/ssl_cipher.c:952-995 | @STRENGTH is a stable sort: inactive entries first in their order, active ones by descending strength, ciphers of one strength in their old order, no group flags left |
| CipherRules.NothingApplies | app/libs/boringssl/ssl/ssl_cipher.c:840-844 | rules the early return skips would change nothing |
| CipherRules.SelectChanged | app/libs/boringssl/ssl/ssl_cipher.c:880-944 | selecting entries commutes with changing exactly those selected |
| CipherListShape.Origins | app/libs/boringssl/ssl/ssl_cipher.c:833-950 | where two entries of the new list come from and how their order relates |
| CipherListShape.ApplyKeepsOrder | app/libs/boringssl/ssl/ssl_cipher.c:833-950 | every rule keeps the active entries behind the inactive ones and adds no duplicate |
| CipherListShape.StepKeepsGood | app/libs/boringssl/ssl/ssl_cipher.c:1010-1174 | each turn of the scanning loop keeps: active last, no duplicates, inactive ungrouped, no groups before a bracket, groups closed outside brackets |
| CipherListShape.RunKeepsGood | app/libs/boringssl/ssl/ssl_cipher.c:997-1182 | for every rule string that is accepted: no duplicates, active ciphers at the end, every run of group flags closed by an entry without one |
| CipherListShape.ApplyCiphers | app/libs/boringssl/ssl/ssl_cipher.c:833-950 | a rule keeps every cipher but the ones it kills |
| CipherFate.RunOnlyForgets | app/libs/boringssl/ssl/ssl_cipher.c:997-1182 | a rule string adds no cipher to the list it is given |
| CipherFate.KilledForGood | app/libs/boringssl/ssl/ssl_cipher.c:921-944 | a cipher selected by a `!` rule is not listed any more, whatever the rest of the rule string is |
| CipherFate.NothingLostWithoutKill | app/libs/boringssl/ssl/ssl_cipher.c:997-1182 | rule strings without `!` lose no cipher |
| CipherFate.NoGroupsWithoutBracket | app/libs/boringssl/ssl/ssl_cipher.c:1049-1056 | without brackets there are no groups, as in the default string |
| CipherScanner.StepConsumes | app/libs/boringssl/ssl/ssl_cipher.c:1010-1174 | every turn of the scanning loop consumes input, so that it ends |
| CipherProgram.NamesRead | app/libs/boringssl/ssl/ssl_cipher.c:1084-1150 | the names of a rule are read back from their text |
| CipherProgram.CommandScanned | app/libs/boringssl/ssl/ssl_cipher.c:1034-1174 | an operator and its names are given the rule they stand for |
| CipherProgram.GroupScanned | app/libs/boringssl/ssl/ssl_cipher.c:1017-1036 | a bracketed group adds its alternatives in order and closes |
| CipherProgram.ScannerMeaning | app/libs/boringssl/ssl/ssl_cipher.c:997-1182 | the scanner gives every phrase of the grammar of rule strings its meaning, errors included |
| CipherNames.CipherFound | app/libs/boringssl/ssl/ssl_cipher.c:1105-1115 | the name of a cipher gives the id of the first cipher with that name |
| CipherNames.AliasFound | app/libs/boringssl/ssl/ssl_cipher.c:1117-1132 | the name of an alias gives the first alias with that name, and nothing if none has it |
| CipherNames.UnknownRule | app/libs/boringssl/ssl/ssl_cipher.c:1134-1140 | over texts: a rule with a name in neither table, anywhere among its names and anywhere in a rule string, leaves the meaning of the string as it is without the rule, and is InvalidCommand in strict mode |
| CipherNames.UnknownAlternative | app/libs/boringssl/ssl/ssl_cipher.c:1134-1140 | the same of an alternative in a bracketed group |
| CipherNames.CipherRule | app/libs/boringssl/ssl/ssl_cipher.c:1103-1115 | over texts: a rule of one name that is a cipher's acts on exactly the entries with that id |
| CipherNames.AliasRule | app/libs/boringssl/ssl/ssl_cipher.c:1117-1148 | over texts: a rule of aliases acts on exactly the ciphers that all of them stand for, or on none if one with a version comes before one without |
| CipherNames.GroupRule | app/libs/boringssl/ssl/ssl_cipher.c:1006-1057 | over texts: what a bracketed group adds comes last and is of equal preference, every entry but the last being marked as continued; what was active before keeps its order |
| CipherNames.RuleEffect | app/libs/boringssl/ssl/ssl_cipher.c:864-945 | what ADD, ORD, DEL and KILL do to the selected entries, by filtering |
| CipherNames.SeparatorsMeanNothing | app/libs/boringssl/ssl/ssl_cipher.c:1066-1069 | colons, blanks, semicolons and commas between items mean nothing |
| CipherNames.NoOperatorInGroup | app/libs/boringssl/ssl/ssl_cipher.c:1014-1028 | an operator or separator in a group is an error |
| CipherNames.Unclosed | app/libs/boringssl/ssl/ssl_cipher.c:1176-1179 | a group that is not closed and a bracket that closes none are errors |
| CipherAliases.PlusIsIntersection | app/libs/boringssl/ssl/ssl_cipher.c:1112-1148 | a rule of several aliases selects exactly their intersection if and only if no alias without version follows one with a version; otherwise it selects nothing |
| CipherAliases.OrderOfNamesMatters | app/libs/boringssl/ssl/ssl_cipher.c:1122-1148 | read from the texts, TLSv1.2+AES selects nothing although AES+TLSv1.2 selects ciphers |
| CipherListBuilder.ReadRule | app/libs/boringssl/ssl/ssl_cipher.c:1084-1150 | the loop over the names of a rule |
| CipherListBuilder.ProcessRule | app/libs/boringssl/ssl/ssl_cipher.c:1037-1174 | one rule, applied to the linked list |
| CipherListBuilder.ProcessRuleString | app/libs/boringssl/ssl/ssl_cipher.c:997-1182 | the scanner at work on the linked list refines the scanner on sequences |
| CipherListBuilder.Collect | app/libs/boringssl/ssl/ssl_cipher.c:781-822 | nodes for the supported ciphers, linked in table order |
| CipherListBuilder.TakeActive | app/libs/boringssl/ssl/ssl_cipher.c:1293-1303 | the active ciphers with their group flags, in order |
| CipherListBuilder.CreateCipherList | app/libs/boringssl/ssl/ssl_cipher.c:1184-1343 | the whole construction; an empty list is an error but is put in place |
| CipherPreferences.CreatedPreferences | app/libs/boringssl/ssl/ssl_cipher.c:1184-1343 | every list made has no duplicates, only supported ciphers of the table, and all groups closed |
| CipherNames.PreferencesExactly | app/libs/boringssl/ssl/ssl_cipher.c:1293-1303 | the preferences are the active entries in order, each with its own group flag |
| CipherNames.DefaultMeansAll | app/libs/boringssl/ssl/ssl_cipher.c:1261-1277 | a rule string that begins with DEFAULT means the one that begins with the rule ALL instead |
| CipherDefaultSort.CollectedExactly | app/libs/boringssl/ssl/ssl_cipher.c:781-800 | the ciphers collected are exactly those of the table that are supported and not of TLS 1.3 |
| CipherDefaultOrder.ForwardSecrecyFirst | app/libs/boringssl/ssl/ssl_cipher.c:1213-1259 | before the rule string everything is disabled and ciphers without forward secrecy come last |
| CipherDefaultSort.DefaultOrderSorts | app/libs/boringssl/ssl/ssl_cipher.c:1205-1259 | before the rule string the list is exactly a stable sort of the collected ciphers: by forward secrecy, then bulk cipher (ChaCha20 before or behind AES-GCM by hardware), then key exchange, then place in the table |
| CipherDefaultSort.ChaChaOrGcm | app/libs/boringssl/ssl/ssl_cipher.c:1219-1238 | among ciphers that agree about forward secrecy ChaCha20 comes before AES-GCM if and only if there is no AES hardware |
| CipherChoice.Find | app/libs/boringssl/crypto/stack/stack.c:226-242 | the first position in a list without comparison function |
| CipherChoice.Choose | app/libs/boringssl/ssl/handshake_server.c:752-786 | picks the candidate of the first closed group that has one, earliest in the other side's list; nothing only if no candidate's group is closed |
| CipherChoice.BestIsUnique | app/libs/boringssl/ssl/handshake_server.c:752-786 | that specification determines the cipher |
| CipherChoice.BestExists | app/libs/boringssl/ssl/handshake_server.c:752-786 | a choice exists whenever some candidate's group is closed |
| CipherChoice.FirstWithoutGroups | app/libs/boringssl/ssl/handshake_server.c:739-747 | without server preference the choice is the first shared cipher in the client's order |
| CipherChoice.CompatibleMeans | app/libs/boringssl/ssl/handshake_server.c:756-763 | in the fields of the cipher: not newer than the version, not of TLS 1.2 or earlier in TLS 1.3, and masks that share a bit with what the server can do |
| CipherChoice.PositionIsFirst | app/libs/boringssl/crypto/stack/stack.c:226-242 | the position found is the first |
| CipherChoice.NothingChosen | app/libs/boringssl/ssl/handshake_server.c:752-790 | with nothing chosen every shared cipher in a closed group fails one of those tests |
| CipherChoice.CreatedListsChoose | app/libs/boringssl/ssl/handshake_server.c:719-790 | with lists made by the builder, no cipher is chosen only if none is shared and compatible |
| CipherChoice.OpenGroupFindsNothing | app/libs/boringssl/ssl/handshake_server.c:765-771 | a list whose last group is left open misses a shared cipher |
| CipherChoice.ChooseCipher | app/libs/boringssl/ssl/handshake_server.c:719-790 | with either side's preference the choice is the best candidate, or nothing if there is none; in the fields: what is chosen is in both lists, not newer than the version, and the server can do its key exchange and authentication |
| WriteBuffer.Buffer.Setup | app/libs/boringssl/ssl/ssl_buffer.c:39-58 | refuses a second allocation and more than 65535 bytes, and aligns what follows the header |
| WriteBuffer.Buffer.Consume | app/libs/boringssl/ssl/ssl_buffer.c:60-67 | removes bytes from the front |
| WriteBuffer.Buffer.Flush | app/libs/boringssl/ssl/ssl_buffer.c:244-257 | what the transport takes leaves the buffer, nothing is lost; the buffer is released only when empty, and is emptied by a transport that takes something every time |
| WriteBuffer.Buffer.FlushPacket | app/libs/boringssl/ssl/ssl_buffer.c:259-276 | the packet is dropped whether it is taken or not; the result is one or what the transport returned |
| TlsWriter.Writer.AddRecordToFlight | app/libs/boringssl/ssl/s3_both.c:203-232 | a sealed record goes behind all earlier ones; a failed seal adds nothing |
| TlsWriter.Writer.AddMessage | app/libs/boringssl/ssl/s3_both.c:257-286 | the records of a message carry it exactly, none longer than the limit, an empty message one |
| TlsWriter.Writer.FlushFlight | app/libs/boringssl/ssl/s3_both.c:323-365 | refuses to overtake the write buffer; partial writes keep the byte stream; with nothing in the buffer it succeeds on a transport that takes something every time |
| TlsWriter.Writer.WritePending | app/libs/boringssl/ssl/s3_pkt.c:239-254 | a retry must match the pending record; it reports the record only when all its bytes are taken |
| TlsWriter.Writer.SealToBuffer | app/libs/boringssl/ssl/s3_pkt.c:269-318 | the pending flight moves before the new record, exactly if there is room for both and sealing succeeds; if sealing fails after that the writer is broken |
| TlsWriter.Writer.WriteRecord | app/libs/boringssl/ssl/s3_pkt.c:257-323 | either retries the pending record or seals a new one; bytes taken ++ write buffer ++ flight stays the concatenation of all sealed records; a broken writer stays broken |
| TlsWriter.Writer.WriteAppData | app/libs/boringssl/ssl/s3_pkt.c:191-237 | what one call does to the count of bytes written and to the plaintext sealed; its records are no longer than allowed; and it succeeds if the transport takes something every time, sealing does not fail, there is room, and a record still to be written is retried rightly |
| WriteRetries.RetryTracks | app/libs/boringssl/ssl/s3_pkt.c:198-227 | an incomplete call keeps track of the sealed bytes if and only if it is not shorter than what was written before |
| WriteRetries.RetriesAreExact | app/libs/boringssl/ssl/s3_pkt.c:191-237 | over any series of retries the plaintext sealed is a prefix of the data, and a positive result is its length |
| WriteRetries.ShortRetryRepeats | app/libs/boringssl/ssl/s3_pkt.c:198-211 | after a retry that is too short, a call that succeeds has had sealed again as many bytes as had been counted |
| WriteRetries.RetryTooShort | app/libs/boringssl/ssl/s3_pkt.c:198-227 | the same as a run of three calls of the writer, on any transport |
| WriteRetries.ShortRetrySendsTwice | app/libs/boringssl/ssl/s3_pkt.c:198-211 | that case is possible under the contract of a call: of two bytes the first is sealed twice |
| HandshakeSteps.ClientStep | app/libs/boringssl/ssl/handshake_client.c:187-529 | no turn of the client fails against an agreeing server, and each follows the message order, learned flags and re-read messages included |
| HandshakeSteps.OptionalHead | app/libs/boringssl/ssl/handshake_client.c:1088-1153 | what the client finds when it looks for an optional message that is not sent |
| HandshakeServerSteps.ServerStep | app/libs/boringssl/ssl/handshake_server.c:200-515 | no turn of the server fails against an agreeing client, and each follows the message order |
| HandshakeRun.TurnKeepsLinked | app/libs/boringssl/ssl/handshake_client.c:187-529 | what one side has done and the other has not is exactly what is on its way |
| HandshakeRun.StepKeeps | app/libs/boringssl/ssl/handshake_server.c:200-515 | whatever the order of turns and retries, no turn fails the handshake |
| HandshakeOutcome.NeverStuck | app/libs/boringssl/ssl/handshake_client.c:187-529 | in every reachable state one side can move unless both have ended |
| HandshakeOutcome.TurnsLeftDecreases | app/libs/boringssl/ssl/handshake_server.c:200-515 | every turn that moves brings the end nearer |
| HandshakeChecks.ClientEndsChecked | app/libs/boringssl/ssl/handshake_client.c:375-455 | whatever it is offered, a client reaches SSL_ST_OK only after receiving one ChangeCipherSpec and directly after it a Finished that equals the keyed hash of its own transcript, and after sending one ChangeCipherSpec, its extensions and its Finished (section 7.3 of RFC 5246) |
| HandshakeChecks.ServerEndsChecked | app/libs/boringssl/ssl/handshake_server.c:340-440 | the same of a server, with the extensions of the client between its ChangeCipherSpec and its Finished |
| HandshakeOneSided.ServerEndsInOrder | app/libs/boringssl/ssl/handshake_server.c:200-515 | whatever it is offered, a server that ends has received and sent exactly the messages of one handshake, written out in order, with exactly their transcript; only the client's certificate is free, CertificateVerify came if and only if it was not empty, and it was not empty if one was required |
| HandshakeOneSided.NoClientWithoutCertificate | app/libs/boringssl/ssl/handshake_server.c:1393-1398 | in particular a server that requires a client certificate does not end without one that is followed by a proof of its key |
| HandshakeOneSided.ClientEndsInOrder | app/libs/boringssl/ssl/handshake_client.c:187-529 | whatever it is offered, a client that ends has received and sent exactly the messages of one handshake; the server may leave out only an expected CertificateStatus, a ServerKeyExchange that the cipher does not require, and the CertificateRequest, which decides about the client's certificate |
| HandshakeOrder.ScriptOutcome | app/libs/boringssl/ssl/handshake_server.c:200-515 | the script of both machines comes to those lists of messages, for full and abbreviated handshakes (section 7.3 of RFC 5246) |
| HandshakeChecks.ClientTurnKeeps | app/libs/boringssl/ssl/handshake_client.c:187-529 | each turn on any input keeps what the client has checked so far |
| HandshakeChecks.ServerTurnKeeps | app/libs/boringssl/ssl/handshake_server.c:200-515 | each turn on any input keeps what the server has checked so far |
| HandshakeChecks.ClientLoopKeeps | app/libs/boringssl/ssl/handshake_client.c:187-529 | so does each call of the client loop |
| HandshakeChecks.ServerLoopKeeps | app/libs/boringssl/ssl/handshake_server.c:200-515 | so does each call of the server loop |
| HandshakeEndings.EndedSides | app/libs/boringssl/ssl/s3_both.c:367-465 | between agreeing sides exactly one ChangeCipherSpec and one Finished, the last message, go each way, and the Finished is that of the script |
| HandshakeEndings.SidesAgree | app/libs/boringssl/ssl/s3_both.c:745-754 | when both have ended each has received what the other sent, and both transcripts are equal |
| HandshakeEndings.MovesAreBounded | app/libs/boringssl/ssl/handshake_client.c:187-529 | the number of turns that move is bounded |
| HandshakeEndings.ConnectIsRun | app/libs/boringssl/ssl/handshake_client.c:187-529 | a call of the client loop is a run of turns and does not fail |
| HandshakeEndings.AcceptIsRun | app/libs/boringssl/ssl/handshake_server.c:200-515 | a call of the server loop is a run of turns and does not fail |
| HandshakeConnect.ClientHandshake.ReadOptional | app/libs/boringssl/ssl/handshake_client.c:1077-1155 | reads a message and keeps it for the next step if it is not the optional one |
| HandshakeConnect.ClientHandshake.ReadRequest | app/libs/boringssl/ssl/handshake_client.c:1323-1339 | certificate request, or the ServerHelloDone kept for the next step |
| HandshakeConnect.ClientHandshake.Connect | app/libs/boringssl/ssl/handshake_client.c:187-529 | the loop over object fields terminates and refines the turns on values |
| HandshakeAccept.ServerHandshake.ReadCertificate | app/libs/boringssl/ssl/handshake_server.c:1321-1416 | the object refines the turn on values: an empty certificate is refused if one is required, and a client certificate decides whether a CertificateVerify is expected |
| HandshakeAccept.ServerHandshake.Accept | app/libs/boringssl/ssl/handshake_server.c:200-515 | the loop over object fields terminates and refines the turns on values |
| ConstantTime.LtIsMask | app/libs/boringssl/crypto/internal.h:219-271 | the branch-free comparisons, as words and as bytes, give all ones or zero |
| ConstantTime.EqIsMask | app/libs/boringssl/crypto/internal.h:274-307 | the branch-free equality tests, as words and as bytes, give all ones or zero |
| ConstantTime.EqIntIsMask | app/libs/boringssl/crypto/internal.h:310-318 | so do those of two int values |
| ConstantTime32.LtIsMask | app/libs/boringssl/crypto/internal.h:219-271 | the comparisons on words of 32 bits |
| ConstantTime32.EqIsMask | app/libs/boringssl/crypto/internal.h:274-318 | the equality tests on words of 32 bits, of int values too |
| ConstantTime32.SameBytes | app/libs/boringssl/crypto/internal.h:292-334 | on bytes the tests and the selection give the same with either width of word |
| ConstantTime.Select8Selects | app/libs/boringssl/crypto/internal.h:323-334 | the branch-free selection of a byte |
| Premaster.CheckBlock | app/libs/boringssl/ssl/handshake_server.c:1578-1592 | the mask is all ones exactly if the block is 00 02, nonzero padding, 00, the client version |
| Premaster.SelectPremaster | app/libs/boringssl/ssl/handshake_server.c:1547-1599 | the premaster becomes the tail of a good block and stays random otherwise; too short blocks are refused |
| Premaster.WellPaddedIsPkcs1 | app/libs/boringssl/ssl/handshake_server.c:1578-1592 | that is exactly a PKCS #1 block with a 48-byte message that begins with the version (section 7.4.7.1 of RFC 5246) |
| Refcount.LockedCount.Inc | app/libs/boringssl/crypto/refcount_lock.c:29-35 | saturating increment |
| Refcount.LockedCount.DecAndTestZero | app/libs/boringssl/crypto/refcount_lock.c:37-51 | decrement unless saturated, abort on zero, report zero |
| Refcount.StepRefines | app/libs/boringssl/crypto/refcount_c11.c:37-65 | under every interleaving an operation completes with the effect of the locked function at that moment, and none aborts |
| Refcount.LastReleaseFrees | app/libs/boringssl/crypto/refcount_c11.c:49-65 | when all owners have released, exactly one release has returned 1 and it is the last operation, unless the count saturated |
| Refcount.SaturatedForGood | app/libs/boringssl/crypto/refcount_c11.c:37-65 | once saturated the count never moves and no release returns 1 |
| Der.ElementRead | app/libs/boringssl/crypto/bytestring/cbs.c:178-264 | an element that was written is read back, whatever follows it, with all length forms |
| Der.UintRead | app/libs/boringssl/crypto/bytestring/cbb.c:442-475 | an integer that was written is read back |
| Der.ReadUint | app/libs/boringssl/crypto/bytestring/cbs.c:330-365 | the loop accepts exactly minimal non-negative integers below 2 to the power 64 |
| DerCanonical.UintCanonical | app/libs/boringssl/crypto/bytestring/cbs.c:330-365 | an integer is read from its one minimal encoding and from nothing else |
| DerCanonical.ElementCanonical | app/libs/boringssl/crypto/bytestring/cbs.c:178-264 | the octets of an element that is read are those that are written for its tag and contents |
| SessionDer.ReadChain | app/libs/boringssl/ssl/ssl_asn1.c:721-738 | the certificate chain is split into its elements |
| SessionRoundTrip.FieldsRead | app/libs/boringssl/ssl/ssl_asn1.c:190-406 | reading the fields in order finds exactly the contents written, absent ones absent |
| SessionRoundTrip.CertsRead | app/libs/boringssl/ssl/ssl_asn1.c:690-739 | the certificates come back, or none if only the hash of the first is kept |
| SessionRoundTrip.RoundTrip | app/libs/boringssl/ssl/ssl_asn1.c:570-808 | parsing the DER of a valid session gives it back up to the stated normalisation if and only if its verification result is not negative, for both kinds of output; a negative one is refused |
| SessionRoundTrip.NotResumableIsRejected | app/libs/boringssl/ssl/ssl_asn1.c:418-434 | the output for a session that is not resumable is always rejected |
| SessionSample.SampleBytes | app/libs/boringssl/ssl/ssl_asn1.c:190-406 | the bytes of a session with every field, written out: tags, order and contents of the elements |
| SessionSample.HashElement | app/libs/boringssl/ssl/ssl_asn1.c:219-229 | with the hash of the peer's certificate kept, the certificates are left out |
| SessionSample.TicketElements | app/libs/boringssl/ssl/ssl_asn1.c:438-442 | for a ticket the session id is empty and the ticket left out; nothing else differs |
| SessionLimits.ParsedIsInRange | app/libs/boringssl/ssl/ssl_asn1.c:570-792 | whatever the bytes, a session that is parsed has every field within its limit, a known cipher and acceptable certificates |
| SessionLimits.BooleanExactly | app/libs/boringssl/crypto/bytestring/cbs.c:423-453 | a truth value is read from 01 01 00 or 01 01 ff and from nothing else |
| SessionLimits.UintExactly | app/libs/boringssl/ssl/ssl_asn1.c:531-568 | an integer field below its bound is read from the element that is written for it and from nothing else |
| SessionLimits.TailLimits | app/libs/boringssl/ssl/ssl_asn1.c:690-739 | there is a certificate exactly if the peer field is there, more exactly if the chain is, and none is empty |
| SessionLimits.StartLimits | app/libs/boringssl/ssl/ssl_asn1.c:570-629 | the fields that must be there, the version 1 among them, a known cipher, and the limits of ids, keys and timeout |
| SessionTrailing.TrailingIsIgnored | app/libs/boringssl/ssl/ssl_asn1.c:615-625 | octets behind the integer of the time or timeout field change nothing: other input, same session |

## Left out

- Cryptography itself, X.509 and the bodies of individual handshake messages: messages are told
  apart by type, and by what the state machines look at.
- TLS 1.3, SSL 3.0, V2ClientHello, renegotiation, False Start, early data, and the DTLS cookie
  exchange: the handshake machines are those of TLS 1.0 to 1.2.
- DTLS timers and the query of the path MTU: retransmission may happen at any time, at any MTU.
- DTLS epochs beyond the second: a connection without renegotiation has no others.
- Allocation failures, error queues, and the info and message callbacks.
- The reading of TLS records and the read buffer.
- The hash-table session cache, tickets and their encryption.
- Splitting of records for old block ciphers inside `tls_seal_record`: one call seals one unit of
  bytes, whatever it consists of.
- Delivery.TranscriptsAgree: for fewer than 65536 messages, because the sixteen-bit number wraps;
  the lemma beside it shows why.
- SessionRoundTrip.RoundTrip: sessions are printed and parsed on values, field by field from
  a list of fields, so that the order in which errors are found is not modelled (all of them give
  no session).
- CipherChoice.Choose: the client's list is given as parsed, because `ssl_parse_client_cipher_list`
  only looks up ciphers one by one.
- Refcount.StepRefines: each turn of a compare-and-swap loop is one step on a count that all
  threads see; weaker memory orders are outside the model. Threads use the count only while they
  own a reference.
- HandshakeRun.StepKeeps: for sides that agree on what has been negotiated, because only those
  are meant to complete; how extensions negotiate it is outside the model.
- DeliveryComplete.CompleteFlushArrives: for messages of the first epoch, because in the second one
  a fragment of any message but the next fails the connection, so that order matters there.

