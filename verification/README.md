# go-SOMEIP: verified model

A Dafny model of the hard core of go-SOMEIP: SOME/IP-TP segmentation and reassembly, the two E2E protection
profiles, the wire codec with TCP framing and call multiplexing, service-discovery payloads and the registry they
feed, the protocol-neutral adapter with its back-pressure forwarder, and UDP event subscriptions.

Formats, limits and codes are stated once more in plain numbers (the lemmas named `...InNumbers`, `Layout...`,
`...Contents` and the like), so that no theorem rests on a named constant or a helper that both sides share.

Code that changes state is modelled as methods over arrays and objects, each proved against a function or a
relation; what the source promises is then proved about that specification. Concurrent parts are state machines whose
steps interleave freely, and their theorems hold of every run.

| file | source | contents |
|---|---|---|
| `Bytes`, `Buffers`, `Message` | `encoding/binary`, `copy`, `someip.go` | fixed-width integers and their big-endian bytes, writes into a buffer, the message |
| `TpSegment` | `tp/tp.go` | TP bit, TP header, `Segment` against a closed form |
| `TpWindow`, `TpState` | `tp/tp.go` | one assembly window, its byte counter and copy loop; one step of the reassembler |
| `TpReassembler` | `tp/tp.go` | the `Reassembler` object, method by method |
| `TpRuns`, `TpTicks` | `tp/tp.go` | every run of the reassembler; when its GC ticks can be seen |
| `TpHistory` | `tp/tp.go` | windows and reports in terms of the segments that have arrived |
| `TpRoundTrip` | `tp/tp.go` | segmentation and reassembly are inverse |
| `Crc32`, `Crc8`, `E2e` | `e2e/e2e.go` | table form against bit-serial register; what the profiles detect |
| `Gf2`, `CrcStandard` | `e2e/e2e.go` | the registers compute the remainder of polynomial division; published check values |
| `Codec`, `TcpFraming` | `codec/codec.go`, `tcp/tcp.go` | frames, frames on a stream |
| `TcpCalls`, `TcpCallRuns` | `tcp/tcp.go` | concurrent calls in any interleaving; runs that show their guarantee to be exact |
| `SdFormat`, `SdPayload`, `SdRegistry` | `sd/sd.go`, `sd/udp/sdudp.go` | entries, options, payloads, registry |
| `Adapt`, `Forwarder` | `adapt.go` | message conversion; the forwarding goroutine |
| `UdpSubscriptions` | `udp/udp.go` | subscription lists, dispatch, closing |

The TP rules are those of section 4.2.1.4 of AUTOSAR PRS_SOMEIPProtocol (R19-11), CRC-8 is section 7.2.1.1 of AUTOSAR
SWS_CRCLibrary, the CRC-32 table method is section 8 of RFC 1952, the header is section 4.1.2 of PRS_SOMEIPProtocol, and
the service-discovery formats are sections 4.1.2.3 and 4.1.2.4 of PRS_SOMEIPServiceDiscoveryProtocol (R19-11).

## Laws that hold only under a condition

Where a promise of the source or its documentation fails on some inputs, the model keeps the code's behaviour and
states exactly when the promise holds.

- A message sent through `Segment` and a fresh reassembler comes back if and only if it does not carry the TP bit
  already and either fits one segment or is at most 64 MiB (`TpRoundTrip.RoundTripIff`).
- Keys of the reassembler are independent as far as segments go, but a GC tick can be seen. Over any run, the segments
  of a key report the same as in a run of their own without a single tick if and only if, after no GC eviction of the
  key at time t, one of its chunks arrives, before the next Close, in [t + 2 * timeout, n + 2 * timeout), where n is
  the time of its first chunk after the eviction (`TpTicks.TicksSeenIff`). With a timeout of 10, a segment at 0, a tick
  at 11 and the segment again at 12 and at 31, the tick shows at 31 and not before (`TpTicks.TickSeenAt31`,
  `TpTicks.SeenByALaterSegment`).
- Profile 01 folds the DataID into the CRC to protect against message substitution. A receiver rejects frames of
  another DataID if and only if the two do not collide (`E2e.ForeignDataIDRejectedIff01`); 0x0000 and 0x1D01 do
  (`E2e.CollidingDataIDs`). Profile 05 has no such pair.
- `Decode` inverts `Encode` if and only if the 32-bit Length field does not wrap (`Codec.DecodeOfFrame`).
- The end of input is reported as clean not only at a frame boundary but also right behind a header that announces a
  payload, because `io.ReadFull` reports the end of input whenever it read nothing (`TcpFraming.EndIff`).
- Every run in which fewer than n session IDs are drawn while one is outstanding matches all replies to their own
  calls if and only if n is at most 65536 (`TcpCallRuns.CorrelatedIffWithin`). With n = 65537 there is a run in which
  a call returns the reply to another call's request, for another method (`TcpCallRuns.ForeignReply`).
- A call can get a handler's result if and only if the server serves interface version 0, because the client leaves the
  version at zero; any other server rejects every call (`TcpCallRuns.AnsweredOnlyByVersionZero`).
- A run of the reassembler panics if and only if it closes it twice (`TpRuns.PanicsIffClosedTwice`).
- An offer registers its service at a peer if and only if its TTL is not a multiple of 2^24 seconds
  (`SdRegistry.OfferIsFoundIff`); with 2^24 it withdraws the service (`SdRegistry.LongOfferWithdraws`).
- DropOldest drops only at a full buffer as seen by the failed send; the consumer can have made room before the drain,
  which then drops a message all the same (`Forwarder.DropsIff`, `Forwarder.DropWithRoom`).
- Nothing is sent on a closed channel if and only if the mutex is held over the sends
  (`UdpSubscriptions.SafeIffLocked`), as the comment in `dispatchFrame` argues. The close itself happens outside the
  mutex, unlike what that comment says; the proof does not need it inside.

Where code and documentation disagree, the model follows the code:

- `tp/tp.go:112` describes the More flag as bit 3; the code sets and reads bit 0.
- `.fusa-reqs.json:575` asks for an idempotent `Reassembler.Close`; a second call closes a closed channel, which
  panics before the tables are touched (`TpReassembler.Reassembler.Close`, `TpRuns.PanicsIffClosedTwice`).
- `NewReassembler` panics when the GC period comes out as zero or negative (a timeout of 1 ns with no interval, or a
  negative timeout); the model's constructor requires a positive period.

## Model

| member | source | states |
|---|---|---|
| TpSegment.TpBitIsBitFive | tp/tp.go:53 | the arithmetic set, test and clear of the TP flag are the bit operations with 0x20, for every byte |
| TpSegment.BaseUndoesSet | tp/tp.go:151-153 | stripping the TP bit undoes setting it exactly on types that did not carry it |
| TpSegment.Segment | tp/tp.go:83-139 | the loop returns the closed form: an error below 16, the message itself if it fits, otherwise chunk i at offset i times the stride, for every payload and size |
| TpSegment.SegmentsOfSmall | tp/tp.go:84-94 | sizes below 16 are an error, with 1392 for zero; a payload within the size goes out unchanged |
| TpSegment.SegmentInNumbers | tp/tp.go:97-137 | every segment but the last carries exactly the size rounded down to a multiple of 16, the last at least one byte and no more than that; each holds its part of the payload behind a big-endian word that is its offset, plus one while more follow |
| TpSegment.ParseInNumbers | tp/tp.go:233-253 | which messages Add takes for segments, malformed ones and offsets, in terms of bit 5 of the type, the first four bytes and 67108864 |
| TpSegment.Split | tp/tp.go:101-138 | the loop emits the chunks in order without gap or overlap and stops after the last |
| TpSegment.BuildSegment | tp/tp.go:109-135 | a segment copies every header field, sets the TP bit and prefixes the TP header |
| TpSegment.TpHeader | tp/tp.go:113-117 | writing the shifted offset and then or-ing the flag gives the 28-bit offset modulo 2^32 with More in the low bit |
| TpSegment.ParseSegmentAt | tp/tp.go:240-253 | reading segment i back yields its offset, More exactly when it is not the last, and its bytes, within the 64 MiB bound |
| TpWindow.CounterIsExact | tp/tp.go:280-292 | for disjoint chunks inside the message, the byte counter reaches the total if and only if every position is covered |
| TpWindow.SumSplit | tp/tp.go:281-286 | the byte counter does not depend on the order of arrival |
| TpWindow.CopyAllAt | tp/tp.go:301-311 | for arbitrary chunks, each byte of the payload comes from a chunk that covers it, and is zero if none does |
| TpWindow.OrderDoesNotMatter | tp/tp.go:302-311 | disjoint chunks give the same payload under every map iteration order |
| TpWindow.NoGap | tp/tp.go:291-311 | a payload that passes the counter test has no zero-filled gap |
| TpState.AddKeepsInv | tp/tp.go:241-318 | one segment of any kind keeps the invariant: the counter is the sum of stored lengths, offsets are multiples of 16 and inside 64 MiB, and every stored window is incomplete |
| TpState.SameKeyIff | tp/tp.go:157-161 | segments belong together exactly if service, method and session ID agree |
| TpHistory.AddReports | tp/tp.go:232-318 | what Add reports and leaves behind, in the order of its checks: pass through, malformed, expired, tombstone, and completion exactly when the known end is reached by the bytes counted |
| TpHistory.SweepIff | tp/tp.go:332-350 | a tick removes exactly the expired windows and the passed tombstones |
| TpHistory.WindowHistory | tp/tp.go:262-290 | on every run, a window has the header and expiry of the segment that opened it, at each offset the first piece that came for it, and the end that the latest final piece gave |
| TpHistory.CompletedHistory | tp/tp.go:291-317 | what is put together is such a window whose first pieces add up to its end |
| TpHistory.PendingHistory | tp/tp.go:292-294 | a window that stays is short of its end, or has not been told it |
| TpState.SweepKeepsInv | tp/tp.go:332-350 | a GC tick keeps it too |
| TpState.DeliveredBounded | tp/tp.go:300-317 | whatever the segments, a reassembled message is within 64 MiB, has no TP bit and the key of its window |
| TpState.OrderExists | tp/tp.go:302 | a complete window can always be delivered |
| TpReassembler.AssemblyWindow.Put | tp/tp.go:280-290 | a duplicate offset is ignored, the counter grows by new bytes only, a final chunk fixes the total |
| TpReassembler.AssemblyWindow.Assemble | tp/tp.go:301-311 | the clamped copy loop over the map in an arbitrary order builds the specified payload |
| TpReassembler.CopyChunk | tp/tp.go:303-310 | one turn of the copy loop: clamped at the end, skipped outside |
| TpReassembler.Reassembler.constructor | tp/tp.go:201-220 | an empty reassembler; five seconds and half the timeout are the defaults |
| TpReassembler.Reassembler.Add | tp/tp.go:232-318 | the whole of Add on the object's maps is one step of the state machine: new state and result, errors included, for every segment and clock reading |
| TpReassembler.Reassembler.Window | tp/tp.go:258-278 | the window for a key: refused by a tombstone in force, expired and replaced by a tombstone, existing, or new |
| TpReassembler.Reassembler.StoreChunk | tp/tp.go:280-317 | stores the chunk, and delivers and removes the window exactly when the counter reaches the total |
| TpReassembler.Reassembler.Sweep | tp/tp.go:332-350 | one GC tick evicts exactly the expired windows, leaves their tombstones, then drops exactly the passed ones |
| TpReassembler.Reassembler.EvictExpired | tp/tp.go:338-344 | deleting from the map while it is ranged over evicts each expired window once |
| TpReassembler.Reassembler.DropTombstones | tp/tp.go:345-349 | the same for tombstones |
| TpReassembler.Reassembler.Close | tp/tp.go:323-330 | the first call discards all windows and tombstones, a second one panics and leaves them as they are |
| TpRuns.InvAlways | tp/tp.go:241-350 | every run of segments, ticks and Close keeps the invariant |
| TpRuns.EveryDeliveryBounded | tp/tp.go:241-317 | on every run every reassembled message is within the bound and has no TP bit |
| TpRuns.WindowOutlivesTombstone | tp/tp.go:261-278 | no key ever has both a window and a tombstone that is still in force |
| TpRuns.TimeoutIsSticky | tp/tp.go:258-278 | once Add or the GC expires a window at time t, every well-formed segment of its key before t + 2 * timeout reports the timeout and opens no window, whatever ticks and other keys come between, until Close |
| TpRuns.KeysDoNotInterfere | tp/tp.go:255-278 | removing all segments of other keys from any run changes nothing that a key's segments report |
| TpRuns.TickVisibleIff | tp/tp.go:337-349 | from any state, when one GC tick changes the answer to the segment right behind it |
| TpRuns.PanicsIffClosedTwice | tp/tp.go:323-325 | a run panics exactly if it closes the reassembler twice, and until then is in the state its events lead to |
| TpTicks.TicksSeenIff | tp/tp.go:258-278 | over any run, exactly when a key's segments report the same as in a run without ticks and other keys |
| TpTicks.ChunkRelated | tp/tp.go:255-294 | two runs of a key side by side, in step or one eviction apart: the same chunk is answered alike unless it falls between the two tombstones |
| TpTicks.TickRelated | tp/tp.go:337-349 | a tick, which only one of the two runs makes, keeps them in step or sets them one eviction apart |
| TpTicks.SeenByALaterSegment | tp/tp.go:261-278 | for every positive timeout, a run whose tick the next segment does not notice and the one after it does |
| TpTicks.TickSeenAt31 | tp/tp.go:261-278 | such a run with a one-byte segment and a timeout of 10 |
| TpRoundTrip.CompleteIffAllSeen | tp/tp.go:291-294 | a window that holds chunks of one message is complete exactly when it has all of them |
| TpRoundTrip.DeliversOriginal | tp/tp.go:300-317 | what a complete window delivers equals the original in every field, whatever the iteration order |
| TpRoundTrip.SegmentRoundTrip | tp/tp.go:83-139 | what Segment returns for size 0 or at least 16, added in any order, with any duplicates, among ticks and traffic of other keys, before expiry: nothing until the last missing segment, and then the original message and no other |
| TpRoundTrip.InterleavedRoundTrip | tp/tp.go:255-278 | two messages that differ in service, method or session ID both come back, however their segments interleave |
| TpRoundTrip.RoundTrip | tp/tp.go:232-318 | the same for chunks of any length that is a multiple of 16: segments in any order, with any duplicates, among ticks and traffic of other keys, before expiry: nothing is returned until the last missing one, and then the original message |
| TpRoundTrip.RoundTripIff | tp/tp.go:83-139 | exactly which messages come back from Segment and Add |
| Crc32.BuildTable | e2e/e2e.go:168-180 | init fills the table with the eight-fold shift of each index |
| Crc32.TableStepIsSerial | e2e/e2e.go:185-187 | one reflected table lookup is eight turns of the bit-serial register, for every register and byte |
| Crc32.Crc32 | e2e/e2e.go:183-189 | the table loop computes the bit-serial checksum for every initial value and byte sequence |
| Crc32.SerialLinear | e2e/e2e.go:168-189 | the register of a corrupted message differs by the register of the error alone |
| Crc32.ShiftInjective | e2e/e2e.go:171-177 | one register turn loses no information |
| Crc32.SerialLoads | e2e/e2e.go:183-189 | feeding up to 32 bits is loading them and shifting |
| Crc32.BurstDetected | e2e/e2e.go:183-189 | an error burst of up to 32 bits in a message of any length changes the register |
| Crc8.BuildTable | e2e/e2e.go:58-70 | the same for the CRC-8 table |
| Crc8.EntryInjective | e2e/e2e.go:58-70 | the CRC-8 table is a permutation of the byte values |
| Crc8.Crc8 | e2e/e2e.go:73-79 | the table loop computes the bit-serial CRC-8 for every initial value and byte sequence |
| Crc8.SerialLinear | e2e/e2e.go:58-79 | linearity of the register |
| Crc8.BurstDetected | e2e/e2e.go:73-79 | an error burst of up to 8 bits in a message of any length changes the register |
| CrcStandard.Crc32IsRemainder | e2e/e2e.go:164-189 | for every message and initial value, the checksum before its inversion is the one remainder of the message modulo x^32+x^26+x^23+x^22+x^16+x^12+x^11+x^10+x^8+x^7+x^5+x^4+x^2+x+1 |
| CrcStandard.Crc8IsRemainder | e2e/e2e.go:54-79 | the same for CRC-8 modulo x^8+x^4+x^3+x^2+1 |
| CrcStandard.CheckValue32 | e2e/e2e.go:183-189 | the checksum of "123456789" is 0xCBF43926 |
| CrcStandard.CheckValue8 | e2e/e2e.go:73-79 | the checksum of "123456789" is 0x4B |
| Gf2.RegisterIsRemainder | e2e/e2e.go:58-79 | the shift register of any generator divides by it |
| Gf2.RemainderUnique | e2e/e2e.go:58-79 | there is one quotient and one remainder |
| E2e.Layout01 | e2e/e2e.go:116-134 | a Profile 01 frame byte by byte: counter and the upper half of the low DataID byte, what the CRC runs over, and counters above 14 rejected |
| E2e.Accepted01 | e2e/e2e.go:140-161 | which frames Check accepts, and the error otherwise |
| E2e.Layout05 | e2e/e2e.go:224-237 | a Profile 05 frame byte by byte: CRC lowest byte first, counter, three zeros, payload |
| E2e.Accepted05 | e2e/e2e.go:242-259 | which frames Check accepts, and the error otherwise |
| E2e.Profile01.Protect | e2e/e2e.go:116-134 | the frame built in place is CRC, header and payload; counters above 14 are an error |
| E2e.Profile01.Check | e2e/e2e.go:140-161 | short frame, then CRC, then counter, then the payload |
| E2e.Profile05.Protect | e2e/e2e.go:224-237 | the frame built in place is the little-endian CRC, counter, reserved zeros and payload |
| E2e.Profile05.Check | e2e/e2e.go:242-259 | short frame, then CRC, then counter, then the payload |
| E2e.RoundTrip01 | e2e/e2e.go:116-161 | a protected frame gives its payload back exactly when the counter is the expected one |
| E2e.RoundTrip05 | e2e/e2e.go:224-259 | the same for Profile 05 |
| E2e.BurstDetected01 | e2e/e2e.go:140-156 | every burst of up to 8 bits after the CRC byte is reported as a CRC mismatch, for any payload length |
| E2e.ByteDetected01 | e2e/e2e.go:140-156 | a change confined to any one byte of the frame is reported |
| E2e.UndetectedIff01 | e2e/e2e.go:140-156 | exactly which corruptions pass the Profile 01 CRC |
| E2e.ForeignDataIDRejectedIff01 | e2e/e2e.go:85-91 | exactly when a receiver with another DataID rejects a frame |
| E2e.OneByteApart | e2e/e2e.go:124-127 | DataIDs that differ in exactly one byte never collide, so such frames are always rejected |
| E2e.CollidingDataIDs | e2e/e2e.go:85-91 | two DataIDs that do collide |
| E2e.BurstDetected05 | e2e/e2e.go:242-256 | every burst of up to 32 bits after the CRC field is reported, aligned or not, for any payload length |
| E2e.FourBytesDetected05 | e2e/e2e.go:242-256 | a change confined to four consecutive bytes after the CRC field, or to the CRC field, is reported |
| E2e.UndetectedIff05 | e2e/e2e.go:242-256 | exactly which corruptions pass the Profile 05 CRC |
| E2e.ForeignDataIDRejected05 | e2e/e2e.go:195-199 | a receiver with a different DataID rejects every protected frame |
| Codec.Encode | codec/codec.go:55-87 | the frame is appended: in place when the capacity allows, leaving the prefix and the bytes behind untouched, otherwise in a grown copy |
| Codec.DecodeOfFrame | codec/codec.go:91-129 | decoding an encoded message restores it, version made 1, exactly when the Length field does not wrap |
| Codec.FrameOfDecode | codec/codec.go:91-129 | every accepted byte slice is the encoding of what it decodes to |
| Codec.FrameFields | codec/codec.go:67-86 | each header field stands at its offset whatever follows the frame |
| Codec.DecodeInNumbers | codec/codec.go:91-129 | which bytes decode, to what, and the error otherwise, with every field a big-endian number |
| Codec.FrameInNumbers | codec/codec.go:67-86 | the bytes of an encoded message |
| TcpFraming.FailuresInNumbers | tcp/tcp.go:426-449 | when readFrame fails and with what, with 64 MiB as the limit |
| TcpFraming.ReadFrame | tcp/tcp.go:426-449 | the reader's bytes are consumed and the result reported as the one-frame specification says, errors included, the reader's own as well |
| TcpFraming.NextFrameIff | tcp/tcp.go:426-449 | a message is read, leaving the rest, exactly when the stream begins with its frame and it is within the size limit |
| TcpFraming.EndIff | tcp/tcp.go:428-447 | exactly on which tails the end of input, or the reader's own error, is reported |
| TcpFraming.ReadAllIff | tcp/tcp.go:396-423 | reading until an error yields exactly the messages whose frames stand before the tail that causes it |
| TcpFraming.FramesComeThrough | tcp/tcp.go:396-449 | every list of messages within the limit comes through a stream unchanged but for the version, and then the end of input or the reader's error |
| TcpCalls.ReplyEchoesSession | tcp/tcp.go:187-194 | a reply carries the session ID of its request |
| TcpCalls.StepKeepsOnce | tcp/tcp.go:292-348 | every step keeps it that a session draw is sent at most once and handled at most once, and the counter never falls |
| TcpCalls.StepKeepsInv | tcp/tcp.go:292-423 | every atomic step of calls, handlers and the read loop keeps the correlation invariant |
| TcpCalls.RegisterKeepsInv | tcp/tcp.go:307-312 | registering a call overwrites no other call's entry |
| TcpCalls.CleanupKeepsInv | tcp/tcp.go:314-318 | leaving a call deletes no other call's entry |
| TcpCalls.LookUpKeepsInv | tcp/tcp.go:411-413 | the entry found for a reply is that of the call it answers |
| TcpCalls.CallsAreCorrelated | tcp/tcp.go:292-348 | on every run in which fewer than 65536 session IDs are drawn while one is outstanding, live calls have distinct IDs and own entries, and every returned reply is the one the server wrote when it handled the call's own request |
| TcpCallRuns.CorrelatedIffWithin | tcp/tcp.go:292-298 | the bound is exact: all runs that draw fewer than n session IDs while one is outstanding are correlated if and only if n is at most 65536 |
| TcpCallRuns.ForeignReply | tcp/tcp.go:292-298 | with one more draw, a run in which a call returns the reply to another call's request |
| TcpCallRuns.FewDraws | tcp/tcp.go:292-298 | a run that draws at most n session IDs in all stays within n |
| TcpCallRuns.RequestContents | tcp/tcp.go:324-332 | each request on record belongs to the call that made that draw, and carries its method and payload, client ID 1 and the draw modulo 65536 |
| TcpCallRuns.SentMessages | tcp/tcp.go:324-370 | what goes over the connection: a call's recorded request, and a fire-and-forget call's own method and payload as type 0x01 |
| TcpCallRuns.ReturnSteps | tcp/tcp.go:340-347 | a call returns the reply in its channel if it takes one, and nothing if it gives up or cannot send |
| TcpCallRuns.DropSteps | tcp/tcp.go:411-420 | a reply whose channel is full, or that no call waits for, is dropped |
| TcpCallRuns.ReturnedContents | tcp/tcp.go:187-222 | what a call gets back: the IDs of its own request and the outcome of the one handling of it, with the handler's payload, or 0x03 without a handler, 0x01 for a failed one, 0x08 from a server of another version |
| TcpCallRuns.AnsweredOnlyByVersionZero | tcp/tcp.go:324-332 | some run gives a call its handler's result, whatever that is, if and only if the server's interface version is 0 |
| SdFormat.EncodeEntry | sd/sd.go:111-152 | the sixteen bytes: saturated counts, truncated TTL, the field of the type, reserved zeros |
| SdFormat.DecodeEntryInNumbers | sd/sd.go:157-181 | a block decodes exactly if it has sixteen bytes and its type is 0, 1, 6 or 7; 0 and 1 read a minor version, 6 and 7 an eventgroup |
| SdFormat.EntryInNumbers | sd/sd.go:111-152 | the sixteen bytes of an entry, counts at most 15, TTL modulo 2^24 |
| SdFormat.OptionInNumbers | sd/sd.go:201-215 | the twelve bytes of an option, and which addresses are written as zeros |
| SdFormat.DecodeOptionInNumbers | sd/sd.go:219-230 | twelve bytes or more read as address, protocol and port |
| SdFormat.DecodeOfEntry | sd/sd.go:111-181 | an entry of a known type reads back as its canonical form, any other is rejected, whatever follows |
| SdFormat.EntryOfDecode | sd/sd.go:157-181 | an accepted block is the encoding of its entry exactly when the reserved bytes of a subscription are zero |
| SdFormat.EncodeIPv4Option | sd/sd.go:201-215 | the twelve bytes of an endpoint option, with 0.0.0.0 for an address that is not IPv4 |
| SdFormat.DecodeOfOption | sd/sd.go:201-230 | the option reads back with the four address bytes, and its length field is 9 |
| SdFormat.DecodeOptions | sd/sd.go:249-269 | the loop computes the recursive parse, errors included |
| SdFormat.ParseOptionsIff | sd/sd.go:249-269 | the parse succeeds exactly on concatenations of options whose length field is at least 1 and fits, returns that division, and no other exists |
| SdFormat.ResolveIff | sd/sd.go:280-300 | the resolved endpoint is that of the first option of the first run that reads as one, and the second run counts only when the first has none; a run that leaves the array counts for nothing |
| SdPayload.DecodeSdPayload | sd/udp/sdudp.go:106-152 | the parsing loop computes the payload specification, errors included |
| SdPayload.ParseEntriesIff | sd/udp/sdudp.go:119-131 | the entries are the longest prefix of whole blocks of known types |
| SdPayload.ParsePayloadIff | sd/udp/sdudp.go:106-152 | when a payload decodes and to what: the options are those behind the declared entries length, however many entries were dropped |
| SdPayload.PayloadErrors | sd/udp/sdudp.go:106-149 | a length that does not fit is malformed; otherwise a failure means that the options array is no concatenation of options |
| SdPayload.SdRoundTripInNumbers | sd/udp/sdudp.go:69-152 | the round trip with the type codes, header IDs and limits as numbers |
| SdPayload.PayloadInNumbers | sd/udp/sdudp.go:83-91 | the payload byte by byte: flags, three zeros, lengths, entry and option |
| SdPayload.FindRoundTrip | sd/udp/sdudp.go:317-331 | a FindService request comes through with its one entry |
| SdPayload.EncodeSdFrame | sd/udp/sdudp.go:69-101 | the frame appended for an entry and an optional option |
| SdPayload.SdRoundTrip | sd/udp/sdudp.go:69-152 | an encoded frame decodes to the discovery header, the same flags, the one canonical entry (none if its type is unknown) and the same option |
| SdPayload.EndpointComesThrough | sd/sd.go:280-300 | the receiver resolves the endpoint exactly when one was sent under the endpoint type |
| SdRegistry.Registry.Offer | sd/sd.go:334-347 | an offer replaces the record of its key, TTL zero removes it |
| SdRegistry.Registry.Find | sd/sd.go:353-368 | exactly the unexpired records of the service, each once |
| SdRegistry.LastOfferWins | sd/sd.go:334-347 | over every run, the last offer of a service instance alone decides what is registered |
| SdRegistry.SameKeyIff | sd/sd.go:319-322 | one record per service and instance |
| SdRegistry.LastInFrameWins | sd/udp/sdudp.go:403-429 | of several offers in one frame for the same service instance, the last one stands, with its resolved endpoint or the sender's |
| SdRegistry.HandleFrame | sd/udp/sdudp.go:389-406 | a frame's effect on the registry is that of its offers in order; anything malformed has none |
| SdRegistry.HandleEntry | sd/udp/sdudp.go:408-429 | an offer registers the endpoint its options name, else its sender's |
| SdRegistry.OthersChangeNothing | sd/udp/sdudp.go:389-406 | frames that do not decode or are for another service or method than 0xFFFF and 0x8100, and entries that are no offers, leave the registry alone |
| SdRegistry.OfferFrameIs | sd/udp/sdudp.go:357-370 | the message, flags, entry and option of an announcement |
| SdRegistry.SendOffer | sd/udp/sdudp.go:357-370 | the frame of an offer or of its withdrawal, which carries no option |
| SdRegistry.OfferReachesRegistry | sd/udp/sdudp.go:408-429 | the frame of an announced offer, of any option type and with or without an endpoint, registers the canonical entry at a peer: with the announced endpoint if it went out as an IPv4 endpoint option, otherwise with the sender's address |
| SdRegistry.EffectiveOffer | sd/udp/sdudp.go:263-287 | with the defaults of Daemon.Offer, the endpoint reaches the registry and expires after the offer's TTL, or after three seconds for zero |
| SdRegistry.StopOfferWithdraws | sd/udp/sdudp.go:341-350 | the withdrawal removes the service at a peer |
| SdRegistry.OfferIsFoundIff | sd/sd.go:333-347 | exactly how long a peer finds an announced service |
| SdRegistry.LongOfferWithdraws | sd/sd.go:128-131 | a TTL of 2^24 seconds removes the service instead |
| Adapt.ValueOfFormat | adapt.go:36-44 | decimal print and parse are inverse |
| Adapt.FormatOfValue | adapt.go:70-77 | a numeral is restored exactly when it has no leading zero |
| Adapt.SplitIff | adapt.go:66-69 | the ID is split at its first slash |
| Adapt.DecimalDigits | adapt.go:36-44 | numbers are printed and read in base ten |
| Adapt.EnvelopeKeys | adapt.go:33-48 | the envelope of a message, key by key |
| Adapt.FieldsOfEnvelope | adapt.go:65-115 | what an accepted envelope is read as: missing, malformed or too large metadata leaves a field at zero |
| Adapt.RoundTrip | adapt.go:33-98 | converting a message to the envelope and back restores every field, with the protocol version 1 |
| Adapt.AcceptedIff | adapt.go:65-98 | an envelope is accepted exactly when its ID is two 16-bit decimals around a slash, whatever the metadata |
| Adapt.IdRestoredIff | adapt.go:33-80 | converting an accepted envelope back restores its ID exactly when neither number has a leading zero |
| Forwarder.InvAlways | adapt.go:172-204 | every schedule of arrivals, forwarder steps and reads keeps the invariant |
| Forwarder.Conservation | adapt.go:172-204 | forwarded = consumed + buffered + dropped, each message in one place, and the consumer sees them in order |
| Forwarder.BlockLosesNothing | adapt.go:180-181 | under Block the consumer gets every message |
| Forwarder.DropOldestKeepsTheNewest | adapt.go:182-196 | what is buffered is newer than everything dropped, without a gap, and the newest message is never sacrificed |
| Forwarder.NeverStalls | adapt.go:174-202 | under a dropping policy the forwarder always has a step and is done after at most three, one of them a drain, whatever the consumer does |
| Forwarder.SendsWhenRoom | adapt.go:180-202 | under every policy, a forwarder with a message in hand and room in the channel enqueues it in its next step |
| Forwarder.BlockWaitsForRoom | adapt.go:180-181 | under Block only a full channel holds the forwarder up, and one read lets it go on |
| Forwarder.FullBufferIff | adapt.go:182-202 | exactly a full channel makes DropNewest drop and DropOldest drain |
| Forwarder.DropsIff | adapt.go:182-202 | exactly when a message is lost, and which one |
| Forwarder.DropWithRoom | adapt.go:184-195 | a run in which DropOldest drops although there is room |
| UdpSubscriptions.Service.AddChannel | udp/udp.go:533-542 | a new, empty channel of the given capacity at the end of its event's list; every other list and channel as before |
| UdpSubscriptions.Service.RemoveChannel | udp/udp.go:640-656 | the filtered list has every other channel in its old order, other events keep theirs |
| UdpSubscriptions.Service.Receive | udp/udp.go:637 | the subscriber takes the oldest message off its channel, if there is one |
| UdpSubscriptions.Service.Notify | udp/udp.go:605-612 | each subscriber of the event with room gets the message once, nobody else anything, a full channel keeps its contents |
| UdpSubscriptions.Service.DispatchFrame | udp/udp.go:584-613 | only decodable notifications outside service discovery reach subscribers |
| UdpSubscriptions.EventIff | udp/udp.go:584-594 | the events are exactly the notifications for another service and method than 0xFFFF and 0x8100 |
| UdpSubscriptions.SubscribeAndReceive | udp/udp.go:529-553 | a new subscriber finds the next event on its channel |
| UdpSubscriptions.InvAlways | udp/udp.go:529-671 | every interleaving of Subscribe, dispatch, Unsubscribe and Close keeps the invariant |
| UdpSubscriptions.ClosedIsNeverListed | udp/udp.go:595-612 | a closed channel is in no list and no dispatch under way still has to send to one, so nothing panics |
| UdpSubscriptions.ListedOnce | udp/udp.go:536-542 | a channel occurs at most once over all lists, only while its subscription lives |
| UdpSubscriptions.DispatchReachesTheLive | udp/udp.go:605-612 | a finished dispatch has sent once to each live subscription of the event, in order, and to no other |
| UdpSubscriptions.SafeIffLocked | udp/udp.go:595-604 | holding the mutex over the sends is necessary and sufficient |

## Left out

- Sockets, dialing, accept loops, timers and goroutine scheduling: they appear as steps, byte sequences and explicit clock readings. `int` is taken as 64-bit.
- The in-process mock: map bookkeeping.
- The discovery daemon's tickers and shutdown, its answers to FindService and SubscribeEventgroup, and its server-side UDP subscriber lists.
- UDP calls: the same multiplexing as over TCP, without the stream.
- CLI, JSON, error text, `MessageType.String` and the RELAY library's own code; channel depth and policy are parameters. A depth of 0, where a send succeeds only into a waiting reader, is not modelled. Timestamp and protocol tag of the envelope.
- TP claims the code does not make: overlapping chunks, several final segments with different ends, and same-offset chunks with different contents have no no-gap guarantee; the key does not contain the client ID; a duplicate that arrives after completion opens a new window.
- TpReassembler.Reassembler.Add: the mutex makes each method atomic, and a window delivered from overlapping chunks is one of the payloads the map order allows, not a particular one.
- TpTicks.TicksSeenIff: makes the same assumption about clock readings as `TpRuns.TimeoutIsSticky`, in the next line.
- TpRuns.TimeoutIsSticky: assumes that no Add reads a clock earlier than a reading made before it; a GC tick's own reading may be stale, as it is taken before the lock.
- TcpCalls.CallsAreCorrelated: the wire between codec and calls is a queue of messages in each direction; a lost connection is a run in which no further step of it is taken. The server is one that computes replies as `handleMessage` does.
- Forwarder.Conservation: channel and goroutine are a state machine on values; closing of the input is a run without further arrivals.
- UdpSubscriptions.ClosedIsNeverListed: the interleavings are a state machine on values, whose critical sections are the methods of `UdpSubscriptions.Service`; channel contents are only in the latter.
- The converse of the E2E round trip: `Check` compares neither the DataID nibble nor the reserved bytes except through the CRC. Conformance to the AUTOSAR header layouts of the profiles is not claimed.
- Nil and empty payloads are not distinguished.
