# A verified model of the Uncrowned-King protocol core

Uncrowned-King is a proxy: clients authenticate to a server, open relays through it, and may hide the
whole conversation under a keystream. This project models the parts of it that have a simple meaning
and a hard implementation, and proves that the implementation has that meaning.

- **Frames** (`Arithmetic`, `Bytes`, `Protocol`, `Varint`, `Frames`, `FrameReading`, `OneShotReading`, `FrameWriting`).
  Minimal-length varints (a narrowing of section 16 of RFC 9000), the frame codec, the buffered reader
  that survives cancelled calls, the one-shot reader and the writers over a transport that takes
  arbitrary partial amounts. What is sent is what is read, whatever happened on the way.
- **Payloads** (`Domains`, `Targets`, `Settings`, `ServerConfig`, `AuthCodec`). Each value has one wire
  form; legal host names are characterised by their labels; an accepted server configuration advertises
  settings that negotiate to exactly what was configured.
- **Replay defences** (`ReplayWindow`, `PreludeReplay`, `Queues`, `AuthReplay`, `AuthVerify`). The
  sliding window per identity behind a bounded registry, and the nonce cache with expiry and eviction,
  each against the history it summarises.
- **Masking** (`Bits`, `MaskedStream`, `Prelude`, `Datagram`). The keystream wrapper with its rewinds, the
  64-byte prelude that spreads 224 payload bits over the low seven bits of 32 bytes, and the nonce per
  segment in batched datagrams.
- **Policy** (`DomainMatch`, `Addresses`, `AddressTables`, `Policy`). Networks bit by bit, first-match rules
  over resolved addresses, and the two static analyses that have to be sound for them.

Bytes are numbers below 256 in the codecs and 8-bit vectors where the source uses bit operations.
ChaCha20 is an arbitrary function from nonce and position to byte, HMAC-SHA256 an arbitrary function to
32 bytes. Readers, writers, clocks and nonces are arbitrary parameters: each await on a reader comes to
data, an orderly end, an error or a dropped call; each write takes some leading bytes, none, or fails.
An object the source updates in place is a class whose methods are tied to functions of the old state;
the properties are then proved of those functions.

## Where code and comments part

Four places where the code does something other than its documentation says, or where a natural property
holds under a condition of its own. The model follows the code.

- The replay window's marks are documented as "bit `d` is `highest - d`" (crates/uk-mask/src/replay.rs:48),
  so a new highest must move them up; the loop at lines 78-83 moves them down. `ReplayWindow` has both
  directions. With the documented one the window is exact over every run. As written it is not (the run
  10, 11, 10 commits 10 twice), and `AsWrittenAgreesIff` says for which runs it is: those in which every
  new highest was `Harmless`, a condition on the history and the new counter alone.
- `pack_high_bits` packs low bit first (crates/uk-mask/src/lib.rs:399-407) under a comment that says most
  significant first. Nothing depends on the order: `PackingIsInjective`.
- The validated bound `window >= 2 * skew` (crates/uk-server/src/config.rs:368-379) is more than the server
  needs: it stamps its own challenges (crates/uk-server/src/lib.rs:1454-1462), a window above the skew
  retains those on every clock, and `ValidatedServerAdmitsOnce` concludes that no accepted configuration
  admits a replay short of the cache turning over. Of the library function under challenges from any caller, also ones stamped ahead of the
  verifying clock, the bound covers a clock of whole seconds; on a finer one the exact condition is
  `window > 2 * skew`. `NoReplaysIff` states both conditions.
- A suffix pattern with a leading dot is accepted up to 255 bytes of name, and matches some legal target
  exactly up to 253 (`DottedPatternMatchesIff`, and `LongestPatternNeverMatches` for one that never does).

Policy evaluation is closed under dropping addresses when no allow rule opts into private destinations
(`AllowedOnEverySubset`); a rule that denies public destinations does no harm, so the condition is weaker
than one might expect. With opt-in rules it can fail, and `ClosedIff` says exactly how: only by losing the
last private address, and then on a resolution no larger than the policy. `ClosedIffRules` and
`OptInClosedIff` turn that into conditions on the rules and on a rule's network.

## Model

| member | source | states |
|---|---|---|
| Varint.RoundTrip | crates/uk-proto/src/varint.rs:22-62 | every value up to 2^62-1 decodes back from its encoding followed by anything, stopping at its end |
| Varint.Canonical | crates/uk-proto/src/varint.rs:34-62 | whatever decodes is byte for byte the one minimal encoding of its value |
| Varint.Stable | crates/uk-proto/src/varint.rs:34-62 | more input changes no answer except Truncated |
| Varint.LeastWidth | crates/uk-proto/src/varint.rs:11-19 | the width chosen is the least of 1, 2, 4 and 8 that holds the value, and none only from 2^62 on |
| Varint.WholeFieldDecides | crates/uk-proto/src/varint.rs:34-62 | a field of any width followed by anything decodes to its value exactly when the width is the least one, and is InvalidVarint otherwise |
| Varint.TruncatedIff | crates/uk-proto/src/varint.rs:34-62 | Truncated is answered exactly for fewer bytes than the first one announces |
| Frames.EncodeHeader | crates/uk-proto/src/frame.rs:131-163 | a header encodes exactly when version, flags and both varints allow, in 6 to 20 bytes |
| Frames.HeaderBufferIsTight | crates/uk-proto/src/frame.rs:131-134 | some header needs all 20 bytes of the header buffer |
| Frames.HeaderStable | crates/uk-proto/src/frame.rs:165-194 | header decoding is stable under extending the input |
| Frames.FixedBytesDecide | crates/uk-proto/src/frame.rs:165-180 | each of the first four bytes is refused for exactly its own reason: version, then type, then required flags, with the offending value |
| Frames.OversizedIsRefused | crates/uk-proto/src/frame.rs:180-194 | every encodable header longer than the limit is OversizedFrame with its length and the limit, whatever follows, before any payload arrives |
| Frames.HeaderIsDecided | crates/uk-proto/src/frame.rs:165-194 | twenty bytes decide every header |
| Frames.FrameIsDecided | crates/uk-proto/src/frame.rs:237-246 | twenty bytes and the limit decide every frame, so no input is waited for beyond that |
| Frames.ShortIsTruncated | crates/uk-proto/src/frame.rs:237-246 | every strict prefix of an acceptable frame asks for more |
| Frames.EncodeRefusals | crates/uk-proto/src/frame.rs:131-235 | which error each unencodable frame gets, in the order of the checks |
| Frames.SmallFrameBytes | crates/uk-proto/src/frame.rs:131-163 | small frames byte by byte |
| Frames.RoundTrip | crates/uk-proto/src/frame.rs:206-246 | every well-formed frame within the limit decodes back, whatever follows |
| Frames.Canonical | crates/uk-proto/src/frame.rs:237-246 | a decoded frame is the one wire form of itself and within the limit |
| Frames.Stable | crates/uk-proto/src/frame.rs:237-246 | later bytes never change a decision on a frame already taken |
| Frames.PrefixFree | crates/uk-proto/src/frame.rs:206-246 | no frame's wire form begins another frame's |
| FrameReading.DecodesWhatWasEncoded | crates/uk-proto/src/io.rs:137-185 | repeated decoding of concatenated frames and an incomplete tail gives exactly those frames and that tail |
| FrameReading.EncodesWhatWasDecoded | crates/uk-proto/src/io.rs:137-185 | for every stream, the decoded frames re-encoded and the rest are the stream |
| FrameReading.PrefixDecodes | crates/uk-proto/src/io.rs:137-185 | wherever a concatenation of frames is cut, a prefix of the frames decodes and decoding stops for want of bytes |
| FrameReading.CallFollowsStream | crates/uk-proto/src/io.rs:137-185 | one call answers as decoding the whole remaining stream would, and buffer plus later data is that stream less the frame handed out |
| FrameReading.CallReportsItsEvent | crates/uk-proto/src/io.rs:137-162 | a call ends on the event it reports: an I/O failure on an error, a cancellation on a dropped call or the end of the script, a close on an orderly end, with only data before it |
| FrameReading.SessionFollowsStream | crates/uk-proto/src/io.rs:106-185 | for every stream, split into reads, dropped calls and errors in between, the frames and the ending are those of repeated decoding |
| FrameReading.ChunkingIsInvisible | crates/uk-proto/src/io.rs:106-185 | two sessions over the same bytes hand out the same frames and end the same way |
| FrameReading.FrameReader.TakeBufferedFrame | crates/uk-proto/src/io.rs:165-185 | removes the frame that decoding the buffer finds, and touches nothing when there is none; frames out plus buffer stay all bytes read |
| FrameReading.FrameReader.ReadFrame | crates/uk-proto/src/io.rs:137-162 | the loop over the growing buffer is one reference call, and keeps frames out plus buffer equal to all bytes read |
| OneShotReading.ReadVarint | crates/uk-proto/src/io.rs:329-346 | reading byte by byte gives what decoding at that position gives, and keeps exactly those bytes |
| OneShotReading.ReadHeader | crates/uk-proto/src/io.rs:52-85 | field-by-field validation ends in the same header, the same position or the same error as the header decoder |
| OneShotReading.ReadFrameOnce | crates/uk-proto/src/io.rs:52-97 | on every finite stream the result is the stream's first frame, its protocol error, or closed |
| OneShotReading.ReadersAgree | crates/uk-proto/src/io.rs:52-185 | on every finite stream in any pieces, followed by its end, the buffered reader's first answer is the one-shot reader's |
| FrameWriting.WriteAllVectored | crates/uk-proto/src/io.rs:253-288 | success means head and body are on the wire in full; failure a strict prefix of them, reported as WriteZero when nothing was taken and otherwise as the writer's error; a writer that always progresses succeeds |
| FrameWriting.WriteFrame | crates/uk-proto/src/io.rs:226-245 | only a well-formed frame reaches the wire, in its one form; a malformed one is refused with the encoder's error and leaves the wire alone; a failure on the way leaves a strict prefix and reports the writer's last answer |
| FrameWriting.WriteFrames | crates/uk-proto/src/io.rs:300-314 | the whole batch in order reaches the wire, or nothing and the first frame's refusal when one does not encode, or a strict prefix and the writer's last answer when it fails |
| FrameWriting.SendAll | crates/uk-proto/src/io.rs:226-314 | any mixture of single frames and batches puts the concatenation of all frames on the wire, always under a writer that progresses; stopped early, a prefix of it |
| FrameWriting.EndToEnd | crates/uk-proto/src/io.rs:137-314 | frames sent singly and in batches over a writer that takes arbitrary partial amounts are read back unchanged under every chunking and cancellation; if the writer gives up, a prefix of them is and nothing garbled |
| ReplayWindow.DocumentedStaysExact | crates/uk-mask/src/replay.rs:48-85 | the documented shift keeps the marks exact on every accepted counter |
| ReplayWindow.DocumentedRefinesHistory | crates/uk-mask/src/replay.rs:48-103 | with the documented shift, over every run, every decision is the full history's |
| ReplayWindow.DocumentedAtMostOnce | crates/uk-mask/src/replay.rs:48-103 | with the documented shift no counter is accepted twice in any run from any window |
| ReplayWindow.AsWrittenParts | crates/uk-mask/src/replay.rs:72-85 | as written, 10, 11, 10 accepts 10 twice, and after 10, 4, 12 the new 8 is called a duplicate |
| ReplayWindow.AsWrittenStaysExactIff | crates/uk-mask/src/replay.rs:72-85 | one commit as written keeps the marks exact if and only if it is harmless |
| ReplayWindow.AsWrittenAgreesIff | crates/uk-mask/src/replay.rs:72-103 | over every run, the code as written agrees with the history throughout if and only if each new highest was harmless |
| ReplayWindow.SecondCounterHarmlessIff | crates/uk-mask/src/replay.rs:72-85 | the second counter of a window is harmless exactly when it is not higher or jumps a full window |
| ReplayWindow.HighestIsHeld | crates/uk-mask/src/replay.rs:72-103 | with either shift the highest never falls, bounds every accepted counter and is refused as a duplicate |
| PreludeReplay.SetBitMarks | crates/uk-mask/src/replay.rs:62-70 | setting a bit of the sixteen words marks that distance and no other |
| PreludeReplay.Advance | crates/uk-mask/src/replay.rs:72-85 | the bit-by-bit loop moves the packed marks exactly as the value-level shift as written |
| PreludeReplay.Mark | crates/uk-mask/src/replay.rs:155-162 | marking an admitted counter in the packed entry is the value-level commit as written |
| PreludeReplay.CommitKeeps | crates/uk-mask/src/replay.rs:150-173 | every commit keeps queue and map in step and within capacity, with either shift |
| PreludeReplay.HoldsLastRegistrations | crates/uk-mask/src/replay.rs:150-173 | over every run, with either shift, the registry holds exactly the last registrations up to its capacity, in order |
| PreludeReplay.HeldIffAmongLast | crates/uk-mask/src/replay.rs:150-173 | at every moment of every run an identity is held if and only if it is among them |
| PreludeReplay.StaysUntilCrowdedOut | crates/uk-mask/src/replay.rs:164-170 | an identity once registered is held until as many others have registered after it as the capacity allows |
| PreludeReplay.RegistryRefinesHistory | crates/uk-mask/src/replay.rs:48-173 | over every run of all identities from an empty registry, every answer is the history's: a registered identity is answered from the counters accepted since it was last registered, cut 1023 below the highest of them (documented shift) |
| PreludeReplay.DuplicateWasAccepted | crates/uk-mask/src/replay.rs:87-173 | Duplicate is answered only for a counter really accepted since the identity was registered (documented shift) |
| PreludeReplay.AcceptedOncePerRegistration | crates/uk-mask/src/replay.rs:48-173 | over every run of all identities, a counter accepted twice means its identity was evicted in between (documented shift) |
| PreludeReplay.ReplayRegistry.Precheck | crates/uk-mask/src/replay.rs:140-147 | answers what commit would, changing nothing |
| PreludeReplay.ReplayRegistry.Commit | crates/uk-mask/src/replay.rs:150-173 | decides as precheck and steps the whole registry as the value-level commit as written |
| MaskedStream.CuttingIsInvisible | crates/uk-mask/src/stream.rs:112-198 | working piece by piece, however cut, is working on the whole |
| MaskedStream.WriteOutcomeMeans | crates/uk-mask/src/stream.rs:143-198 | each outcome of a write poll if and only if: over the limit, the inner stream not ready, its error, nothing taken, or the count it took |
| MaskedStream.ReadOutcomeMeans | crates/uk-mask/src/stream.rs:112-140 | each outcome of a read poll if and only if: the inner stream not ready, its error, over the limit, or what arrived |
| MaskedStream.ResubmissionDelivers | crates/uk-mask/src/stream.rs:143-198 | submitting what is left again and again to an inner stream that always takes something delivers the whole text, however little it takes each time |
| MaskedStream.DeliveredFits | crates/uk-mask/src/stream.rs:143-198 | no run of polls gets past the stream limit |
| MaskedStream.PeerReadsWhatWasWritten | crates/uk-mask/src/stream.rs:112-198 | the bytes of any run of full, short, zero, failed and pending writes with any resubmitted plaintext, cut anywhere, unmask piece by piece to the plaintext reported as written |
| MaskedStream.MaskedStream.PollWrite | crates/uk-mask/src/stream.rs:143-198 | every outcome leaves the cipher at the confirmed offset and the wire equal to the accepted plaintext under the keystream; the result and the plaintext taken follow from the confirmed offset alone |
| MaskedStream.MaskedStream.PollRead | crates/uk-mask/src/stream.rs:112-140 | unmasks what arrived behind what the buffer held; a failed, pending or over-limit read leaves the offset |
| MaskedStream.WriteRun | crates/uk-mask/src/stream.rs:143-198 | a stream polled through any run of writes reports exactly the plaintext of the run and has put exactly its masked form on the wire, each byte XORed with the keystream at its place |
| MaskedStream.ReadRun | crates/uk-mask/src/stream.rs:112-198 | a peer polled while any first part of that wire arrives, in any pieces, with failures and waits, reads that much of the sender's plaintext, and all of it when all arrived |
| Prelude.PackedBits | crates/uk-mask/src/lib.rs:399-407 | high bit g is bit g mod 8 of packed byte g / 8 |
| Prelude.TailLayoutIsBijective | crates/uk-mask/src/lib.rs:399-429 | every four packed bytes and 28 payload bytes are those of exactly one 32-byte tail |
| Prelude.LayoutParts | crates/uk-mask/src/lib.rs:399-429 | a payload written into any tail reads back and keeps the packed high bits |
| Prelude.WriteTailPayload | crates/uk-mask/src/lib.rs:409-418 | the in-place loop computes that layout |
| Prelude.ReadTailPayload | crates/uk-mask/src/lib.rs:420-429 | the loop reads that layout |
| Prelude.PackHighBits | crates/uk-mask/src/lib.rs:399-407 | the loop packs all high bits |
| Prelude.LayoutEnds | crates/uk-mask/src/lib.rs:409-418 | which payload bits the first and last tail byte carry, so the layout runs from the top of the first payload byte |
| Prelude.WordBytesAreBigEndian | crates/uk-mask/src/lib.rs:386-397 | identities and counters are written most significant byte first |
| Prelude.CounterRoundTrip | crates/uk-mask/src/lib.rs:386-397 | six bytes carry every counter up to 2^48-1 |
| Prelude.PreludeRoundTrip | crates/uk-mask/src/lib.rs:168-238 | for all keys, generated bytes, nonces, identities and counters in 1..2^48-1 the prelude decodes to the same identity and counter |
| Prelude.AcceptedWasEncoded | crates/uk-mask/src/lib.rs:204-261 | every accepted prelude is the one encoding, over its own bytes, of what it decodes to |
| Prelude.AcceptedIff | crates/uk-mask/src/lib.rs:204-261 | a prelude is accepted as an identity and counter exactly when the counter is in 1..2^48-1 and its payload bits are that identity, counter and tag under the mask, spelled from HMAC alone |
| Prelude.TagCovers | crates/uk-mask/src/lib.rs:240-252 | inputs that differ in key, nonce, prefix, high bits, identity or counter are told apart by some HMAC: the tag leaves nothing out |
| Prelude.MaskCovers | crates/uk-mask/src/lib.rs:254-261 | likewise for key, nonce, prefix and high bits under the payload mask |
| Prelude.IllegalCounterIsRefused | crates/uk-mask/src/lib.rs:168-202 | encoding refuses a counter exactly when it is zero or over 48 bits |
| Datagram.TrySend | crates/uk-mask/src/udp.rs:245-283 | a lone datagram or each segment of a batch is masked under its own nonce, with the segment size widened by the nonce; a zero size is refused |
| Datagram.SegmentBytes | crates/uk-mask/src/udp.rs:179-189 | a wire segment is its nonce, then the plaintext XORed with that nonce's keystream from its start |
| Datagram.FilterMeans | crates/uk-mask/src/udp.rs:225-238 | the server's filter passes short headers, and long ones exactly when the version is there and supported |
| Datagram.DeliveryCutsBack | crates/uk-mask/src/udp.rs:337-371 | cutting the delivered bytes by the delivered stride yields exactly the surviving plaintext segments, whichever were dropped |
| Datagram.TransmitArrives | crates/uk-mask/src/udp.rs:245-371 | a batch for any contents and positive segment size arrives segment for segment, and a client recovers the contents |
| Datagram.DecodeSlot | crates/uk-mask/src/udp.rs:337-358 | the unmasking loop with its truncations leaves the surviving plaintext of the slot |
| Datagram.ReceiveBatch | crates/uk-mask/src/udp.rs:337-372 | the loop over a received batch delivers, from the front, each slot whose text fits the next buffer |
| Datagram.DeliveredFrom | crates/uk-mask/src/udp.rs:355-372 | each delivered buffer carries the text and the peer of the slot it came from |
| Datagram.BatchDeliversSurvivors | crates/uk-mask/src/udp.rs:337-372 | a batch hands over each surviving segment of each slot that fits its turn, once and in order, and nothing else |
| Datagram.DropsNoneIff | crates/uk-mask/src/udp.rs:355-372 | no slot with text is dropped if and only if each text fits the buffer whose turn it is |
| Datagram.RoomyBatchDeliversAll | crates/uk-mask/src/udp.rs:337-372 | with room for each text in its turn, every surviving segment of the batch is handed over |
| Datagram.PollRecv | crates/uk-mask/src/udp.rs:285-380 | the polling loop passes over batches of which nothing gets through and answers as the first other poll |
| Datagram.PollingLosesNothing | crates/uk-mask/src/udp.rs:285-380 | only batches without a deliverable segment are passed over, and a delivery is all of the next batch that fits |
| Domains.LegalIffLabels | crates/uk-proto/src/target.rs:173-227 | a name is legal exactly when it has at most 255 bytes, host-like labels, and not only labels a resolver reads as numbers |
| Domains.HostlikeMeans | crates/uk-proto/src/target.rs:184-227 | a host-like label is 1 to 63 letters, digits and hyphens, with no hyphen at either end |
| Domains.IpShapedMeans | crates/uk-proto/src/target.rs:173-182 | a resolver reads a label as a number exactly when it is decimal, or 0x or 0X and hexadecimal digits, possibly none |
| Domains.NumericNameIsIllegal | crates/uk-proto/src/target.rs:173-227 | a name of numbers only, in any mixture of those forms, is never legal |
| DomainMatch.SuffixMatchIsLabelSuffix | crates/uk-policy/src/lib.rs:517-549 | on legal targets and accepted patterns byte matching is label-list suffix, strict under a leading dot |
| DomainMatch.CaseIsIgnored | crates/uk-policy/src/lib.rs:533-549 | names and patterns that differ in case and trailing dots match alike |
| DomainMatch.TrailingDotIsIgnored | crates/uk-policy/src/lib.rs:517-549 | a trailing dot changes neither what a pattern matches nor whether it is accepted |
| DomainMatch.PlainPatternMatches | crates/uk-policy/src/lib.rs:517-549 | an accepted pattern without a leading dot matches some legal target |
| DomainMatch.DottedPatternMatchesIff | crates/uk-policy/src/lib.rs:517-549 | an accepted pattern with a leading dot matches some legal target if and only if its name has at most 253 bytes |
| DomainMatch.LongestPatternNeverMatches | crates/uk-policy/src/lib.rs:517-549 | a dot and a legal name of 255 bytes is accepted as a pattern and matches no legal target |
| Targets.RoundTrip | crates/uk-proto/src/target.rs:42-136 | every encodable target decodes back, whatever follows |
| Targets.Canonical | crates/uk-proto/src/target.rs:69-136 | a decoded target is the one wire form of itself |
| Targets.TypeAndLengthDecide | crates/uk-proto/src/target.rs:69-136 | an unknown address type, and a length the type does not have, are refused at once, whatever follows |
| Targets.UnsoundTargetIsRefused | crates/uk-proto/src/target.rs:69-136 | a zero port or an illegal name is refused |
| Targets.PartOfTargetIsTruncated | crates/uk-proto/src/target.rs:69-136 | every strict prefix of a target asks for more |
| Targets.TargetBytes | crates/uk-proto/src/target.rs:42-67 | the three wire forms byte by byte |
| Targets.OpenIsCanonical | crates/uk-proto/src/tcp.rs:35-54 | TCP open payloads and their wire forms determine each other |
| Targets.OpenTailDecides | crates/uk-proto/src/tcp.rs:42-54 | behind the target, two zero bytes and nothing else make an open payload; less is truncated, anything else refused |
| Targets.OpenFitsSmallestFrame | crates/uk-proto/src/tcp.rs:17-40 | every open payload fits 262 bytes and one fills them |
| Settings.DecodeSettings | crates/uk-proto/src/settings.rs:134-155 | the loop computes the reference decoding, duplicates and trailing bytes refused, unknown keys dropped |
| Settings.PayloadDecodes | crates/uk-proto/src/settings.rs:134-155 | any list of entries on the wire decodes to exactly the known ones, is refused exactly when a known key repeats, and refused with any byte behind it |
| Settings.EncodesIffSmall | crates/uk-proto/src/settings.rs:124-131 | settings encode exactly when every value fits a varint |
| Settings.RoundTrip | crates/uk-proto/src/settings.rs:124-155 | settings with varint-sized values encode and decode to themselves |
| Settings.ReencodingIsIdempotent | crates/uk-proto/src/settings.rs:124-155 | decoding any payload and re-encoding it changes nothing a decoder sees |
| Settings.SpelledNegotiatesIff | crates/uk-proto/src/settings.rs:158-240 | a fully spelled session negotiates to itself exactly when it is within the protocol's bounds, and is refused otherwise |
| Settings.NegotiationIsStable | crates/uk-proto/src/settings.rs:158-240 | whatever negotiates, with its defaults spelled out, negotiates to the same session |
| Settings.DefaultsAreFilledIn | crates/uk-proto/src/settings.rs:158-240 | any settings left out of a spelled session are filled in by their defaults, spelled as numbers |
| Settings.NegotiatesOnlyWithin | crates/uk-proto/src/settings.rs:158-240 | what negotiates is revision 1.0, within bounds, and runs with every value that was given |
| Settings.NegotiatedCarriesOpens | crates/uk-proto/src/tcp.rs:17-40 | every negotiated session has streams and a frame size that holds every TCP open payload |
| ServerConfig.ServerSettings | crates/uk-server/src/lib.rs:1641-1660 | a peer that decodes and negotiates these settings settles on exactly the configured session, for every accepted configuration, and exactly when that session is within bounds |
| ServerConfig.ValidLimitsIff | crates/uk-server/src/config.rs:131-228 | limits are accepted exactly when the session they describe is within the protocol's bounds and the authentication limits are in range |
| ServerConfig.DefaultsAreValid | crates/uk-server/src/config.rs:422-603 | an empty configuration is accepted, and these are its numbers |
| ServerConfig.AdvertisedLimitsAreNegotiated | crates/uk-server/src/config.rs:131-228 | for every accepted configuration and either datagram flag the advertised settings encode, decode and negotiate to exactly the configured limits |
| AuthCodec.ChallengeIsCanonical | crates/uk-auth/src/lib.rs:261-292 | challenges and their wire forms determine each other |
| AuthCodec.ResponseIsCanonical | crates/uk-auth/src/lib.rs:392-439 | responses and their wire forms determine each other |
| AuthCodec.ChallengeLayout | crates/uk-auth/src/lib.rs:261-272 | where the fields of a challenge sit in its bytes |
| AuthCodec.ResponseLayout | crates/uk-auth/src/lib.rs:392-404 | where the fields of a response sit in its bytes |
| AuthCodec.FieldRefusals | crates/uk-auth/src/lib.rs:274-292 | bytes behind a challenge are refused, and a length over 1024 or past the end |
| AuthCodec.ShortFormsAreRefused | crates/uk-auth/src/lib.rs:274-439 | payloads too short for their fixed fields are refused as such, and where that ends |
| AuthCodec.KeyIdLengthDecides | crates/uk-auth/src/lib.rs:406-439 | a key id of no byte or over 64 is refused for its length alone |
| AuthCodec.ResponseSizeFloor | crates/uk-auth/src/lib.rs:38-40 | no encodable response is under 75 bytes, and one has 75 |
| AuthCodec.TranscriptIsInjective | crates/uk-auth/src/lib.rs:789-884 | equal MAC inputs mean equal exporter, challenge, key id, client nonce, time and capabilities |
| AuthCodec.MacCoversWhatIsSent | crates/uk-auth/src/lib.rs:789-884 | the MAC input is the label, the exporter and then byte for byte the challenge and the response as sent, less its tag |
| AuthReplay.QueueDecides | crates/uk-auth/src/lib.rs:493-532 | the pruned queue holds a pair exactly when it is among the last entries accepted and within the window |
| AuthReplay.CacheIsHistory | crates/uk-auth/src/lib.rs:493-542 | over every run with a clock that never goes back every answer is the history's |
| AuthReplay.ReplayCache.Prune | crates/uk-auth/src/lib.rs:523-532 | drops from the front what the window no longer covers |
| AuthReplay.ReplayCache.CheckAndInsertAt | crates/uk-auth/src/lib.rs:493-520 | rejects exactly the recent pairs, records the others, and keeps map, queue and history in step within capacity |
| AuthVerify.PaddedEqualIff | crates/uk-auth/src/lib.rs:768-774 | padded ids agree exactly when the lengths and first 64 bytes do |
| AuthVerify.FindCredential | crates/uk-auth/src/lib.rs:746-759 | the loop over all credentials keeps the first padded match |
| AuthVerify.PaddedLookupIsExact | crates/uk-auth/src/lib.rs:746-774 | with ids of 1 to 64 bytes the padded lookup is the plain first match, for any input id |
| AuthVerify.AcceptedIff | crates/uk-auth/src/lib.rs:640-694 | acceptance means exactly: first credential of that id, usable secret, active, right tag over the transcript, both times within skew |
| AuthVerify.RefusedFor | crates/uk-auth/src/lib.rs:644-694 | which error each refused response gets, in the order of the checks |
| AuthVerify.ActiveMeans | crates/uk-auth/src/lib.rs:205-222 | a credential is active exactly when its status is and the readable clock is between its bounds, both included |
| AuthVerify.SkewMeans | crates/uk-auth/src/lib.rs:820-825 | a time is fresh exactly when it and the clock are readable and neither is more than the skew ahead |
| AuthVerify.SecretMeans | crates/uk-auth/src/lib.rs:906-947 | a secret is usable exactly when it has 32 bytes that are not all the same |
| AuthVerify.DummyIsIrrelevant | crates/uk-auth/src/lib.rs:644-694 | the secret used for unknown keys never shows in an answer |
| AuthVerify.AdmittedTwiceOnlyAfterOverflow | crates/uk-auth/src/lib.rs:716-735 | over every run on any clock, where the window outlasts freshness for challenges of that origin, a response admitted twice under one challenge had the whole cache turn over in between |
| AuthVerify.ValidatedServerAdmitsOnce | crates/uk-server/src/lib.rs:1454-1528 | a server with accepted limits never admits a replay under challenges it issued itself, on any clock, short of the cache turning over |
| AuthVerify.EdgeAdmitsTwice | crates/uk-auth/src/lib.rs:683-735 | where the window does not outlast freshness for that origin of challenges, one response shown at two given instants is admitted twice with nothing in between, for every usable credential and session |
| AuthVerify.NoReplaysIff | crates/uk-auth/src/lib.rs:683-735 | no run admits a replay short of the cache turning over if and only if the window exceeds the skew for challenges the server issued, twice the skew for challenges of any caller of the library; equality will do on a clock of whole seconds |
| AuthVerify.ValidatedRetains | crates/uk-server/src/config.rs:363-379 | accepted limits meet the condition for the server's own challenges on every clock and for anyone's on whole seconds, and for anyone's on a finer clock not always |
| AddressTables.LongerPrefixMatchesLess | crates/uk-policy/src/lib.rs:376-391 | a longer prefix, even out of range, never matches more |
| AddressTables.ContainsIff | crates/uk-policy/src/lib.rs:376-391 | an address is in a network exactly when its first prefix bits, counted from the top of its first byte, are the network's; IPv6 addresses are in IPv4 networks only in mapped form |
| AddressTables.Restricted4Networks | crates/uk-policy/src/lib.rs:643-699 | the restricted IPv4 addresses are exactly those of fifteen networks, by that membership |
| AddressTables.Restricted6Networks | crates/uk-policy/src/lib.rs:626-641 | likewise for seven IPv6 networks |
| AddressTables.MetadataServices | crates/uk-policy/src/lib.rs:599-612 | the metadata addresses one by one |
| AddressTables.CarriedIsSeenThrough | crates/uk-policy/src/lib.rs:733-756 | an IPv4 address is seen through each of the mapped, NAT64, compatible and 6to4 forms |
| AddressTables.OnlyCarriedIsSeenThrough | crates/uk-policy/src/lib.rs:733-756 | and nothing else is taken for one |
| AddressTables.FormsInherit | crates/uk-policy/src/lib.rs:599-641 | so a private or metadata IPv4 address is one in every form that carries it |
| Policy.MatchesIffConcerns | crates/uk-policy/src/lib.rs:242-299 | a rule matches exactly when each predicate it names holds, spelled by field |
| Policy.RuleElsewhereIsIrrelevant | crates/uk-policy/src/lib.rs:97-115 | a rule that names another key, group, domain, suffix, port range, network or privacy can be struck from anywhere in a policy |
| Policy.FirstConcernedDecides | crates/uk-policy/src/lib.rs:97-115 | the first rule all of whose predicates hold decides, whatever follows it, and without one the answer is Deny |
| Policy.MetadataIsDenied | crates/uk-policy/src/lib.rs:97-115 | a resolution with a metadata address is denied under every policy |
| Policy.ExactMatchIff | crates/uk-policy/src/lib.rs:526-530 | on legal names exact matching is equality up to case |
| Policy.AllowedOnSubset | crates/uk-policy/src/lib.rs:97-115 | an allowed resolution stays allowed on every non-empty part that keeps a private address if there was one |
| Policy.AllowedOnEverySubset | crates/uk-policy/src/lib.rs:97-115 | without opt-in allow rules every non-empty part of an allowed resolution is allowed |
| Policy.DenialHasCore | crates/uk-policy/src/lib.rs:97-115 | a denial of public addresses rests on at most one of them per rule |
| Policy.ClosedIff | crates/uk-policy/src/lib.rs:97-115 | for every policy the source builds, networks and opt-ins included, closure under dropping addresses fails if and only if it fails by losing the last private address, and then already with no more public addresses than rules |
| Policy.ClosedIffRules | crates/uk-policy/src/lib.rs:242-258 | without network predicates closure is a condition on the rules: if some rule is reached for private resolutions, one is for public ones |
| Policy.OptInClosedIff | crates/uk-policy/src/lib.rs:559-624 | a single opt-in rule loses closure if and only if its network holds a private and a public address |
| Policy.PreResolveIsSound | crates/uk-policy/src/lib.rs:130-164 | a denial before resolution stands for every resolution, and is exact for address targets |
| Policy.DeniedEarlyIff | crates/uk-policy/src/lib.rs:130-164 | a name is denied before resolution exactly when every allow rule is for something else, or the first rule that is not is a deny that needs no addresses |
| Policy.UnresolvedIsDenied | crates/uk-policy/src/lib.rs:585-597 | an unresolved name is never allowed |
| Policy.HasUnrestrictedPrivateAllow | crates/uk-policy/src/lib.rs:174-187 | the lint's loop finds exactly an opt-in rule with no blanket private deny before it |
| Policy.SilentLintMeansNoPrivate | crates/uk-policy/src/lib.rs:174-187 | where the lint is silent, no request reaching a private address is ever allowed |
| Policy.BlanketDenySilencesLint | crates/uk-policy/src/lib.rs:174-187 | a blanket private deny in front silences the lint |

## Left out

- TLS, QUIC, sockets, DNS, signals and the async runtime: foreign libraries and input/output.
- ChaCha20, HMAC-SHA256 and random generation as such: no claim about secrecy, randomness or nonce uniqueness; `NonceGenerator` and `ClientSequence` are not modelled.
- Constant-time behaviour, zeroization, redaction in logs: not functional properties.
- TOML, file permissions, command line, logging, metrics: plumbing.
- The relay, rate-limit and server QUIC modules, and the SOCKS5, UDP, datagram and error payload codecs: they would add easy members only.
- `verify_prelude` over several keys, prelude shaping policies and `apply_masked_mtu`: the generated bytes are arbitrary, so any shaping policy is covered.
- Reason strings inside protocol and authentication errors: only the error kind is kept.
- Buffer capacities and reservations: not observable in any result.
- Platforms with a 32-bit `usize`: lengths are taken to fit the machine word.
- Masks and shifts in varints and CIDR matching are written as remainders and quotients by powers of two; the replay bitmap and the prelude keep bit vectors.
- The IP-literal parse inside `validate_domain` is omitted: such a name is all numeric labels or holds a colon, so the checks beside it refuse it already.
- Limits in `validate_limits` that neither the settings nor the replay cache depend on.
- Writers are not flushed: a flush changes nothing on the wire.
- Datagram.ReceiveBatch: takes at least as many caller buffers as received slots; `poll_recv` called with fewer than before is not modelled.
- PreludeReplay.AcceptedOncePerRegistration: for the documented shift; as written it is false, and ReplayWindow.AsWrittenAgreesIff says when the window still answers rightly.
- Policy.ClosedIff: asks that every allow rule says whether it means private destinations, as both ways of building a rule ensure; a rule whose field was cleared by hand afterwards is not covered.
- AuthVerify.NoReplaysIff: the wall clock runs at a fixed offset to the monotonic one; steps of it between attempts are not modelled.
