# Construct wire formats and client rules, verified

A Dafny model of the executable rules in the repository of Construct's wire formats, and proofs of
what they promise. `dafny verify dfyconfig.toml` checks all of it.

- **History snapshot.** `Cth1` has the CTH1 stream writer and the checked reader, `StreamWalkers` the
  two unchecked readers, `Varints` and `MediaFields` the protobuf pieces, `Phases` the order rules,
  `SealedChunks` the CTHF chunk layer, `HistoryFile` the whole path from records to file and back, and
  `HistoryCheck` the checker's verdict on one stream. The main results: the reader accepts exactly the
  writer's streams; no cut, extension, reordering, repetition or omission of chunks reads as anything
  but the whole file; a phase-3 file is exactly an interleaving of a phase-1 and a phase-2 transfer.
- **KNST frame.** `KnstFrames`: framing and reading are inverse, and reassembly is correct under any
  order, repetition and interleaving.
- **Transport route.** `TransportRoute` is the state machine, `TransportVectors` its 57 shared vectors.
  The main results are about all runs: never direct under `on`, no client left open on the direct
  path, the effects keep the platform in step with the state, failures are counted per path and per
  lane, no local proxy is left running beside the direct path. Every entry to and exit from a state is
  stated for all modes.
- **Seeded generator.** `SeedRandom`: a buffered generator that refines one infinite byte stream.
- **Replicated state.** `ReadMarkers` and `ProfileShares`: what devices agree on after any delivery
  sequence, and exactly when they do not.
- **Small codecs.** `CEscapes` decodes what protoc prints, `ContactCards` separates cards from bare
  keys. `ByteStrings` and `Outcomes` hold what the rest shares.

Loops of the scripts are methods, each proved equal to a specification function; the lemmas are about
those functions. An exception is a `None` or an `Err`. SHA-256 and ChaCha20-Poly1305 are function
parameters. Of the cipher most results assume only that it adds 16 bytes and opens what it sealed;
`OnlyTheWholeFileReads` also assumes that no chunk of the file opens at another chunk's place, and
`AssumptionsConsistent` shows that both can hold.

Where the code and its documentation disagree, the model follows the code:

- `core/envelope.proto:245-247` says a contact card with a field is longer than 32 bytes. A card with
  only a generation is two to six bytes long; a card is longer exactly when it has a key or an address
  (`LongerExactlyWithKeyOrAddress`). No proper card is exactly 32 bytes (`CardNeverLegacy`).
- `media_fields_in_order` is documented to require the fields 1, 2, 3 in that order, each optional. It
  checks only that the field numbers strictly ascend, so a field 4 passes (`UnknownFieldAccepted`). It
  never refuses what the rule allows, and answers as the rule does exactly when ascending numbers are
  all 1, 2 or 3 (`DocumentedExactly`, and `WrittenDocumentedExactly` for written fields).

`conformance/check_contact_card.py:64-66` makes every payload of exactly 32 bytes a bare key, and reads
anything else as a card in which a field of the wrong length is ignored. So a card with such a field can
fall under the first half: a 30-byte key alone does (`ShortKeyCollides`), and `CollidesExactly` says
which cards do.

Convergence of profiles holds in part. The edit time always converges (`TimeConverges`), the name
exactly when the newest shares carry one name (`NameConvergesExactly`), which a sender that does not
edit twice in one millisecond guarantees. The avatar may differ even then, because an ignored older
share may be the one that set it: `AvatarDependsOnOrder` is an input, and `AvatarConvergesExactly` says
exactly when receivers agree.

In the transport table a cell that no vector and no comment decides is an assumption of the model, not
a claim about the clients. Marked in the table, and repeating the nearest row: a path change from
Direct, Probing or Cooldown; `off` or a manual reset while Probing or in Cooldown; a stream timeout of
an RPC on the direct path; VEIL stream failures other than a mid-session timeout. All other undecided
cells do nothing, for example `proxy_started` while Active or in Cooldown, a direct failure while
Active, and a manual reset while Offline.

## Model

| member | source | states |
|---|---|---|
| `Cth1.Stream` | scripts/gen_history_snapshot_vectors.py:289-294 | The writer loop produces `StreamBytes`: magic, version, the records in order, End. |
| `Cth1.StreamOfOneRecord` | scripts/gen_history_snapshot_vectors.py:285-294 | The sixteen bytes of a stream with one one-byte media record. |
| `Cth1.ParseCth1` | conformance/check_history_snapshot.py:49-81 | The reader loop returns the types with End and the payload lengths of the records `Parse` finds, or its error: each of the eight ways to fail, in the order of the checks. |
| `Cth1.AcceptsExactlyStreams` | conformance/check_history_snapshot.py:49-81 | A byte string is accepted if and only if it is the writer's stream of some records with non-zero type and payload within the cap; the records found are those. |
| `Cth1.RoundTrip` | conformance/check_history_snapshot.py:49-81 | Every list of such records is read back exactly from its stream. |
| `Cth1.HeaderVerdict` | conformance/check_history_snapshot.py:51-56 | Exactly which inputs lack the magic CTH1, end before the sixth byte, or carry a version other than 1. |
| `Cth1.TailVerdict` | conformance/check_history_snapshot.py:59-81 | After a header and any records within the format, what follows decides the error whatever comes after it: no End, trailing bytes, a cut length, over 536870912 bytes, a cut payload. |
| `Cth1.WriterAccepted` | conformance/check_history_snapshot.py:64-71 | Whatever records the writer is given, their stream is accepted if and only if every type is non-zero and every payload at most 536870912 bytes. |
| `Cth1.OutsideRejected` | conformance/check_history_snapshot.py:64-80 | Otherwise the first such record decides the error: trailing bytes for type 0, over the cap with its size. |
| `Cth1.LayoutOfWritten` | conformance/check_history_snapshot.py:57-81 | What the reader returns for a written stream, element by element: the types with a final 0, and the payload lengths. |
| `Cth1.StreamInjective` | scripts/gen_history_snapshot_vectors.py:285-294 | Two lists of such records with the same stream are the same list. |
| `Cth1.ExtensionRejected` | conformance/check_history_snapshot.py:79-80 | Any bytes appended to an accepted stream are reported as trailing bytes. |
| `Cth1.PrefixFree` | conformance/check_history_snapshot.py:49-81 | No accepted stream is a proper prefix of an accepted stream. |
| `Cth1.CutStream` | conformance/check_history_snapshot.py:60-78 | A stream cut anywhere in any of its records fails, and with which error: no End at a record boundary, truncated length in the nine header bytes, truncated payload after them. |
| `StreamWalkers.MediaPayloads` | conformance/check_history_snapshot.py:84-93 | The unchecked loop returns the media slices along the unchecked walk, or raises where a length field is cut short. |
| `StreamWalkers.ParseRecordTypes` | scripts/gen_history_snapshot_vectors.py:297-311 | The generator's loop returns the types along the same walk, with End if it stopped on one; raises without the magic or on a cut length field. |
| `StreamWalkers.WalkPassesRecords` | conformance/check_history_snapshot.py:59-93 | On every stream the reader accepts, the unchecked walk stays in bounds, passes exactly the records' headers, and stops on the End byte. |
| `StreamWalkers.WalkersAgree` | conformance/check_history_snapshot.py:84-93 | On every such stream neither walker raises; one returns the media records' payloads in order, the other the reader's type list. |
| `StreamWalkers.HeadersAt` | conformance/check_history_snapshot.py:59-76 | Header k of the walk stands where the first k records end: the walkers visit the same boundaries. |
| `StreamWalkers.MediaIsType8` | conformance/check_history_snapshot.py:90-91 | The media payloads are those of the records of type 8, in order. |
| `StreamWalkers.MediaOnCut` | conformance/check_history_snapshot.py:84-93 | On every stream cut anywhere in a record, which the reader rejects: the media walker raises if the cut is in the nine header bytes, and otherwise returns the payloads before it and what is left of the one cut. |
| `StreamWalkers.TypesOnCut` | scripts/gen_history_snapshot_vectors.py:297-311 | The type walker on the same cuts: it raises in the header bytes, and otherwise returns the types without End. |
| `StreamWalkers.WalkersUnchecked` | conformance/check_history_snapshot.py:84-93 | What the walkers do not check: on any five bytes, records, End and any bytes after it, both return what they return on the stream itself, except that the type walker raises without the magic. |
| `Varints.Varint` | scripts/gen_history_snapshot_vectors.py:55-62 | The writer loop produces the varint of its argument modulo 2^64, negative arguments included. |
| `ByteStrings.LeLayout4` | conformance/check_history_snapshot.py:129 | The four bytes of a little-endian length, low byte first. |
| `ByteStrings.LeLayout8` | scripts/gen_history_snapshot_vectors.py:285-286 | The eight little-endian bytes of a record length are those of its two halves, the low half first. |
| `ByteStrings.BeLayout2` | conformance/check_knst_frame.py:39 | The two big-endian bytes of index and total, high byte first, written and read. |
| `ByteStrings.BeLayout4` | conformance/check_knst_frame.py:39 | The four big-endian bytes of plaintext_length, high byte first, written and read. |
| `Varints.VarintField` | conformance/check_contact_card.py:32-39 | The second writer loop produces its tag byte and the varint of the value. |
| `Varints.VarintRoundTrip` | conformance/check_history_snapshot.py:102-109 | The reader gets the value modulo 2^64 back, whatever follows, from at most ten minimal bytes. |
| `Varints.ReadRaisesExactly` | conformance/check_history_snapshot.py:102-106 | The reader raises if and only if every byte left asks for another. |
| `Varints.MinimalUnique` | scripts/gen_history_snapshot_vectors.py:55-62 | A minimal code that reads as n is the code the writer gives n. |
| `Varints.WritersAgree` | conformance/check_contact_card.py:32-39 | The two varint writers agree on a value if and only if it is below 2^64. |
| `Varints.VarintOf300` | conformance/check_contact_card.py:47-50 | 300 takes the two bytes AC 02. |
| `MediaFields.MediaFieldsInOrder` | conformance/check_history_snapshot.py:96-112 | The nested loops answer whether the field numbers along the payload strictly ascend; they raise exactly where the bytes of a length are cut off. A length that reaches past the payload ends the loop. |
| `MediaFields.UnknownFieldAccepted` | conformance/check_history_snapshot.py:96-112 | A payload holding only a field 4 passes, though the documented rule knows fields 1, 2, 3. |
| `MediaFields.DocumentedExactly` | conformance/check_history_snapshot.py:97 | On every payload that does not raise, the check passes what the documented rule allows, and its answer is that rule's if and only if ascending field numbers are all 1, 2 or 3. |
| `MediaFields.WrittenDocumentedExactly` | conformance/check_history_snapshot.py:97 | On all written fields numbered 1 to 15 the answer is the documented rule's if and only if no field is above 3 when the numbers ascend. |
| `MediaFields.OrderCheck` | conformance/check_history_snapshot.py:112 | Sorted and without repeats, by comparing a set's size with the length, is strictly ascending. |
| `MediaFields.ReadsWrittenFields` | scripts/gen_history_snapshot_vectors.py:65-70 | On the encoding of any fields numbered 1 to 15 the reader recovers every number, having stepped over every length. |
| `MediaFields.BrokenField` | conformance/check_history_snapshot.py:96-112 | A written payload broken off inside its last field raises if and only if the break is within the key or the length; later the check judges the numbers as if the field were whole. |
| `Phases.PhaseOk` | conformance/check_history_snapshot.py:142-168 | The loop returns the first reason a type list is illegal in a phase, the reaction rule being: some reaction with no message before it. |
| `Phases.LegalExactly` | conformance/check_history_snapshot.py:142-168 | In literal types after a manifest: phase 1 is no 8, and before every 5 a 4; phase 2 is nothing but 8; phase 3 is before every 5 a 4. |
| `Phases.LegalNeedsManifest` | conformance/check_history_snapshot.py:144-160 | Nothing is legal in another phase, or without a 1 first. |
| `Phases.NoManifest` | conformance/check_history_snapshot.py:144-145 | Without a 1 first the reason is that, whatever the phase. |
| `Phases.TypeReasons` | conformance/check_history_snapshot.py:147-160 | Which reason a phase gives for a type it excludes, in the order they are looked for, and which for a wrong phase. |
| `Phases.ReactionReason` | conformance/check_history_snapshot.py:162-168 | A 5 with no 4 before it is the reason in phase 3, and in phase 1 where no 8 comes first. |
| `Phases.EndInvisible` | conformance/check_history_snapshot.py:143 | A 0 anywhere in the type list changes nothing. |
| `Phases.PhaseSplit` | conformance/check_history_snapshot.py:142-168 | A stream is legal in phase 3 if and only if its non-media part is legal in phase 1; its media part is always legal in phase 2. |
| `Phases.PhaseJoin` | conformance/check_history_snapshot.py:142-168 | The legal phase-3 streams are exactly the interleavings of a legal phase-1 body and a legal phase-2 body under one manifest. |
| `SealedChunks.SealStream` | scripts/gen_history_snapshot_vectors.py:267-280 | The sealing loop produces one frame per 64 KiB begun, each sealed under its index, and the empty frame; it raises if and only if the plaintext is over 2^48 bytes. |
| `SealedChunks.SealedBody` | scripts/gen_history_snapshot_vectors.py:273-278 | Body k byte for byte: index in four bytes, low first, and eight zeros as the nonce, then the 64 KiB from 65536 k on under it, with snapshot id, user id and index, in that order, as associated data. |
| `SealedChunks.SealedStreamBytes` | scripts/gen_history_snapshot_vectors.py:278-280 | Frame k of the sealed stream stands at 65568 k with its length in four bytes, low first; the stream ends in four zeros. |
| `SealedChunks.NoncesUnique` | scripts/gen_history_snapshot_vectors.py:275-276 | No two chunks of a file share a nonce or associated data. |
| `SealedChunks.ChunkFrames` | conformance/check_history_snapshot.py:123-135 | The framing loop returns the frames `ScanFrames` finds, or the first thing wrong. |
| `SealedChunks.AcceptsExactlyFramed` | conformance/check_history_snapshot.py:123-135 | The framing is accepted if and only if 7062 bytes are followed by frames of 29 to 65564 bytes, one empty frame and nothing else. |
| `SealedChunks.FramesFound` | conformance/check_history_snapshot.py:123-135 | The frames reported stand where those frames stand, and no other bodies frame to the same bytes. |
| `SealedChunks.FramingSelfDelimiting` | conformance/check_history_snapshot.py:127-131 | Accepted framing cut anywhere gives "no EOF frame"; with anything appended it gives "bytes after EOF". |
| `SealedChunks.FramingVerdict` | conformance/check_history_snapshot.py:123-135 | After a 7062-byte header and any whole frames of 29 to 65564 bytes, what follows decides the error: no EOF frame, bytes after EOF, a bad length with its value. |
| `SealedChunks.ShortFile` | conformance/check_history_snapshot.py:126-128 | A file under 7066 bytes has no EOF frame. |
| `SealedChunks.SealedFrames` | scripts/gen_history_snapshot_vectors.py:267-280 | On a header and a sealed stream there are ceil(n / 65536) frames, frame k at 7062 + 65568 k, its length 28 more than its text. |
| `SealedChunks.FullChunkAttainsBound` | conformance/check_history_snapshot.py:31 | Every full chunk attains the upper bound of the framing check. |
| `HistoryFile.EndToEnd` | scripts/gen_history_snapshot_vectors.py:267-294 | Writing, sealing, framing, opening and parsing any admitted records up to 2^48 bytes give back exactly those records. |
| `HistoryFile.TruncationDetected` | conformance/check_history_snapshot.py:123-135 | Dropping a non-empty tail of chunks and keeping the empty frame passes the framing check and opens, to a proper prefix that the stream reader rejects. |
| `HistoryFile.OnlyTheWholeFileReads` | conformance/check_history_snapshot.py:301-307 | Of all files made of a file's own chunks, reordered, repeated or left out, exactly the original reads, given that no chunk opens at another place. |
| `HistoryCheck.CheckStream` | conformance/check_history_snapshot.py:216-236 | The checker's verdict on a stream: parsed, legal in its phase, media fields in order, in that order of precedence, in terms of the stream's records. |
| `HistoryCheck.WrittenStreamVerdict` | conformance/check_history_snapshot.py:216-236 | On every stream a writer can produce nothing fails or raises: the verdict is fine exactly when the types are legal in the phase and every media record has its fields in order. |
| `HistoryCheck.FineExactly` | conformance/check_history_snapshot.py:216-236 | The verdict on any byte string is fine if and only if it is the writer's stream of admitted records whose types are legal in the phase and whose media fields all ascend. |
| `HistoryCheck.UnparsedExactly` | conformance/check_history_snapshot.py:221-225 | The verdict is an error of parsing if and only if the reader gives that error. |
| `HistoryCheck.DamagedUnparsed` | conformance/check_history_snapshot.py:221-225 | Every cut inside the records and every extension of an accepted stream is unparsed, with the error of its place. |
| `HistoryCheck.OtherVerdicts` | conformance/check_history_snapshot.py:234-236 | On written streams the reason of the phase comes first, then the verdict on the media payloads. |
| `HistoryCheck.MediaVerdictExactly` | conformance/check_history_snapshot.py:235-236 | Fine if and only if every payload has its fields in order; otherwise the first payload that is out of order or raises decides. |
| `KnstFrames.ReadsFrame` | conformance/check_knst_frame.py:35-51 | Reading a frame gives back every field and the payload, at the offsets of the layout; control and body as the rule says. |
| `KnstFrames.ReframesRead` | conformance/check_knst_frame.py:42-51 | Re-framing what the reader accepts gives the same bytes, and its fields fit their widths. |
| `KnstFrames.ReadsExactlyFrames` | conformance/check_knst_frame.py:42-45 | The reader accepts exactly the frames the writer can make. |
| `KnstFrames.ChunksExact` | conformance/check_knst_frame.py:67-72 | Splitting refuses exactly bodies over 965120 bytes; otherwise no header field overflows. |
| `KnstFrames.ChunksRead` | conformance/check_knst_frame.py:56-72 | What is read back from the frames of any body of n bytes: max(1, ceil(n / 3770)) of them, all with the content type, the id, the number of frames and n; frame i with index i and the 3770 bytes from 3770 i on. |
| `KnstFrames.ControlExactlyWhenWhole` | conformance/check_knst_frame.py:50-51 | The frames of a body are control frames if and only if it is at most 3770 bytes; then the one body read is the input. |
| `KnstFrames.Reassembles` | conformance/check_knst_frame.py:56-72 | Frames in any order, repeated, among frames of other messages and junk: with all held the join by index is the body; with one of two or more missing it is shorter than plaintext_length. |
| `KnstFrames.ReceiverConcludes` | conformance/check_knst_frame.py:56-72 | The same in the numbers of any one delivered frame of the message: holding all its total says, the receiver has the body and it is as long as the frame says; with one missing the join is shorter than the frame says. |
| `TransportVectors.InitialVectors` | conformance/check_transport_route.py:92-94 | The vectors of the initial state. |
| `TransportVectors.DirectVectors` | conformance/check_transport_route.py:96-119 | The vectors of failures and successes on the direct path. |
| `TransportVectors.ModeVectors` | conformance/check_transport_route.py:121-196 | The vectors of mode, path and reset outside `on`. |
| `TransportVectors.StartVectors` | conformance/check_transport_route.py:130-144 | The vectors of the proxy starting or failing, and of the cooldown. |
| `TransportVectors.FailureVectors` | conformance/check_transport_route.py:146-189 | The vectors of one failure while VEIL is up, or while offline, and of a direct answer. |
| `TransportVectors.LaneVectors` | conformance/check_transport_route.py:161-178 | The vectors of counting per lane. |
| `TransportVectors.RecoveryVectors` | conformance/check_transport_route.py:182-186 | The vectors of waking up and of changed configuration. |
| `TransportVectors.OnVectors` | conformance/check_transport_route.py:125-206 | The vectors under `on`. |
| `TransportRoute.OnRedirectsAuto` | conformance/check_transport_route.py:198-206 | In every cell off the direct path, and for reset and path change on it, `on` does what `auto` does, except that what lands on direct probes again after the same effects and a start, and a direct answer changes nothing. |
| `TransportRoute.OnRuleInEveryRun` | conformance/check_transport_route.py:198-206 | Wherever an announced run has come to while the mode is `on`, every event follows that rule: the cells it leaves out are not reached. |
| `TransportRoute.OnNeverDirect` | conformance/check_transport_route.py:198-206 | In every run from the initial state whose mode changes are announced, the state is never Direct while the mode is `on`. |
| `TransportRoute.OffNeverStarts` | conformance/check_transport_route.py:99-100 | In every run under `off` from Direct or Offline the state stays one of the two and no proxy start is requested. |
| `TransportRoute.OffNeverVeil` | conformance/check_transport_route.py:126-131 | In every announced run from the initial state, the state is Direct or Offline while the mode is `off`; this rests on two assumed cells. |
| `TransportRoute.ReplayFollowsState` | conformance/check_transport_route.py:75-79 | Replaying all effects of any run: the VEIL port is Some(p) exactly while active on p, the proxy is wanted exactly while probing or active, and a cooldown has its alarm. |
| `TransportRoute.RouteChangeDropsClient` | conformance/check_transport_route.py:121-129 | A step that moves the route or leaves Direct drops the cached client, with one exception: `auto` falling back to a direct path that answered. |
| `TransportRoute.ClientsKeepToTheirPath` | conformance/check_transport_route.py:122-125 | Over every run a client opened on the direct path is open only while Direct, one opened through VEIL only on that VEIL or back on Direct. |
| `TransportRoute.NoDirectClientUnderOn` | conformance/check_transport_route.py:122-125 | While the mode is `on`, nothing opened on the direct path is still open. |
| `TransportRoute.SoftFailsCount` | conformance/check_transport_route.py:153-178 | While VEIL is active a lane's count is the number of its counted failures since the later of activation and its last VEIL success, and it is below the threshold. |
| `TransportRoute.DemotesExactly` | conformance/check_transport_route.py:14-20 | A step demotes if and only if the failure blames the front or brings its lane to the threshold; the demotion names the front, comes first, and a full rotation follows. |
| `TransportRoute.DirectFailsCount` | conformance/check_transport_route.py:96-119 | In every run from the initial state, while Direct the count is the total weight of the failures since the path was entered, last answered or was started over; where escalation is allowed and the mode was never `off` in between it is below the threshold. |
| `TransportRoute.EscalatesExactly` | conformance/check_transport_route.py:96-125 | Direct is left for VEIL exactly by the counted failure that reaches the threshold, outside `off` and where allowed, or by a switch to `on` or starting over under it; every other event leaves the count, adds the weight or clears it. |
| `TransportRoute.LateStart` | conformance/check_transport_route.py:130-131 | In every mode a start reported on the direct path is torn down, with a stop and no port, and the state stays. |
| `TransportRoute.ProxyRunsExactlyWhileActive` | conformance/check_transport_route.py:130-142 | In every run with no start reported in a cooldown, the local proxy runs exactly while VEIL is active, Offline apart: nothing that comes up late stays beside the direct path. |
| `TransportRoute.InitialExactly` | conformance/check_transport_route.py:92-94 | Every initial state: Offline without a path, else Probing under `on` and Direct otherwise. |
| `TransportRoute.ActivatedExactly` | conformance/check_transport_route.py:133-136 | VEIL becomes active only from Probing by a started proxy, on its relay and port at the present time, nothing counted, routed and the client dropped. |
| `TransportRoute.CooldownExactly` | conformance/check_transport_route.py:137-144 | A cooldown is entered only by a failed start, for the configured time; what ends it, and that all else leaves it alone. |
| `TransportRoute.ProbingLeftExactly` | conformance/check_transport_route.py:126-141 | When Probing falls back to the direct path, with which effects, when it starts over, and that other events that leave it Probing do nothing. |
| `TransportRoute.ActiveLeftExactly` | conformance/check_transport_route.py:126-196 | Every way active VEIL is left, in every mode, with the effects in full and in order; all else keeps relay, port and time, and drops the client exactly on failures of VEIL that count or of its stream. |
| `TransportRoute.OfflineExactly` | conformance/check_transport_route.py:188-193 | Offline is entered by losing the path and left only by its return, with these effects. |
| `SeedRandom.SeedRng.constructor` | scripts/gen_history_crypto/src/main.rs:30-37 | A new generator stands at position 0 of the stream of its seed. |
| `SeedRandom.SeedRng.Refill` | scripts/gen_history_crypto/src/main.rs:39-46 | A refill moves to the start of the next block; at the end of a block no byte is skipped. |
| `SeedRandom.StreamBlocks` | scripts/gen_history_crypto/src/main.rs:39-46 | Block number c of a seed is the hash of the seed and c in eight bytes, low byte first; byte i of it is byte 32 c + i of the stream. |
| `SeedRandom.FirstBlocks` | scripts/gen_history_crypto/src/main.rs:39-46 | Bytes 0, 32 and 8192 of the stream, with the counter written out. |
| `SeedRandom.SeedRng.TryFillBytes` | scripts/gen_history_crypto/src/main.rs:64-73 | Filling n bytes writes bytes pos to pos + n of the seed's stream and moves the position by n, below 2^64 blocks. |
| `SeedRandom.SeedRng.TryNextU32` | scripts/gen_history_crypto/src/main.rs:52-56 | The next four bytes of the stream, little-endian. |
| `SeedRandom.SeedRng.TryNextU64` | scripts/gen_history_crypto/src/main.rs:58-62 | The next eight bytes of the stream, little-endian. |
| `SeedRandom.Draw` | scripts/gen_history_crypto/src/main.rs:49-74 | A generator serving any list of fills, u32s and u64s hands out one window of the stream from where it stood, as long as the requests together, and moves by that length. |
| `SeedRandom.SplitInvariant` | scripts/gen_history_crypto/src/main.rs:49-74 | Two lists of requests with the same total draw the same bytes. |
| `CEscapes.Unescape` | conformance/check_sticker_ref.py:38-62 | The decoding loop returns what `Decoded` says of the text between the quotes, or raises. |
| `CEscapes.UnescapesTokens` | conformance/check_sticker_ref.py:38-62 | Any sequence of hex, octal, named and plain tokens decodes to the bytes of its tokens, whatever follows each. |
| `CEscapes.NamedEscapes` | conformance/check_sticker_ref.py:49-61 | The six named escapes with their bytes; any other letter raises, and so does a backslash at the end. |
| `CEscapes.OctalEscapes` | conformance/check_sticker_ref.py:50-55 | One to three octal digits, as many as stand there, give their value; over 255 raises. |
| `CEscapes.HexEscapes` | conformance/check_sticker_ref.py:56-58 | A hex escape takes the next two characters and gives their value; with one left it takes that, with none it raises. |
| `CEscapes.TwoCharacters` | conformance/check_sticker_ref.py:57 | Which two characters a hex escape admits: two digits, or a digit with a space or a plus, or -0. |
| `CEscapes.HexDigits` | conformance/check_sticker_ref.py:57 | The 22 hexadecimal digits and their values. |
| `CEscapes.Utf8Exactly` | conformance/check_sticker_ref.py:45-46 | A plain character below 65536 gives its UTF-8 bytes: the shortest form, from which the code point reads back. |
| `CEscapes.Utf8Four` | conformance/check_sticker_ref.py:45-46 | A plain character from 65536 on gives four bytes, from which the code point reads back. |
| `CEscapes.UnescapeInvertsHex` | conformance/check_sticker_pack.py:24-25 | The decoder inverts the hex writer on every byte string. |
| `CEscapes.UnescapeInvertsOctal` | conformance/check_profile_share.py:27-30 | The decoder inverts the octal writer on every byte string. |
| `CEscapes.WriterDigits` | conformance/check_sticker_pack.py:24-25 | The writers' digits, and three escapes in full. |
| `ReadMarkers.Vectors` | conformance/check_read_markers.py:60-76 | The apply and covers vectors, for any two ids in order. |
| `ReadMarkers.LaterStrictTotal` | conformance/check_read_markers.py:40-42 | `later` is a strict total order. |
| `ReadMarkers.GreaterByFirstDifference` | conformance/check_read_markers.py:40-42 | Ids compare by their first differing byte, a proper prefix being smaller. |
| `ReadMarkers.BoundaryIsLatest` | conformance/check_read_markers.py:99-107 | After any deliveries the boundary is the latest of the own-account markers about the partner, and there is none if there were none. |
| `ReadMarkers.DevicesAgree` | core/envelope.proto:723-728 | Devices that got the same own-account markers, in any order with repeats and foreign ones in between, agree on every message. |
| `ReadMarkers.ReadExactly` | core/envelope.proto:723-728 | After any deliveries a message is read if and only if some own marker about its chat stands on it or after it. |
| `ReadMarkers.AnswersExactly` | conformance/check_read_markers.py:99-107 | "drop" exactly for other accounts; "apply" exactly when the marker is not yet covered, and then it moves the boundary and is covered. |
| `ReadMarkers.ReadStaysRead` | core/envelope.proto:725-728 | A message once read stays read. |
| `ReadMarkers.ForeignIgnored` | conformance/check_read_markers.py:100-101 | Markers from other accounts change nothing anywhere in a delivery sequence. |
| `ProfileShares.Vectors` | conformance/check_profile_share.py:54-76 | The apply vectors, and how set, removed, absent and short-keyed avatars read. |
| `ProfileShares.ReceiveExactly` | core/envelope.proto:689-697 | A strictly newer share replaces time and name and sets, clears or keeps the avatar; any other changes nothing. |
| `ProfileShares.SetExactly` | conformance/check_profile_share.py:78-79 | An avatar reads as set exactly when it is sent with a 32-byte key. |
| `ProfileShares.TimeIsMaximum` | conformance/check_profile_share.py:89-95 | The held edit time is the maximum delivered; redelivering anything delivered changes nothing. |
| `ProfileShares.RecordsAreMaxima` | core/envelope.proto:689-691 | A delivered share is applied if and only if it is newer than what was held at the start and than every earlier delivery. |
| `ProfileShares.HeldByRecords` | core/envelope.proto:689-697 | The avatar is the fold over the applied shares only, the name that of the last applied. |
| `ProfileShares.TimeConverges` | core/envelope.proto:689-691 | Receivers that held the same and got the same shares hold the same edit time. |
| `ProfileShares.NameConvergesExactly` | core/envelope.proto:689-691 | The name is independent of the order of delivery if and only if the shares with the greatest edit time, where newer than what is held, carry one name. |
| `ProfileShares.OneProfileDecidesName` | core/envelope.proto:690-691 | That holds when equal edit times mean equal profiles. |
| `ProfileShares.AvatarConvergesExactly` | core/envelope.proto:693-697 | The avatar is independent of the order of delivery if and only if the newest shares agree in setting or removing it, or no share newer than what is held would change it. |
| `ProfileShares.AvatarDependsOnOrder` | core/envelope.proto:693-697 | Two shares whose order decides the avatar. |
| `ContactCards.CardNeverLegacy` | conformance/check_contact_card.py:64-65 | Every card of 32-byte key, 32-byte address and uint32 generation, each optional, reads as a card: none is 32 bytes long. |
| `ContactCards.CardLayout` | conformance/check_contact_card.py:43-50 | The bytes of cards with a key, an address, a generation, and with all three, tags and lengths written out. |
| `ContactCards.WritableExactly` | conformance/check_contact_card.py:28-29 | A card cannot be written if and only if a field is over 255 bytes. |
| `ContactCards.LegacyExactly` | conformance/check_contact_card.py:64-66 | A payload is read as a bare key if and only if it is 32 bytes long. |
| `ContactCards.LongerExactlyWithKeyOrAddress` | core/envelope.proto:245-247 | A card is longer than 32 bytes if and only if it has a key or an address; a generation alone takes two to six. |
| `ContactCards.ShortKeyCollides` | conformance/check_contact_card.py:64-66 | A card with a 30-byte key alone reads as a bare intake key. |
| `ContactCards.CollidesExactly` | conformance/check_contact_card.py:64-66 | Of all cards with fields of any length, exactly those whose fields take 32 bytes together read as a bare intake key. |
| `ContactCards.FieldIsLengthDelimited` | conformance/check_contact_card.py:28-29 | `field` writes a protobuf length-delimited field if and only if the value is under 128 bytes. |

## Left out

- Unescape: Python's `int` also takes non-ASCII digits in a hex escape; there the model raises.
- Reassembles: the receiver that joins payloads by index is the one the frame layout describes; the script has only the splitter and the reader.
- OnlyTheWholeFileReads: the reader that opens chunks in order is the one the format describes; the scripts only seal. It says nothing of chunks forged or taken from other files.
- TryFillBytes: the overflow of the 64-bit block counter is excluded by a precondition; Rust panics or wraps there, depending on the build.
- ReadsWrittenFields: fields numbered 16 and up have two key bytes, which the reader does not expect; media blobs have none. Values of 2^64 bytes and more are excluded, which no Python value reaches.
- ProxyRunsExactlyWhileActive: runs in which a start is reported in a cooldown, right after it was reported failed, are excluded: no vector and no comment decides that cell.
- Frame: the reader's tests with another magic or version are covered by `ReadsExactlyFrames`, not by extra parameters.
- MediaPayloads: integers in byte strings are unbounded naturals cut to their width when written; a length of 2^64 and more does not occur.
- Event fields that no rule reads (stream method, latency, censored, restarted, reason of a failed start) and the platform's pool of fronts.
- Several markers in one read-marker envelope: they are delivered one after another here; UUID text, protobuf decoding and account identity of envelopes likewise.
- An avatar whose media is gone, and the download itself; a set avatar is what is held.
- SHA-256, HKDF, ChaCha20-Poly1305, Ed25519, ML-DSA, ML-KEM, X25519: parameters or absent.
- Files, subprocesses, JSON, command lines, error printing, and regular expressions over proto text.
- The encoders of single messages (manifest, contact, chat and so on), and the opening, reply and file header layouts: fixed lists and sums of constants.
- The content-type table, sticker pack, invite, device certificate and server trust checks: each reads off one branch.
- The service schemas, and the safety-number, device-copy-tag and token-seal vectors, which have no code here.
