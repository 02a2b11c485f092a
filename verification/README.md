# Verified model of the Ogentic audit log

This project models the audit-log engine of `ogentic-audit` and proves what it
is for. It covers both log formats: 0x0001, whose records are chained by an
HMAC key, and 0x0002, whose records are signed and whose bodies can be elided.

`dafny verify dfyconfig.toml` checks everything.

## How it is built

- **Bytes and codecs.** `Bytes`, `Sorting`, `Cbor`, `CborMaps`, `CborDecoder`,
  `IntMaps`, `Payload`, `Record`, `RecordSize`, `Segment`, `Calendar`; `Json`,
  `JsonParser`, `JsonCanonical`.
- **Format 0x0001.** `HmacLog` is the log as payloads and files. `HmacVerifier`,
  `HmacWriter`, `HmacRecovery` and `HmacReader` are the programs, each as a
  method or class in the source's loops, proved equal to a function.
  `HmacHistory` says which writer state and directory a history of appended
  records stands for. The theorems are in `HmacChain` (which logs are verified,
  and what a checkpoint pins), `HmacWritten`, `HmacReachable` and `HmacEveryRun`
  (every run verifies), `HmacCrash` and `HmacRuns` (crash and resume),
  `HmacSize` (the size bound), `HmacReading` (the reader of a growing log) and
  `HmacLive` (reader and writer, byte by byte).
- **Format 0x0002.** `SignedFormat`, `SignedVerifier`, `SignedWriter` are the
  programs; `SignedPin`, `SignedElision`, `SignedReads` and `SignedWritten` hold
  the theorems. `Trust`, `Dicts`, `Revocation` and `Acceptance` are the
  evaluation of pins, transitions and revocations; `TrustOrder`, `TrustScopes`
  and `TrustVerdict` say what it owes to the order of the statements.
- **Satellites.** `Ed25519` (classification of re-encoded signatures) and
  `Keychain` (creating a key under a lock, in any interleaving).

HMAC, SHA-256, CRC32, the curve and signing are uninterpreted functions, fields
of a datatype that every theorem quantifies over. None is assumed injective: a
theorem that needs it concludes "equal, or here are two inputs with one hash,
each of them hashed in one of the two logs".
A directory is the list of its segment files. Text in CBOR and in records is a
byte string that is valid UTF-8; text in JSON is a sequence of Unicode scalar
values. Integers are unbounded, and limits of the source's widths are written
out where a value can reach them.

Hypotheses about callers are predicates a caller can check before the call:
`HmacReachable.InputOk` and `Room` for format 0x0001, `SignedWritten.OpFit` for
format 0x0002. A crash leaves at least the header of the last file
(`HmacEveryRun.CutOk`, `HmacLive.MoveOk`).

Where code and documentation disagree, the model follows the code:

- `bump_ts_ms` is documented as adding a millisecond; at .999 it leaves the time
  as it is (`Calendar.BumpAddsOne`).
- The v0.1 format document asks for a comparison of wall and monotonic time
  within a session, and says record ids start at 0 and count up. The verifier
  compares wall times only, and checks neither ids nor segment numbers, nor
  that segments start at 0: `HmacChain.VerifiedIff` lists everything it does
  check. So `HmacChain.CheckpointPinsHistory` asks for a segment 0.
- The JSON parser's four hex digits may start with a plus sign; the comparison
  with the canonical form rejects such a document
  (`JsonCanonical.ParseIffPrint`).
- The order of the heads in a retirement or revocation can decide whether a
  record that contradicts one of them is noticed (`Acceptance.HeadOrderMatters`);
  it does not exactly when all heads that cover the record agree about it
  (`Acceptance.HeadOrderIrrelevantIff`). After the walk, heads that are missing
  or miscounted are reported, contradicted ones are not
  (`SignedVerifier.NamedHeadsReported`).
- The v0.2 format document (section 9.5) says the result of trust evaluation
  does not depend on the order of the statements. Which keys are trusted does
  not (`TrustOrder.StatementOrderIsIrrelevant`), but the scope a key inherits
  does: a record of one key is accepted under one order and out of scope under
  the other (`TrustVerdict.ScopeOrderMatters`). No order changes a scope exactly
  when no unpinned key can be reached with two different scopes of one principal
  (`TrustVerdict.ScopesIgnoreOrderIff`).
- A clock that steps back exactly one minute is accepted inside a segment and
  refused across a rollover (`HmacReachable.StepAcrossRollover` says exactly
  when).

## Model

| member | source | states |
|---|---|---|
| `Cbor.DecodeIffEncode` | `crates/ogentic-audit-core/src/cbor.rs:216-331` | Decoding accepts exactly the encodings of well-formed values: a value has one accepted encoding, and what is decoded re-encodes to the same bytes. |
| `Cbor.DecodeOfEncode` | `crates/ogentic-audit-core/src/cbor.rs:232-331` | An encoded value is read back, and exactly its bytes are consumed, whatever follows them. |
| `Cbor.EncodeOfDecode` | `crates/ogentic-audit-core/src/cbor.rs:232-407` | Whatever an item decoder accepts is well formed at its depth and is the encoding of what it returned. |
| `Cbor.EncodePrefixFree` | `crates/ogentic-audit-core/src/cbor.rs:216-226` | No encoding is a proper prefix of another. |
| `Cbor.HeadOrder` | `crates/ogentic-audit-core/src/cbor.rs:432-452` | Heads of one major type are ordered as their arguments are, in both canonical orders. |
| `CborDecoder.DecodeValueInner` | `crates/ogentic-audit-core/src/cbor.rs:232-331` | The decoder with its cursor and its loops computes the decoding function, error cases included. |
| `CborDecoder.DecodeArgument` | `crates/ogentic-audit-core/src/cbor.rs:333-407` | Arguments are read in shortest form only. |
| `CborDecoder.DecodeAll` | `crates/ogentic-audit-core/src/cbor.rs:216-226` | The whole input is one item, or the decoder says why not. |
| `CborMaps.MapIntKeys` | `crates/ogentic-audit-core/src/cbor.rs:80-96` | The integer-key encoder writes its pairs in canonical order. |
| `CborMaps.MapTextKeys` | `crates/ogentic-audit-core/src/cbor.rs:98-112` | The text-key encoder writes its pairs in canonical order. |
| `CborMaps.EncodeArray` | `crates/ogentic-audit-core/src/cbor.rs:114-121` | The array encoder writes its items after one head. |
| `CborMaps.SortedMapIsEncoding` | `crates/ogentic-audit-core/src/cbor.rs:80-112` | Whatever order entries arrive in, the bytes are the encoding of the map in canonical order. |
| `CborMaps.SortPassesOrderCheck` | `crates/ogentic-audit-core/src/cbor.rs:291-307` | With distinct keys, the encoder's sort always passes the decoder's order check. |
| `CborMaps.IntKeyOrders` | `crates/ogentic-audit-core/src/cbor.rs:422-428` | For unsigned integer keys the length-first order, the bytewise order and numeric order are one (RFC 8949 sections 4.2.1 and 4.2.3). |
| `CborMaps.TextKeyOrders` | `crates/ogentic-audit-core/src/cbor.rs:422-428` | For text keys the length-first and the bytewise order are one. |
| `IntMaps.KeyedMapDecodes` | `crates/ogentic-audit-core/src/cbor.rs:80-96` | A map written with increasing integer keys decodes to its entries, in the limits of either decoder. |
| `Payload.PayloadRoundTrip` | `crates/ogentic-audit-core/src/writer.rs:72-110` | Encoding, decoding and converting an event payload returns it, for payloads within the depth limit. |
| `Record.RecordDecodes` | `crates/ogentic-audit-core/src/writer.rs:812-841` | Every record the writer encodes is accepted by the strict decoder. |
| `Record.RecordReadsBack` | `crates/ogentic-audit-core/src/reader.rs:520-642` | The strict reader, the lenient verifier and crash recovery all read back the fields that were written. |
| `RecordSize.RecordNoLonger` | `crates/ogentic-audit-core/src/writer.rs:812-841` | A record's length is monotone in its fields and its id, and does not depend on session or link. |
| `RecordSize.EstimateDominates` | `crates/ogentic-audit-core/src/writer.rs:548-563` | The writer's size estimate is at least the framed length of the record, under any link and id. |
| `RecordSize.FinalizeNoLonger` | `crates/ogentic-audit-core/src/writer.rs:873-890` | The finalize record written later is no longer than the one estimated. |
| `Segment.HeaderRoundTrip` | `crates/ogentic-audit-core/src/segment.rs:141-198` | Parsing undoes writing; and a parsed header with zero reserved bytes is the writing of its fields. |
| `Segment.ReadOfFrame` | `crates/ogentic-audit-core/src/verifier.rs:1141-1188` | A complete frame is read back whatever surrounds it. |
| `Segment.ReadOfPartialFrame` | `crates/ogentic-audit-core/src/writer.rs:1182-1226` | Every non-empty strict prefix of a frame at the end of a file is torn. |
| `Segment.FrameOfRead` | `crates/ogentic-audit-core/src/segment.rs:217-224` | Whatever is read as a frame is the frame of its payload and tag. |
| `Calendar.CivilOfDays` | `crates/ogentic-audit-cli/src/checkpoint_file.rs:136-147` | A valid date survives the trip through its day number, negative eras included. |
| `Calendar.DaysOfCivil` | `crates/ogentic-audit-core/src/verifier.rs:1452-1460` | Every day number survives the trip through its date, which is valid. |
| `Calendar.ParsePreservesOrder` | `crates/ogentic-audit-core/src/verifier.rs:1425-1450` | On well-formed timestamps parsing is strictly order-preserving: text order is time order (RFC 3339 section 5.6). |
| `Calendar.BumpAddsOne` | `crates/ogentic-audit-core/src/writer.rs:896-921` | The bump adds exactly a millisecond, except at .999, where the time does not move; the result is well formed. |
| `Calendar.FormatReads` | `crates/ogentic-audit-cli/src/checkpoint_file.rs:121-134` | The time the command line prints denotes the instant it was made from, in every year, signed and longer ones included. |
| `HmacVerifier.VerifyRecords` | `crates/ogentic-audit-core/src/verifier.rs:263-498` | The record loop of a segment is the walk function: which violation, where, and after how many records. |
| `HmacVerifier.VerifyWithOptions` | `crates/ogentic-audit-core/src/verifier.rs:126-537` | The nested loops compute the report function, without forensic mode. |
| `HmacChain.VerifiedIff` | `crates/ogentic-audit-core/src/verifier.rs:126-537` | Exactly which logs are Verified: sound headers that name the last link before them, whole frames, every record linked, under the key and not more than a minute back, and the checkpoint's record present in its segment under its id and tag; ids, segment numbers and monotonic times are free. |
| `HmacChain.VerifiedIsChain` | `crates/ogentic-audit-core/src/verifier.rs:181-503` | A verified log from segment 0 is one chain from its genesis header across all segments, with the reported count and head, and holds the checkpoint's tag, in a record of the checkpoint's segment and id. |
| `HmacChain.CheckpointPinsHistory` | `crates/ogentic-audit-core/src/checkpoint.rs:76-85` | Two verified logs, one verified against a checkpoint taken from the other, have the same genesis header and the same payloads up to that record, or a collision of the tag function is exhibited. |
| `HmacWriter.Writer.AppendFramed` | `crates/ogentic-audit-core/src/writer.rs:643-660` | One frame appended: the whole new state of directory and segment. |
| `HmacWriter.Writer.Rollover` | `crates/ogentic-audit-core/src/writer.rs:665-708` | Finalize record, then the next segment chained from it; at the last index an error after the finalize record. |
| `HmacWriter.Writer.Append` | `crates/ogentic-audit-core/src/writer.rs:545-595` | The whole new state of an append, the returned id, and that a refused input changes nothing. |
| `HmacHistory.RecordStep` | `crates/ogentic-audit-core/src/writer.rs:643-660` | Writing a record takes the state of a history to the state of the history one record longer. |
| `HmacHistory.AppendStep` | `crates/ogentic-audit-core/src/writer.rs:545-708` | Every append, rollovers included, ends in the one state of the history it makes. |
| `HmacHistory.FreshRepresents` | `crates/ogentic-audit-core/src/writer.rs:726-750` | A new log stands for the empty history. |
| `HmacWritten.WrittenLogVerifies` | `crates/ogentic-audit-core/src/verifier.rs:126-537` | A written log is Verified, with every frame inspected and the writer's last tag as final tag, with no checkpoint or any record's tag as checkpoint. |
| `HmacWritten.RegressionIsCaught` | `crates/ogentic-audit-core/src/verifier.rs:1388-1422` | A record more than a minute before its predecessor is reported in its place. |
| `HmacRecovery.ScanSegmentForRecovery` | `crates/ogentic-audit-core/src/writer.rs:1004-1163` | The recovery scan's loop is the scan function, error cases included. |
| `HmacRecovery.OpenDir` | `crates/ogentic-audit-core/src/writer.rs:443-533` | Opening scans only the last segment; fresh, resumed, repaired, next segment opened, or refused. |
| `HmacCrash.ScanOfCut` | `crates/ogentic-audit-core/src/writer.rs:1004-1226` | The scan of a written segment cut at any byte past its header keeps exactly the complete frames and reports the rest. |
| `HmacCrash.RecoverySimulates` | `crates/ogentic-audit-core/src/writer.rs:443-533` | Reopening after a crash at any byte reaches the one state of the shortened history, reports truncated bytes, tag, last id and action, and completes the rollover of a surviving finalize record. |
| `HmacRuns.TraceClosed` | `crates/ogentic-audit-core/src/writer.rs:545-708` | The states an uninterrupted run passes through are closed under losing records and completing rollovers. |
| `HmacRuns.RecoveredIsPassed` | `crates/ogentic-audit-core/src/writer.rs:443-533` | Wherever a run is cut, the recovered history is one the uninterrupted run passes through. |
| `HmacEveryRun.ReopenedIsPassed` | `crates/ogentic-audit-core/src/writer.rs:443-533` | Opening the directory of any state of a run, cut at any byte past the last header, succeeds with a writer state that the uninterrupted run passes through. |
| `HmacReachable.AppendKeeps` | `crates/ogentic-audit-core/src/writer.rs:545-595` | Every state an append passes through keeps the invariant of well-formed, in-order, readable logs. |
| `HmacReachable.CrashKeeps` | `crates/ogentic-audit-core/src/writer.rs:1004-1163` | Recovery restores that invariant wherever the crash fell. |
| `HmacReachable.StepAcrossRollover` | `crates/ogentic-audit-core/src/writer.rs:847-867` | Exactly how far a clock may step back inside a segment and across a rollover, in both directions. |
| `HmacEveryRun.RunKeeps` | `crates/ogentic-audit-core/src/writer.rs:402-708` | No run of appends and crashes gets stuck: every reopening succeeds and the state is that of the run's history. |
| `HmacEveryRun.EveryRunVerifies` | `crates/ogentic-audit-core/src/verifier.rs:126-537` | From an empty directory, any sequence of appends and crashes, with any segment size, ends in a Verified log with all frames inspected and the writer's tag as final tag. |
| `HmacSize.SegmentSizeBound` | `crates/ogentic-audit-core/src/writer.rs:565-578` | After any run with rollover on, every file is within the configured size, finalize record included, unless it holds one record besides the finalize record. |
| `HmacReader.RecordIterator.NextRecord` | `crates/ogentic-audit-core/src/reader.rs:320-379` | The iterator's loop is the cursor function: its new position and its output. |
| `HmacReader.Seek` | `crates/ogentic-audit-core/src/reader.rs:215-250` | The seek loop is the search function. |
| `HmacReading.CallKeeps` | `crates/ogentic-audit-core/src/reader.rs:320-379` | Whatever part of the log is visible, a call yields the next record or leaves everything ahead; it fails only on an unfinished write. |
| `HmacReading.ReaderNeverSkips` | `crates/ogentic-audit-core/src/reader.rs:320-379` | Over any disks that grow into a log, one per call, the records yielded are a prefix of those appended. |
| `HmacReading.ReaderCatchesUp` | `crates/ogentic-audit-core/src/reader.rs:320-379` | From any position, once the writer stops enough calls yield everything that was ahead. |
| `HmacReading.ReaderFollowsRun` | `crates/ogentic-audit-core/src/reader.rs:461-509` | A reader that starts on the log a run left, crashes included, while its bytes become visible: a prefix at any time, everything in the end. |
| `HmacLive.ReaderFollowsWriter` | `crates/ogentic-audit-core/src/reader.rs:320-379` | Writer and reader as one system of single byte writes, calls and kills, in any order: what is yielded is always a prefix of the log's records, across kills and reopenings too, and when the writer rests enough calls yield all of it. |
| `HmacLive.MoveKeeps` | `crates/ogentic-audit-core/src/reader.rs:461-509` | Each byte, call, append or kill keeps the reader in front of the first record it has not yielded, with everything before it visible and surviving. |
| `HmacLive.MoveShows` | `crates/ogentic-audit-core/src/writer.rs:643-708` | Every byte the writer writes grows the last file or follows the start of a new one: no visible byte changes, and a segment never changes once the next exists. |
| `HmacLive.SeenGrow` | `crates/ogentic-audit-core/src/reader.rs:461-509` | The disks that the calls of a run without kills see are growing ones. |
| `HmacReading.SeekFinds` | `crates/ogentic-audit-core/src/reader.rs:215-250` | Seeking a written log finds exactly the records that exist, with the fields appended. |
| `JsonParser.WriteString` | `crates/ogentic-audit-core/src/signed/json.rs:209-227` | The string writer pushes exactly the canonical escapes. |
| `JsonParser.WriteValue` | `crates/ogentic-audit-core/src/signed/json.rs:154-196` | The value writer pushes the canonical form. |
| `JsonParser.Parser.ReadValue` | `crates/ogentic-audit-core/src/signed/json.rs:304-326` | The parser's value method moves its position as the parsing function says. |
| `JsonParser.Parser.ReadObject` | `crates/ogentic-audit-core/src/signed/json.rs:328-363` | Objects: ASCII keys, no duplicates, members kept in key order. |
| `JsonParser.Parser.ReadArray` | `crates/ogentic-audit-core/src/signed/json.rs:365-384` | Arrays. |
| `JsonParser.Parser.ReadNumber` | `crates/ogentic-audit-core/src/signed/json.rs:386-405` | Integers without leading zeros, up to 2^53 - 1. |
| `JsonParser.Parser.ReadString` | `crates/ogentic-audit-core/src/signed/json.rs:407-477` | Strings, escapes and surrogate pairs. |
| `JsonParser.ParseDocument` | `crates/ogentic-audit-core/src/signed/json.rs:261-280` | The document parser, with its comparison against the canonical form. |
| `JsonCanonical.ValueParses` | `crates/ogentic-audit-core/src/signed/json.rs:304-477` | A printed value of the subset is parsed back at any position, before anything that may follow a value. |
| `JsonCanonical.ParsedInSubset` | `crates/ogentic-audit-core/src/signed/json.rs:304-477` | Whatever parses is in the subset: depth, integer range, sorted ASCII keys. |
| `JsonCanonical.ParseIffPrint` | `crates/ogentic-audit-core/src/signed/json.rs:261-280` | The parser accepts exactly the printings of the subset, each as the value printed. |
| `JsonCanonical.PrintInjective` | `crates/ogentic-audit-core/src/signed/json.rs:57-61` | Different values of the subset print differently. |
| `SignedFormat.SignedHeaderRoundTrip` | `crates/ogentic-audit-core/src/signed/format.rs:92-132` | Header fields survive encoding and decoding, whatever follows. |
| `SignedFormat.ReadFrame` | `crates/ogentic-audit-core/src/signed/format.rs:406-447` | Reading a frame step by step from a reader is the reading function, and leaves the reader behind the record. |
| `SignedFormat.SignedReadOfFrame` | `crates/ogentic-audit-core/src/signed/format.rs:354-366` | A framed record with a non-empty or absent body is recovered, whatever surrounds it. |
| `SignedFormat.SignedReadOfPartial` | `crates/ogentic-audit-core/src/signed/format.rs:406-447` | Every non-empty strict prefix of a frame at the end of a file is torn. |
| `SignedFormat.SignedFrameOfRead` | `crates/ogentic-audit-core/src/signed/format.rs:354-447` | Whatever is read is the frame of what was read. |
| `SignedVerifier.VerifyFrames` | `tools/gen_vectors_v02.py:3091-3210` | The loop over a segment's records is the walk function. |
| `SignedVerifier.VerifySegments` | `tools/gen_vectors_v02.py:3010-3223` | The loop over segments is the walk function. |
| `SignedVerifier.VerifySignedLog` | `tools/gen_vectors_v02.py:2960-3329` | The verifier computes the result function, without checkpoint and witness files. |
| `SignedVerifier.NamedHeadsReported` | `tools/gen_vectors_v02.py:3280-3298` | After a walk that was not stopped, exactly the named heads of this log that are missing, or have another count under the same hash, are reported. |
| `SignedPin.NoViolationIsGood` | `tools/gen_vectors_v02.py:3010-3223` | A log without violations is a chain: every record names its segment, position and link and commits to its body; every header continues the segment before, which is not empty. |
| `SignedPin.HashPinsLog` | `tools/gen_vectors_v02.py:81-82` | Two such logs with one record hash in common have it in the same place and agree on every header and envelope up to it, or a string hashed in the one and a different string hashed in the other have one hash. |
| `SignedPin.OneHeadPinsEverySegment` | `tools/gen_vectors_v02.py:2960-3329` | The same, for two logs on which the verifier finds no violation. |
| `SignedPin.PinnedBodies` | `tools/gen_vectors_v02.py:3165-3175` | Under equal envelopes, bodies agree wherever both are present, or two different strings hashed in the two logs have one hash. |
| `SignedElision.ElisionPreservesVerdict` | `tools/gen_vectors_v02.py:3091-3210` | Removing any set of non-structural bodies from a violation-free log leaves the report as it was but for the list of elided records, and all record hashes and positions. |
| `SignedElision.ElidedAreThose` | `tools/gen_vectors_v02.py:3165-3177` | That list names exactly the records elided now or before. |
| `SignedWriter.Writer.Write` | `tools/gen_vectors_v02.py:682-707` | One record written: the whole new state. |
| `SignedWriter.Writer.Rollover` | `tools/gen_vectors_v02.py:730-745` | A finalize record, then the next segment. |
| `SignedWriter.Writer.Append` | `tools/gen_vectors_v02.py:713-728` | The whole new state of an append, with the rollover decision. |
| `SignedWriter.Writer.SealLog` | `tools/gen_vectors_v02.py:747-758` | The seal record written last. |
| `SignedReads.EnvelopeReads` | `tools/gen_vectors_v02.py:543-569` | The verifier reads a written envelope back and accepts its keys and event. |
| `SignedReads.EnvelopeFields` | `tools/gen_vectors_v02.py:543-569` | Each field of a written envelope is found under its key. |
| `SignedReads.BodyReads` | `tools/gen_vectors_v02.py:572-573` | A written body hashes, decodes and has the keys the verifier wants. |
| `SignedReads.FinalizeChecks` | `tools/gen_vectors_v02.py:730-745` | The finalize record's payload passes the rollover check in its place. |
| `SignedWritten.RecordTaken` | `tools/gen_vectors_v02.py:3120-3210` | Every record written in its place is taken without a violation, with the walk's whole new state. |
| `SignedWritten.SignedRunsAreAccepted` | `tools/gen_vectors_v02.py:642-758` | Every log built by append, rollover and an optional final seal gives no violation, is Verified when its key is pinned for records, and is head-anchored exactly when sealed. |
| `SignedWritten.PinnedKeyAdmits` | `tools/gen_vectors_v02.py:2787-2879` | With the key pinned for records and no statements, the evaluation is one that accepts its records. |
| `Trust.Extend` | `tools/gen_vectors_v02.py:2803-2829` | The loop ends on every input, cycles included, in the entries that passes over the transitions in their order settle to; they are exactly the pairs reachable from the pins along followed transitions of keys that may hand over, and every entry's path starts at a pin of its principal with its scope. |
| `Trust.Visit` | `tools/gen_vectors_v02.py:2808-2828` | One transition gives the new key, for each principal it lacks, one entry: the scope of the first entry of the old key that may hand over, and its path extended; nothing else changes. |
| `Trust.AfterEdgesGrow` | `tools/gen_vectors_v02.py:2803-2829` | A pass keeps every entry's path and scope legitimate and only adds pairs; if it adds none, the entries are closed under the transitions. |
| `Trust.FixpointIsReach` | `tools/gen_vectors_v02.py:2803-2829` | At a fixpoint the trusted pairs are the reachable ones, both directions. |
| `Trust.LiveIffHandsOver` | `tools/gen_vectors_v02.py:2812-2814` | A trusted key has an entry that may hand over exactly when no pin narrows it. |
| `Revocation.CollectRevocations` | `tools/gen_vectors_v02.py:2830-2857` | The loop over revocations refuses exactly when an unauthorised one is fatal, and otherwise gives every effective key its cut. |
| `Revocation.CutIsIntersection` | `tools/gen_vectors_v02.py:2848-2857` | As sets, cut points are the intersection over authority revocations; a key that only revoked itself keeps nothing. |
| `Revocation.CutIgnoresOrder` | `tools/gen_vectors_v02.py:2848-2857` | Order and repetition of revocations do not change a cut. |
| `Revocation.MoreRevocationsShrink` | `tools/gen_vectors_v02.py:2848-2857` | Once there is an authority revocation, others only shrink the cut. |
| `Revocation.Evaluate` | `tools/gen_vectors_v02.py:2787-2879` | The whole evaluation: the entries that the followed transitions settle to in their order, scopes and paths included, under the cuts; retirements, equivocations, or the refusal. |
| `Dicts.DictMembers` | `tools/gen_vectors_v02.py:2798-2801` | Keyed by hash, a dictionary holds exactly the documents given, if no two share a hash. |
| `TrustOrder.EdgesAre` | `tools/gen_vectors_v02.py:2798-2829` | The edges walked are those of the transitions followed, whatever the grouping. |
| `TrustOrder.EquivocalAre` | `tools/gen_vectors_v02.py:2801-2801` | A key is equivocal exactly when two different transitions retire it. |
| `TrustOrder.RetiredAre` | `tools/gen_vectors_v02.py:2864-2871` | A key is retired exactly by its one followed transition. |
| `TrustOrder.StatementOrderIsIrrelevant` | `tools/gen_vectors_v02.py:2787-2879` | The same documents in any order and number give the same trusted pairs, cuts, retirements, equivocations and refusal; scopes apart. |
| `TrustOrder.MoreRevocationsTrustLess` | `tools/gen_vectors_v02.py:2830-2863` | Further revocations of keys that already have an authority revocation shrink cuts and never add a trusted pair. |
| `TrustScopes.ScopesAre` | `tools/gen_vectors_v02.py:2788-2829` | A pinned key has exactly its pins' scopes; any other key has one scope for each principal, and it was carried there from a pinned key of that principal over unpinned ones. |
| `TrustScopes.PathListedFirst` | `tools/gen_vectors_v02.py:2803-2829` | The transitions of a path, listed first, give its last key the scope that the path carries. |
| `TrustVerdict.ScopesIgnoreOrderIff` | `tools/gen_vectors_v02.py:2803-2829` | No order or number of the same statements gives any key another scope exactly when no unpinned key can be reached with two scopes of one principal. |
| `TrustVerdict.ScopeOrderMatters` | `tools/gen_vectors_v02.py:2818-2827` | That condition can fail: two pins and two transitions whose order decides between accepted and out of scope. |
| `TrustVerdict.AcceptIgnoresOrder` | `tools/gen_vectors_v02.py:2882-2938` | Where scopes are unambiguous and the heads of the key's cut agree about the object, the order of the statements does not decide whether it is accepted, or why not. |
| `Acceptance.CoveredIsPrefix` | `tools/gen_vectors_v02.py:2888-2905` | What a retired or revoked key may still vouch for is a prefix of each log. |
| `Acceptance.FirstCoverDecides` | `tools/gen_vectors_v02.py:2888-2905` | An object is beyond a list of heads exactly when none covers it; otherwise the first head that covers it alone decides whether it is a mismatch. |
| `Acceptance.HeadOrderIrrelevantIff` | `tools/gen_vectors_v02.py:2888-2905` | No order of the heads changes the outcome exactly when all heads that cover the object agree on whether they contradict it. |
| `Acceptance.HeadOrderMatters` | `tools/gen_vectors_v02.py:2893-2904` | That condition can fail: a record and two heads whose order decides. |
| `Ed25519.OrderIs` | `crates/ogentic-audit-core/src/signed/ed25519.rs:119-123` | The 32-byte constant is the order of the base point, least significant byte first. |
| `Ed25519.ReencodeSPlusL` | `crates/ogentic-audit-core/src/signed/ed25519.rs:118-132` | The carry loop adds the order to the scalar, modulo 2^256, and leaves the rest. |
| `Ed25519.NoLostCarry` | `crates/ogentic-audit-core/src/signed/ed25519.rs:118-132` | No carry is lost exactly when the sum fits, which it does for every scalar below the order. |
| `Ed25519.ReencodingIsRecognised` | `crates/ogentic-audit-core/src/signed/ed25519.rs:63-113` | For every accepted signature the re-encoded one is Reencoded, never accepted and never a mismatch; and only signatures that satisfy the equation become so (RFC 8032 section 5.1.7). |
| `Ed25519.AcceptedEncodingIsUnique` | `crates/ogentic-audit-core/src/signed/ed25519.rs:88-101` | With one R and one scalar modulo the order there is one accepted signature. |
| `Keychain.DecodeIffEncode` | `crates/ogentic-audit-keychain/src/signer.rs:74-100` | Items and seeds are one to one; nothing of another length or tag is an item. |
| `Keychain.Account.CreateLocked` | `crates/ogentic-audit-keychain/src/signer.rs:244-266` | An absent key is written and read back; a present one is left and reported. |
| `Keychain.Account.LoadOrGenerate` | `crates/ogentic-audit-keychain/src/signer.rs:269-276` | The stored key is returned, made first if absent. |
| `Keychain.StepKeeps` | `crates/ogentic-audit-keychain/src/signer.rs:160-188` | Every step of every process, faults and deaths included, keeps one lock holder and what each process knows of the store. |
| `Keychain.AloneIsCall` | `crates/ogentic-audit-keychain/src/signer.rs:239-286` | Among any other processes, a call that nothing interrupts does to the store, and returns, what the account's method does. |
| `Keychain.NeverOverwritten` | `crates/ogentic-audit-keychain/src/signer.rs:239-286` | In every interleaving a stored key is left as it is by every step but a delete, and written at most once between deletes. |
| `Keychain.SignersHoldTheStoredKey` | `crates/ogentic-audit-keychain/src/signer.rs:239-276` | While nothing is deleted, all calls that returned a signer hold the one stored key. |

## Left out

- Forensic mode, `--segment` filtering and report rendering: a violation is its kind and place; messages, hex strings and evidence are not modelled.
- File I/O, fsync, permissions, directory listing, memory maps: a directory is a list of files, and an append, a truncation or a read of it is one step.
- A last file shorter than its header is refused on reopening and needs manual repair; crashes that leave one are outside the crash theorems.
- `now_rfc3339`, random session ids, nonces and seeds: parameters.
- The reader's directories: `HmacReader` reads a log whose segment files run from 0 without gaps.
- `TrustVerdict.AcceptIgnoresOrder`: one direction; when scopes are ambiguous, another principal's entry of the same key may still decide every namespace alike.
- `HmacLive.ReaderFollowsWriter`: a kill leaves every byte that was visible; after a loss of power a reader may already have yielded records that the log then loses.
- Atomicity of `next_record`: a call sees the disk at one instant; the source reads a file's length before it looks for the next file.
- Malformed dates in timestamps: `ParseTsMs` follows the source's unsigned wrap-around; a debug build would stop with an overflow instead.
- `HmacEveryRun.EveryRunVerifies`: for at most 10,000 segments, because file names hold four digits, and for records within the decoder's depth and 32 MiB, because recovery treats longer ones as torn.
- `Record.WfInput`: text is valid UTF-8 and integers are in range, as the source's types say; nesting below the depth limit is a hypothesis, because `append` does not check it.
- Checkpoint and witness files of the signed verifier: parsing and their signatures; the attested head and the heads named by retirements and revocations are modelled.
- `SignedVerifier.ReadBody`: where the Python oracle stops with an exception on a body or a structural payload that is text or a list, the model's result is `Raises`; the corner where such a list reads as pairs is not modelled.
- `SignedVerifier.MsOf`: the oracle's time parser is a parameter (`toMs`), because it goes through floating point.
- `SignedVerifier.CheckRollover`: compares `final_hash` with the link as decoded values.
- `SignedWritten.SignedRunsAreAccepted`: payloads are within the limits of both decoders, and the formatter of a bumped time reads back at most a millisecond later.
- The Rust modules of the signed verifier, writer and trust evaluation: the Python oracle, the one full source of that behaviour, is modelled instead.
- Trust files, SSHSIG armor, statement files and their signatures: an evaluation starts from parsed pins, transitions and revocations.
- `to_pretty` and the report values `true`, `false` and `null` of the JSON printer have no parser counterpart.
- Release folders, PDF export, the command line, bindings and the MCP middleware: plumbing or user interface.
- The keychain's public-key display file: best effort in the source and never read when signing.
