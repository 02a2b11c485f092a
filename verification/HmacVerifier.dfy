/** The verifier of format 0x0001, stopping at the first violation. */
module HmacVerifier {
  import opened Bytes
  import opened Cbor
  import opened Record
  import opened Segment
  import opened Calendar

  datatype Kind =
    | HmacMismatch | ChainBreak | RecordCorrupt | TimestampRegression | SegmentDiscontinuity
    | KeyIdMismatch | HeaderCorrupt | UnknownVersion | CheckpointMismatch | CheckpointTruncated

  datatype Violation = Violation(kind: Kind, segment: nat, recordId: Option<nat>, offset: nat)

  /** A previously observed chain head. */
  datatype Checkpoint = Checkpoint(keyId: Digest, segment: nat, recordId: nat, hmac: Digest) {
    predicate MatchesKey(id: Digest) { keyId == id }
    predicate IsPosition(index: nat, id: nat) { segment == index && recordId == id }
  }

  datatype Verdict = Verified | Violated

  datatype Report = Report(
    verdict: Verdict, segmentsInspected: nat, recordsInspected: nat, lastSegment: Option<nat>,
    finalHmac: Option<Digest>, violation: Option<Violation>)

  datatype VerifyError = NoSegments | CheckpointKeyMismatch

  const MAX_TS_DRIFT_MS := 60_000

  /** What is carried from record to record, across segments. */
  datatype Walk = Walk(records: nat, priorTs: Option<int>, reached: bool)

  /** How a walk ends: with the chain head, or at a violation after that many
      framed records. */
  datatype Outcome = Clean(head: Digest, walk: Walk) | Bad(violation: Violation, records: nat)

  // ---- one record ----

  datatype Checked = Passed(recordId: nat, walk: Walk) | Failed(violation: Violation)

  /** Steps 3 to 8, for a payload whose tag already matched. */
  function CheckPayload(c: Crypto, cp: Option<Checkpoint>, index: nat, payload: bytes, offset: nat, prev: Digest,
      expectId: nat, w: Walk): Checked
  {
    match Decode(RUST_LIMITS, payload)
    case Err(_) => Failed(Violation(RecordCorrupt, index, Some(expectId), offset))
    case Ok(v) =>
      match ReaderDecodeRecordMap(v)
      case None => Failed(Violation(RecordCorrupt, index, Some(expectId), offset))
      case Some(r) =>
        var at := Some(r.recordId);
        var ts := ParseTsMs(r.tsWall);
        if r.prevHash != prev then Failed(Violation(ChainBreak, index, at, offset))
        else if r.keyId != c.keyId then Failed(Violation(KeyIdMismatch, index, at, offset))
        else if w.priorTs.Some? && ts - w.priorTs.value < -MAX_TS_DRIFT_MS then
          Failed(Violation(TimestampRegression, index, at, offset))
        else if cp.Some? && cp.value.IsPosition(index, r.recordId) && c.sign(payload) != cp.value.hmac then
          Failed(Violation(CheckpointMismatch, index, at, offset))
        else
          var here := cp.Some? && cp.value.IsPosition(index, r.recordId);
          Passed(r.recordId, Walk(w.records, Some(ts), w.reached || here))
  }

  /** A framed record: the tag first, then the rest. */
  function CheckRecord(c: Crypto, cp: Option<Checkpoint>, index: nat, payload: bytes, hmac: Digest, offset: nat,
      prev: Digest, expectId: nat, w: Walk): Checked
  {
    if c.sign(payload) != hmac then Failed(Violation(HmacMismatch, index, Some(expectId), offset))
    else CheckPayload(c, cp, index, payload, offset, prev, expectId, w)
  }

  // ---- one segment ----

  function CheckHeader(c: Crypto, seg: SegFile, priorFinal: Option<Digest>): Result<Digest, Violation> {
    var b, at := seg.data, (kind: Kind, offset: nat) => Err(Violation(kind, seg.index, None, offset));
    if |b| < HEADER_LEN then at(HeaderCorrupt, 0)
    else if b[..4] != Magic() then at(HeaderCorrupt, 0)
    else if FromLe(b[4..6]) != FORMAT_VERSION then at(UnknownVersion, 4)
    else if FromLe(b[72..76]) != c.crc32(b[..HEADER_BODY_LEN]) then at(HeaderCorrupt, 72)
    else if Fields(b).keyId != c.keyId then at(KeyIdMismatch, 8)
    else if b[76..80] != [0, 0, 0, 0] then at(HeaderCorrupt, 76)
    else if priorFinal.Some? && Fields(b).prevFinal != priorFinal.value then at(SegmentDiscontinuity, 40)
    else if seg.index == 0 then Ok(c.sign(b[..HEADER_BODY_LEN]))
    else Ok(Fields(b).prevFinal)
  }

  function WalkRecords(c: Crypto, cp: Option<Checkpoint>, seg: SegFile, offset: nat, prev: Digest, expectId: nat,
      w: Walk): Outcome
    decreases |seg.data| - offset
  {
    if offset >= |seg.data| then Clean(prev, w)
    else
      match ReadFrame(seg.data, offset, NO_CAP)
      case Torn => Bad(Violation(RecordCorrupt, seg.index, None, offset), w.records)
      case Framed(payload, hmac, end) =>
        match CheckRecord(c, cp, seg.index, payload, hmac, offset, prev, expectId, w.(records := w.records + 1))
        case Failed(v) => Bad(v, w.records + 1)
        case Passed(id, w') => WalkRecords(c, cp, seg, end, hmac, id + 1, w')
  }

  function WalkSegment(c: Crypto, cp: Option<Checkpoint>, seg: SegFile, priorFinal: Option<Digest>, w: Walk): Outcome {
    match CheckHeader(c, seg, priorFinal)
    case Err(v) => Bad(v, w.records)
    case Ok(start) => WalkRecords(c, cp, seg, HEADER_LEN, start, 0, w)
  }

  // ---- the whole directory ----

  /** Segments `i` and later; a report when the walk ends. */
  function WalkFrom(c: Crypto, cp: Option<Checkpoint>, dir: seq<SegFile>, i: nat, priorFinal: Option<Digest>, w: Walk)
      : Report
    requires i <= |dir|
    decreases |dir| - i
  {
    if i == |dir| then Finish(cp, dir, priorFinal, w)
    else
      match WalkSegment(c, cp, dir[i], priorFinal, w)
      case Bad(v, n) => Report(Violated, i + 1, n, Some(dir[i].index), None, Some(v))
      case Clean(head, w') => WalkFrom(c, cp, dir, i + 1, Some(head), w')
  }

  /** After a clean walk: a checkpoint that was never reached was cut off. */
  function Finish(cp: Option<Checkpoint>, dir: seq<SegFile>, final: Option<Digest>, w: Walk): Report {
    var last := if dir == [] then None else Some(dir[|dir| - 1].index);
    if cp.Some? && !w.reached then
      Report(Violated, |dir|, w.records, last, final,
             Some(Violation(CheckpointTruncated, cp.value.segment, Some(cp.value.recordId), 0)))
    else Report(Verified, |dir|, w.records, last, final, None)
  }

  function Verify(c: Crypto, cp: Option<Checkpoint>, dir: seq<SegFile>): Result<Report, VerifyError> {
    if dir == [] then Err(NoSegments)
    else if cp.Some? && !cp.value.MatchesKey(c.keyId) then Err(CheckpointKeyMismatch)
    else Ok(WalkFrom(c, cp, dir, 0, None, Walk(0, None, false)))
  }

  predicate IsVerified(c: Crypto, cp: Option<Checkpoint>, dir: seq<SegFile>) {
    Verify(c, cp, dir).Ok? && Verify(c, cp, dir).value.verdict == Verified
  }

  // ---- the loops ----

  /** The record loop of one segment. */
  method VerifyRecords(c: Crypto, cp: Option<Checkpoint>, seg: SegFile, start: Digest, w: Walk) returns (r: Outcome)
    ensures r == WalkRecords(c, cp, seg, HEADER_LEN, start, 0, w)
  {
    hide ReadFrame, CheckPayload, Decode;
    var prev, offset: nat, expectId: nat, walk := start, HEADER_LEN, 0, w;
    while offset < |seg.data|
      invariant WalkRecords(c, cp, seg, HEADER_LEN, start, 0, w)
          == WalkRecords(c, cp, seg, offset, prev, expectId, walk)
      decreases |seg.data| - offset
    {
      var framed := ReadFrame(seg.data, offset, NO_CAP);
      if framed.Torn? {
        return Bad(Violation(RecordCorrupt, seg.index, None, offset), walk.records);
      }
      walk := walk.(records := walk.records + 1);
      if c.sign(framed.payload) != framed.hmac {
        return Bad(Violation(HmacMismatch, seg.index, Some(expectId), offset), walk.records);
      }
      var checked := CheckPayload(c, cp, seg.index, framed.payload, offset, prev, expectId, walk);
      if checked.Failed? {
        return Bad(checked.violation, walk.records);
      }
      prev, offset, expectId, walk := framed.hmac, framed.end, checked.recordId + 1, checked.walk;
    }
    return Clean(prev, walk);
  }

  /** `verify_with_options` with forensic mode off. */
  method VerifyWithOptions(c: Crypto, cp: Option<Checkpoint>, dir: seq<SegFile>)
      returns (r: Result<Report, VerifyError>)
    requires Ascending(dir)
    ensures r == Verify(c, cp, dir)
  {
    hide CheckHeader, WalkRecords;
    if dir == [] {
      return Err(NoSegments);
    }
    if cp.Some? && !cp.value.MatchesKey(c.keyId) {
      return Err(CheckpointKeyMismatch);
    }
    var priorFinal, walk := None, Walk(0, None, false);
    for i := 0 to |dir|
      invariant Verify(c, cp, dir) == Ok(WalkFrom(c, cp, dir, i, priorFinal, walk))
    {
      var start := CheckHeader(c, dir[i], priorFinal);
      if start.Err? {
        return Ok(Report(Violated, i + 1, walk.records, Some(dir[i].index), None, Some(start.error)));
      }
      var outcome := VerifyRecords(c, cp, dir[i], start.value, walk);
      if outcome.Bad? {
        return Ok(Report(Violated, i + 1, outcome.records, Some(dir[i].index), None, Some(outcome.violation)));
      }
      priorFinal, walk := Some(outcome.head), outcome.walk;
    }
    r := Ok(Finish(cp, dir, priorFinal, walk));
  }
}
