/** Opening a log: a fresh one, a clean one, or one whose last write a crash
    cut short. Only the last segment is scanned. */
module HmacRecovery {
  import opened Bytes
  import opened Cbor
  import opened Record
  import opened Segment
  import opened HmacLog
  import opened HmacWriter

  datatype RecoveryError =
    | HeaderCorrupt(cause: HeaderParseError)
    | KeyIdMismatch
    | HmacMismatch(recordId: nat, offset: nat)
    | ChainBreak(recordId: nat, offset: nat)
    | Undecodable(offset: nat)
    | IndexOverflow

  /** What the scan has seen of the segment so far. */
  datatype Scan = Scan(
    recordCount: nat, lastRecordId: Option<nat>, lastHmac: Digest, lastTsWall: bytes, lastTsMonoDelta: nat,
    lastWasFinalize: bool)

  datatype ScanResult = ScanResult(scan: Scan, bytesWritten: nat, truncatedBytes: nat)

  datatype Action = Fresh | Resumed | Repaired | OpenedNextAfterFinalized

  datatype RecoveryReport = RecoveryReport(
    action: Action, currentSegment: nat, lastRecordId: Option<nat>, recordsInCurrentSegment: nat,
    truncatedBytes: nat, lastHmac: Digest)

  datatype Opened = Opened(ws: WState, report: RecoveryReport)

  /** `peek_record_id`. */
  function PeekRecordId(payload: bytes): Option<nat> {
    match Decode(RUST_LIMITS, payload)
    case Err(_) => None
    case Ok(v) =>
      if v.Map? && Field(v.entries, 1).Some? && Field(v.entries, 1).value.Uint? then Some(Field(v.entries, 1).value.n)
      else None
  }

  /** One framed record: its tag, its decoding, its link. */
  function ScanRecord(c: Crypto, payload: bytes, hmac: Digest, offset: nat, s: Scan): Result<Scan, RecoveryError> {
    if c.sign(payload) != hmac then
      var next := if s.lastRecordId.Some? then s.lastRecordId.value + 1 else 0;
      var peeked := PeekRecordId(payload);
      Err(RecoveryError.HmacMismatch(if peeked.Some? then peeked.value else next, offset))
    else
      match Decode(RUST_LIMITS, payload)
      case Err(_) => Err(Undecodable(offset))
      case Ok(v) =>
        match ParseRecoveredRecord(v)
        case None => Err(Undecodable(offset))
        case Some(r) =>
          if r.prevHash != s.lastHmac then Err(RecoveryError.ChainBreak(r.recordId, offset))
          else Ok(Scan(s.recordCount + 1, Some(r.recordId), hmac, r.tsWall, r.tsMonoDelta, r.event == Finalized()))
  }

  function ScanFrom(c: Crypto, data: bytes, offset: nat, s: Scan): Result<ScanResult, RecoveryError>
    decreases |data| - offset
  {
    if offset >= |data| then Ok(ScanResult(s, offset, 0))
    else
      match ReadFrame(data, offset, RECOVERY_CAP)
      case Torn => Ok(ScanResult(s, offset, |data| - offset))
      case Framed(payload, hmac, end) =>
        match ScanRecord(c, payload, hmac, offset, s)
        case Err(e) => Err(e)
        case Ok(s') => ScanFrom(c, data, end, s')
  }

  function ScanStart(c: Crypto, seg: SegFile): Result<Scan, RecoveryError> {
    match ParseHeader(c, seg.data)
    case Err(e) => Err(RecoveryError.HeaderCorrupt(e))
    case Ok(h) =>
      if h.keyId != c.keyId then Err(RecoveryError.KeyIdMismatch)
      else
        var start := if seg.index == 0 then c.sign(seg.data[..HEADER_BODY_LEN]) else h.prevFinal;
        Ok(Scan(0, None, start, [], 0, false))
  }

  function ScanSegment(c: Crypto, seg: SegFile): Result<ScanResult, RecoveryError> {
    match ScanStart(c, seg)
    case Err(e) => Err(e)
    case Ok(s) => ScanFrom(c, seg.data, HEADER_LEN, s)
  }

  /** The scanned segment, truncated to its last complete record and
      reopened. */
  function Reopened(dir: seq<SegFile>, r: ScanResult): WState
    requires dir != [] && r.bytesWritten <= |dir[|dir| - 1].data|
  {
    var last, s := dir[|dir| - 1], r.scan;
    WState(
      dir[|dir| - 1 := SegFile(last.index, last.data[..r.bytesWritten])],
      SegState(last.index, r.bytesWritten, s.lastHmac, if s.lastRecordId.Some? then s.lastRecordId.value + 1 else 0,
               s.recordCount, s.lastTsWall, s.lastTsMonoDelta))
  }

  lemma ScanWithinFile(c: Crypto, data: bytes, offset: nat, s: Scan)
    requires offset <= |data| && ScanFrom(c, data, offset, s).Ok?
    ensures var r := ScanFrom(c, data, offset, s).value;
      offset <= r.bytesWritten && r.bytesWritten + r.truncatedBytes == |data|
    decreases |data| - offset
  {
    hide ReadFrame, ScanRecord;
    if offset < |data| && ReadFrame(data, offset, RECOVERY_CAP).Framed? {
      var f := ReadFrame(data, offset, RECOVERY_CAP);
      ScanWithinFile(c, data, f.end, ScanRecord(c, f.payload, f.hmac, offset, s).value);
    }
  }

  function FreshLog(c: Crypto): Opened {
    var start := GenesisStart(c);
    var (file, seg) := FreshSegment(c, 0, ZERO_DIGEST, start);
    Opened(WState([file], seg), RecoveryReport(Fresh, 0, None, 0, 0, start))
  }

  /** After a successful scan: resume, or open the next segment when the last
      record finalized this one. */
  function Resume(c: Crypto, dir: seq<SegFile>, r: ScanResult): Result<Opened, RecoveryError>
    requires dir != [] && r.bytesWritten <= |dir[|dir| - 1].data|
  {
    var ws := Reopened(dir, r);
    var index := ws.seg.index;
    if r.scan.lastWasFinalize then
      if index + 1 >= INDEX_END then Err(RecoveryError.IndexOverflow)
      else Ok(Opened(AfterOpenNext(c, ws),
                     RecoveryReport(OpenedNextAfterFinalized, index + 1, r.scan.lastRecordId, 0, r.truncatedBytes,
                         r.scan.lastHmac)))
    else
      Ok(Opened(ws, RecoveryReport(if r.truncatedBytes > 0 then Repaired else Resumed, index, r.scan.lastRecordId,
                                   r.scan.recordCount, r.truncatedBytes, r.scan.lastHmac)))
  }

  /** `Writer::with_config`. */
  function Open(c: Crypto, dir: seq<SegFile>): Result<Opened, RecoveryError> {
    if dir == [] then Ok(FreshLog(c))
    else
      var last := dir[|dir| - 1];
      match ScanSegment(c, last)
      case Err(e) => Err(e)
      case Ok(r) =>
        ScanBounds(c, last);
        Resume(c, dir, r)
  }

  lemma ScanBounds(c: Crypto, seg: SegFile)
    requires ScanSegment(c, seg).Ok?
    ensures var r := ScanSegment(c, seg).value;
      HEADER_LEN <= r.bytesWritten && r.bytesWritten + r.truncatedBytes == |seg.data|
  {
    ScanWithinFile(c, seg.data, HEADER_LEN, ScanStart(c, seg).value);
  }

  // ---- the loop ----

  method ScanSegmentForRecovery(c: Crypto, seg: SegFile) returns (r: Result<ScanResult, RecoveryError>)
    ensures r == ScanSegment(c, seg)
  {
    hide ReadFrame, Decode, ParseRecoveredRecord, PeekRecordId;
    var start := ScanStart(c, seg);
    if start.Err? {
      return Err(start.error);
    }
    var offset: nat, s := HEADER_LEN, start.value;
    while offset < |seg.data|
      invariant ScanSegment(c, seg) == ScanFrom(c, seg.data, offset, s)
      decreases |seg.data| - offset
    {
      var framed := ReadFrame(seg.data, offset, RECOVERY_CAP);
      if framed.Torn? {
        return Ok(ScanResult(s, offset, |seg.data| - offset));
      }
      var next := ScanRecord(c, framed.payload, framed.hmac, offset, s);
      if next.Err? {
        return Err(next.error);
      }
      offset, s := framed.end, next.value;
    }
    return Ok(ScanResult(s, offset, 0));
  }

  method OpenDir(c: Crypto, dir: seq<SegFile>) returns (r: Result<Opened, RecoveryError>)
    ensures r == Open(c, dir)
  {
    hide ScanSegment;
    if dir == [] {
      return Ok(FreshLog(c));
    }
    var last := dir[|dir| - 1];
    var scan := ScanSegmentForRecovery(c, last);
    if scan.Err? {
      return Err(scan.error);
    }
    ScanBounds(c, last);
    return Resume(c, dir, scan.value);
  }
}
