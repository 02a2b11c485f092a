/** The writer of format 0x0001: append, rollover, and the state they keep. */
module HmacWriter {
  import opened Bytes
  import opened Cbor
  import opened Payload
  import opened Record
  import opened Segment
  import opened Calendar

  const INDEX_END := 0x1_0000
  const U64_MAX := U64_END - 1

  datatype WriterConfig = WriterConfig(segmentSizeBytes: nat, finalizeOnRollover: bool)

  /** `SegmentState`, without the file handle. */
  datatype SegState = SegState(
    index: nat, bytesWritten: nat, lastHmac: Digest, nextRecordId: nat, recordCount: nat,
    lastTsWall: bytes, lastTsMonoDelta: nat)

  /** The directory and the current segment, which is its last file. */
  datatype WState = WState(dir: seq<SegFile>, seg: SegState)

  datatype WriterError = InvalidInput | IndexOverflow

  function Finalized(): (e: bytes)
    ensures |e| == 17
  {
    Ascii("segment.finalized")
  }

  function SystemActor(): (a: bytes)
    ensures |a| == 12
  {
    Ascii("system:audit")
  }

  function FinalHashKey(): (k: bytes)
    ensures |k| == 10 && k[0] == 0x66
  {
    Ascii("final_hash")
  }

  function RecordsKey(): (k: bytes)
    ensures |k| == 7 && k[0] == 0x72
  {
    Ascii("records")
  }

  /** `assemble_finalize_input_from_last`. */
  function FinalizeInput(lastTs: bytes, lastMono: nat, records: nat, lastHmac: Digest): RecordInput {
    RecordInput(
      BumpTsMs(lastTs), if lastMono < U64_MAX then lastMono + 1 else lastMono, SystemActor(), Finalized(),
      [Member(FinalHashKey(), PBytes(lastHmac)), Member(RecordsKey(), PUint(records))], 1)
  }

  function EstimateRecord(c: Crypto, session: SessionId, input: RecordInput): nat {
    FRAMING + |RecordBytes(c.keyId, input, session, ZERO_DIGEST, U64_MAX)|
  }

  /** `estimate_finalize_size`: anchored at the incoming record. */
  function EstimateFinalize(c: Crypto, session: SessionId, input: RecordInput): nat {
    EstimateRecord(c, session, FinalizeInput(input.tsWall, input.tsMonoDelta, U64_MAX, ZERO_DIGEST))
  }

  predicate MustRoll(c: Crypto, cfg: WriterConfig, session: SessionId, seg: SegState, input: RecordInput) {
    && cfg.finalizeOnRollover
    && seg.recordCount > 0
    && seg.bytesWritten + EstimateRecord(c, session, input) + EstimateFinalize(c, session, input) > cfg.segmentSizeBytes
  }

  /** The last file grows by `b`. */
  function Grown(dir: seq<SegFile>, b: bytes): seq<SegFile>
    requires dir != []
  {
    var last := dir[|dir| - 1];
    dir[|dir| - 1 := SegFile(last.index, last.data + b)]
  }

  function AfterFrame(c: Crypto, ws: WState, payload: bytes, ts: bytes, mono: nat): (after: WState)
    requires ws.dir != []
    ensures |after.dir| == |ws.dir|
  {
    var hmac := c.sign(payload);
    WState(
      Grown(ws.dir, Frame(payload, hmac)),
      SegState(ws.seg.index, ws.seg.bytesWritten + |payload| + FRAMING, hmac, ws.seg.nextRecordId + 1,
               ws.seg.recordCount + 1, ts, mono))
  }

  /** A record encoded against the current head and framed. */
  function AfterRecord(c: Crypto, session: SessionId, ws: WState, input: RecordInput): (after: WState)
    requires ws.dir != []
    ensures |after.dir| == |ws.dir|
  {
    AfterFrame(c, ws, RecordBytes(c.keyId, input, session, ws.seg.lastHmac, ws.seg.nextRecordId), input.tsWall,
        input.tsMonoDelta)
  }

  function AfterFinalize(c: Crypto, session: SessionId, ws: WState): (after: WState)
    requires ws.dir != []
    ensures |after.dir| == |ws.dir|
  {
    AfterRecord(c, session, ws, FinalizeInput(ws.seg.lastTsWall, ws.seg.lastTsMonoDelta, ws.seg.recordCount,
        ws.seg.lastHmac))
  }

  /** A segment that holds only its header. */
  function FreshSegment(c: Crypto, index: nat, prevFinal: Digest, head: Digest): (SegFile, SegState) {
    (SegFile(index, NewHeader(index, c.keyId, prevFinal).ToBytes(c)), SegState(index, HEADER_LEN, head, 0, 0, [], 0))
  }

  function AfterOpenNext(c: Crypto, ws: WState): (after: WState)
    ensures |after.dir| == |ws.dir| + 1
  {
    var (file, seg) := FreshSegment(c, ws.seg.index + 1, ws.seg.lastHmac, ws.seg.lastHmac);
    WState(ws.dir + [file], seg)
  }

  /** The segment index no longer fits 16 bits. */
  predicate Overflows(c: Crypto, cfg: WriterConfig, session: SessionId, ws: WState, input: RecordInput) {
    MustRoll(c, cfg, session, ws.seg, input) && ws.seg.index + 1 == INDEX_END
  }

  /** The state after `append` of an accepted input. */
  function AfterAppend(c: Crypto, cfg: WriterConfig, session: SessionId, ws: WState, input: RecordInput)
      : (after: WState)
    requires ws.dir != []
    ensures |after.dir| >= |ws.dir|
  {
    if !MustRoll(c, cfg, session, ws.seg, input) then AfterRecord(c, session, ws, input)
    else if ws.seg.index + 1 == INDEX_END then AfterFinalize(c, session, ws)
    else AfterRecord(c, session, AfterOpenNext(c, AfterFinalize(c, session, ws)), input)
  }

  class Writer {
    const c: Crypto
    const session: SessionId
    const config: WriterConfig
    var dir: seq<SegFile>
    var index: nat
    var bytesWritten: nat
    var lastHmac: Digest
    var nextRecordId: nat
    var recordCount: nat
    var lastTsWall: bytes
    var lastTsMonoDelta: nat

    /** The current segment is the last file of the directory, with all its
        bytes accounted for. */
    ghost predicate Valid()
      reads this
    {
      && dir != [] && Ascending(dir)
      && dir[|dir| - 1].index == index < INDEX_END
      && |dir[|dir| - 1].data| == bytesWritten
    }

    ghost function State(): WState
      reads this
    {
      WState(dir, SegState(index, bytesWritten, lastHmac, nextRecordId, recordCount, lastTsWall, lastTsMonoDelta))
    }

    constructor (c: Crypto, session: SessionId, config: WriterConfig, ws: WState)
      requires ws.dir != [] && Ascending(ws.dir)
      requires ws.dir[|ws.dir| - 1].index == ws.seg.index < INDEX_END
      requires |ws.dir[|ws.dir| - 1].data| == ws.seg.bytesWritten
      requires ws.seg.recordCount <= ws.seg.nextRecordId
      ensures Valid() && State() == ws
      ensures this.c == c && this.session == session && this.config == config
    {
      this.c, this.session, this.config := c, session, config;
      dir, index, bytesWritten, lastHmac := ws.dir, ws.seg.index, ws.seg.bytesWritten, ws.seg.lastHmac;
      nextRecordId, recordCount := ws.seg.nextRecordId, ws.seg.recordCount;
      lastTsWall, lastTsMonoDelta := ws.seg.lastTsWall, ws.seg.lastTsMonoDelta;
    }

    method AppendFramed(payload: bytes, tsWall: bytes, tsMonoDelta: nat)
      requires Valid()
      modifies this
      ensures Valid() && State() == AfterFrame(c, old(State()), payload, tsWall, tsMonoDelta)
    {
      var hmac := c.sign(payload);
      var framed := Frame(payload, hmac);
      var last := dir[|dir| - 1];
      dir := dir[|dir| - 1 := SegFile(last.index, last.data + framed)];
      bytesWritten := bytesWritten + |framed|;
      lastHmac := hmac;
      nextRecordId := nextRecordId + 1;
      recordCount := recordCount + 1;
      lastTsWall := tsWall;
      lastTsMonoDelta := tsMonoDelta;
    }

    /** Finalize the current segment and open the next, chained from it. */
    method Rollover() returns (r: Result<(), WriterError>)
      requires Valid()
      modifies this
      ensures Valid()
      ensures r == if old(index) + 1 == INDEX_END then Err(IndexOverflow) else Ok(())
      ensures State() == if r.Err? then AfterFinalize(c, session, old(State()))
                         else AfterOpenNext(c, AfterFinalize(c, session, old(State())))
    {
      hide RecordBytes, Frame;
      var input := FinalizeInput(lastTsWall, lastTsMonoDelta, recordCount, lastHmac);
      var payload := RecordBytes(c.keyId, input, session, lastHmac, nextRecordId);
      AppendFramed(payload, input.tsWall, input.tsMonoDelta);
      if index + 1 == INDEX_END {
        return Err(IndexOverflow);
      }
      var nextIndex := index + 1;
      dir := dir + [SegFile(nextIndex, NewHeader(nextIndex, c.keyId, lastHmac).ToBytes(c))];
      index, bytesWritten, nextRecordId, recordCount := nextIndex, HEADER_LEN, 0, 0;
      lastTsWall, lastTsMonoDelta := [], 0;
      return Ok(());
    }

    /** Append one record, rolling over first when it and a finalize record
        would not both fit. */
    method Append(input: RecordInput) returns (r: Result<nat, WriterError>)
      requires Valid()
      modifies this
      ensures Valid()
      ensures !Accepted(input) ==> r == Err(InvalidInput) && State() == old(State())
      ensures Accepted(input) ==>
        && State() == AfterAppend(c, config, session, old(State()), input)
        && r == if Overflows(c, config, session, old(State()), input) then Err(IndexOverflow) else Ok(nextRecordId - 1)
    {
      hide RecordBytes, Frame, EstimateRecord, EstimateFinalize;
      if !Accepted(input) {
        return Err(InvalidInput);
      }
      if config.finalizeOnRollover && recordCount > 0
         && bytesWritten + EstimateRecord(c, session, input)
             + EstimateFinalize(c, session, input) > config.segmentSizeBytes {
        var rolled := Rollover();
        if rolled.Err? {
          return Err(rolled.error);
        }
      }
      AppendFramed(RecordBytes(c.keyId, input, session, lastHmac, nextRecordId), input.tsWall, input.tsMonoDelta);
      return Ok(nextRecordId - 1);
    }
  }
}
