/** The live reader: an iterator over a log that a writer may be appending to
    meanwhile. */
module HmacReader {
  import opened Bytes
  import opened Cbor
  import opened Record
  import opened Segment

  /** The segment files present, from segment 0 on. */
  type Disk = seq<bytes>

  datatype ReadRecord = ReadRecord(segment: nat, fields: RecordFields, hmac: Digest, payload: bytes, offset: nat)

  datatype ReaderError = InvalidHeader(segment: nat) | BadRecord(segment: nat, offset: nat)
      | TornTail(segment: nat, offset: nat)

  /** `RecordIterator`: the segment last opened, whether its file is still
      held, and the offset to read next. */
  datatype Cursor = Cursor(segment: Option<nat>, offset: nat, holding: bool, headerVerified: bool) {
    predicate On(disk: Disk) { holding ==> segment.Some? && segment.value < |disk| }
    function NextIndex(): nat { if segment.None? then 0 else segment.value + 1 }
  }

  const START := Cursor(None, 0, false, false)

  datatype Output = Yield(record: ReadRecord) | Nothing | Failure(error: ReaderError)

  datatype Step = Step(cursor: Cursor, output: Output)

  /** `read_header`. */
  predicate HeaderReads(c: Crypto, data: bytes, index: nat) {
    && |data| >= HEADER_LEN && data[..4] == Magic() && FromLe(data[4..6]) == FORMAT_VERSION
    && FromLe(data[6..8]) == index && FromLe(data[72..76]) == c.crc32(data[..HEADER_BODY_LEN])
  }

  /** `read_record`. */
  function ReadAt(data: bytes, index: nat, offset: nat): Output
    requires offset < |data|
  {
    match ReadFrame(data, offset, NO_CAP)
    case Torn => Failure(TornTail(index, offset))
    case Framed(payload, hmac, _) =>
      match Decode(RUST_LIMITS, payload)
      case Err(_) => Failure(BadRecord(index, offset))
      case Ok(v) =>
        match DecodeRecordMap(v)
        case None => Failure(BadRecord(index, offset))
        case Some(fields) => Yield(ReadRecord(index, fields, hmac, payload, offset))
  }

  /** The cursor with a file in hand; nothing when the next segment is not
      there. */
  function Held(disk: Disk, s: Cursor): Option<Cursor> {
    if s.holding then Some(s)
    else if s.NextIndex() < |disk| then Some(Cursor(Some(s.NextIndex()), HEADER_LEN, true, false))
    else None
  }

  /** `next_record`, reading the disk at one instant. */
  function NextStep(c: Crypto, disk: Disk, s: Cursor): (step: Step)
    requires s.On(disk)
    ensures step.cursor.On(disk)
    decreases |disk| + 1 - (if s.holding then s.segment.value else if s.NextIndex() < |disk| then s.NextIndex()
        else |disk|)
  {
    if Held(disk, s).None? then Step(s, Nothing)
    else
      var o := Held(disk, s).value;
      var i := o.segment.value;
      if !o.headerVerified && !HeaderReads(c, disk[i], i) then Step(o, Failure(InvalidHeader(i)))
      else
        var v := o.(headerVerified := true);
        if v.offset >= |disk[i]| then
          if i + 1 < |disk| then NextStep(c, disk, v.(holding := false, headerVerified := false)) else Step(v, Nothing)
        else
          var out := ReadAt(disk[i], i, v.offset);
          Step(if out.Yield? then v.(offset := v.offset + FRAMING + |out.record.payload|) else v, out)
  }

  class RecordIterator {
    const c: Crypto
    var currentSegment: Option<nat>
    var currentOffset: nat
    var holding: bool
    var headerVerified: bool

    ghost function State(): Cursor
      reads this
    {
      Cursor(currentSegment, currentOffset, holding, headerVerified)
    }

    constructor (c: Crypto)
      ensures State() == START && this.c == c
    {
      this.c := c;
      currentSegment, currentOffset, holding, headerVerified := None, 0, false, false;
    }

    method NextRecord(disk: Disk) returns (out: Output)
      requires State().On(disk)
      modifies this
      ensures State().On(disk) && Step(State(), out) == NextStep(c, disk, old(State()))
    {
      hide HeaderReads, ReadAt;
      while true
        invariant State().On(disk) && NextStep(c, disk, State()) == NextStep(c, disk, old(State()))
        decreases |disk| + 1 - (if holding then currentSegment.value
            else if State().NextIndex() < |disk| then State().NextIndex() else |disk|)
      {
        if !holding {
          var nextIndex := match currentSegment case None => 0 case Some(prev) => prev + 1;
          if nextIndex >= |disk| {
            return Nothing;
          }
          holding, currentSegment, currentOffset, headerVerified := true, Some(nextIndex), HEADER_LEN, false;
        }
        var index := currentSegment.value;
        var data := disk[index];
        if !headerVerified {
          if !HeaderReads(c, data, index) {
            return Failure(InvalidHeader(index));
          }
          headerVerified := true;
        }
        if currentOffset >= |data| {
          if index + 1 < |disk| {
            holding, headerVerified := false, false;
            continue;
          }
          return Nothing;
        }
        out := ReadAt(data, index, currentOffset);
        if out.Yield? {
          currentOffset := currentOffset + FRAMING + |out.record.payload|;
        }
        return out;
      }
    }
  }

  /** `Reader::seek`: the first record of the segment with that id. */
  datatype Sought = Found(record: ReadRecord) | NotFound | Broken(error: ReaderError)

  function SeekFrom(data: bytes, index: nat, id: nat, offset: nat): Sought
    decreases |data| - offset
  {
    if offset >= |data| then NotFound
    else
      match ReadAt(data, index, offset)
      case Nothing => NotFound
      case Failure(e) => Broken(e)
      case Yield(r) => if r.fields.recordId == id then Found(r)
          else SeekFrom(data, index, id, offset + FRAMING + |r.payload|)
  }

  function SeekRecord(c: Crypto, disk: Disk, index: nat, id: nat): Sought {
    if index >= |disk| then NotFound
    else if !HeaderReads(c, disk[index], index) then Broken(InvalidHeader(index))
    else SeekFrom(disk[index], index, id, HEADER_LEN)
  }

  method Seek(c: Crypto, disk: Disk, index: nat, id: nat) returns (r: Sought)
    ensures r == SeekRecord(c, disk, index, id)
  {
    hide HeaderReads, ReadAt;
    if index >= |disk| {
      return NotFound;
    }
    if !HeaderReads(c, disk[index], index) {
      return Broken(InvalidHeader(index));
    }
    var offset := HEADER_LEN;
    while true
      invariant SeekFrom(disk[index], index, id, offset) == SeekFrom(disk[index], index, id, HEADER_LEN)
      decreases |disk[index]| - offset
    {
      if offset >= |disk[index]| {
        return NotFound;
      }
      var out := ReadAt(disk[index], index, offset);
      match out
      case Nothing => return NotFound;
      case Failure(e) => return Broken(e);
      case Yield(record) =>
        if record.fields.recordId == id {
          return Found(record);
        }
        offset := offset + FRAMING + |record.payload|;
    }
  }
}
