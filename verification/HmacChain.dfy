/** What a verified log of format 0x0001 is: a chain of records from its
    genesis header, which any one later tag pins. */
module HmacChain {
  import opened Bytes
  import opened Cbor
  import opened Record
  import opened Segment
  import opened Calendar
  import opened HmacLog
  import opened HmacVerifier

  /** The payloads framed in a file from `offset` on. */
  function Payloads(data: bytes, offset: nat): seq<bytes>
    decreases |data| - offset
  {
    if offset >= |data| then []
    else
      match ReadFrame(data, offset, NO_CAP)
      case Torn => []
      case Framed(payload, _, end) => [payload] + Payloads(data, end)
  }

  /** All payloads of segments `i` and later, in order. */
  function Flat(dir: seq<SegFile>, i: nat): seq<bytes>
    requires i <= |dir|
    decreases |dir| - i
  {
    if i == |dir| then [] else Payloads(dir[i].data, HEADER_LEN) + Flat(dir, i + 1)
  }

  // ---- the walk over payloads alone ----

  function WalkPayloads(c: Crypto, cp: Option<Checkpoint>, index: nat, ps: seq<bytes>, offset: nat, prev: Digest,
      expectId: nat, w: Walk): Outcome
    decreases |ps|
  {
    if ps == [] then Clean(prev, w)
    else
      match CheckPayload(c, cp, index, ps[0], offset, prev, expectId, w.(records := w.records + 1))
      case Failed(v) => Bad(v, w.records + 1)
      case Passed(id, w') =>
        WalkPayloads(c, cp, index, ps[1..], offset + |ps[0]| + FRAMING, c.sign(ps[0]), id + 1, w')
  }

  /** On a file of intact frames, the verifier's walk over bytes is the walk
      over the payloads. */
  lemma {:induction false} WalkOfFrames(c: Crypto, cp: Option<Checkpoint>, seg: SegFile, offset: nat, ps: seq<bytes>,
      prev: Digest, expectId: nat, w: Walk)
    requires offset <= |seg.data| && seg.data[offset..] == Frames(c, ps) && AllShort(ps, NO_CAP)
    ensures WalkRecords(c, cp, seg, offset, prev, expectId, w)
        == WalkPayloads(c, cp, seg.index, ps, offset, prev, expectId, w)
    decreases |ps|
  {
    hide CheckPayload, ReadFrame, Frame;
    if ps != [] {
      FirstFrame(c, seg.data, offset, ps, NO_CAP);
      var end := offset + |ps[0]| + FRAMING;
      match CheckPayload(c, cp, seg.index, ps[0], offset, prev, expectId, w.(records := w.records + 1))
      case Failed(_) =>
      case Passed(id, w') => WalkOfFrames(c, cp, seg, end, ps[1..], c.sign(ps[0]), id + 1, w');
    }
  }

  /** The first of the frames at the end of a file is read back. */
  lemma FirstFrame(c: Crypto, data: bytes, offset: nat, ps: seq<bytes>, cap: nat)
    requires offset <= |data| && data[offset..] == Frames(c, ps) && ps != []
    requires AllShort(ps, cap) && cap <= NO_CAP
    ensures var end := offset + |ps[0]| + FRAMING;
      && offset < end <= |data|
      && ReadFrame(data, offset, cap) == Framed(ps[0], c.sign(ps[0]), end)
      && data[end..] == Frames(c, ps[1..]) && AllShort(ps[1..], cap)
  {
    hide ReadFrame;
    var f, rest := Frame(ps[0], c.sign(ps[0])), Frames(c, ps[1..]);
    hide Frame;
    assert data[offset..offset + |f|] == data[offset..][..|f|] == f;
    ReadOfFrame(data, offset, cap, ps[0], c.sign(ps[0]));
    assert data[offset + |f|..] == data[offset..][|f|..] == rest;
  }

  /** A clean walk proves the file is intact frames of its payloads. */
  lemma {:induction false} CleanIsFrames(c: Crypto, cp: Option<Checkpoint>, seg: SegFile, offset: nat, prev: Digest,
      expectId: nat, w: Walk)
    requires offset <= |seg.data| && WalkRecords(c, cp, seg, offset, prev, expectId, w).Clean?
    ensures var ps := Payloads(seg.data, offset); seg.data[offset..] == Frames(c, ps) && AllShort(ps, NO_CAP)
    decreases |seg.data| - offset
  {
    hide CheckPayload, ReadFrame, Frame;
    if offset < |seg.data| {
      var r := ReadFrame(seg.data, offset, NO_CAP);
      FrameOfRead(seg.data, offset, NO_CAP);
      var w1 := w.(records := w.records + 1);
      var checked := CheckRecord(c, cp, seg.index, r.payload, r.hmac, offset, prev, expectId, w1);
      CleanIsFrames(c, cp, seg, r.end, r.hmac, checked.recordId + 1, checked.walk);
      assert seg.data[offset..] == seg.data[offset..r.end] + seg.data[r.end..];
    }
  }

  // ---- what a clean walk says of the payloads ----

  /** The `prev_hash` the verifier reads from a payload. */
  function PrevOf(p: bytes): Digest {
    match Decode(RUST_LIMITS, p)
    case Err(_) => ZERO_DIGEST
    case Ok(v) =>
      match ReaderDecodeRecordMap(v)
      case None => ZERO_DIGEST
      case Some(r) => r.prevHash
  }

  function IdOf(p: bytes): nat {
    match Decode(RUST_LIMITS, p)
    case Err(_) => 0
    case Ok(v) =>
      match ReaderDecodeRecordMap(v)
      case None => 0
      case Some(r) => r.recordId
  }

  /** Each payload is a ten-entry map that links to the tag before it. */
  predicate Chained(c: Crypto, start: Digest, ps: seq<bytes>)
    decreases |ps|
  {
    ps == [] ||
    (ps[0] != [] && ps[0][0] == 0xaa && PrevOf(ps[0]) == start && Chained(c, c.sign(ps[0]), ps[1..]))
  }

  lemma PassedFacts(c: Crypto, cp: Option<Checkpoint>, index: nat, p: bytes, offset: nat, prev: Digest, expectId: nat,
      w: Walk)
    requires CheckPayload(c, cp, index, p, offset, prev, expectId, w).Passed?
    ensures var r := CheckPayload(c, cp, index, p, offset, prev, expectId, w);
      && p != [] && p[0] == 0xaa && PrevOf(p) == prev
      && r.walk.records == w.records && r.recordId == IdOf(p)
      && (r.walk.reached
        ==> w.reached || (cp.Some? && cp.value.IsPosition(index, IdOf(p)) && c.sign(p) == cp.value.hmac))
  {
    hide Wf, Encode, ParseTsMs;
    var v := Decode(RUST_LIMITS, p).value;
    DecodeIffEncode(RUST_LIMITS, p, v);
    RecordStart(v);
  }

  /** The checkpointed tag is among those of `ps`. */
  predicate HasTag(c: Crypto, ps: seq<bytes>, tag: Digest) { exists k :: 0 <= k < |ps| && c.sign(ps[k]) == tag }

  lemma {:induction false} CleanIsChained(c: Crypto, cp: Option<Checkpoint>, index: nat, ps: seq<bytes>, offset: nat,
      prev: Digest, expectId: nat, w: Walk)
    requires WalkPayloads(c, cp, index, ps, offset, prev, expectId, w).Clean?
    ensures var r := WalkPayloads(c, cp, index, ps, offset, prev, expectId, w);
      && Chained(c, prev, ps) && r.head == HeadAfter(c, prev, ps)
      && r.walk.records == w.records + |ps|
      && (r.walk.reached ==> w.reached || (cp.Some? && HasTag(c, ps, cp.value.hmac)))
    decreases |ps|
  {
    hide CheckPayload;
    if ps != [] {
      var w1 := w.(records := w.records + 1);
      PassedFacts(c, cp, index, ps[0], offset, prev, expectId, w1);
      var r := CheckPayload(c, cp, index, ps[0], offset, prev, expectId, w1);
      CleanIsChained(c, cp, index, ps[1..], offset + |ps[0]| + FRAMING, c.sign(ps[0]), r.recordId + 1, r.walk);
      if |ps| > 1 {
        assert ps[1..][|ps| - 2] == ps[|ps| - 1];
      }
      if cp.Some? && HasTag(c, ps[1..], cp.value.hmac) {
        var k :| 0 <= k < |ps| - 1 && c.sign(ps[1..][k]) == cp.value.hmac;
        assert c.sign(ps[k + 1]) == cp.value.hmac;
      } else if cp.Some? && c.sign(ps[0]) == cp.value.hmac {
        assert HasTag(c, ps, cp.value.hmac);
      }
    }
  }

  lemma {:induction false} ChainedAppend(c: Crypto, start: Digest, ps: seq<bytes>, qs: seq<bytes>)
    requires Chained(c, start, ps) && Chained(c, HeadAfter(c, start, ps), qs)
    ensures Chained(c, start, ps + qs) && HeadAfter(c, start, ps + qs) == HeadAfter(c, HeadAfter(c, start, ps), qs)
    decreases |ps|
  {
    if ps == [] {
      assert ps + qs == qs;
    } else {
      assert (ps + qs)[1..] == ps[1..] + qs;
      ChainedAppend(c, c.sign(ps[0]), ps[1..], qs);
    }
  }

  /** One segment of a verified log. */
  lemma SegmentIsChained(c: Crypto, cp: Option<Checkpoint>, seg: SegFile, priorFinal: Option<Digest>, w: Walk)
    requires WalkSegment(c, cp, seg, priorFinal, w).Clean?
    ensures var r, ps := WalkSegment(c, cp, seg, priorFinal, w), Payloads(seg.data, HEADER_LEN);
      var start := CheckHeader(c, seg, priorFinal);
      && start.Ok? && |seg.data| >= HEADER_LEN
      && Chained(c, start.value, ps) && r.head == HeadAfter(c, start.value, ps)
      && r.walk.records == w.records + |ps|
      && (r.walk.reached ==> w.reached || (cp.Some? && HasTag(c, ps, cp.value.hmac)))
  {
    hide WalkRecords, Payloads, Fields;
    var start := CheckHeader(c, seg, priorFinal).value;
    var ps := Payloads(seg.data, HEADER_LEN);
    CleanIsFrames(c, cp, seg, HEADER_LEN, start, 0, w);
    WalkOfFrames(c, cp, seg, HEADER_LEN, ps, start, 0, w);
    CleanIsChained(c, cp, seg.index, ps, HEADER_LEN, start, 0, w);
  }

  /** Every later segment continues the chain of the one before. */
  lemma {:induction false} LaterSegmentsChain(c: Crypto, cp: Option<Checkpoint>, dir: seq<SegFile>, i: nat,
      prior: Digest, w: Walk)
    requires 0 < i <= |dir| && Ascending(dir)
    requires WalkFrom(c, cp, dir, i, Some(prior), w).verdict == Verified
    ensures var r, flat := WalkFrom(c, cp, dir, i, Some(prior), w), Flat(dir, i);
      && Chained(c, prior, flat) && r.finalHmac == Some(HeadAfter(c, prior, flat))
      && r.recordsInspected == w.records + |flat|
      && (cp.Some? ==> w.reached || HasTag(c, flat, cp.value.hmac))
    decreases |dir| - i
  {
    hide WalkSegment, Payloads, CheckHeader;
    if i < |dir| {
      var ps := Payloads(dir[i].data, HEADER_LEN);
      var r := WalkSegment(c, cp, dir[i], Some(prior), w);
      SegmentIsChained(c, cp, dir[i], Some(prior), w);
      assert dir[0].index < dir[i].index;
      LaterStart(c, dir[i], prior);
      LaterSegmentsChain(c, cp, dir, i + 1, r.head, r.walk);
      ChainedAppend(c, prior, ps, Flat(dir, i + 1));
      TagInEither(c, cp, ps, Flat(dir, i + 1));
    }
  }

  lemma LaterStart(c: Crypto, seg: SegFile, prior: Digest)
    requires seg.index > 0 && CheckHeader(c, seg, Some(prior)).Ok?
    ensures CheckHeader(c, seg, Some(prior)).value == prior
  {
  }

  lemma TagInEither(c: Crypto, cp: Option<Checkpoint>, ps: seq<bytes>, qs: seq<bytes>)
    ensures cp.Some? && (HasTag(c, ps, cp.value.hmac) || HasTag(c, qs, cp.value.hmac))
      ==> HasTag(c, ps + qs, cp.value.hmac)
  {
    if cp.Some? && HasTag(c, ps, cp.value.hmac) {
      var k :| 0 <= k < |ps| && c.sign(ps[k]) == cp.value.hmac;
      assert c.sign((ps + qs)[k]) == cp.value.hmac;
    } else if cp.Some? && HasTag(c, qs, cp.value.hmac) {
      var k :| 0 <= k < |qs| && c.sign(qs[k]) == cp.value.hmac;
      assert c.sign((ps + qs)[|ps| + k]) == cp.value.hmac;
    }
  }

  // ---- exactly which logs are verified ----

  function RecordOf(p: bytes): Option<LooseRecord> {
    match Decode(RUST_LIMITS, p)
    case Err(_) => None
    case Ok(v) => ReaderDecodeRecordMap(v)
  }

  function TimeOf(p: bytes): int { if RecordOf(p).Some? then ParseTsMs(RecordOf(p).value.tsWall) else 0 }

  /** The time the record after `ps` is compared with. */
  function TimeAfter(prior: Option<int>, ps: seq<bytes>): Option<int> {
    if ps == [] then prior else Some(TimeOf(ps[|ps| - 1]))
  }

  /** A record that links to `prev`, is under the key, does not step back more
      than a minute from `prior`, and does not contradict the checkpoint. Its
      id, its monotonic time and its event are not looked at. */
  predicate PayloadOk(c: Crypto, cp: Option<Checkpoint>, index: nat, p: bytes, prev: Digest, prior: Option<int>) {
    && RecordOf(p).Some? && RecordOf(p).value.prevHash == prev && RecordOf(p).value.keyId == c.keyId
    && (prior.Some? ==> TimeOf(p) >= prior.value - MAX_TS_DRIFT_MS)
    && (cp.Some? && cp.value.IsPosition(index, IdOf(p)) ==> c.sign(p) == cp.value.hmac)
  }

  predicate PayloadsOk(c: Crypto, cp: Option<Checkpoint>, index: nat, ps: seq<bytes>, start: Digest,
      prior: Option<int>)
  {
    forall k ::
      0 <= k < |ps| ==> PayloadOk(c, cp, index, ps[k], HeadAfter(c, start, ps[..k]), TimeAfter(prior, ps[..k]))
  }

  predicate Reaches(cp: Option<Checkpoint>, index: nat, ps: seq<bytes>) {
    cp.Some? && exists k :: 0 <= k < |ps| && cp.value.IsPosition(index, IdOf(ps[k]))
  }

  lemma PassedIff(c: Crypto, cp: Option<Checkpoint>, index: nat, p: bytes, offset: nat, prev: Digest, expectId: nat,
      w: Walk)
    ensures var r := CheckPayload(c, cp, index, p, offset, prev, expectId, w);
      && (r.Passed? <==> PayloadOk(c, cp, index, p, prev, w.priorTs))
      && (r.Passed? ==> r.recordId == IdOf(p)
                        && r.walk == Walk(w.records, Some(TimeOf(p)), w.reached
                            || (cp.Some? && cp.value.IsPosition(index, IdOf(p)))))
  {
    hide Decode, ReaderDecodeRecordMap, ParseTsMs;
  }

  lemma PayloadsOkCons(c: Crypto, cp: Option<Checkpoint>, index: nat, ps: seq<bytes>, start: Digest, prior: Option<int>)
    requires ps != []
    ensures PayloadsOk(c, cp, index, ps, start, prior)
       <==> PayloadOk(c, cp, index, ps[0], start, prior)
            && PayloadsOk(c, cp, index, ps[1..], c.sign(ps[0]), Some(TimeOf(ps[0])))
  {
    hide PayloadOk, TimeOf;
    forall k | 0 < k < |ps|
      ensures HeadAfter(c, c.sign(ps[0]), ps[1..][..k - 1]) == HeadAfter(c, start, ps[..k])
      ensures TimeAfter(Some(TimeOf(ps[0])), ps[1..][..k - 1]) == TimeAfter(prior, ps[..k]) && ps[1..][k - 1] == ps[k] {
      assert ps[1..][..k - 1] == ps[1..k];
      assert k > 1 ==> ps[1..k][k - 2] == ps[k - 1];
    }
    assert ps[..0] == [];
    if PayloadsOk(c, cp, index, ps, start, prior) {
      var qs := ps[1..];
      forall k | 0 <= k < |qs|
        ensures PayloadOk(c, cp, index, qs[k], HeadAfter(c, c.sign(ps[0]), qs[..k]),
            TimeAfter(Some(TimeOf(ps[0])), qs[..k])) {
        assert PayloadOk(c, cp, index, ps[k + 1], HeadAfter(c, start, ps[..k + 1]), TimeAfter(prior, ps[..k + 1]));
        assert qs[..k] == ps[1..][..(k + 1) - 1] && qs[k] == ps[1..][(k + 1) - 1];
      }
      assert PayloadOk(c, cp, index, ps[0], HeadAfter(c, start, ps[..0]), TimeAfter(prior, ps[..0]));
    }
    if PayloadOk(c, cp, index, ps[0], start, prior)
        && PayloadsOk(c, cp, index, ps[1..], c.sign(ps[0]), Some(TimeOf(ps[0]))) {
      forall k | 0 <= k < |ps|
        ensures PayloadOk(c, cp, index, ps[k], HeadAfter(c, start, ps[..k]), TimeAfter(prior, ps[..k])) {
        if k > 0 {
          var qs := ps[1..];
          assert PayloadOk(c, cp, index, qs[k - 1], HeadAfter(c, c.sign(ps[0]), qs[..k - 1]),
              TimeAfter(Some(TimeOf(ps[0])), qs[..k - 1]));
        }
      }
    }
  }

  /** A walk over payloads is clean exactly when each of them is in order. */
  lemma {:induction false} CleanIff(c: Crypto, cp: Option<Checkpoint>, index: nat, ps: seq<bytes>, offset: nat,
      prev: Digest, expectId: nat, w: Walk)
    ensures var r := WalkPayloads(c, cp, index, ps, offset, prev, expectId, w);
      && (r.Clean? <==> PayloadsOk(c, cp, index, ps, prev, w.priorTs))
      && (r.Clean? ==> r.head == HeadAfter(c, prev, ps)
                       && r.walk == Walk(w.records + |ps|, TimeAfter(w.priorTs, ps), w.reached
                           || Reaches(cp, index, ps)))
    decreases |ps|
  {
    hide CheckPayload, PayloadOk, PayloadsOk, IdOf, TimeOf;
    if ps == [] {
      assert PayloadsOk(c, cp, index, ps, prev, w.priorTs) by { NoPayloads(c, cp, index, prev, w.priorTs); }
    } else {
      var w1 := w.(records := w.records + 1);
      PassedIff(c, cp, index, ps[0], offset, prev, expectId, w1);
      PayloadsOkCons(c, cp, index, ps, prev, w.priorTs);
      var r := CheckPayload(c, cp, index, ps[0], offset, prev, expectId, w1);
      if r.Passed? {
        CleanIff(c, cp, index, ps[1..], offset + |ps[0]| + FRAMING, c.sign(ps[0]), r.recordId + 1, r.walk);
        LastOfTail(c, ps, prev, w.priorTs);
        ReachesCons(cp, index, ps);
      }
    }
  }

  lemma NoPayloads(c: Crypto, cp: Option<Checkpoint>, index: nat, start: Digest, prior: Option<int>)
    ensures PayloadsOk(c, cp, index, [], start, prior)
  {
  }

  lemma LastOfTail(c: Crypto, ps: seq<bytes>, start: Digest, prior: Option<int>)
    requires ps != []
    ensures HeadAfter(c, c.sign(ps[0]), ps[1..]) == HeadAfter(c, start, ps)
    ensures TimeAfter(Some(TimeOf(ps[0])), ps[1..]) == TimeAfter(prior, ps)
  {
    hide TimeOf;
  }

  lemma ReachesCons(cp: Option<Checkpoint>, index: nat, ps: seq<bytes>)
    requires ps != []
    ensures Reaches(cp, index, ps)
      <==> (cp.Some? && cp.value.IsPosition(index, IdOf(ps[0]))) || Reaches(cp, index, ps[1..])
  {
    hide IdOf;
    if cp.Some? && Reaches(cp, index, ps) {
      var k :| 0 <= k < |ps| && cp.value.IsPosition(index, IdOf(ps[k]));
      assert k > 0 ==> ps[1..][k - 1] == ps[k];
    }
    if cp.Some? && Reaches(cp, index, ps[1..]) {
      var k :| 0 <= k < |ps| - 1 && cp.value.IsPosition(index, IdOf(ps[1..][k]));
      assert ps[k + 1] == ps[1..][k];
    }
  }

  /** A header of this key, continuing `prior`, with its checksum and with zero
      reserved bytes. Its segment number is not looked at. */
  predicate HeaderOk(c: Crypto, b: bytes, prior: Option<Digest>) {
    && |b| >= HEADER_LEN && b[..4] == Magic() && FromLe(b[4..6]) == FORMAT_VERSION
    && FromLe(b[72..76]) == c.crc32(b[..HEADER_BODY_LEN]) && Fields(b).keyId == c.keyId && b[76..80] == [0, 0, 0, 0]
    && (prior.Some? ==> Fields(b).prevFinal == prior.value)
  }

  /** What the first record of a segment links to. */
  function StartOf(c: Crypto, seg: SegFile): Digest
    requires |seg.data| >= HEADER_LEN
  {
    if seg.index == 0 then c.sign(seg.data[..HEADER_BODY_LEN]) else Fields(seg.data).prevFinal
  }

  /** The file is its header and whole frames, each under its tag. */
  predicate Intact(c: Crypto, seg: SegFile)
    requires |seg.data| >= HEADER_LEN
  {
    var ps := Payloads(seg.data, HEADER_LEN);
    seg.data[HEADER_LEN..] == Frames(c, ps) && AllShort(ps, NO_CAP)
  }

  predicate SegmentOk(c: Crypto, cp: Option<Checkpoint>, seg: SegFile, prior: Option<Digest>, priorTs: Option<int>) {
    && HeaderOk(c, seg.data, prior) && Intact(c, seg)
    && PayloadsOk(c, cp, seg.index, Payloads(seg.data, HEADER_LEN), StartOf(c, seg), priorTs)
  }

  lemma HeaderIff(c: Crypto, seg: SegFile, prior: Option<Digest>)
    ensures CheckHeader(c, seg, prior).Ok? <==> HeaderOk(c, seg.data, prior)
    ensures CheckHeader(c, seg, prior).Ok? ==> CheckHeader(c, seg, prior).value == StartOf(c, seg)
  {
    hide Fields, FromLe;
  }

  lemma SegmentIff(c: Crypto, cp: Option<Checkpoint>, seg: SegFile, prior: Option<Digest>, w: Walk)
    ensures var r := WalkSegment(c, cp, seg, prior, w);
      && (r.Clean? <==> SegmentOk(c, cp, seg, prior, w.priorTs))
      && (r.Clean? ==>
            var ps := Payloads(seg.data, HEADER_LEN);
            && r.head == HeadAfter(c, StartOf(c, seg), ps)
            && r.walk == Walk(w.records + |ps|, TimeAfter(w.priorTs, ps), w.reached || Reaches(cp, seg.index, ps)))
  {
    hide CheckHeader, HeaderOk, WalkRecords, Payloads, PayloadsOk, StartOf, Reaches, TimeAfter, Frames, AllShort;
    HeaderIff(c, seg, prior);
    if CheckHeader(c, seg, prior).Ok? {
      HeaderLong(c, seg.data, prior);
      var start, ps := StartOf(c, seg), Payloads(seg.data, HEADER_LEN);
      if WalkRecords(c, cp, seg, HEADER_LEN, start, 0, w).Clean? {
        CleanIsFrames(c, cp, seg, HEADER_LEN, start, 0, w);
      }
      if Intact(c, seg) {
        WalkOfFrames(c, cp, seg, HEADER_LEN, ps, start, 0, w);
        CleanIff(c, cp, seg.index, ps, HEADER_LEN, start, 0, w);
      }
    }
  }

  lemma HeaderLong(c: Crypto, b: bytes, prior: Option<Digest>)
    requires HeaderOk(c, b, prior)
    ensures |b| >= HEADER_LEN
  {
  }

  /** The last link, and the last time, of the segments before `i`. */
  function HeadBefore(c: Crypto, dir: seq<SegFile>, i: nat): Option<Digest>
    requires i <= |dir|
  {
    if i == 0 || |dir[i - 1].data| < HEADER_LEN then None
    else Some(HeadAfter(c, StartOf(c, dir[i - 1]), Payloads(dir[i - 1].data, HEADER_LEN)))
  }

  function TimeBefore(dir: seq<SegFile>, i: nat): Option<int>
    requires i <= |dir|
  {
    if i == 0 then None else TimeAfter(TimeBefore(dir, i - 1), Payloads(dir[i - 1].data, HEADER_LEN))
  }

  /** Record `k` of the file at place `i` is the checkpoint's: same segment,
      same id, same tag. */
  predicate HeldAt(c: Crypto, cp: Checkpoint, dir: seq<SegFile>, i: nat, k: nat) {
    && i < |dir| && k < |Payloads(dir[i].data, HEADER_LEN)|
    && var p := Payloads(dir[i].data, HEADER_LEN)[k]; cp.IsPosition(dir[i].index, IdOf(p)) && c.sign(p) == cp.hmac
  }

  predicate OkFrom(c: Crypto, cp: Option<Checkpoint>, dir: seq<SegFile>, i: nat)
    requires i <= |dir|
  {
    forall j :: i <= j < |dir| ==> SegmentOk(c, cp, dir[j], HeadBefore(c, dir, j), TimeBefore(dir, j))
  }

  predicate ReachedFrom(cp: Option<Checkpoint>, dir: seq<SegFile>, i: nat)
    requires i <= |dir|
  {
    exists j :: i <= j < |dir| && Reaches(cp, dir[j].index, Payloads(dir[j].data, HEADER_LEN))
  }

  lemma {:induction false} WalkIff(c: Crypto, cp: Option<Checkpoint>, dir: seq<SegFile>, i: nat, w: Walk)
    requires i <= |dir| && w.priorTs == TimeBefore(dir, i)
    ensures WalkFrom(c, cp, dir, i, HeadBefore(c, dir, i), w).verdict == Verified
       <==> OkFrom(c, cp, dir, i) && (cp.Some? ==> w.reached || ReachedFrom(cp, dir, i))
    decreases |dir| - i
  {
    hide WalkSegment, SegmentOk, Payloads, StartOf, Reaches, TimeAfter;
    if i < |dir| {
      SegmentIff(c, cp, dir[i], HeadBefore(c, dir, i), w);
      var r := WalkSegment(c, cp, dir[i], HeadBefore(c, dir, i), w);
      if r.Clean? {
        SegmentLong(c, cp, dir[i], HeadBefore(c, dir, i), w.priorTs);
        WalkIff(c, cp, dir, i + 1, r.walk);
      }
      OkFromNext(c, cp, dir, i);
    }
  }

  lemma SegmentLong(c: Crypto, cp: Option<Checkpoint>, seg: SegFile, prior: Option<Digest>, priorTs: Option<int>)
    requires SegmentOk(c, cp, seg, prior, priorTs)
    ensures |seg.data| >= HEADER_LEN
  {
    hide PayloadsOk, Payloads, Frames;
  }

  lemma OkFromNext(c: Crypto, cp: Option<Checkpoint>, dir: seq<SegFile>, i: nat)
    requires i < |dir|
    ensures OkFrom(c, cp, dir, i)
      <==> SegmentOk(c, cp, dir[i], HeadBefore(c, dir, i), TimeBefore(dir, i)) && OkFrom(c, cp, dir, i + 1)
    ensures ReachedFrom(cp, dir, i)
      <==> Reaches(cp, dir[i].index, Payloads(dir[i].data, HEADER_LEN)) || ReachedFrom(cp, dir, i + 1)
  {
    hide SegmentOk, Payloads, Reaches, HeadBefore, TimeBefore;
  }

  /** Where the checkpoint's place is reached in a log without contradictions,
      its tag is there. */
  lemma ReachedIsHeld(c: Crypto, cp: Checkpoint, dir: seq<SegFile>)
    requires OkFrom(c, Some(cp), dir, 0)
    ensures ReachedFrom(Some(cp), dir, 0) <==> exists i: nat, k: nat :: HeldAt(c, cp, dir, i, k)
  {
    hide Payloads, IdOf, HeaderOk, StartOf, Intact, HeadBefore, TimeBefore, TimeAfter, RecordOf, TimeOf;
    if ReachedFrom(Some(cp), dir, 0) {
      var i :| 0 <= i < |dir| && Reaches(Some(cp), dir[i].index, Payloads(dir[i].data, HEADER_LEN));
      var ps := Payloads(dir[i].data, HEADER_LEN);
      var k :| 0 <= k < |ps| && cp.IsPosition(dir[i].index, IdOf(ps[k]));
      assert SegmentOk(c, Some(cp), dir[i], HeadBefore(c, dir, i), TimeBefore(dir, i));
      assert HeldAt(c, cp, dir, i, k);
    }
    if i: nat, k: nat :| HeldAt(c, cp, dir, i, k) {
      assert Reaches(Some(cp), dir[i].index, Payloads(dir[i].data, HEADER_LEN));
    }
  }

  /** Exactly which logs are verified: every header is sound and names the
      last link before it, every file is whole frames, every record links to
      the one before it, is under the key and does not step back more than a
      minute, and the checkpoint's record is there and contradicted nowhere.
      Record ids, segment numbers and monotonic times are free. */
  lemma VerifiedIff(c: Crypto, cp: Option<Checkpoint>, dir: seq<SegFile>)
    ensures IsVerified(c, cp, dir) <==>
      && dir != [] && (cp.Some? ==> cp.value.MatchesKey(c.keyId))
      && (forall i :: 0 <= i < |dir| ==> SegmentOk(c, cp, dir[i], HeadBefore(c, dir, i), TimeBefore(dir, i)))
      && (cp.Some? ==> exists i: nat, k: nat :: HeldAt(c, cp.value, dir, i, k))
  {
    hide SegmentOk, HeadBefore, TimeBefore, HeldAt, WalkFrom, ReachedFrom;
    if dir != [] {
      FromStart(c, dir);
      WalkIff(c, cp, dir, 0, Walk(0, None, false));
      if cp.Some? && OkFrom(c, cp, dir, 0) {
        ReachedIsHeld(c, cp.value, dir);
      }
    }
  }

  lemma FromStart(c: Crypto, dir: seq<SegFile>)
    ensures HeadBefore(c, dir, 0) == None && TimeBefore(dir, 0) == None
  {
  }

  function GenesisBody(dir: seq<SegFile>): bytes
    requires dir != [] && |dir[0].data| >= HEADER_LEN
  {
    dir[0].data[..HEADER_BODY_LEN]
  }

  predicate HasGenesis(dir: seq<SegFile>) { Ascending(dir) && dir != [] && dir[0].index == 0 }

  lemma GenesisStartIs(c: Crypto, dir: seq<SegFile>)
    requires HasGenesis(dir) && CheckHeader(c, dir[0], None).Ok?
    ensures |dir[0].data| >= HEADER_LEN && CheckHeader(c, dir[0], None).value == c.sign(GenesisBody(dir))
  {
    hide Fields, FromLe;
  }

  /** A verified log that starts at segment 0 is one chain from its genesis
      header; the report counts its records and names its head. */
  lemma VerifiedIsChain(c: Crypto, cp: Option<Checkpoint>, dir: seq<SegFile>)
    requires HasGenesis(dir) && IsVerified(c, cp, dir)
    ensures |dir[0].data| >= HEADER_LEN && CheckHeader(c, dir[0], None).Ok?
    ensures var flat, r := Flat(dir, 0), Verify(c, cp, dir).value;
      && Chained(c, c.sign(GenesisBody(dir)), flat)
      && r.finalHmac == Some(HeadAfter(c, c.sign(GenesisBody(dir)), flat))
      && r.recordsInspected == |flat|
      && (cp.Some? ==> HasTag(c, flat, cp.value.hmac))
    ensures cp.Some? ==> exists i: nat, k: nat :: HeldAt(c, cp.value, dir, i, k)
  {
    hide WalkRecords, Payloads, Fields, SegmentOk, HeldAt, CheckHeader;
    VerifiedIff(c, cp, dir);
    var w := Walk(0, None, false);
    var ps, r := Payloads(dir[0].data, HEADER_LEN), WalkSegment(c, cp, dir[0], None, w);
    SegmentIsChained(c, cp, dir[0], None, w);
    GenesisStartIs(c, dir);
    LaterSegmentsChain(c, cp, dir, 1, r.head, r.walk);
    ChainedAppend(c, c.sign(GenesisBody(dir)), ps, Flat(dir, 1));
    TagInEither(c, cp, ps, Flat(dir, 1));
  }

  // ---- one tag pins everything before it ----

  /** Two different inputs with one tag, both among the given byte strings. */
  predicate Collision(c: Crypto, xs: seq<bytes>) {
    exists x, y :: x in xs && y in xs && x != y && c.sign(x) == c.sign(y)
  }

  lemma CollisionLifts(c: Crypto, small: seq<bytes>, all: seq<bytes>)
    requires Collision(c, small) && forall x :: x in small ==> x in all
    ensures Collision(c, all)
  {
  }

  lemma {:induction false} ChainedPrefix(c: Crypto, start: Digest, ps: seq<bytes>, n: nat)
    requires Chained(c, start, ps) && n < |ps|
    ensures Chained(c, start, ps[..n]) && PrevOf(ps[n]) == HeadAfter(c, start, ps[..n])
    ensures ps[n] != [] && ps[n][0] == 0xaa
    decreases n
  {
    if n > 0 {
      ChainedPrefix(c, c.sign(ps[0]), ps[1..], n - 1);
      assert ps[..n][1..] == ps[1..][..n - 1];
      if n > 1 {
        assert ps[1..][..n - 1][n - 2] == ps[n - 1];
      }
    }
  }

  lemma Witness(c: Crypto, all: seq<bytes>, x: bytes, y: bytes)
    requires x in all && y in all && x != y && c.sign(x) == c.sign(y)
    ensures Collision(c, all)
  {
  }

  /** The last input of a chain, and what is left before it. */
  lemma ChainEnd(c: Crypto, h: bytes, a: seq<bytes>)
    requires Chained(c, c.sign(h), a) && a != []
    ensures var a', x := a[..|a| - 1], a[|a| - 1];
      && Chained(c, c.sign(h), a') && PrevOf(x) == HeadAfter(c, c.sign(h), a')
      && x != [] && x[0] == 0xaa && a == a' + [x]
  {
    ChainedPrefix(c, c.sign(h), a, |a| - 1);
  }

  /** A genesis header body starts with the magic, a record with the head of
      a ten-entry map; so the walk back can only stop at genesis on both
      sides at once. */
  lemma {:induction false} PinBack(c: Crypto, h: bytes, a: seq<bytes>, h': bytes, b: seq<bytes>)
    requires h != [] && h[0] == 0x4f && h' != [] && h'[0] == 0x4f
    requires Chained(c, c.sign(h), a) && Chained(c, c.sign(h'), b)
    requires HeadAfter(c, c.sign(h), a) == HeadAfter(c, c.sign(h'), b)
    ensures (h == h' && a == b) || Collision(c, [h] + a + ([h'] + b))
    decreases |a| + |b|
  {
    hide Chained, PrevOf, Collision;
    var all := [h] + a + ([h'] + b);
    assert h in all && h' in all;
    if a == [] && b == [] {
      if h != h' { Witness(c, all, h, h'); }
    } else if a == [] {
      ChainEnd(c, h', b);
      Witness(c, all, h, b[|b| - 1]);
    } else if b == [] {
      ChainEnd(c, h, a);
      Witness(c, all, a[|a| - 1], h');
    } else {
      ChainEnd(c, h, a);
      ChainEnd(c, h', b);
      var x, y := a[|a| - 1], b[|b| - 1];
      if x != y {
        Witness(c, all, x, y);
      } else {
        PinBack(c, h, a[..|a| - 1], h', b[..|b| - 1]);
        if Collision(c, [h] + a[..|a| - 1] + ([h'] + b[..|b| - 1])) {
          CollisionLifts(c, [h] + a[..|a| - 1] + ([h'] + b[..|b| - 1]), all);
        }
      }
    }
  }

  lemma HeadersEqual(c: Crypto, s: SegFile, t: SegFile)
    requires CheckHeader(c, s, None).Ok? && CheckHeader(c, t, None).Ok?
    requires s.data[..HEADER_BODY_LEN] == t.data[..HEADER_BODY_LEN]
    ensures s.data[..HEADER_LEN] == t.data[..HEADER_LEN]
  {
    hide Fields;
    LeOfFromLe(s.data[72..76]);
    LeOfFromLe(t.data[72..76]);
    assert s.data[..80] == s.data[..72] + s.data[72..76] + s.data[76..80];
    assert t.data[..80] == t.data[..72] + t.data[72..76] + t.data[76..80];
  }

  /** A checkpoint pins the whole history before it. If log `a` verifies and
      log `b` verifies against a checkpoint that carries the tag of record `m`
      of `a`, then `b` starts with the same header and the same records up to
      and including `m`; otherwise the two logs hold two different inputs with
      one tag. */
  lemma CheckpointPinsHistory(c: Crypto, cpA: Option<Checkpoint>, a: seq<SegFile>, m: nat, cp: Checkpoint,
      b: seq<SegFile>)
    requires HasGenesis(a) && IsVerified(c, cpA, a)
    requires HasGenesis(b) && IsVerified(c, Some(cp), b)
    requires m < |Flat(a, 0)| && cp.hmac == c.sign(Flat(a, 0)[m])
    ensures |a[0].data| >= HEADER_LEN && |b[0].data| >= HEADER_LEN
    ensures
      || (m < |Flat(b, 0)| && Flat(b, 0)[..m + 1] == Flat(a, 0)[..m + 1]
          && a[0].data[..HEADER_LEN] == b[0].data[..HEADER_LEN])
      || Collision(c, [GenesisBody(a)] + Flat(a, 0) + ([GenesisBody(b)] + Flat(b, 0)))
  {
    hide Flat, IsVerified, Verify, WalkFrom;
    VerifiedIsChain(c, cpA, a);
    VerifiedIsChain(c, Some(cp), b);
    var fa, fb, h, h' := Flat(a, 0), Flat(b, 0), GenesisBody(a), GenesisBody(b);
    var n :| 0 <= n < |fb| && c.sign(fb[n]) == cp.hmac;
    PrefixUpTo(c, c.sign(h), fa, m);
    PrefixUpTo(c, c.sign(h'), fb, n);
    MagicFirst(c, a[0]);
    MagicFirst(c, b[0]);
    var pa, pb := fa[..m + 1], fb[..n + 1];
    PinBack(c, h, pa, h', pb);
    if h == h' && pa == pb {
      HeadersEqual(c, a[0], b[0]);
      assert |pa| == |pb|;
    } else {
      CollisionLifts(c, [h] + pa + ([h'] + pb), [h] + fa + ([h'] + fb));
    }
  }

  lemma MagicFirst(c: Crypto, s: SegFile)
    requires CheckHeader(c, s, None).Ok?
    ensures |s.data| >= HEADER_LEN && s.data[..HEADER_BODY_LEN] != [] && s.data[..HEADER_BODY_LEN][0] == 0x4f
  {
    assert s.data[..4][0] == s.data[0];
  }

  lemma PrefixUpTo(c: Crypto, start: Digest, ps: seq<bytes>, n: nat)
    requires Chained(c, start, ps) && n < |ps|
    ensures Chained(c, start, ps[..n + 1]) && HeadAfter(c, start, ps[..n + 1]) == c.sign(ps[n])
  {
    if n + 1 < |ps| {
      ChainedPrefix(c, start, ps, n + 1);
    } else {
      assert ps[..n + 1] == ps;
    }
  }
}
