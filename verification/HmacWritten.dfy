/** Every log the writer writes verifies. */
module HmacWritten {
  import opened Bytes
  import opened Cbor
  import opened Record
  import opened Segment
  import opened Calendar
  import opened HmacLog
  import opened HmacVerifier
  import opened HmacChain
  import opened HmacHistory

  /** File names hold four digits, and only four-digit names are listed. */
  const MAX_SEGMENTS := 10_000

  function Ms(r: Rec): int { ParseTsMs(r.input.tsWall) }

  /** The time carried into record `k`. */
  function TsAt(prior: Option<int>, recs: seq<Rec>, k: nat): Option<int>
    requires k <= |recs|
  {
    if k == 0 then prior else Some(Ms(recs[k - 1]))
  }

  predicate NoRegression(prior: Option<int>, ms: int) { prior.Some? ==> ms - prior.value >= -MAX_TS_DRIFT_MS }

  predicate SegTsOk(prior: Option<int>, recs: seq<Rec>) {
    forall k :: 0 <= k < |recs| ==> NoRegression(TsAt(prior, recs, k), Ms(recs[k]))
  }

  function LogTs(h: History): Option<int> {
    if h == [] then None else TsAt(LogTs(h[..|h| - 1]), h[|h| - 1], |h[|h| - 1]|)
  }

  /** No record of the log is more than a minute before the one before it. */
  predicate LogTsOk(h: History) {
    h == [] || (LogTsOk(h[..|h| - 1]) && SegTsOk(LogTs(h[..|h| - 1]), h[|h| - 1]))
  }

  predicate SegWf(recs: seq<Rec>) {
    |recs| < U64_END && forall k :: 0 <= k < |recs| ==> WfInput(recs[k].input)
  }

  predicate LogWf(h: History) { forall i :: 0 <= i < |h| ==> SegWf(h[i]) }

  /** Every payload fits its length prefix. */
  predicate LogShort(c: Crypto, h: History, cap: nat) {
    forall i :: 0 <= i < |h| ==> AllShort(LogPayloads(c, h)[i], cap)
  }

  predicate Written(c: Crypto, h: History) {
    h != [] && |h| <= MAX_SEGMENTS && LogWf(h) && LogTsOk(h) && LogShort(c, h, NO_CAP)
  }

  function TotalRecords(h: History): nat {
    if h == [] then 0 else TotalRecords(h[..|h| - 1]) + |h[|h| - 1]|
  }

  /** The checkpoint, if any, carries the tag of a record of the log. */
  predicate TrueCheckpoint(c: Crypto, cp: Option<Checkpoint>, pl: PLog) {
    cp.Some? ==>
      && cp.value.keyId == c.keyId
      && cp.value.segment < |pl| && cp.value.recordId < |pl[cp.value.segment]|
      && cp.value.hmac == c.sign(pl[cp.value.segment][cp.value.recordId])
  }

  predicate CheckpointIn(cp: Option<Checkpoint>, index: nat, from: nat, n: nat) {
    cp.Some? && cp.value.segment == index && from <= cp.value.recordId < n
  }

  /** The checkpoint agrees with segment `index`. */
  predicate CheckpointAgrees(c: Crypto, cp: Option<Checkpoint>, index: nat, ps: seq<bytes>) {
    CheckpointIn(cp, index, 0, |ps|) ==> cp.value.hmac == c.sign(ps[cp.value.recordId])
  }

  lemma CheckWritten(c: Crypto, cp: Option<Checkpoint>, index: nat, r: Rec, prev: Digest, id: nat, offset: nat, w: Walk)
    requires WfInput(r.input) && id < U64_END && NoRegression(w.priorTs, Ms(r))
    requires cp.Some? && cp.value.IsPosition(index, id) ==> cp.value.hmac == c.sign(PayloadOf(c, r, prev, id))
    ensures CheckPayload(c, cp, index, PayloadOf(c, r, prev, id), offset, prev, id, w)
         == Passed(id, Walk(w.records, Some(Ms(r)), w.reached || (cp.Some? && cp.value.IsPosition(index, id))))
  {
    hide RecordBytes, RecordValue, Decode, ReaderDecodeRecordMap, ParseTsMs, WfInput;
    RecordDecodes(c.keyId, r.input, r.session, prev, id);
    RecordReadsBack(c.keyId, r.input, r.session, prev, id);
  }

  /** A record whose time is too far back is reported, in its place. */
  lemma RegressionIsCaught(c: Crypto, cp: Option<Checkpoint>, index: nat, r: Rec, prev: Digest, id: nat, offset: nat,
      w: Walk)
    requires WfInput(r.input) && id < U64_END && !NoRegression(w.priorTs, Ms(r))
    ensures CheckPayload(c, cp, index, PayloadOf(c, r, prev, id), offset, prev, id, w)
         == Failed(Violation(TimestampRegression, index, Some(id), offset))
  {
    hide RecordBytes, RecordValue, Decode, ReaderDecodeRecordMap, ParseTsMs, WfInput;
    RecordDecodes(c.keyId, r.input, r.session, prev, id);
    RecordReadsBack(c.keyId, r.input, r.session, prev, id);
  }

  /** The walk passes record `k`. */
  lemma StepWritten(c: Crypto, cp: Option<Checkpoint>, index: nat, start: Digest, recs: seq<Rec>, k: nat, offset: nat,
      w: Walk)
    requires k < |recs| < U64_END && WfInput(recs[k].input) && NoRegression(w.priorTs, Ms(recs[k]))
    requires CheckpointAgrees(c, cp, index, SegPayloads(c, start, recs))
    ensures var ps := SegPayloads(c, start, recs);
      WalkPayloads(c, cp, index, ps[k..], offset, HeadAfter(c, start, ps[..k]), k, w)
      == WalkPayloads(c, cp, index, ps[k + 1..], offset + |ps[k]| + FRAMING, HeadAfter(c, start, ps[..k + 1]), k + 1,
                      Walk(w.records + 1, Some(Ms(recs[k])), w.reached || CheckpointIn(cp, index, k, k + 1)))
  {
    hide CheckPayload, SegPayloads, WfInput, NoRegression, ParseTsMs, RecordBytes;
    var ps := SegPayloads(c, start, recs);
    PayloadAt(c, start, recs, k);
    CheckWritten(c, cp, index, recs[k], HeadAfter(c, start, ps[..k]), k, offset, w.(records := w.records + 1));
    assert ps[k..][0] == ps[k] && ps[k..][1..] == ps[k + 1..];
    assert HeadAfter(c, start, ps[..k + 1]) == c.sign(ps[k]);
  }

  lemma RecAt(prior: Option<int>, recs: seq<Rec>, k: nat)
    requires k < |recs| && SegWf(recs) && SegTsOk(prior, recs)
    ensures |recs| < U64_END && WfInput(recs[k].input) && NoRegression(TsAt(prior, recs, k), Ms(recs[k]))
  {
    hide WfInput;
  }

  lemma {:induction false} WalkWritten(c: Crypto, cp: Option<Checkpoint>, index: nat, start: Digest, recs: seq<Rec>,
      prior: Option<int>, k: nat, offset: nat, w: Walk)
    requires k <= |recs| && SegWf(recs) && SegTsOk(prior, recs) && w.priorTs == TsAt(prior, recs, k)
    requires CheckpointAgrees(c, cp, index, SegPayloads(c, start, recs))
    ensures var ps := SegPayloads(c, start, recs);
      WalkPayloads(c, cp, index, ps[k..], offset, HeadAfter(c, start, ps[..k]), k, w)
      == Clean(HeadAfter(c, start, ps),
               Walk(w.records + |recs| - k, TsAt(prior, recs, |recs|), w.reached || CheckpointIn(cp, index, k, |recs|)))
    decreases |recs| - k
  {
    hide SegPayloads, WfInput, HeadAfter, CheckpointAgrees, CheckPayload, SegWf, SegTsOk, NoRegression;
    var ps := SegPayloads(c, start, recs);
    if k == |recs| {
      assert ps[..k] == ps && ps[k..] == [];
    } else {
      hide WalkPayloads;
      RecAt(prior, recs, k);
      StepWritten(c, cp, index, start, recs, k, offset, w);
      var w2 := Walk(w.records + 1, Some(Ms(recs[k])), w.reached || CheckpointIn(cp, index, k, k + 1));
      WalkWritten(c, cp, index, start, recs, prior, k + 1, offset + |ps[k]| + FRAMING, w2);
    }
  }

  /** The header the writer wrote for segment `i` is the one the verifier
      expects there. */
  lemma HeaderWritten(c: Crypto, before: PLog, ps: seq<bytes>)
    requires |before| < 0x1_0000
    ensures var seg := SegFile(|before|, SegmentFile(c, before, ps));
      CheckHeader(c, seg, if before == [] then None else Some(Final(c, before))) == Ok(Final(c, before))
  {
    hide Frames, Final, Fields;
    var hd := HeaderAfter(c, before);
    FieldsOfBytes(c, hd, Frames(c, ps));
    var b := hd.ToBytes(c) + Frames(c, ps);
    assert b[..HEADER_BODY_LEN] == hd.Body();
    assert b[..4] == hd.Body()[..4] == Magic();
    HeaderFields(c, b, hd);
    GenesisFinal(c, before);
  }

  lemma GenesisFinal(c: Crypto, before: PLog)
    ensures before == [] ==> Final(c, before) == c.sign(HeaderAfter(c, before).Body())
  {
  }

  lemma HeaderFields(c: Crypto, b: bytes, hd: SegmentHeader)
    requires |b| >= HEADER_LEN && Fields(b) == hd
    ensures FromLe(b[4..6]) == hd.version
  {
  }

  /** A segment of a written log, walked from the state the segments before
      it leave. */
  lemma SegmentWritten(c: Crypto, cp: Option<Checkpoint>, before: PLog, recs: seq<Rec>, prior: Option<int>, w: Walk)
    requires |before| < MAX_SEGMENTS && SegWf(recs) && SegTsOk(prior, recs) && w.priorTs == prior
    requires AllShort(SegPayloads(c, Final(c, before), recs), NO_CAP)
    requires CheckpointAgrees(c, cp, |before|, SegPayloads(c, Final(c, before), recs))
    ensures var ps := SegPayloads(c, Final(c, before), recs);
      WalkSegment(c, cp, SegFile(|before|, SegmentFile(c, before, ps)), if before == [] then None
          else Some(Final(c, before)), w)
      == Clean(Final(c, before + [ps]),
               Walk(w.records + |recs|, TsAt(prior, recs, |recs|), w.reached || CheckpointIn(cp, |before|, 0, |recs|)))
  {
    hide CheckHeader, WalkRecords, WalkPayloads, SegPayloads, SegmentFile, Frames, SegTsOk, SegWf, AllShort,
        CheckpointAgrees, Final;
    var start := Final(c, before);
    var ps := SegPayloads(c, start, recs);
    var seg := SegFile(|before|, SegmentFile(c, before, ps));
    HeaderWritten(c, before, ps);
    FramesAfterHeader(c, before, ps);
    WalkOfFrames(c, cp, seg, HEADER_LEN, ps, start, 0, w);
    assert ps[0..] == ps && ps[..0] == [];
    WalkWritten(c, cp, |before|, start, recs, prior, 0, HEADER_LEN, w);
    FinalOfSegment(c, before, ps);
  }

  lemma FramesAfterHeader(c: Crypto, before: PLog, ps: seq<bytes>)
    ensures SegmentFile(c, before, ps)[HEADER_LEN..] == Frames(c, ps)
  {
  }

  lemma {:induction false} TsOkAt(h: History, i: nat)
    requires LogTsOk(h) && i < |h|
    ensures SegTsOk(LogTs(h[..i]), h[i])
    decreases |h|
  {
    hide SegTsOk, LogTs;
    if i < |h| - 1 {
      TsOkAt(h[..|h| - 1], i);
      assert h[..|h| - 1][..i] == h[..i];
    }
  }

  /** What a written log says of its segment `i`. */
  lemma SegmentFacts(c: Crypto, cp: Option<Checkpoint>, h: History, i: nat)
    requires Written(c, h) && i < |h| && TrueCheckpoint(c, cp, LogPayloads(c, h))
    ensures var pl := LogPayloads(c, h);
      && |h| <= MAX_SEGMENTS && |pl[i]| == |h[i]|
      && SegWf(h[i]) && SegTsOk(LogTs(h[..i]), h[i])
      && pl[i] == SegPayloads(c, Final(c, pl[..i]), h[i])
      && AllShort(pl[i], NO_CAP) && CheckpointAgrees(c, cp, i, pl[i])
      && DirOfHistory(c, h)[i] == SegFile(i, SegmentFile(c, pl[..i], pl[i]))
      && pl[..i + 1] == pl[..i] + [pl[i]]
      && LogTs(h[..i + 1]) == TsAt(LogTs(h[..i]), h[i], |h[i]|)
      && TotalRecords(h[..i + 1]) == TotalRecords(h[..i]) + |h[i]|
  {
    hide SegPayloads, LogPayloads, SegmentFile, Final, SegTsOk;
    FileAt(c, LogPayloads(c, h), i);
    SegmentPayloadsAt(c, h, i);
    TsOkAt(h, i);
    assert h[..i + 1][..i] == h[..i];
  }

  lemma {:induction false} WalkRest(c: Crypto, cp: Option<Checkpoint>, h: History, i: nat, w: Walk)
    requires Written(c, h) && i <= |h| && TrueCheckpoint(c, cp, LogPayloads(c, h))
    requires w.priorTs == LogTs(h[..i]) && w.records == TotalRecords(h[..i])
    requires w.reached == (cp.Some? && cp.value.segment < i)
    ensures var pl := LogPayloads(c, h);
      WalkFrom(c, cp, DirOfHistory(c, h), i, if i == 0 then None else Some(Final(c, pl[..i])), w)
      == Report(Verified, |h|, TotalRecords(h), Some(|h| - 1), Some(Final(c, pl)), None)
    decreases |h| - i
  {
    hide WalkSegment, LogPayloads, Written, DirOfHistory, LogTs, Final, SegPayloads, SegmentFile, TotalRecords;
    hide SegTsOk, SegWf, AllShort, CheckpointAgrees;
    var pl := LogPayloads(c, h);
    WrittenNonEmpty(c, h);
    if i == |h| {
      assert h[..i] == h && pl[..i] == pl;
      LastIndex(c, h);
    } else {
      SegmentFacts(c, cp, h, i);
      SegmentWritten(c, cp, pl[..i], h[i], LogTs(h[..i]), w);
      var w' := Walk(w.records + |h[i]|, LogTs(h[..i + 1]), w.reached || CheckpointIn(cp, i, 0, |h[i]|));
      WalkRest(c, cp, h, i + 1, w');
    }
  }

  lemma LastIndex(c: Crypto, h: History)
    requires h != []
    ensures DirOfHistory(c, h) != [] && DirOfHistory(c, h)[|h| - 1].index == |h| - 1
  {
  }

  lemma WrittenNonEmpty(c: Crypto, h: History)
    requires Written(c, h)
    ensures h != []
  {
  }

  /** Every written log verifies, with no checkpoint or with the tag of any
      of its records as checkpoint: all its frames are inspected, and the
      final tag is the writer's last one. */
  lemma WrittenLogVerifies(c: Crypto, cp: Option<Checkpoint>, h: History)
    requires Written(c, h) && TrueCheckpoint(c, cp, LogPayloads(c, h))
    ensures Verify(c, cp, DirOfHistory(c, h))
         == Ok(Report(Verified, |h|, TotalRecords(h), Some(|h| - 1), Some(StateOf(c, h).lastHmac), None))
  {
    hide WalkFrom, LogPayloads, StateOf, LogTs, Final;
    assert h[..0] == [];
    LogTsEmpty();
    FinalOfHistory(c, h);
    WalkRest(c, cp, h, 0, Walk(0, None, false));
  }

  lemma LogTsEmpty()
    ensures LogTs([]) == None
  {
  }
}
