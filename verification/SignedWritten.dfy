/** Every run of the signed writer is accepted by the verifier. */
module SignedWritten {
  import opened Bytes
  import opened Cbor
  import opened Payload
  import opened Record
  import opened RecordSize
  import opened CborMaps
  import opened Sorting
  import opened HmacWritten
  import opened Segment
  import opened HmacWriter
  import opened HmacReachable
  import opened SignedFormat
  import Dicts
  import opened Trust
  import opened Revocation
  import opened Acceptance
  import opened SignedVerifier
  import opened SignedPin
  import opened SignedElision
  import opened SignedWriter
  import opened SignedReads

  // ---- hypotheses ----

  /** The primitives: the key is sound, its signatures verify, and a time
      formatted a millisecond later reads back as one at most that later. */
  ghost predicate SignerOk(w: Identity) {
    && w.c.strong(w.publicKey)
    && (forall env :: w.c.verify(w.publicKey, env, w.sign(env)).None?)
    && (forall ts :: w.c.toMs(ts).Some? ==> IsText(ts) && |ts| <= 64)
    && (forall ts :: w.c.toMs(ts).Some? ==>
          var ms := w.c.toMs(w.fromMs(w.c.toMs(ts).value + 1)); ms.Some? && 0 <= ms.value - w.c.toMs(ts).value <= 1)
  }

  /** The verifier reads this log with these primitives; if it has pins, they
      include the key for records, and nothing retired or revoked it. */
  ghost predicate Admits(x: Context, w: Identity) {
    && x.c == w.c && x.attested.None? && (x.expectLogId.Some? ==> x.expectLogId.value == w.logId)
    && x.ev.equivocal == {}
    && (x.ev.hasPins ==>
          InScope(x.ev.entries, w.KeyId(), NsRecord) && w.KeyId() !in x.ev.retired && w.KeyId() !in x.ev.cuts)
  }

  predicate PrintableEvent(event: bytes) { 1 <= |event| <= 128 && forall i :: 0 <= i < |event| ==> Printable(event[i]) }

  /** A record the writer can frame and the decoders accept. */
  predicate RecordFit(w: Identity, st: SState, r: SignedInput) {
    && w.c.toMs(r.ts).Some? && PrintableEvent(r.event)
    && r.mono < U64_END && r.schema < U64_END && IsText(r.actor) && PWf(PMap(r.payload), 1)
    && st.id < U64_END && st.seg < INDEX_END
    && |BodyBytesOf(r.actor, r.payload, Nonce(w, st.nonces))| < U32_END
  }

  predicate NoStepBack(last: Option<int>, ms: int) { last.Some? ==> ms - last.value >= -DRIFT_MS }

  function SignerAt(w: Identity, n: nat): Signer { Signer(n, w.logId, w.KeyId(), w.publicKey) }

  // ---- one record ----

  lemma FitText(w: Identity, st: SState, r: SignedInput)
    requires SignerOk(w) && RecordFit(w, st, r)
    ensures EnvelopeFit(st.id, r.ts, r.mono, r.event, r.schema, st.seg)
  {
    hide PWf, IsText;
  }

  lemma RawFramable(w: Identity, st: SState, r: SignedInput)
    requires SignerOk(w) && RecordFit(w, st, r)
    ensures RawOf(w, st, r).Framable()
  {
    var body := BodyBytesOf(r.actor, r.payload, Nonce(w, st.nonces));
    FitText(w, st, r);
    EnvelopeIsShort(w, st.id, st.prev, r.ts, r.mono, r.event, r.schema, st.seg, BodyHash(w.c, body));
  }

  /** What the walk knows of a record it has just taken. */
  ghost predicate Took(x: Context, w: Identity, st: SState, r: SignedInput, t: InSegment, t': InSegment) {
    && Clean(t'.walk) && t'.prev == RecordHash(w.c, RawOf(w, st, r).envelope) && t'.id == st.id + 1
    && t'.finalized == (if r.event == Finalized() then Some(st.id) else None)
    && t'.walk.sealed == (r.event == SealEvent())
    && t'.walk.lastMs == w.c.toMs(r.ts)
    && t'.walk.trusted == (t.walk.trusted || x.ev.hasPins)
    && t'.walk.genesis == t.walk.genesis && t'.walk.elided == t.walk.elided && t'.walk.warnings == t.walk.warnings
    && t'.walk.rolledNoSuccessor == t.walk.rolledNoSuccessor && t'.walk.count == t.walk.count + 1
    && t'.walk.afterHead == t.walk.afterHead
    && t'.walk.last == Some(LastRecord(Position(st.seg, st.id), Text(r.event)))
  }

  lemma TrustGranted(x: Context, w: Identity, n: nat, id: nat, hash: Digest)
    requires Admits(x, w) && x.ev.hasPins
    ensures TrustOf(x, SignerAt(w, n), id, hash) == None
  {
    AcceptsCurrentKey(x.ev, w.KeyId(), NsRecord, SignedRecord(w.logId, n, id, hash));
  }

  /** The body of a finalize record matches its place; others are not
      checked. */
  lemma RolloverChecks(w: Identity, st: SState, r: SignedInput)
    requires r.event == Finalized() ==> r.payload == FinalizeMembers(st.prev, st.id)
    ensures var es := BodyEntries(r.actor, r.payload, Nonce(w, st.nonces));
      r.event == Finalized() ==> CheckRollover(BodyFields(es), st.id, Bytes(st.prev)) == RolloverGood
  {
    hide CheckRollover, BodyEntries;
    if r.event == Finalized() {
      FinalizeChecks(w.c, r.actor, Nonce(w, st.nonces), st.prev, st.id);
    }
  }

  lemma EventNames(event: bytes)
    ensures Text(event) == Finalize() <==> event == Finalized()
    ensures Text(event) == Seal() <==> event == SealEvent()
    ensures Text(event) == Continue() <==> event == ContinueEvent()
  {
  }

  /** What a step does with a record in which nothing is wrong. */
  lemma GoodFields(x: Context, s: Signer, raw: Raw, es: seq<Entry>, t: InSegment)
    requires var body := ReadBody(x.c, raw.body, FieldOf(es, 13));
      && body.BodyFields? && FieldViolations(s, es, body, t.id, t.prev) == []
      && (FieldOf(es, 7) == Finalize() ==> CheckRollover(body, t.id, FieldOf(es, 2)) == RolloverGood)
    requires MsOf(x.c, es).Some? && NoStepBack(t.walk.lastMs, MsOf(x.c, es).value) && !t.walk.sealed && raw.body.Some?
    requires x.ev.hasPins ==> TrustOf(x, s, t.id, RecordHash(x.c, raw.envelope)) == None
    ensures var w, event, pos, hash := t.walk, FieldOf(es, 7), Position(s.index, t.id), RecordHash(x.c, raw.envelope);
      StepFields(x, s, raw, es, t)
      == InSegment(w.(trusted := w.trusted || x.ev.hasPins, sealed := event == Seal(), lastMs := MsOf(x.c, es),
                      positions := w.positions[pos := Found(hash, w.count)], last := Some(LastRecord(pos, event))),
                   hash, t.id + 1, if event == Finalize() then Some(t.id) else None)
  {
    hide ReadBody, FieldOf, FieldViolations, CheckRollover, MsOf, TrustOf, RecordHash, Finalize, Seal, Structural,
        SignedWalk.Violate;
    var w, event, pos, hash := t.walk, FieldOf(es, 7), Position(s.index, t.id), RecordHash(x.c, raw.envelope);
    var none: seq<SignedViolation> := [];
    assert none + none + none + none + none + none == none;
    var w' := w.(trusted := w.trusted || x.ev.hasPins, sealed := event == Seal(), lastMs := MsOf(x.c, es),
                 positions := w.positions[pos := Found(hash, w.count)], last := Some(LastRecord(pos, event)));
    NothingToViolate(w');
    assert StepFields(x, s, raw, es, t)
        == InSegment(w'.Violate(none), hash, t.id + 1, if event == Finalize() then Some(t.id) else None);
  }

  lemma NothingToViolate(w: SignedWalk)
    ensures w.Violate([]) == w
  {
    assert w.violations + [] == w.violations;
  }

  /** The fields of a written record raise no violation. */
  lemma FieldsWritten(x: Context, w: Identity, st: SState, r: SignedInput, t: InSegment)
    requires SignerOk(w) && Admits(x, w) && RecordFit(w, st, r)
    requires Clean(t.walk) && !t.walk.sealed && t.prev == st.prev && t.id == st.id
    requires NoStepBack(t.walk.lastMs, w.c.toMs(r.ts).value)
    requires r.event == Finalized() ==> r.payload == FinalizeMembers(st.prev, st.id)
    requires t.walk.count > 0
    ensures var raw := RawOf(w, st, r);
      var bh := BodyHash(w.c, BodyBytesOf(r.actor, r.payload, Nonce(w, st.nonces)));
      var t' := StepFields(x, SignerAt(w, st.seg), raw,
          EnvelopeEntries(w, st.id, st.prev, r.ts, r.mono, r.event, r.schema, st.seg, bh), t);
      Took(x, w, st, r, t.(walk := t.walk.(count := t.walk.count - 1)), t')
  {
    hide EnvelopeEntries, FieldOf, ReadBody, CheckRollover, TrustOf, RecordHash, BodyHash, EnvelopeBytes, BodyBytesOf,
        BodyEntries,
      EnvelopeKeys, Finalize, Seal, Continue, Finalized, SealEvent, ContinueEvent, PWf, IsText, Nonce, SignerOk,
          FinalizeMembers,
      StepFields, FieldViolations, MsOf;
    var body := BodyBytesOf(r.actor, r.payload, Nonce(w, st.nonces));
    var bh := BodyHash(w.c, body);
    var es, s, raw := EnvelopeEntries(w, st.id, st.prev, r.ts, r.mono, r.event, r.schema, st.seg, bh),
        SignerAt(w, st.seg), RawOf(w, st, r);
    BodyReads(w.c, r.actor, r.payload, Nonce(w, st.nonces));
    RolloverChecks(w, st, r);
    EventNames(r.event);
    NothingWrong(w, st, r, bh, ReadBody(w.c, raw.body, Bytes(bh)));
    if x.ev.hasPins {
      TrustGranted(x, w, st.seg, st.id, RecordHash(w.c, raw.envelope));
    }
    GoodFields(x, s, raw, es, t);
  }

  lemma NothingWrong(w: Identity, st: SState, r: SignedInput, bh: Digest, body: BodyRead)
    requires body.BodyFields?
    ensures var es := EnvelopeEntries(w, st.id, st.prev, r.ts, r.mono, r.event, r.schema, st.seg, bh);
      && FieldViolations(SignerAt(w, st.seg), es, body, st.id, st.prev) == []
      && FieldOf(es, 2) == Bytes(st.prev) && FieldOf(es, 7) == Text(r.event) && FieldOf(es, 13) == Bytes(bh)
      && MsOf(w.c, es) == w.c.toMs(r.ts)
  {
    hide EnvelopeEntries, FieldOf;
    EnvelopeFields(w, st.id, st.prev, r.ts, r.mono, r.event, r.schema, st.seg, bh);
  }

  /** The verifier takes every record the writer writes. */
  lemma RecordTaken(x: Context, w: Identity, st: SState, r: SignedInput, t: InSegment)
    requires SignerOk(w) && Admits(x, w) && RecordFit(w, st, r) && st.segments != []
    requires Clean(t.walk) && !t.walk.sealed && t.prev == st.prev && t.id == st.id && t.finalized.None?
    requires NoStepBack(t.walk.lastMs, w.c.toMs(r.ts).value)
    requires r.event == Finalized() ==> r.payload == FinalizeMembers(st.prev, st.id)
    ensures Took(x, w, st, r, t, StepRecord(x, SignerAt(w, st.seg), RawOf(w, st, r), t))
  {
    hide StepFields, EnvelopeOf, EnvelopeEntries, EnvelopeBytes, BodyBytesOf, BodyHash, RecordFit, Wrote, Finalized,
        SealEvent, FinalizeMembers;
    var bh := BodyHash(w.c, BodyBytesOf(r.actor, r.payload, Nonce(w, st.nonces)));
    FitText(w, st, r);
    EnvelopeReads(w, st.id, st.prev, r.ts, r.mono, r.event, r.schema, st.seg, bh);
    var s, raw := SignerAt(w, st.seg), RawOf(w, st, r);
    GoodStepIsFields(x, s, raw, t);
    FieldsWritten(x, w, st, r, t.(walk := Seen(x, s, t)));
  }

  // ---- logs as headers and records ----

  datatype SegmentLog = SegmentLog(header: SignedHeader, raws: seq<Raw>)

  function FileOfLog(c: Scheme, g: SegmentLog): bytes { g.header.ToBytes(c) + SignedFrames(g.raws) }

  function DirOfSegments(segments: seq<bytes>): (dir: seq<SegFile>)
    ensures |dir| == |segments| && forall i :: 0 <= i < |dir| ==> dir[i] == SegFile(i, segments[i])
  {
    seq(|segments|, i requires 0 <= i < |segments| => SegFile(i, segments[i]))
  }

  /** The clean walk through one more segment. */
  function EnterAt(x: Context, w: SignedWalk, n: nat, g: SegmentLog, prevFinal: Digest): Option<InSegment> {
    match CheckSignedHeader(x, w, n, g.header.ToBytes(x.c), prevFinal)
    case Err(_) => None
    case Ok(s) =>
      var entered := EnterLog(x, s, w);
      var t := WalkRaws(x, s, g.raws, InSegment(entered, HeaderHash(x.c, g.header.Hashed()), 0, None));
      if Clean(entered) && Clean(t.walk) then Some(t) else None
  }

  /** The clean walk up to the last record of a log. */
  function WalkTo(x: Context, log: seq<SegmentLog>): Option<InSegment>
    requires log != []
  {
    var n := |log| - 1;
    if n == 0 then EnterAt(x, StartWalk(x), 0, log[0], ZERO_DIGEST)
    else
      match WalkTo(x, log[..n])
      case None => None
      case Some(u) => if u.id == 0 then None else EnterAt(x, u.walk, n, log[n], u.prev)
  }

  lemma FileParts(c: Scheme, g: SegmentLog)
    requires AllFramable(g.raws)
    ensures var b := FileOfLog(c, g);
      && |b| >= SIGNED_HEADER_LEN && b[..SIGNED_HEADER_LEN] == g.header.ToBytes(c)
          && b[..HASHED_LEN] == g.header.Hashed()
      && RawsFrom(b, SIGNED_HEADER_LEN) == g.raws && b[TailOf(b, SIGNED_HEADER_LEN)..] == []
  {
    hide SignedHeader.Hashed, SignedFrames, RawsFrom, TailOf, ReadSigned;
    var b := FileOfLog(c, g);
    EmptyRest();
    assert b[SIGNED_HEADER_LEN..] == SignedFrames(g.raws) + [][0..];
    RawsOfFrames(b, SIGNED_HEADER_LEN, g.raws, [], 0);
    assert b[..HASHED_LEN] == b[..SIGNED_HEADER_LEN][..HASHED_LEN];
  }

  lemma EmptyRest()
    ensures !ReadSigned([], 0).Record?
  {
  }

  /** Entering a written file is entering its header and records. */
  lemma EnterFile(x: Context, w: SignedWalk, n: nat, g: SegmentLog, prevFinal: Digest, b: bytes) returns (s: Signer)
    requires AllFramable(g.raws) && b == FileOfLog(x.c, g) && EnterAt(x, w, n, g, prevFinal).Some?
    ensures |b| >= SIGNED_HEADER_LEN && CheckSignedHeader(x, w, n, b, prevFinal) == Ok(s) && s.index == n
    ensures Clean(EnterLog(x, s, w)) && SegmentWalk(x, w, s, b) == EnterAt(x, w, n, g, prevFinal).value
  {
    hide CheckSignedHeader, EnterLog, WalkRaws, FileOfLog, SignedHeader.ToBytes, SignedHeader.Hashed, WalkFrames,
        AfterRaws;
    FileParts(x.c, g);
    HeaderElided(x, w, w.elided, n, g.header.ToBytes(x.c), b, prevFinal);
    assert w.(elided := w.elided) == w;
    s := CheckSignedHeader(x, w, n, b, prevFinal).value;
    var start := InSegment(EnterLog(x, s, w), HeaderHash(x.c, b[..HASHED_LEN]), 0, None);
    WalkIsFold(x, s, b, SIGNED_HEADER_LEN, start);
    NoTail(x, s, WalkRaws(x, s, g.raws, start));
  }

  lemma NoTail(x: Context, s: Signer, t: InSegment)
    ensures AfterRaws(x, s, t, []) == t
  {
  }

  predicate FilesAre(c: Scheme, segments: seq<bytes>, log: seq<SegmentLog>) {
    |segments| == |log| && forall i ::
      0 <= i < |log| ==> segments[i] == FileOfLog(c, log[i]) && AllFramable(log[i].raws)
  }

  lemma WalkPrefix(x: Context, log: seq<SegmentLog>)
    requires |log| > 1 && WalkTo(x, log).Some?
    ensures WalkTo(x, log[..|log| - 1]).Some? && WalkTo(x, log[..|log| - 1]).value.id > 0
  {
    hide EnterAt;
  }

  lemma EnteredClean(x: Context, log: seq<SegmentLog>)
    requires log != [] && WalkTo(x, log).Some?
    ensures Clean(WalkTo(x, log).value.walk)
  {
    hide CheckSignedHeader, EnterLog, WalkRaws;
  }

  lemma CloseEarlier(t: InSegment, n: nat)
    ensures CloseSegment(t, n, false) == t.walk
  {
  }

  /** The verifier's walk over the files is the walk over the log. */
  lemma {:induction false} WalkReaches(x: Context, segments: seq<bytes>, log: seq<SegmentLog>, k: nat)
    requires FilesAre(x.c, segments, log) && k < |log| && WalkTo(x, log[..k + 1]).Some?
    ensures var t := WalkTo(x, log[..k + 1]).value;
      LogWalk(x, DirOfSegments(segments))
      == WalkSegments(x, DirOfSegments(segments), k + 1, t.prev, t.id > 0, CloseSegment(t, k, k == |log| - 1))
    decreases k
  {
    hide CheckSignedHeader, EnterLog, CloseSegment, WalkSegments, EnterAt, FileOfLog, SegmentWalk, Clean, AllFramable;
    var dir := DirOfSegments(segments);
    var here := log[..k + 1];
    assert here[..k] == log[..k] && here[k] == log[k];
    if k == 0 {
      var w := StartWalk(x);
      StartClean(x);
      var s := EnterFile(x, w, 0, log[0], ZERO_DIGEST, dir[0].data);
      CleanEntered(x, s, w);
      PassSegment(x, dir, 0, ZERO_DIGEST, true, w, s);
    } else {
      WalkPrefix(x, here);
      var u := WalkTo(x, log[..k]).value;
      EnteredClean(x, log[..k]);
      WalkReaches(x, segments, log, k - 1);
      assert log[..k - 1 + 1] == log[..k];
      CloseEarlier(u, k - 1);
      var s := EnterFile(x, u.walk, k, log[k], u.prev, dir[k].data);
      CleanEntered(x, s, u.walk);
      NotHaltedWhenClean(u.walk);
      PassSegment(x, dir, k, u.prev, true, u.walk, s);
    }
  }

  lemma NotHaltedWhenClean(w: SignedWalk)
    requires Clean(w)
    ensures !w.Halted()
  {
  }

  lemma StartClean(x: Context)
    ensures !StartWalk(x).Halted()
  {
  }

  lemma CleanEntered(x: Context, s: Signer, w: SignedWalk)
    requires Clean(EnterLog(x, s, w))
    ensures !EnterLog(x, s, w).stop
  {
  }

  // ---- the writer's log, walked as it grows ----

  /** The walk stands where the writer does. */
  ghost predicate Follows(x: Context, w: Identity, st: SState, t: InSegment) {
    && Clean(t.walk) && !t.walk.sealed && t.prev == st.prev && t.id == st.id && t.finalized.None?
    && t.walk.genesis == Some(SignerAt(w, 0)) && t.walk.elided == [] && t.walk.warnings == []
        && !t.walk.rolledNoSuccessor
    && t.walk.afterHead == 0 && t.walk.count == st.nonces && t.walk.trusted == (x.ev.hasPins && st.nonces > 0)
    && t.walk.lastMs == (if st.last.Some? then w.c.toMs(st.last.value.ts) else None)
    && (st.last.Some? <==> st.nonces > 0) && (st.last.Some? ==> w.c.toMs(st.last.value.ts).Some?)
    && (t.walk.last.Some? <==> st.nonces > 0) && (t.walk.last.Some? ==> t.walk.last.value.event != Seal())
    && (st.id > 0 ==> st.nonces > 0)
  }

  /** The log the writer has written so far, and the walk over it. */
  ghost predicate Tracks(x: Context, w: Identity, st: SState, log: seq<SegmentLog>, t: InSegment) {
    && log != [] && st.seg == |log| - 1 && FilesAre(w.c, st.segments, log)
    && WalkTo(x, log) == Some(t) && Follows(x, w, st, t)
    && log[|log| - 1].header.Valid() && log[|log| - 1].header.logId == w.logId
    && log[|log| - 1].header.keyId == w.KeyId() && log[|log| - 1].header.publicKey == w.publicKey
  }

  function GrowLog(log: seq<SegmentLog>, raw: Raw): (log': seq<SegmentLog>)
    requires log != []
    ensures |log'| == |log|
  {
    var n := |log| - 1;
    log[n := SegmentLog(log[n].header, log[n].raws + [raw])]
  }

  lemma {:induction false} WalkRawsSnoc(x: Context, s: Signer, raws: seq<Raw>, raw: Raw, t: InSegment)
    requires !WalkRaws(x, s, raws, t).walk.Halted()
    ensures WalkRaws(x, s, raws + [raw], t) == StepRecord(x, s, raw, WalkRaws(x, s, raws, t))
    decreases |raws|
  {
    hide StepRecord, SignedWalk.Halted;
    if raws == [] {
      assert [raw][1..] == [] && [] + [raw] == [raw];
      assert WalkRaws(x, s, [raw], t) == WalkRaws(x, s, [], StepRecord(x, s, raw, t));
    } else {
      assert (raws + [raw])[1..] == raws[1..] + [raw];
      if !t.walk.Halted() {
        WalkRawsSnoc(x, s, raws[1..], raw, StepRecord(x, s, raws[0], t));
      }
    }
  }

  lemma FramesSnocSigned(raws: seq<Raw>, raw: Raw)
    ensures SignedFrames(raws + [raw]) == SignedFrames(raws) + SignedFrame(raw)
    decreases |raws|
  {
    hide SignedFrame;
    if raws == [] {
      assert [] + [raw] == [raw] && [raw][1..] == [];
      assert SignedFrames([raw]) == SignedFrame(raw) + SignedFrames([]);
    } else {
      FramesSnocSigned(raws[1..], raw);
      assert (raws + [raw])[1..] == raws[1..] + [raw];
    }
  }

  lemma GrownFile(c: Scheme, segments: seq<bytes>, log: seq<SegmentLog>, raw: Raw)
    requires log != [] && FilesAre(c, segments, log) && raw.Framable()
    ensures var n := |log| - 1; FilesAre(c, segments[n := segments[n] + SignedFrame(raw)], GrowLog(log, raw))
  {
    hide SignedFrame, SignedFrames, SignedHeader.ToBytes;
    var n := |log| - 1;
    var log', segs' := GrowLog(log, raw), segments[n := segments[n] + SignedFrame(raw)];
    FramesSnocSigned(log[n].raws, raw);
    assert FileOfLog(c, log'[n]) == segs'[n];
    forall i | 0 <= i < |log'| ensures segs'[i] == FileOfLog(c, log'[i]) && AllFramable(log'[i].raws) {
      if i < n {
        assert log'[i] == log[i] && segs'[i] == segments[i];
      }
    }
  }

  /** The signer the verifier reads from a written header. */
  lemma SignerRead(x: Context, w: SignedWalk, n: nat, h: SignedHeader, prevFinal: Digest)
    requires h.Valid() && CheckSignedHeader(x, w, n, h.ToBytes(x.c), prevFinal).Ok?
    ensures CheckSignedHeader(x, w, n, h.ToBytes(x.c), prevFinal).value == Signer(n, h.logId, h.keyId, h.publicKey)
  {
    hide FromLe, SignedFields, SignedHeader.ToBytes;
    SignedHeaderRoundTrip(x.c, h, []);
    assert h.ToBytes(x.c) + [] == h.ToBytes(x.c);
  }

  /** One more record in the last segment is one more step of the walk. */
  lemma WalkGrows(x: Context, log: seq<SegmentLog>, raw: Raw, t: InSegment, s: Signer)
    requires log != [] && WalkTo(x, log) == Some(t) && log[|log| - 1].header.Valid()
    requires var h := log[|log| - 1].header; s == Signer(|log| - 1, h.logId, h.keyId, h.publicKey)
    requires Clean(StepRecord(x, s, raw, t).walk)
    ensures WalkTo(x, GrowLog(log, raw)) == Some(StepRecord(x, s, raw, t))
  {
    hide CheckSignedHeader, EnterLog, WalkRaws, StepRecord, SignedHeader.ToBytes, SignedHeader.Hashed;
    var n := |log| - 1;
    var log' := GrowLog(log, raw);
    assert log'[..n] == log[..n];
    EnteredClean(x, log);
    NotHaltedWhenClean(t.walk);
    var h := log[n].header;
    if n == 0 {
      SignerRead(x, StartWalk(x), 0, h, ZERO_DIGEST);
      WalkRawsSnoc(x, s, log[n].raws, raw, InSegment(EnterLog(x, s, StartWalk(x)), HeaderHash(x.c, h.Hashed()), 0,
          None));
    } else {
      var u := WalkTo(x, log[..n]).value;
      SignerRead(x, u.walk, n, h, u.prev);
      WalkRawsSnoc(x, s, log[n].raws, raw, InSegment(EnterLog(x, s, u.walk), HeaderHash(x.c, h.Hashed()), 0, None));
    }
  }

  /** Times are in order, and a rollover's finalize record fits its place. */
  predicate InPlace(w: Identity, st: SState, r: SignedInput)
    requires w.c.toMs(r.ts).Some?
  {
    && (st.last.Some? ==> NoStepBack(w.c.toMs(st.last.value.ts), w.c.toMs(r.ts).value))
    && (r.event == Finalized() ==> r.payload == FinalizeMembers(st.prev, st.id))
  }

  /** Writing a record extends files, log and walk alike. */
  lemma RecordGrows(x: Context, w: Identity, st: SState, log: seq<SegmentLog>, t: InSegment, r: SignedInput)
      returns (log': seq<SegmentLog>, t': InSegment)
    requires SignerOk(w) && Admits(x, w) && Tracks(x, w, st, log, t) && RecordFit(w, st, r) && InPlace(w, st, r)
    ensures st.segments != [] && log' != [] && |log'| == |log|
    ensures FilesAre(w.c, Wrote(w, st, r).segments, log') && WalkTo(x, log') == Some(t') && Took(x, w, st, r, t, t')
    ensures log'[|log'| - 1].header == log[|log| - 1].header
  {
    hide RawOf, WalkTo, StepRecord, RecordFit, SignerOk, FilesAre, SignedFrame, Admits, Finalized, FinalizeMembers;
    var raw, s := RawOf(w, st, r), SignerAt(w, st.seg);
    FilesSize(w.c, st.segments, log);
    RecordFitTime(w, st, r);
    RecordTaken(x, w, st, r, t);
    RawFramable(w, st, r);
    t' := StepRecord(x, s, raw, t);
    log' := GrowLog(log, raw);
    WalkGrows(x, log, raw, t, s);
    GrownFile(w.c, st.segments, log, raw);
    assert Wrote(w, st, r).segments == st.segments[|log| - 1 := st.segments[|log| - 1] + SignedFrame(raw)];
  }

  lemma FilesSize(c: Scheme, segments: seq<bytes>, log: seq<SegmentLog>)
    requires FilesAre(c, segments, log)
    ensures |segments| == |log|
  {
  }

  lemma RecordFitTime(w: Identity, st: SState, r: SignedInput)
    requires RecordFit(w, st, r)
    ensures w.c.toMs(r.ts).Some?
  {
  }

  /** After a caller's record the walk still follows. */
  lemma CallerTracks(x: Context, w: Identity, st: SState, log: seq<SegmentLog>, t: InSegment, r: SignedInput)
      returns (log': seq<SegmentLog>, t': InSegment)
    requires SignerOk(w) && Admits(x, w) && Tracks(x, w, st, log, t) && RecordFit(w, st, r) && InPlace(w, st, r)
    requires r.event != Finalized() && r.event != SealEvent()
    ensures st.segments != [] && Tracks(x, w, Wrote(w, st, r), log', t') && |log'| == |log|
  {
    hide WalkTo, SignerOk, FilesAre, SignedFrame, Admits, Finalized, SealEvent, Finalize, Seal, FinalizeMembers, RawOf,
        InPlace;
    log', t' := RecordGrows(x, w, st, log, t, r);
    RecordFitTime(w, st, r);
    EventNames(r.event);
    FilesSize(w.c, Wrote(w, st, r).segments, log');
  }

  // ---- the next segment ----

  lemma HeaderAccepted(x: Context, w: Identity, walk: SignedWalk, n: nat, prevFinal: Digest)
    requires SignerOk(w) && Admits(x, w) && n < INDEX_END
    requires if n == 0 then prevFinal == ZERO_DIGEST else walk.genesis == Some(SignerAt(w, 0))
    ensures HeaderOf(w, n, prevFinal).Valid()
    ensures CheckSignedHeader(x, walk, n, HeaderOf(w, n, prevFinal).ToBytes(x.c), prevFinal) == Ok(SignerAt(w, n))
  {
    hide FromLe, SignedFields, SignedHeader.ToBytes, SignedHeader.Hashed, Le;
    var h := HeaderOf(w, n, prevFinal);
    SignedHeaderRoundTrip(x.c, h, []);
    var b := h.ToBytes(x.c);
    assert b + [] == b;
    VersionField(b, h);
  }

  lemma VersionField(b: bytes, h: SignedHeader)
    requires |b| >= HASHED_LEN && SignedFields(b) == h
    ensures FromLe(b[4..6]) == h.version && FromLe(b[8..10]) == h.alg
  {
  }

  lemma EntersEmpty(x: Context, w: SignedWalk, s: Signer, n: nat, g: SegmentLog, prevFinal: Digest)
    requires CheckSignedHeader(x, w, n, g.header.ToBytes(x.c), prevFinal) == Ok(s) && s.index > 0 && g.raws == []
        && Clean(w)
    ensures EnterAt(x, w, n, g, prevFinal) == Some(InSegment(w, HeaderHash(x.c, g.header.Hashed()), 0, None))
  {
    hide CheckSignedHeader, SignedHeader.ToBytes, SignedHeader.Hashed, Clean, HeaderHash;
  }

  lemma NextHeaderTracks(x: Context, w: Identity, st: SState, log: seq<SegmentLog>, t: InSegment)
      returns (log': seq<SegmentLog>, t': InSegment)
    requires SignerOk(w) && Admits(x, w) && log != [] && st.seg == |log| - 1 && FilesAre(w.c, st.segments, log)
        && |log| < INDEX_END
    requires WalkTo(x, log) == Some(t) && st.id > 0 && Follows(x, w, st, t.(finalized := None))
    ensures Tracks(x, w, Opened(w, st, st.seg + 1, st.prev), log', t') && |log'| == |log| + 1
  {
    hide CheckSignedHeader, SignedHeader.ToBytes, SignedHeader.Hashed, SignerOk, FilesAre, EnterAt;
    var n := |log|;
    var h := HeaderOf(w, n, st.prev);
    log' := log + [SegmentLog(h, [])];
    assert log'[..n] == log;
    HeaderAccepted(x, w, t.walk, n, st.prev);
    EntersEmpty(x, t.walk, SignerAt(w, n), n, log'[n], st.prev);
    t' := InSegment(t.walk, HeaderHash(x.c, h.Hashed()), 0, None);
    assert EnterAt(x, t.walk, n, log'[n], st.prev) == Some(t');
    assert WalkTo(x, log') == Some(t');
    NewFile(w.c, st.segments, log, h);
  }

  lemma NewFile(c: Scheme, segments: seq<bytes>, log: seq<SegmentLog>, h: SignedHeader)
    requires FilesAre(c, segments, log)
    ensures FilesAre(c, segments + [h.ToBytes(c)], log + [SegmentLog(h, [])])
  {
    hide SignedHeader.ToBytes;
    var g := SegmentLog(h, []);
    assert SignedFrames([]) == [];
    assert FileOfLog(c, g) == h.ToBytes(c) + [] == h.ToBytes(c);
    var segs', log' := segments + [h.ToBytes(c)], log + [g];
    forall i | 0 <= i < |log'| ensures segs'[i] == FileOfLog(c, log'[i]) && AllFramable(log'[i].raws) {
      if i < |log| {
        assert log'[i] == log[i] && segs'[i] == segments[i];
      }
    }
  }

  lemma FreshTracks(x: Context, w: Identity) returns (log: seq<SegmentLog>, t: InSegment)
    requires SignerOk(w) && Admits(x, w)
    ensures Tracks(x, w, FreshLog(w), log, t) && |log| == 1
  {
    hide CheckSignedHeader, SignedHeader.ToBytes, SignedHeader.Hashed, SignerOk, FilesAre;
    var h := HeaderOf(w, 0, ZERO_DIGEST);
    log := [SegmentLog(h, [])];
    var start := StartWalk(x);
    HeaderAccepted(x, w, start, 0, ZERO_DIGEST);
    var entered := EnterLog(x, SignerAt(w, 0), start);
    t := InSegment(entered, HeaderHash(x.c, h.Hashed()), 0, None);
    assert Clean(entered);
    assert WalkTo(x, log) == Some(t);
    NewFile(w.c, [], [], h) by { assert FilesAre(w.c, [], []) by { NoFiles(w.c); } }
    assert [] + log == log && [] + [h.ToBytes(w.c)] == [h.ToBytes(w.c)];
  }

  lemma NoFiles(c: Scheme)
    ensures FilesAre(c, [], [])
  {
  }

  // ---- the writer's own records ----

  lemma OwnEventsPrintable()
    ensures PrintableEvent(Finalized()) && PrintableEvent(SealEvent())
  {
    var f, s := "segment.finalized", "log.sealed";
    assert forall i :: 0 <= i < |f| ==> 0x21 <= f[i] as int <= 0x7e;
    assert forall i :: 0 <= i < |s| ==> 0x21 <= s[i] as int <= 0x7e;
  }

  lemma BodyLen(actor: bytes, payload: seq<Member>, nonce: Digest)
    requires |actor| < 24
    ensures |BodyBytesOf(actor, payload, nonce)| <= 64 + |actor| + |EncodePayload(PMap(payload))|
  {
    hide EncodePayload, Sort, SortedMap;
    var items := [IntItem(6, Tstr(actor)), IntItem(8, EncodePayload(PMap(payload))),
        IntItem(14, Head(2, |nonce|) + nonce)];
    var ps := MapSeq(IntPair, items);
    SortedMapLen(ps);
    var q1 := ps[1..];
    var q2 := q1[1..];
    assert q2[1..] == [] && q1[0] == ps[1] && q2[0] == ps[2];
    assert PairsLen(q2) == PairLen(ps[2]) + PairsLen([]) && PairsLen(q1) == PairLen(ps[1]) + PairsLen(q2);
    assert PairsLen(ps) == PairLen(ps[0]) + PairsLen(q1);
  }

  lemma OwnPayloadsFit(prev: Digest, id: nat)
    requires id < U64_END
    ensures PWf(PMap(FinalizeMembers(prev, id)), 1) && PWf(PMap([]), 1)
    ensures |EncodePayload(PMap(FinalizeMembers(prev, id)))| <= 63 && |EncodePayload(PMap([]))| <= 9
  {
    hide PWf, FinalHashKey, RecordsKey;
    FinalizePayloadWf(id, prev);
    FinalizePayloadLen([], 0, id, prev);
    assert FinalizeInput([], 0, id, prev).payload == FinalizeMembers(prev, id);
    EmptyPayload();
  }

  lemma EmptyPayload()
    ensures PWf(PMap([]), 1) && |EncodePayload(PMap([]))| <= 9
  {
    assert MemberPairs([]) == [];
    assert SortedMap([]) == Head(5, 0) + [];
  }

  /** Counters and segment indices leave room for one more record of the
      writer's own. */
  predicate OwnRoom(st: SState)
  {
    st.id < U64_END && st.last.Some? && st.last.value.mono + 1 < U64_END && st.seg < INDEX_END
  }

  /** The finalize record and the seal are records the verifier takes. */
  lemma OwnFits(w: Identity, st: SState, event: bytes, payload: seq<Member>)
    requires SignerOk(w) && Bumpable(w, st) && OwnRoom(st)
    requires (event == Finalized() && payload == FinalizeMembers(st.prev, st.id))
        || (event == SealEvent() && payload == [])
    ensures var r := Own(w, st, event, payload);
      && RecordFit(w, st, r) && InPlace(w, st, r)
      && 0 <= w.c.toMs(r.ts).value - w.c.toMs(st.last.value.ts).value <= 1
  {
    hide PWf, EncodePayload, BodyBytesOf, Nonce, PrintableEvent, IsText, FinalizeMembers, Finalized, SealEvent,
        SystemActor;
    OwnEventsPrintable();
    OwnPayloadsFit(st.prev, st.id);
    WriterTexts();
    BodyLen(SystemActor(), payload, Nonce(w, st.nonces));
    SealIsNotFinalize();
  }

  lemma SealIsNotFinalize()
    ensures SealEvent() != Finalized()
  {
  }

  lemma RollTracks(x: Context, w: Identity, st: SState, log: seq<SegmentLog>, t: InSegment)
      returns (log': seq<SegmentLog>, t': InSegment)
    requires SignerOk(w) && Admits(x, w) && Tracks(x, w, st, log, t) && st.nonces > 0 && OwnRoom(st)
        && |log| < INDEX_END
    ensures st.segments != [] && Bumpable(w, st) && Tracks(x, w, RolledOver(w, st), log', t') && |log'| == |log| + 1
    ensures var st' := RolledOver(w, st);
      st'.id == 0 && st'.nonces == st.nonces + 1 && st'.last.Some? && st'.last.value.mono == st.last.value.mono + 1
      && w.c.toMs(st'.last.value.ts).Some? && w.c.toMs(st'.last.value.ts).value <= w.c.toMs(st.last.value.ts).value + 1
  {
    hide WalkTo, SignerOk, FilesAre, SignedFrame, Admits, Finalized, SealEvent, Finalize, Seal, FinalizeMembers, RawOf,
        InPlace, RecordFit, SignedHeader.ToBytes, SignedHeader.Hashed;
    assert FinalizeOwn(w, st) == Own(w, st, Finalized(), FinalizeMembers(st.prev, st.id)) by { FinalizeOwnIs(w, st); }
    var r := FinalizeOwn(w, st);
    OwnFits(w, st, Finalized(), FinalizeMembers(st.prev, st.id));
    var log1, t1 := RecordGrows(x, w, st, log, t, r);
    RecordFitTime(w, st, r);
    EventNames(r.event);
    SealIsNotFinalize();
    FilesSize(w.c, Wrote(w, st, r).segments, log1);
    log', t' := NextHeaderTracks(x, w, Wrote(w, st, r), log1, t1);
  }

  lemma FinalizeOwnIs(w: Identity, st: SState)
    requires Bumpable(w, st)
    ensures FinalizeOwn(w, st) == Own(w, st, Finalized(), FinalizeMembers(st.prev, st.id))
  {
  }

  // ---- runs ----

  datatype Op = Put(r: SignedInput) | Roll

  /** Room for a rollover: a record before it, and a segment after it. */
  predicate RollRoom(st: SState) { st.nonces > 0 && OwnRoom(st) && st.seg + 1 < MAX_SEGMENTS }

  /** A time, where it can be read. */
  function MsOr(w: Identity, ts: bytes): int { if w.c.toMs(ts).Some? then w.c.toMs(ts).value else 0 }

  /** How far a record's time is after the last one's. */
  function Step(w: Identity, st: SState, r: SignedInput): int
  {
    if st.last.Some? then MsOr(w, r.ts) - MsOr(w, st.last.value.ts) else 0
  }

  /** A caller's record where it is written, of an event the writer does not
      own. */
  predicate PutFit(w: Identity, st: SState, r: SignedInput) {
    RecordFit(w, st, r) && r.event != Finalized() && r.event != SealEvent()
  }

  /** A rollover, and a record in the next segment. */
  predicate RolledPutFit(w: Identity, st: SState, r: SignedInput)
    requires st.segments != [] && Bumpable(w, st)
  {
    RollRoom(st) && PutFit(w, RolledOver(w, st), r) && Step(w, st, r) >= 1 - DRIFT_MS
  }

  /** The caller's side: a clock that does not step back a minute from the
      last record (59,999 ms across a rollover), in a state from which the
      writer can go on. */
  predicate OpFit(w: Identity, size: nat, st: SState, op: Op)
    requires CanBump(w, st)
  {
    match op
    case Roll => RollRoom(st)
    case Put(r) =>
      if MustRollSigned(w, st, size, r) then RolledPutFit(w, st, r) else PutFit(w, st, r) && Step(w, st, r) >= -DRIFT_MS
  }

  function AfterOp(w: Identity, size: nat, st: SState, op: Op): (after: SState)
    requires CanBump(w, st) && OpFit(w, size, st, op)
    ensures after.segments != []
  {
    match op
    case Roll => RolledOver(w, st)
    case Put(r) => SignedWriter.Appended(w, st, size, r)
  }

  predicate CanBump(w: Identity, st: SState)
  {
    st.segments != [] && (st.id > 0 ==> Bumpable(w, st)) && (st.nonces > 0 ==> Bumpable(w, st))
  }

  predicate OpsFit(w: Identity, size: nat, st: SState, ops: seq<Op>)
    decreases |ops|
  {
    CanBump(w, st) && (ops == [] || (OpFit(w, size, st, ops[0])
        && OpsFit(w, size, AfterOp(w, size, st, ops[0]), ops[1..])))
  }

  function RunOps(w: Identity, size: nat, st: SState, ops: seq<Op>): (after: SState)
    requires OpsFit(w, size, st, ops)
    ensures CanBump(w, after)
    decreases |ops|
  {
    if ops == [] then st else RunOps(w, size, AfterOp(w, size, st, ops[0]), ops[1..])
  }

  lemma OpTracks(x: Context, w: Identity, size: nat, st: SState, log: seq<SegmentLog>, t: InSegment, op: Op)
      returns (log': seq<SegmentLog>, t': InSegment)
    requires SignerOk(w) && Admits(x, w) && Tracks(x, w, st, log, t) && CanBump(w, st) && OpFit(w, size, st, op)
    ensures Tracks(x, w, AfterOp(w, size, st, op), log', t')
  {
    hide WalkTo, SignerOk, FilesAre, Admits, Finalized, SealEvent, RawOf, RecordFit, RolledOver, Wrote, MustRollSigned;
    match op {
      case Roll =>
        log', t' := RollTracks(x, w, st, log, t);
      case Put(r) =>
        if MustRollSigned(w, st, size, r) {
          var log1, t1 := RollTracks(x, w, st, log, t);
          RecordFitTime(w, RolledOver(w, st), r);
          log', t' := CallerTracks(x, w, RolledOver(w, st), log1, t1, r);
        } else {
          RecordFitTime(w, st, r);
          log', t' := CallerTracks(x, w, st, log, t, r);
        }
    }
  }

  lemma {:induction false} OpsTrack(x: Context, w: Identity, size: nat, st: SState, log: seq<SegmentLog>, t: InSegment,
      ops: seq<Op>) returns (log': seq<SegmentLog>, t': InSegment)
    requires SignerOk(w) && Admits(x, w) && Tracks(x, w, st, log, t) && OpsFit(w, size, st, ops)
    ensures Tracks(x, w, RunOps(w, size, st, ops), log', t')
    decreases |ops|
  {
    hide SignerOk, Admits, Tracks, AfterOp, OpFit;
    if ops == [] {
      log', t' := log, t;
    } else {
      var log1, t1 := OpTracks(x, w, size, st, log, t, ops[0]);
      log', t' := OpsTrack(x, w, size, AfterOp(w, size, st, ops[0]), log1, t1, ops[1..]);
    }
  }

  // ---- the theorem ----

  /** The whole run, sealed or not. */
  function Finished(w: Identity, size: nat, ops: seq<Op>, seal: bool): SState
    requires OpsFit(w, size, FreshLog(w), ops)
    requires seal ==> RunOps(w, size, FreshLog(w), ops).nonces > 0
  {
    var st := RunOps(w, size, FreshLog(w), ops);
    if seal then Sealed(w, st) else st
  }

  /** What the walk over the finished log ends with. */
  ghost predicate EndsWell(x: Context, st: SState, t: InSegment, seal: bool) {
    && Clean(t.walk) && t.finalized.None? && t.walk.sealed == seal && (seal ==> t.id > 0)
    && t.walk.genesis.Some? && t.walk.elided == [] && t.walk.warnings == [] && !t.walk.rolledNoSuccessor
        && t.walk.afterHead == 0
    && t.walk.count == st.nonces && t.walk.trusted == (x.ev.hasPins && st.nonces > 0)
    && (t.walk.last.Some? && t.walk.last.value.event == Seal() <==> seal)
    && x.attested.None?
  }

  lemma ClosesWell(x: Context, st: SState, t: InSegment, n: nat, seal: bool)
    requires EndsWell(x, st, t, seal) && st.nonces > 0
    requires x.ev.hasPins ==> NamedHeads(x.ev, t.walk.genesis.value.keyId) == []
    ensures var w := CloseSegment(t, n, true);
      && !w.raised
      && var r := Conclude(x, w);
        && r.violations == [] && r.verdict == (if x.ev.hasPins then SignedVerdict.Verified else SelfConsistent)
        && r.headAnchored == seal && r.elided == [] && r.afterHead == 0 && r.count == st.nonces
  {
    hide Seal, Finalize, NamedHeads;
    assert MissingHeads([], t.walk.genesis.value.logId, t.walk.positions) == [];
  }

  /** The walk's first header is good, so the log is of this format. */
  lemma FirstHeader(x: Context, log: seq<SegmentLog>)
    requires log != [] && WalkTo(x, log).Some?
    ensures EnterAt(x, StartWalk(x), 0, log[0], ZERO_DIGEST).Some?
    decreases |log|
  {
    hide EnterAt, StartWalk;
    if |log| > 1 {
      FirstHeader(x, log[..|log| - 1]);
    }
  }

  lemma FormatOfFirst(x: Context, segments: seq<bytes>, log: seq<SegmentLog>)
    requires FilesAre(x.c, segments, log) && log != [] && WalkTo(x, log).Some?
    ensures segments != [] && |segments[0]| >= SIGNED_HEADER_LEN && FromLe(segments[0][4..6]) == SIGNED_VERSION
  {
    hide FromLe, EnterLog, WalkRaws, SignedFields, KeyIdOf, FileOfLog, EnterAt, WalkTo;
    FirstHeader(x, log);
    var s := EnterFile(x, StartWalk(x), 0, log[0], ZERO_DIGEST, segments[0]);
  }

  lemma FinishedWell(x: Context, w: Identity, size: nat, ops: seq<Op>, seal: bool)
      returns (log: seq<SegmentLog>, t: InSegment)
    requires SignerOk(w) && Admits(x, w) && OpsFit(w, size, FreshLog(w), ops)
    requires var st := RunOps(w, size, FreshLog(w), ops); st.nonces > 0 && (seal ==> OwnRoom(st))
    ensures var st := Finished(w, size, ops, seal);
      log != [] && FilesAre(w.c, st.segments, log) && WalkTo(x, log) == Some(t) && EndsWell(x, st, t, seal)
          && st.nonces > 0
    ensures t.walk.genesis == Some(SignerAt(w, 0))
  {
    hide WalkTo, SignerOk, FilesAre, OpsFit, RunOps, FreshLog, Seal, Finalize, Finalized, SealEvent, RecordFit, RawOf,
        InPlace, SignedFrame;
    var st := RunOps(w, size, FreshLog(w), ops);
    var log0, t0 := FreshTracks(x, w);
    log, t := OpsTrack(x, w, size, FreshLog(w), log0, t0, ops);
    if seal {
      var r := Own(w, st, SealEvent(), []);
      OwnFits(w, st, SealEvent(), []);
      log, t := RecordGrows(x, w, st, log, t, r);
      EventNames(r.event);
      SealIsNotFinalize();
    }
  }

  /** Every log built by append, rollover and a final optional seal, with at
      least one record, gives no violation; it is verified when its key is
      pinned for records and self-consistent when nothing is pinned; and it
      is head-anchored without a checkpoint exactly when sealed. */
  lemma SignedRunsAreAccepted(x: Context, w: Identity, size: nat, ops: seq<Op>, seal: bool)
    requires SignerOk(w) && Admits(x, w) && OpsFit(w, size, FreshLog(w), ops)
    requires var st := RunOps(w, size, FreshLog(w), ops); st.nonces > 0 && (seal ==> OwnRoom(st))
    ensures var st := Finished(w, size, ops, seal);
      var r := OracleLog(x, DirOfSegments(st.segments));
      && r.Done? && r.report.violations == []
      && r.report.verdict == (if x.ev.hasPins then SignedVerdict.Verified else SelfConsistent)
      && r.report.headAnchored == seal && r.report.elided == [] && r.report.afterHead == 0
          && r.report.count == st.nonces
  {
    hide WalkTo, SignerOk, FilesAre, OpsFit, RunOps, FreshLog, EndsWell, CloseSegment, Conclude, OracleLog, Finished,
        WalkSegments, OwnRoom, FromLe;
    var st := Finished(w, size, ops, seal);
    var log, t := FinishedWell(x, w, size, ops, seal);
    var dir, n := DirOfSegments(st.segments), |log| - 1;
    assert log[..n + 1] == log;
    FilesSize(w.c, st.segments, log);
    WalkReaches(x, st.segments, log, n);
    NoMoreSegments(x, dir, t.prev, t.id > 0, CloseSegment(t, n, true));
    assert x.ev.hasPins ==> NamedHeads(x.ev, w.KeyId()) == [];
    EndsGenesis(x, st, t, seal);
    ClosesWell(x, st, t, n, seal);
    FormatOfFirst(x, st.segments, log);
    OracleIsWalk(x, dir, dir[0].data);
  }

  lemma EndsGenesis(x: Context, st: SState, t: InSegment, seal: bool)
    requires EndsWell(x, st, t, seal)
    ensures t.walk.genesis.Some?
  {
  }

  /** With its key pinned for records, and no statements about it, an
      evaluation admits a writer's log. */
  lemma PinnedKeyAdmits(pins: seq<Pin>, sources: map<bytes, bool>, principals: Entries, ev: Evaluation, w: Identity,
      scope: set<Namespace>, p: Principal)
    requires EvaluatedBy(pins, [], [], sources, principals, Ok(ev))
    requires NsRecord in scope && PinIn(pins, w.KeyId(), p, scope)
    ensures Admits(Context(w.c, ev, None, None), w) && ev.hasPins
  {
    hide Trust.AllOk, Reaches, Has, PinIn;
    var k := w.KeyId();
    assert HasBase(pins, ev.entries);
    PinHasScope(pins, ev.entries, k, p, scope);
    assert ByOld([]) == [] && EquivocalKeys([]) == {};
    NothingRevoked(pins, principals);
    PinsNonEmpty(pins, k, p, scope);
  }

  lemma PinsNonEmpty(pins: seq<Pin>, k: KeyId, p: Principal, scope: set<Namespace>)
    requires PinIn(pins, k, p, scope)
    ensures pins != []
  {
  }

  lemma NothingRevoked(pins: seq<Pin>, principals: Entries)
    ensures CutsOf(pins, principals, Dicts.Dict(RevocationSha, [])) == map[]
  {
    assert Dicts.Dict(RevocationSha, []) == [];
  }

  lemma PinHasScope(pins: seq<Pin>, ent: Entries, k: KeyId, p: Principal, scope: set<Namespace>)
    requires HasBase(pins, ent) && PinIn(pins, k, p, scope) && NsRecord in scope
    ensures InScope(ent, k, NsRecord)
  {
    var i :| 0 <= i < |pins| && pins[i] == Pin(k, p, scope);
    var e := TrustEntry(p, scope, [k], true);
    assert e in EntriesOf(ent, k);
    var j :| 0 <= j < |EntriesOf(ent, k)| && EntriesOf(ent, k)[j] == e;
  }
}
