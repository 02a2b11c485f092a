/** One record hash of a violation-free log of format 0x0002 pins everything
    before it. */
module SignedPin {
  import opened Bytes
  import opened Cbor
  import opened Segment
  import opened SignedFormat
  import opened SignedVerifier

  /** The records framed in a file from `offset` on. */
  function RawsFrom(data: bytes, offset: nat): seq<Raw>
    decreases |data| - offset
  {
    match ReadSigned(data, offset)
    case Record(raw, end) => [raw] + RawsFrom(data, end)
    case _ => []
  }

  function Raws(dir: seq<SegFile>, i: nat): seq<Raw>
    requires i < |dir|
  {
    RawsFrom(dir[i].data, SIGNED_HEADER_LEN)
  }

  /** What the record after `raws` links to. */
  function LinkAfter(c: Scheme, start: Digest, raws: seq<Raw>): Digest {
    if raws == [] then start else RecordHash(c, raws[|raws| - 1].envelope)
  }

  /** A record in its place: its envelope names its segment, its position and
      the link before it, and commits to its body if that is there. */
  predicate Fits(c: Scheme, index: nat, id: nat, prev: Digest, raw: Raw) {
    var es := EnvelopeOf(raw.envelope);
    && es.Some?
    && PyEq(FieldOf(es.value, 11), index) && PyEq(FieldOf(es.value, 1), id) && FieldOf(es.value, 2) == Bytes(prev)
    && (raw.body.Some? ==> FieldOf(es.value, 13) == Bytes(BodyHash(c, raw.body.value)))
  }

  predicate AllFit(c: Scheme, index: nat, start: Digest, raws: seq<Raw>, id: nat) {
    forall k :: 0 <= k < |raws| ==> Fits(c, index, id + k, LinkAfter(c, start, raws[..k]), raws[k])
  }

  // ---- walks without violations ----

  /** Only a violation stops a walk. */
  predicate Sound(w: SignedWalk) { w.stop ==> w.violations != [] }

  predicate Clean(w: SignedWalk) { w.violations == [] && !w.raised && !w.stop }

  lemma StepFieldsSound(x: Context, s: Signer, raw: Raw, es: seq<Entry>, t: InSegment)
    requires Sound(t.walk)
    ensures Sound(StepFields(x, s, raw, es, t).walk)
  {
    hide FieldViolations, TrustOf, ReadBody, CheckRollover, MsOf, FieldOf, Structural, RecordHash, When, RejectionKind;
  }

  lemma StepSound(x: Context, s: Signer, raw: Raw, t: InSegment)
    requires Sound(t.walk)
    ensures Sound(StepRecord(x, s, raw, t).walk)
  {
    hide EnvelopeOf, StepFields, RecordHash, AfterHead;
    if EnvelopeOf(raw.envelope).Some? {
      StepFieldsSound(x, s, raw, EnvelopeOf(raw.envelope).value, t.(walk := Seen(x, s, t)));
    }
  }

  lemma StepFieldsClean(x: Context, s: Signer, raw: Raw, es: seq<Entry>, t: InSegment)
    requires Clean(StepFields(x, s, raw, es, t).walk)
    ensures Clean(t.walk) && ChainOk(es, s, t.id, t.prev)
    ensures raw.body.Some? ==> FieldOf(es, 13) == Bytes(BodyHash(x.c, raw.body.value))
    ensures var t' := StepFields(x, s, raw, es, t); t'.id == t.id + 1 && t'.prev == RecordHash(x.c, raw.envelope)
  {
    hide TrustOf, CheckRollover, MsOf, FieldOf, Structural, RecordHash, ChainOk, BodyHash, Decode, BodyKeys;
  }

  /** A step that adds no violation took a record that fits. */
  lemma StepClean(x: Context, s: Signer, raw: Raw, t: InSegment)
    requires Clean(StepRecord(x, s, raw, t).walk)
    ensures Clean(t.walk) && t.finalized.None? && Fits(x.c, s.index, t.id, t.prev, raw)
    ensures var t' := StepRecord(x, s, raw, t); t'.id == t.id + 1 && t'.prev == RecordHash(x.c, raw.envelope)
  {
    hide EnvelopeOf, StepFields, RecordHash, FieldOf, BodyHash, AfterHead;
    if EnvelopeOf(raw.envelope).Some? {
      if t.finalized.None? && x.c.verify(s.publicKey, raw.envelope, raw.signature).None? {
        StepFieldsClean(x, s, raw, EnvelopeOf(raw.envelope).value, t.(walk := Seen(x, s, t)));
      }
    }
  }

  lemma {:induction false} FramesClean(x: Context, s: Signer, data: bytes, offset: nat, t: InSegment)
    requires Sound(t.walk)
    ensures Sound(WalkFrames(x, s, data, offset, t).walk)
    ensures var t', raws := WalkFrames(x, s, data, offset, t), RawsFrom(data, offset);
      Clean(t'.walk) ==>
        && Clean(t.walk) && AllFit(x.c, s.index, t.prev, raws, t.id)
        && t'.id == t.id + |raws| && t'.prev == LinkAfter(x.c, t.prev, raws)
    decreases |data| - offset
  {
    hide ReadSigned, StepRecord, Fits;
    var t', raws := WalkFrames(x, s, data, offset, t), RawsFrom(data, offset);
    if !t.walk.Halted() && ReadSigned(data, offset).Record? {
      var r := ReadSigned(data, offset);
      var next := StepRecord(x, s, r.raw, t);
      StepSound(x, s, r.raw, t);
      FramesClean(x, s, data, r.end, next);
      if Clean(t'.walk) {
        StepClean(x, s, r.raw, t);
        FitsTail(x.c, s.index, t.prev, r.raw, RawsFrom(data, r.end), t.id);
      }
    }
  }

  lemma FitsTail(c: Scheme, index: nat, start: Digest, raw: Raw, rest: seq<Raw>, id: nat)
    requires Fits(c, index, id, start, raw) && AllFit(c, index, RecordHash(c, raw.envelope), rest, id + 1)
    ensures AllFit(c, index, start, [raw] + rest, id)
    ensures LinkAfter(c, start, [raw] + rest) == LinkAfter(c, RecordHash(c, raw.envelope), rest)
  {
    hide Fits;
    var raws := [raw] + rest;
    forall k | 0 <= k < |raws| ensures Fits(c, index, id + k, LinkAfter(c, start, raws[..k]), raws[k]) {
      if k > 0 {
        assert Fits(c, index, id + 1 + (k - 1), LinkAfter(c, RecordHash(c, raw.envelope), rest[..k - 1]), rest[k - 1]);
        assert raws[..k] == [raw] + rest[..k - 1];
      }
    }
  }

  // ---- what a violation-free log is ----

  function StartOf(c: Scheme, dir: seq<SegFile>, i: nat): Digest
    requires i < |dir| && |dir[i].data| >= SIGNED_HEADER_LEN
  {
    HeaderHash(c, dir[i].data[..HASHED_LEN])
  }

  /** The last link of segment `i`. */
  function EndOf(c: Scheme, dir: seq<SegFile>, i: nat): Digest
    requires i < |dir| && |dir[i].data| >= SIGNED_HEADER_LEN
  {
    LinkAfter(c, StartOf(c, dir, i), Raws(dir, i))
  }

  predicate GoodHeader(c: Scheme, dir: seq<SegFile>, i: nat)
    requires i < |dir|
  {
    var b := dir[i].data;
    && dir[i].index == i && |b| >= SIGNED_HEADER_LEN && b[..4] == Magic()
    && FromLe(b[124..128]) == c.crc32(b[..HASHED_LEN])
  }

  /** The header names the last link of the segment before, which has a
      record. */
  predicate Continues(c: Scheme, dir: seq<SegFile>, i: nat)
    requires i < |dir| && |dir[i].data| >= SIGNED_HEADER_LEN
  {
    if i == 0 then SignedFields(dir[i].data).prevFinal == ZERO_DIGEST
    else
      && |dir[i - 1].data| >= SIGNED_HEADER_LEN && Raws(dir, i - 1) != []
      && SignedFields(dir[i].data).prevFinal == EndOf(c, dir, i - 1)
  }

  predicate GoodSegment(c: Scheme, dir: seq<SegFile>, i: nat)
    requires i < |dir|
  {
    && GoodHeader(c, dir, i) && Continues(c, dir, i)
    && AllFit(c, i, StartOf(c, dir, i), Raws(dir, i), 0)
  }

  predicate GoodLog(c: Scheme, dir: seq<SegFile>) { forall i :: 0 <= i < |dir| ==> GoodSegment(c, dir, i) }

  lemma HeaderIsGood(x: Context, w: SignedWalk, n: nat, b: bytes, prevFinal: Digest)
    requires CheckSignedHeader(x, w, n, b, prevFinal).Ok?
    ensures |b| >= SIGNED_HEADER_LEN && b[..4] == Magic() && FromLe(b[124..128]) == x.c.crc32(b[..HASHED_LEN])
    ensures SignedFields(b).prevFinal == if n == 0 then ZERO_DIGEST else prevFinal
    ensures CheckSignedHeader(x, w, n, b, prevFinal).value.index == n
  {
    hide FromLe;
  }

  lemma EnterSound(x: Context, s: Signer, w: SignedWalk)
    requires Sound(w)
    ensures Sound(EnterLog(x, s, w)) && (Clean(EnterLog(x, s, w)) ==> Clean(w))
  {
  }

  lemma CloseSound(t: InSegment, n: nat, isLast: bool)
    requires Sound(t.walk)
    ensures Sound(CloseSegment(t, n, isLast)) && (Clean(CloseSegment(t, n, isLast)) ==> Clean(t.walk))
  {
  }

  lemma {:induction false} SegmentsClean(x: Context, dir: seq<SegFile>, i: nat, prevFinal: Digest, had: bool,
      w: SignedWalk)
    requires i <= |dir| && Sound(w)
    requires i > 0
      ==> |dir[i - 1].data| >= SIGNED_HEADER_LEN && prevFinal == EndOf(x.c, dir, i - 1)
          && had == (Raws(dir, i - 1) != [])
    ensures Sound(WalkSegments(x, dir, i, prevFinal, had, w))
    ensures Clean(WalkSegments(x, dir, i, prevFinal, had, w)) ==> Clean(w) && forall j ::
      i <= j < |dir| ==> GoodSegment(x.c, dir, j)
    decreases |dir| - i
  {
    hide CheckSignedHeader, EnterLog, WalkFrames, CloseSegment, AllFit, RawsFrom, LinkAfter;
    if i < |dir| && !w.Halted() && dir[i].index == i && (i == 0 || had)
        && CheckSignedHeader(x, w, i, dir[i].data, prevFinal).Ok? {
      var b := dir[i].data;
      HeaderIsGood(x, w, i, b, prevFinal);
      var s := CheckSignedHeader(x, w, i, b, prevFinal).value;
      var entered := EnterLog(x, s, w);
      EnterSound(x, s, w);
      if !entered.stop {
        var start := InSegment(entered, HeaderHash(x.c, b[..HASHED_LEN]), 0, None);
        var t := WalkFrames(x, s, b, SIGNED_HEADER_LEN, start);
        FramesClean(x, s, b, SIGNED_HEADER_LEN, start);
        CloseSound(t, i, i == |dir| - 1);
        var closed := CloseSegment(t, i, i == |dir| - 1);
        if t.id == |Raws(dir, i)| && t.prev == EndOf(x.c, dir, i) {
          SegmentsClean(x, dir, i + 1, t.prev, t.id > 0, closed);
        } else {
          NotClean(x, dir, i + 1, t.prev, t.id > 0, closed);
        }
      }
    }
  }

  /** A walk that is not clean stays so. */
  lemma {:induction false} NotClean(x: Context, dir: seq<SegFile>, i: nat, prevFinal: Digest, had: bool, w: SignedWalk)
    requires i <= |dir| && Sound(w) && !Clean(w)
    ensures var w' := WalkSegments(x, dir, i, prevFinal, had, w); Sound(w') && !Clean(w')
    decreases |dir| - i
  {
    hide CheckSignedHeader, EnterLog, WalkFrames, CloseSegment, AllFit, RawsFrom, LinkAfter;
    if i < |dir| && !w.Halted() && dir[i].index == i && (i == 0 || had)
        && CheckSignedHeader(x, w, i, dir[i].data, prevFinal).Ok? {
      var b := dir[i].data;
      HeaderIsGood(x, w, i, b, prevFinal);
      var s := CheckSignedHeader(x, w, i, b, prevFinal).value;
      var entered := EnterLog(x, s, w);
      EnterSound(x, s, w);
      if !entered.stop {
        var start := InSegment(entered, HeaderHash(x.c, b[..HASHED_LEN]), 0, None);
        var t := WalkFrames(x, s, b, SIGNED_HEADER_LEN, start);
        FramesClean(x, s, b, SIGNED_HEADER_LEN, start);
        CloseSound(t, i, i == |dir| - 1);
        NotClean(x, dir, i + 1, t.prev, t.id > 0, CloseSegment(t, i, i == |dir| - 1));
      }
    }
  }

  /** A log without violations is a chain of good segments. */
  lemma NoViolationIsGood(x: Context, dir: seq<SegFile>)
    requires NoViolation(x, dir)
    ensures GoodLog(x.c, dir)
  {
    hide WalkSegments, GoodSegment;
    var w := WalkSegments(x, dir, 0, ZERO_DIGEST, true, StartWalk(x));
    SegmentsClean(x, dir, 0, ZERO_DIGEST, true, StartWalk(x));
    assert w.violations == [];
  }

  // ---- the pin ----

  predicate RecordIn(dir: seq<SegFile>, at: Position) { at.segment < |dir| && at.id < |Raws(dir, at.segment)| }

  function EnvelopeAt(dir: seq<SegFile>, at: Position): bytes
    requires RecordIn(dir, at)
  {
    Raws(dir, at.segment)[at.id].envelope
  }

  /** The two logs agree on everything up to record `at`: headers and
      envelopes, segment by segment. */
  predicate SameUpTo(a: seq<SegFile>, b: seq<SegFile>, at: Position)
    requires RecordIn(a, at) && RecordIn(b, at)
  {
    && (forall j :: 0 <= j <= at.segment ==> SameHeader(a, b, j))
    && (forall j :: 0 <= j < at.segment ==> |Raws(a, j)| == |Raws(b, j)| && SameEnvelopes(a, b, j, |Raws(a, j)|))
    && SameEnvelopes(a, b, at.segment, at.id + 1)
  }

  predicate SameHeader(a: seq<SegFile>, b: seq<SegFile>, j: nat)
    requires j < |a| && j < |b|
  {
    |a[j].data| >= SIGNED_HEADER_LEN && |b[j].data| >= SIGNED_HEADER_LEN
    && a[j].data[..SIGNED_HEADER_LEN] == b[j].data[..SIGNED_HEADER_LEN]
  }

  predicate SameEnvelopes(a: seq<SegFile>, b: seq<SegFile>, j: nat, n: nat)
    requires j < |a| && j < |b|
  {
    n <= |Raws(a, j)| && n <= |Raws(b, j)| && forall k ::
      0 <= k < n ==> Raws(a, j)[k].envelope == Raws(b, j)[k].envelope
  }

  predicate Pinned(a: seq<SegFile>, b: seq<SegFile>, p: Position, q: Position) {
    p == q && RecordIn(a, p) && RecordIn(b, p) && SameUpTo(a, b, p)
  }

  /** `x` is one of the strings hashed in the log: the tagged 124 bytes of a
      header, or the tagged envelope or body of a record. */
  ghost predicate HashedIn(dir: seq<SegFile>, x: bytes) {
    || (exists i :: 0 <= i < |dir| && HeaderHashed(dir[i], x))
    || (exists at: Position :: RecordIn(dir, at) && RecordHashed(Raws(dir, at.segment)[at.id], x))
  }

  predicate HeaderHashed(f: SegFile, x: bytes) {
    |f.data| >= SIGNED_HEADER_LEN && x == Tagged("ogentic-audit/v0.2/header", f.data[..HASHED_LEN])
  }

  predicate RecordHashed(raw: Raw, x: bytes) {
    || x == Tagged("ogentic-audit/v0.2/record", raw.envelope)
    || (raw.body.Some? && x == Tagged("ogentic-audit/v0.2/body", raw.body.value))
  }

  /** Two different strings with one hash, `x` hashed in `a` and `y` in `b`. */
  ghost predicate Collision(c: Scheme, a: seq<SegFile>, b: seq<SegFile>, x: bytes, y: bytes) {
    Collides(c, x, y) && HashedIn(a, x) && HashedIn(b, y)
  }

  lemma RecordIsHashed(dir: seq<SegFile>, at: Position, x: bytes)
    requires RecordIn(dir, at) && RecordHashed(Raws(dir, at.segment)[at.id], x)
    ensures HashedIn(dir, x)
  {
  }

  lemma HeaderIsHashed(dir: seq<SegFile>, i: nat, x: bytes)
    requires i < |dir| && HeaderHashed(dir[i], x)
    ensures HashedIn(dir, x)
  {
  }

  lemma FitsAt(c: Scheme, dir: seq<SegFile>, at: Position)
    requires GoodLog(c, dir) && RecordIn(dir, at)
    ensures |dir[at.segment].data| >= SIGNED_HEADER_LEN
    ensures var raws := Raws(dir, at.segment);
      Fits(c, at.segment, at.id, LinkAfter(c, StartOf(c, dir, at.segment), raws[..at.id]), raws[at.id])
  {
    hide Fits, LinkAfter, RawsFrom;
    assert GoodSegment(c, dir, at.segment);
  }

  /** The same record hash: the same envelope, place and link, or two inputs
      with one hash. */
  lemma SameRecord(c: Scheme, a: seq<SegFile>, b: seq<SegFile>, p: Position, q: Position) returns (x: bytes, y: bytes)
    requires GoodLog(c, a) && GoodLog(c, b) && RecordIn(a, p) && RecordIn(b, q)
    requires RecordHash(c, EnvelopeAt(a, p)) == RecordHash(c, EnvelopeAt(b, q))
    ensures Collision(c, a, b, x, y) || (
      && p == q && EnvelopeAt(a, p) == EnvelopeAt(b, q)
      && |a[p.segment].data| >= SIGNED_HEADER_LEN && |b[p.segment].data| >= SIGNED_HEADER_LEN
      && LinkAfter(c, StartOf(c, a, p.segment), Raws(a, p.segment)[..p.id])
          == LinkAfter(c, StartOf(c, b, p.segment), Raws(b, p.segment)[..p.id]))
  {
    hide GoodLog, LinkAfter, RawsFrom, EnvelopeOf, PyField, HashedIn;
    var tag := "ogentic-audit/v0.2/record";
    x, y := Tagged(tag, EnvelopeAt(a, p)), Tagged(tag, EnvelopeAt(b, q));
    RecordIsHashed(a, p, x);
    RecordIsHashed(b, q, y);
    FitsAt(c, a, p);
    FitsAt(c, b, q);
    if x == y {
      TaggedInjective(tag, EnvelopeAt(a, p), EnvelopeAt(b, q));
    }
  }

  lemma TaggedInjective(tag: string, a: bytes, b: bytes)
    requires forall i :: 0 <= i < |tag| ==> tag[i] < 128 as char
    requires Tagged(tag, a) == Tagged(tag, b)
    ensures a == b
  {
    var n := |tag| + 1;
    assert Tagged(tag, a)[n..] == a && Tagged(tag, b)[n..] == b;
  }

  /** The same chain start: the same 128 header bytes, or a collision. */
  lemma SameStart(c: Scheme, a: seq<SegFile>, b: seq<SegFile>, j: nat) returns (x: bytes, y: bytes)
    requires j < |a| && j < |b| && GoodHeader(c, a, j) && GoodHeader(c, b, j) && StartOf(c, a, j) == StartOf(c, b, j)
    ensures Collision(c, a, b, x, y) || (SameHeader(a, b, j) && SignedFields(a[j].data) == SignedFields(b[j].data))
  {
    hide FromLe, Le, HashedIn;
    var tag := "ogentic-audit/v0.2/header";
    var h, k := a[j].data[..HASHED_LEN], b[j].data[..HASHED_LEN];
    x, y := Tagged(tag, h), Tagged(tag, k);
    HeaderIsHashed(a, j, x);
    HeaderIsHashed(b, j, y);
    if !Collision(c, a, b, x, y) {
      TaggedInjective(tag, h, k);
      SameCrc(a[j].data, b[j].data);
      SameFields(a[j].data, b[j].data);
    }
  }

  lemma SameCrc(a: bytes, b: bytes)
    requires |a| >= SIGNED_HEADER_LEN && |b| >= SIGNED_HEADER_LEN
    requires a[..HASHED_LEN] == b[..HASHED_LEN] && FromLe(a[124..128]) == FromLe(b[124..128])
    ensures a[..SIGNED_HEADER_LEN] == b[..SIGNED_HEADER_LEN]
  {
    LeOfFromLe(a[124..128]);
    LeOfFromLe(b[124..128]);
    assert a[..128] == a[..124] + a[124..128] && b[..128] == b[..124] + b[124..128];
  }

  lemma SameFields(a: bytes, b: bytes)
    requires |a| >= SIGNED_HEADER_LEN && |b| >= SIGNED_HEADER_LEN && a[..SIGNED_HEADER_LEN] == b[..SIGNED_HEADER_LEN]
    ensures SignedFields(a) == SignedFields(b)
  {
    hide FromLe;
    var h, k := a[..SIGNED_HEADER_LEN], b[..SIGNED_HEADER_LEN];
    assert a[4..6] == h[4..6] && a[6..8] == h[6..8] && a[8..10] == h[8..10] && a[10..12] == h[10..12];
    assert b[4..6] == k[4..6] && b[6..8] == k[6..8] && b[8..10] == k[8..10] && b[10..12] == k[10..12];
    assert a[12..28] == h[12..28] && a[28..60] == h[28..60] && a[60..92] == h[60..92] && a[92..124] == h[92..124];
    assert b[12..28] == k[12..28] && b[28..60] == k[28..60] && b[60..92] == k[60..92] && b[92..124] == k[92..124];
  }

  /** One more record, or one more header, on an agreement. */
  lemma ExtendRecord(a: seq<SegFile>, b: seq<SegFile>, p: Position)
    requires p.id > 0 && RecordIn(a, p) && RecordIn(b, p) && EnvelopeAt(a, p) == EnvelopeAt(b, p)
    requires Pinned(a, b, Position(p.segment, p.id - 1), Position(p.segment, p.id - 1))
    ensures Pinned(a, b, p, p)
  {
    hide RawsFrom;
  }

  lemma ExtendSegment(a: seq<SegFile>, b: seq<SegFile>, i: nat)
    requires i > 0 && RecordIn(a, Position(i, 0)) && RecordIn(b, Position(i, 0))
    requires EnvelopeAt(a, Position(i, 0)) == EnvelopeAt(b, Position(i, 0)) && SameHeader(a, b, i)
    requires Raws(a, i - 1) != [] && |Raws(a, i - 1)| == |Raws(b, i - 1)|
    requires var last := Position(i - 1, |Raws(a, i - 1)| - 1); Pinned(a, b, last, last)
    ensures Pinned(a, b, Position(i, 0), Position(i, 0))
  {
    hide RawsFrom, SameHeader;
  }

  /** One head pins every segment: two logs with a record hash in common have
      it in the same place, and agree on every header and envelope up to it,
      or a string hashed in one and a different string hashed in the other
      have one hash. */
  lemma {:induction false} HashPinsLog(c: Scheme, a: seq<SegFile>, b: seq<SegFile>, p: Position, q: Position)
      returns (x: bytes, y: bytes)
    requires GoodLog(c, a) && GoodLog(c, b) && RecordIn(a, p) && RecordIn(b, q)
    requires RecordHash(c, EnvelopeAt(a, p)) == RecordHash(c, EnvelopeAt(b, q))
    ensures Collision(c, a, b, x, y) || Pinned(a, b, p, q)
    decreases p.segment, p.id
  {
    hide GoodLog, RawsFrom, RecordHash, Fits, Collision, SignedFields;
    x, y := SameRecord(c, a, b, p, q);
    if !Collision(c, a, b, x, y) {
      var i := p.segment;
      if p.id > 0 {
        var before := Position(i, p.id - 1);
        x, y := HashPinsLog(c, a, b, before, before);
        if !Collision(c, a, b, x, y) {
          ExtendRecord(a, b, p);
        }
      } else {
        FirstRecordLinks(c, a, b, i);
        x, y := SameStart(c, a, b, i);
        if !Collision(c, a, b, x, y) {
          if i == 0 {
            assert SameUpTo(a, b, p);
          } else {
            LastOfPrevious(c, a, i);
            LastOfPrevious(c, b, i);
            var m, n := |Raws(a, i - 1)|, |Raws(b, i - 1)|;
            x, y := HashPinsLog(c, a, b, Position(i - 1, m - 1), Position(i - 1, n - 1));
            if !Collision(c, a, b, x, y) {
              ExtendSegment(a, b, i);
            }
          }
        }
      }
    }
  }

  lemma FirstRecordLinks(c: Scheme, a: seq<SegFile>, b: seq<SegFile>, i: nat)
    requires GoodLog(c, a) && GoodLog(c, b) && i < |a| && i < |b|
    ensures GoodHeader(c, a, i) && GoodHeader(c, b, i)
    ensures Raws(a, i)[..0] == [] && Raws(b, i)[..0] == []
  {
    hide RawsFrom, Continues, AllFit;
    assert GoodSegment(c, a, i) && GoodSegment(c, b, i);
  }

  lemma LastOfPrevious(c: Scheme, a: seq<SegFile>, i: nat)
    requires GoodLog(c, a) && 0 < i < |a|
    ensures |a[i].data| >= SIGNED_HEADER_LEN && Raws(a, i - 1) != []
    ensures SignedFields(a[i].data).prevFinal == RecordHash(c, EnvelopeAt(a, Position(i - 1, |Raws(a, i - 1)| - 1)))
  {
    hide RawsFrom, AllFit, SignedFields, FromLe;
    assert GoodSegment(c, a, i);
  }

  /** Bodies agree wherever both are present. */
  lemma PinnedBodies(c: Scheme, a: seq<SegFile>, b: seq<SegFile>, at: Position) returns (x: bytes, y: bytes)
    requires GoodLog(c, a) && GoodLog(c, b) && RecordIn(a, at) && RecordIn(b, at)
        && EnvelopeAt(a, at) == EnvelopeAt(b, at)
    requires Raws(a, at.segment)[at.id].body.Some? && Raws(b, at.segment)[at.id].body.Some?
    ensures Collision(c, a, b, x, y) || Raws(a, at.segment)[at.id].body == Raws(b, at.segment)[at.id].body
  {
    hide GoodLog, LinkAfter, RawsFrom, EnvelopeOf, PyField, HashedIn;
    var tag := "ogentic-audit/v0.2/body";
    var m, n := Raws(a, at.segment)[at.id].body.value, Raws(b, at.segment)[at.id].body.value;
    x, y := Tagged(tag, m), Tagged(tag, n);
    RecordIsHashed(a, at, x);
    RecordIsHashed(b, at, y);
    FitsAt(c, a, at);
    FitsAt(c, b, at);
    if m != n && Tagged(tag, m) == Tagged(tag, n) {
      TaggedInjective(tag, m, n);
    }
  }

  /** The statement on verdicts. */
  lemma OneHeadPinsEverySegment(x: Context, y: Context, a: seq<SegFile>, b: seq<SegFile>, p: Position, q: Position)
      returns (u: bytes, v: bytes)
    requires x.c == y.c && NoViolation(x, a) && NoViolation(y, b) && RecordIn(a, p) && RecordIn(b, q)
    requires RecordHash(x.c, EnvelopeAt(a, p)) == RecordHash(x.c, EnvelopeAt(b, q))
    ensures Collision(x.c, a, b, u, v) || Pinned(a, b, p, q)
  {
    hide NoViolation, GoodLog, RawsFrom, Pinned, RecordHash, Collision;
    NoViolationIsGood(x, a);
    NoViolationIsGood(y, b);
    u, v := HashPinsLog(x.c, a, b, p, q);
  }
}
