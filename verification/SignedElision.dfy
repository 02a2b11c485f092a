/** Elision preserves meaning: dropping the bodies of any non-structural
    records of a violation-free log leaves the verdict, hashes, positions and
    anchoring as they were. */
module SignedElision {
  import opened Bytes
  import opened Cbor
  import opened Segment
  import opened SignedFormat
  import opened Acceptance
  import opened SignedVerifier
  import opened SignedPin

  function SignedFrames(raws: seq<Raw>): bytes {
    if raws == [] then [] else SignedFrame(raws[0]) + SignedFrames(raws[1..])
  }

  /** Where the framed records end. */
  function TailOf(data: bytes, offset: nat): (end: nat)
    requires offset <= |data|
    ensures offset <= end <= |data|
    decreases |data| - offset
  {
    match ReadSigned(data, offset)
    case Record(_, end) => TailOf(data, end)
    case _ => offset
  }

  predicate AllFramable(raws: seq<Raw>) { forall k :: 0 <= k < |raws| ==> raws[k].Framable() }

  /** A file is its frames and what is left over. */
  lemma {:induction false} FileSplit(data: bytes, offset: nat)
    requires offset <= |data|
    ensures data[offset..] == SignedFrames(RawsFrom(data, offset)) + data[TailOf(data, offset)..]
    ensures AllFramable(RawsFrom(data, offset)) && !ReadSigned(data, TailOf(data, offset)).Record?
    decreases |data| - offset
  {
    hide ReadSigned, SignedFrame;
    var r := ReadSigned(data, offset);
    if r.Record? {
      SignedFrameOfRead(data, offset);
      FileSplit(data, r.end);
      assert data[offset..] == data[offset..r.end] + data[r.end..];
      var rest := RawsFrom(data, r.end);
      assert [r.raw] + rest == RawsFrom(data, offset) && ([r.raw] + rest)[1..] == rest;
    }
  }

  lemma SliceOfRest(a: bytes, o: nat, i: nat, j: nat)
    requires o <= |a| && i <= j <= |a| - o
    ensures a[o + i..o + j] == a[o..][i..j]
  {
  }

  /** What is read depends only on the bytes from the offset on. */
  lemma ReadOfRest(a: bytes, o: nat, b: bytes, p: nat)
    requires o <= |a| && p <= |b| && a[o..] == b[p..] && !ReadSigned(a, o).Record?
    ensures ReadSigned(b, p) == ReadSigned(a, o)
  {
    hide FromLe;
    assert |a| - o == |b| - p == |a[o..]|;
    var left := |a| - o;
    if left >= 4 {
      SliceOfRest(a, o, 0, 4);
      SliceOfRest(b, p, 0, 4);
      var fixed := FromLe(a[o..o + 4]) + 72;
      if left >= fixed {
        SliceOfRest(a, o, fixed - 4, fixed);
        SliceOfRest(b, p, fixed - 4, fixed);
        var end := fixed + FromLe(a[o + fixed - 4..o + fixed]) + 4;
        if left >= end {
          SliceOfRest(a, o, end - 4, end);
          SliceOfRest(b, p, end - 4, end);
        }
      }
    }
  }

  /** Reading back frames and a rest that holds no frame. */
  lemma {:induction false} RawsOfFrames(data: bytes, offset: nat, raws: seq<Raw>, a: bytes, o: nat)
    requires offset <= |data| && o <= |a| && !ReadSigned(a, o).Record? && AllFramable(raws)
    requires data[offset..] == SignedFrames(raws) + a[o..]
    ensures RawsFrom(data, offset) == raws && data[TailOf(data, offset)..] == a[o..]
    decreases |raws|
  {
    hide ReadSigned, SignedFrame;
    if raws == [] {
      assert data[offset..] == a[o..];
      ReadOfRest(a, o, data, offset);
    } else {
      var f, rest := SignedFrame(raws[0]), SignedFrames(raws[1..]) + a[o..];
      assert data[offset..] == f + rest;
      SuffixStarts(data, offset, f, rest);
      hide SignedFrames;
      assert raws[0].Framable();
      SignedReadOfFrame(data, offset, raws[0]);
      RawsOfFrames(data, offset + |f|, raws[1..], a, o);
    }
  }

  // ---- the walk as a fold over records ----

  function WalkRaws(x: Context, s: Signer, raws: seq<Raw>, t: InSegment): InSegment {
    if raws == [] || t.walk.Halted() then t else WalkRaws(x, s, raws[1..], StepRecord(x, s, raws[0], t))
  }

  function AfterRaws(x: Context, s: Signer, t: InSegment, tail: bytes): InSegment {
    if t.walk.Halted() || tail == [] then t else StepTorn(x, s, t)
  }

  lemma {:induction false} WalkIsFold(x: Context, s: Signer, data: bytes, offset: nat, t: InSegment)
    requires offset <= |data|
    ensures WalkFrames(x, s, data, offset, t)
         == AfterRaws(x, s, WalkRaws(x, s, RawsFrom(data, offset), t), data[TailOf(data, offset)..])
    decreases |data| - offset
  {
    hide ReadSigned, StepRecord, StepTorn;
    var r := ReadSigned(data, offset);
    if !t.walk.Halted() && r.Record? {
      WalkIsFold(x, s, data, r.end, StepRecord(x, s, r.raw, t));
      assert RawsFrom(data, offset)[1..] == RawsFrom(data, r.end);
    }
  }

  lemma {:induction false} RawsClean(x: Context, s: Signer, raws: seq<Raw>, t: InSegment)
    requires Sound(t.walk)
    ensures Sound(WalkRaws(x, s, raws, t).walk) && (Clean(WalkRaws(x, s, raws, t).walk) ==> Clean(t.walk))
    decreases |raws|
  {
    hide StepRecord;
    if raws != [] && !t.walk.Halted() {
      var next := StepRecord(x, s, raws[0], t);
      StepSound(x, s, raws[0], t);
      RawsClean(x, s, raws[1..], next);
      if Clean(next.walk) {
        StepClean(x, s, raws[0], t);
      }
    }
  }

  // ---- elision ----

  function EventOf(raw: Raw): Value {
    if EnvelopeOf(raw.envelope).Some? then FieldOf(EnvelopeOf(raw.envelope).value, 7) else Bool(false)
  }

  function ElideRaw(raw: Raw, at: Position, mask: set<Position>): Raw { if at in mask then raw.(body := None) else raw }

  function ElideRaws(raws: seq<Raw>, i: nat, k: nat, mask: set<Position>): (r: seq<Raw>)
    ensures |r| == |raws| && forall j :: 0 <= j < |r| ==> r[j] == ElideRaw(raws[j], Position(i, k + j), mask)
    decreases |raws|
  {
    if raws == [] then [] else [ElideRaw(raws[0], Position(i, k), mask)] + ElideRaws(raws[1..], i, k + 1, mask)
  }

  function ElideFile(data: bytes, i: nat, mask: set<Position>): (r: bytes)
    requires |data| >= SIGNED_HEADER_LEN
    ensures |r| >= SIGNED_HEADER_LEN
  {
    data[..SIGNED_HEADER_LEN] + (SignedFrames(ElideRaws(RawsFrom(data, SIGNED_HEADER_LEN), i, 0, mask))
        + data[TailOf(data, SIGNED_HEADER_LEN)..])
  }

  predicate HasHeaders(dir: seq<SegFile>)
  {
    forall i :: 0 <= i < |dir| ==> dir[i].index == i && |dir[i].data| >= SIGNED_HEADER_LEN
  }

  /** The directory with the bodies at the positions of `mask` removed. */
  function ElideDir(dir: seq<SegFile>, mask: set<Position>): (r: seq<SegFile>)
    requires HasHeaders(dir)
    ensures |r| == |dir| && HasHeaders(r)
    ensures forall i :: 0 <= i < |dir| ==> r[i] == SegFile(i, ElideFile(dir[i].data, i, mask))
  {
    seq(|dir|, i requires 0 <= i < |dir| => SegFile(i, ElideFile(dir[i].data, i, mask)))
  }

  lemma FileElided(data: bytes, i: nat, mask: set<Position>)
    requires |data| >= SIGNED_HEADER_LEN
    ensures var b := ElideFile(data, i, mask);
      && b[..SIGNED_HEADER_LEN] == data[..SIGNED_HEADER_LEN]
      && RawsFrom(b, SIGNED_HEADER_LEN) == ElideRaws(RawsFrom(data, SIGNED_HEADER_LEN), i, 0, mask)
      && b[TailOf(b, SIGNED_HEADER_LEN)..] == data[TailOf(data, SIGNED_HEADER_LEN)..]
  {
    hide ReadSigned, SignedFrame, SignedFrames, RawsFrom, TailOf;
    var b := ElideFile(data, i, mask);
    var raws := RawsFrom(data, SIGNED_HEADER_LEN);
    var o := TailOf(data, SIGNED_HEADER_LEN);
    FileSplit(data, SIGNED_HEADER_LEN);
    forall k | 0 <= k < |raws| ensures ElideRaws(raws, i, 0, mask)[k].Framable() {
      assert raws[k].Framable();
    }
    assert b[SIGNED_HEADER_LEN..] == SignedFrames(ElideRaws(raws, i, 0, mask)) + data[o..];
    RawsOfFrames(b, SIGNED_HEADER_LEN, ElideRaws(raws, i, 0, mask), data, o);
  }

  // ---- the two walks in step ----

  /** The elided positions among `raws`, at `k` and after. */
  function ElidedIn(raws: seq<Raw>, i: nat, k: nat): seq<Position>
    decreases |raws|
  {
    if raws == [] then [] else (if raws[0].body.None? then [Position(i, k)] else []) + ElidedIn(raws[1..], i, k + 1)
  }

  function WithElided(t: InSegment, e: seq<Position>): InSegment { t.(walk := t.walk.(elided := e)) }

  lemma FieldsElided(x: Context, s: Signer, raw: Raw, raw': Raw, es: seq<Entry>, t: InSegment, e: seq<Position>)
    requires Clean(StepFields(x, s, raw, es, t).walk)
    requires raw' == raw || (raw' == raw.(body := None) && !Structural(FieldOf(es, 7)))
    ensures StepFields(x, s, raw', es, WithElided(t, e))
         == WithElided(StepFields(x, s, raw, es, t), e + if raw'.body.None? then [Position(s.index, t.id)] else [])
  {
    hide TrustOf, MsOf, FieldOf, RecordHash, ChainOk, BodyHash, Decode, BodyKeys, CheckRollover;
    assert e + [] == e;
    NoBodyNoRollover(t.id, FieldOf(es, 2));
  }

  lemma NoBodyNoRollover(id: nat, prev: Value)
    ensures CheckRollover(NoBody, id, prev) == RolloverGood
  {
  }

  /** A clean step is a good signature over good fields. */
  lemma CleanStepIsFields(x: Context, s: Signer, raw: Raw, t: InSegment)
    requires Clean(StepRecord(x, s, raw, t).walk)
    ensures EnvelopeOf(raw.envelope).Some? && t.finalized.None?
        && x.c.verify(s.publicKey, raw.envelope, raw.signature).None?
    ensures StepRecord(x, s, raw, t) == StepFields(x, s, raw, EnvelopeOf(raw.envelope).value, t.(walk := Seen(x, s, t)))
  {
    hide EnvelopeOf, StepFields, RecordHash, Seen;
  }

  lemma GoodStepIsFields(x: Context, s: Signer, raw: Raw, t: InSegment)
    requires EnvelopeOf(raw.envelope).Some? && t.finalized.None?
        && x.c.verify(s.publicKey, raw.envelope, raw.signature).None?
    ensures StepRecord(x, s, raw, t) == StepFields(x, s, raw, EnvelopeOf(raw.envelope).value, t.(walk := Seen(x, s, t)))
  {
    hide EnvelopeOf, StepFields, RecordHash, Seen;
  }

  lemma SeenElided(x: Context, s: Signer, t: InSegment, e: seq<Position>)
    ensures WithElided(t, e).(walk := Seen(x, s, WithElided(t, e))) == WithElided(t.(walk := Seen(x, s, t)), e)
    ensures WithElided(t, e).finalized == t.finalized
  {
    hide AfterHead;
  }

  lemma RecordElided(x: Context, s: Signer, raw: Raw, raw': Raw, t: InSegment, e: seq<Position>)
    requires Clean(StepRecord(x, s, raw, t).walk)
    requires raw' == raw || (raw' == raw.(body := None) && !Structural(EventOf(raw)))
    ensures StepRecord(x, s, raw', WithElided(t, e))
         == WithElided(StepRecord(x, s, raw, t), e + if raw'.body.None? then [Position(s.index, t.id)] else [])
  {
    hide EnvelopeOf, StepFields, StepRecord, Seen, FieldOf, Structural, WithElided;
    CleanStepIsFields(x, s, raw, t);
    SeenElided(x, s, t, e);
    GoodStepIsFields(x, s, raw', WithElided(t, e));
    FieldsElided(x, s, raw, raw', EnvelopeOf(raw.envelope).value, t.(walk := Seen(x, s, t)), e);
  }

  predicate MayElide(raws: seq<Raw>, raws': seq<Raw>) {
    |raws| == |raws'| && forall k :: 0 <= k < |raws| ==>
      raws'[k] == raws[k] || (raws'[k] == raws[k].(body := None) && !Structural(EventOf(raws[k])))
  }

  lemma NotHalted(t: InSegment, e: seq<Position>)
    requires Clean(t.walk)
    ensures !t.walk.Halted() && !WithElided(t, e).walk.Halted()
  {
  }

  lemma {:induction false} RawsElided(x: Context, s: Signer, raws: seq<Raw>, raws': seq<Raw>, t: InSegment,
      e: seq<Position>)
    requires Sound(t.walk) && Clean(WalkRaws(x, s, raws, t).walk) && MayElide(raws, raws')
    ensures WalkRaws(x, s, raws', WithElided(t, e))
        == WithElided(WalkRaws(x, s, raws, t), e + ElidedIn(raws', s.index, t.id))
    decreases |raws|
  {
    hide StepRecord, EventOf, Structural, WithElided, SignedWalk.Halted, Sound, Clean;
    RawsClean(x, s, raws, t);
    NotHalted(t, e);
    if raws == [] {
      assert e + [] == e;
    } else {
      var next := StepRecord(x, s, raws[0], t);
      StepSound(x, s, raws[0], t);
      RawsClean(x, s, raws[1..], next);
      StepClean(x, s, raws[0], t);
      RecordElided(x, s, raws[0], raws'[0], t, e);
      var here := if raws'[0].body.None? then [Position(s.index, t.id)] else [];
      RawsElided(x, s, raws[1..], raws'[1..], next, e + here);
      assert e + here + ElidedIn(raws'[1..], s.index, t.id + 1) == e + (here + ElidedIn(raws'[1..], s.index, t.id + 1));
    }
  }

  /** The positions elided in segments `i` and later. */
  function ElidedFrom(dir: seq<SegFile>, i: nat): seq<Position>
    requires i <= |dir|
    decreases |dir| - i
  {
    if i == |dir| then [] else ElidedIn(Raws(dir, i), i, 0) + ElidedFrom(dir, i + 1)
  }

  predicate OnlyNonStructural(dir: seq<SegFile>, mask: set<Position>) {
    forall p :: p in mask && RecordIn(dir, p) ==> !Structural(EventOf(Raws(dir, p.segment)[p.id]))
  }

  lemma HeaderElided(x: Context, w: SignedWalk, e: seq<Position>, n: nat, b: bytes, b': bytes, prevFinal: Digest)
    requires |b| >= SIGNED_HEADER_LEN && |b'| >= SIGNED_HEADER_LEN && b[..SIGNED_HEADER_LEN] == b'[..SIGNED_HEADER_LEN]
    ensures CheckSignedHeader(x, w.(elided := e), n, b', prevFinal) == CheckSignedHeader(x, w, n, b, prevFinal)
    ensures b'[..HASHED_LEN] == b[..HASHED_LEN]
  {
    hide FromLe, SignedFields, KeyIdOf;
    var h, h' := b[..SIGNED_HEADER_LEN], b'[..SIGNED_HEADER_LEN];
    SameFields(b, b');
    assert b[..4] == h[..4] && b[4..6] == h[4..6] && b[8..10] == h[8..10] && b[124..128] == h[124..128]
        && b[..124] == h[..124];
    assert b'[..4] == h'[..4] && b'[4..6] == h'[4..6] && b'[8..10] == h'[8..10] && b'[124..128] == h'[124..128]
        && b'[..124] == h'[..124];
  }

  lemma ViolateElided(w: SignedWalk, e: seq<Position>, vs: seq<SignedViolation>)
    ensures w.(elided := e).Violate(vs) == w.Violate(vs).(elided := e)
  {
  }

  lemma EnterElided(x: Context, s: Signer, w: SignedWalk, e: seq<Position>)
    ensures EnterLog(x, s, w.(elided := e)) == EnterLog(x, s, w).(elided := e)
  {
    hide InScope, SignedWalk.Violate;
    var g := w.(genesis := Some(s));
    assert w.(elided := e).(genesis := Some(s)) == g.(elided := e);
    ViolateElided(g, e, [SignedViolation(LogIdMismatch, AtSegment(0))]);
    ViolateElided(g, e, [SignedViolation(UntrustedSigner, AtSegment(0))]);
  }

  lemma TailElided(w: SignedWalk, e: seq<Position>, n: nat)
    ensures UnsignedTail(w.(elided := e), n) == UnsignedTail(w, n).(elided := e)
  {
    hide *;
    var u := w.Warn(UnsignedLastSegment);
    WarnElided(w, e, UnsignedLastSegment);
    NoSuccessorElided(u, e);
    ViolateElided(u, e, [SignedViolation(SealedLogExtended, AtSegment(n))]);
    TailCases(w, n);
    TailCases(w.(elided := e), n);
  }

  lemma TailCases(w: SignedWalk, n: nat)
    ensures var u := w.Warn(UnsignedLastSegment);
      UnsignedTail(w, n) == if w.sealed then u.Violate([SignedViolation(SealedLogExtended, AtSegment(n))])
                            else if w.last.Some? && w.last.value.event == Finalize() then NoSuccessor(u) else u
  {
    hide Finalize, SignedWalk.Violate, SignedWalk.Warn, NoSuccessor;
  }

  lemma WarnElided(w: SignedWalk, e: seq<Position>, warning: Warning)
    ensures w.(elided := e).Warn(warning) == w.Warn(warning).(elided := e)
  {
  }

  lemma NoSuccessorElided(w: SignedWalk, e: seq<Position>)
    ensures NoSuccessor(w.(elided := e)) == NoSuccessor(w).(elided := e)
  {
  }

  lemma CloseElided(t: InSegment, e: seq<Position>, n: nat, isLast: bool)
    ensures CloseSegment(WithElided(t, e), n, isLast) == CloseSegment(t, n, isLast).(elided := e)
  {
    hide UnsignedTail, NoSuccessor;
    TailElided(t.walk, e, n);
    NoSuccessorElided(t.walk, e);
    NoSuccessorElided(UnsignedTail(t.walk, n), e);
  }

  lemma TornElided(x: Context, s: Signer, t: InSegment, tail: bytes, e: seq<Position>)
    ensures AfterRaws(x, s, WithElided(t, e), tail) == WithElided(AfterRaws(x, s, t, tail), e)
    ensures Sound(t.walk) && Clean(AfterRaws(x, s, t, tail).walk) ==> Clean(t.walk)
  {
    hide AfterHead;
  }

  /** The records of one segment, walked in both files. */
  lemma FramesElided(x: Context, s: Signer, dir: seq<SegFile>, mask: set<Position>, i: nat, t: InSegment,
      e: seq<Position>)
    requires HasHeaders(dir) && i < |dir| && OnlyNonStructural(dir, mask) && s.index == i && t.id == 0 && Sound(t.walk)
    requires Clean(WalkFrames(x, s, dir[i].data, SIGNED_HEADER_LEN, t).walk)
    ensures var dir' := ElideDir(dir, mask);
      WalkFrames(x, s, dir'[i].data, SIGNED_HEADER_LEN, WithElided(t, e))
      == WithElided(WalkFrames(x, s, dir[i].data, SIGNED_HEADER_LEN, t), e + ElidedIn(Raws(dir', i), i, 0))
  {
    hide RawsFrom, TailOf, WalkRaws, AfterRaws, WalkFrames, EventOf, Structural, ElideFile, ElideDir;
    var dir' := ElideDir(dir, mask);
    var a, b := dir[i].data, dir'[i].data;
    FileElided(a, i, mask);
    WalkIsFold(x, s, a, SIGNED_HEADER_LEN, t);
    WalkIsFold(x, s, b, SIGNED_HEADER_LEN, WithElided(t, e));
    var raws, raws' := Raws(dir, i), Raws(dir', i);
    forall k | 0 <= k < |raws|
      ensures raws'[k] == raws[k] || (raws'[k] == raws[k].(body := None) && !Structural(EventOf(raws[k]))) {
      if Position(i, k) in mask {
        assert RecordIn(dir, Position(i, k));
      }
    }
    var u, tail := WalkRaws(x, s, raws, t), a[TailOf(a, SIGNED_HEADER_LEN)..];
    RawsClean(x, s, raws, t);
    TornElided(x, s, u, tail, e + ElidedIn(raws', i, 0));
    RawsElided(x, s, raws, raws', t, e);
  }

  /** One segment, entered and walked. */
  function SegmentWalk(x: Context, w: SignedWalk, s: Signer, b: bytes): InSegment
    requires |b| >= SIGNED_HEADER_LEN
  {
    WalkFrames(x, s, b, SIGNED_HEADER_LEN, InSegment(EnterLog(x, s, w), HeaderHash(x.c, b[..HASHED_LEN]), 0, None))
  }

  /** The walk passes segment `i` with signer `s`. */
  predicate Passes(x: Context, dir: seq<SegFile>, i: nat, prevFinal: Digest, had: bool, w: SignedWalk, s: Signer)
    requires i < |dir|
  {
    && !w.Halted() && dir[i].index == i && (i == 0 || had)
    && CheckSignedHeader(x, w, i, dir[i].data, prevFinal) == Ok(s) && !EnterLog(x, s, w).stop
  }

  lemma PassSegment(x: Context, dir: seq<SegFile>, i: nat, prevFinal: Digest, had: bool, w: SignedWalk, s: Signer)
    requires i < |dir| && Passes(x, dir, i, prevFinal, had, w, s)
    ensures |dir[i].data| >= SIGNED_HEADER_LEN && s.index == i
    ensures var t := SegmentWalk(x, w, s, dir[i].data);
      WalkSegments(x, dir, i, prevFinal, had, w) == WalkSegments(x, dir, i + 1, t.prev, t.id > 0,
          CloseSegment(t, i, i == |dir| - 1))
  {
    hide CheckSignedHeader, EnterLog, WalkFrames, CloseSegment;
  }

  /** A clean walk passes each of its segments. */
  lemma CleanPasses(x: Context, dir: seq<SegFile>, i: nat, prevFinal: Digest, had: bool, w: SignedWalk)
      returns (s: Signer)
    requires i < |dir| && Sound(w) && Clean(WalkSegments(x, dir, i, prevFinal, had, w))
    ensures Clean(w) && Passes(x, dir, i, prevFinal, had, w, s) && s.index == i && |dir[i].data| >= SIGNED_HEADER_LEN
    ensures var t := SegmentWalk(x, w, s, dir[i].data);
      var closed := CloseSegment(t, i, i == |dir| - 1);
      && Sound(EnterLog(x, s, w)) && Clean(t.walk) && Sound(closed)
      && WalkSegments(x, dir, i, prevFinal, had, w) == WalkSegments(x, dir, i + 1, t.prev, t.id > 0, closed)
  {
    hide CheckSignedHeader, EnterLog, WalkFrames, CloseSegment, RawsFrom, LinkAfter, AllFit;
    if !Clean(w) {
      NotClean(x, dir, i, prevFinal, had, w);
    }
    assert dir[i].index == i && (i == 0 || had) && CheckSignedHeader(x, w, i, dir[i].data, prevFinal).Ok?;
    s := CheckSignedHeader(x, w, i, dir[i].data, prevFinal).value;
    EnterSound(x, s, w);
    PassSegment(x, dir, i, prevFinal, had, w, s);
    var t := SegmentWalk(x, w, s, dir[i].data);
    FramesClean(x, s, dir[i].data, SIGNED_HEADER_LEN,
        InSegment(EnterLog(x, s, w), HeaderHash(x.c, dir[i].data[..HASHED_LEN]), 0, None));
    CloseSound(t, i, i == |dir| - 1);
    if !Clean(t.walk) {
      NotClean(x, dir, i + 1, t.prev, t.id > 0, CloseSegment(t, i, i == |dir| - 1));
    }
  }

  /** The elided directory's walk passes the same segment. */
  lemma SegmentElided(x: Context, dir: seq<SegFile>, mask: set<Position>, i: nat, prevFinal: Digest, had: bool,
      w: SignedWalk, s: Signer, e: seq<Position>)
    requires HasHeaders(dir) && i < |dir| && OnlyNonStructural(dir, mask) && Clean(w) && Sound(EnterLog(x, s, w))
        && s.index == i
    requires Passes(x, dir, i, prevFinal, had, w, s) && Clean(SegmentWalk(x, w, s, dir[i].data).walk)
    ensures var dir' := ElideDir(dir, mask);
      var t := SegmentWalk(x, w, s, dir[i].data);
      WalkSegments(x, dir', i, prevFinal, had, w.(elided := e))
      == WalkSegments(x, dir', i + 1, t.prev, t.id > 0,
                      CloseSegment(t, i, i == |dir| - 1).(elided := e + ElidedIn(Raws(dir', i), i, 0)))
  {
    hide CheckSignedHeader, EnterLog, WalkFrames, CloseSegment, WalkSegments, ElideFile, ElideDir, OnlyNonStructural,
        ElidedIn, Sound;
    var dir' := ElideDir(dir, mask);
    var b, b' := dir[i].data, dir'[i].data;
    FileElided(b, i, mask);
    HeaderElided(x, w, e, i, b, b', prevFinal);
    EnterElided(x, s, w, e);
    PassSegment(x, dir', i, prevFinal, had, w.(elided := e), s);
    FramesElided(x, s, dir, mask, i, InSegment(EnterLog(x, s, w), HeaderHash(x.c, b[..HASHED_LEN]), 0, None), e);
    var here := ElidedIn(Raws(dir', i), i, 0);
    var t := SegmentWalk(x, w, s, b);
    assert SegmentWalk(x, w.(elided := e), s, b') == WithElided(t, e + here);
    CloseElided(t, e + here, i, i == |dir| - 1);
  }

  lemma {:induction false} SegmentsElided(x: Context, dir: seq<SegFile>, mask: set<Position>, i: nat,
      prevFinal: Digest, had: bool, w: SignedWalk, e: seq<Position>)
    requires HasHeaders(dir) && i <= |dir| && OnlyNonStructural(dir, mask) && Sound(w)
    requires Clean(WalkSegments(x, dir, i, prevFinal, had, w))
    ensures var dir' := ElideDir(dir, mask);
      WalkSegments(x, dir', i, prevFinal, had, w.(elided := e))
      == WalkSegments(x, dir, i, prevFinal, had, w).(elided := e + ElidedFrom(dir', i))
    decreases |dir| - i
  {
    hide SegmentWalk, CloseSegment, WalkSegments, ElideDir, OnlyNonStructural, ElidedIn, Sound, Clean, Passes,
        EnterLog, HasHeaders;
    var dir' := ElideDir(dir, mask);
    if i == |dir| {
      NoMoreSegments(x, dir, prevFinal, had, w);
      NoMoreSegments(x, dir', prevFinal, had, w.(elided := e));
      assert e + [] == e;
    } else {
      var s := CleanPasses(x, dir, i, prevFinal, had, w);
      var t := SegmentWalk(x, w, s, dir[i].data);
      var closed := CloseSegment(t, i, i == |dir| - 1);
      var here := ElidedIn(Raws(dir', i), i, 0);
      SegmentElided(x, dir, mask, i, prevFinal, had, w, s, e);
      SegmentsElided(x, dir, mask, i + 1, t.prev, t.id > 0, closed, e + here);
      assert e + here + ElidedFrom(dir', i + 1) == e + (here + ElidedFrom(dir', i + 1));
    }
  }

  lemma NoMoreSegments(x: Context, dir: seq<SegFile>, prevFinal: Digest, had: bool, w: SignedWalk)
    ensures WalkSegments(x, dir, |dir|, prevFinal, had, w) == w
  {
  }

  lemma GoodHasHeaders(c: Scheme, dir: seq<SegFile>)
    requires GoodLog(c, dir)
    ensures HasHeaders(dir)
  {
    hide Continues, AllFit;
    forall i | 0 <= i < |dir| ensures dir[i].index == i && |dir[i].data| >= SIGNED_HEADER_LEN {
      assert GoodSegment(c, dir, i);
    }
  }

  // ---- the theorem ----

  /** The whole walk of a log. */
  function LogWalk(x: Context, dir: seq<SegFile>): SignedWalk
  {
    WalkSegments(x, dir, 0, ZERO_DIGEST, true, StartWalk(x))
  }

  lemma ConcludeElided(x: Context, w: SignedWalk, e: seq<Position>)
    ensures Conclude(x, w.(elided := e)) == Conclude(x, w).(elided := e)
  {
    hide MissingHeads, CheckAttested, NamedHeads, Seal;
  }

  lemma NoViolationIsClean(x: Context, dir: seq<SegFile>)
    requires NoViolation(x, dir)
    ensures Clean(LogWalk(x, dir)) && OracleLog(x, dir) == Done(Conclude(x, LogWalk(x, dir)))
    ensures GoodLog(x.c, dir) && HasHeaders(dir) && dir != []
  {
    hide WalkSegments, GoodSegment;
    SegmentsClean(x, dir, 0, ZERO_DIGEST, true, StartWalk(x));
    NoViolationIsGood(x, dir);
    GoodHasHeaders(x.c, dir);
  }

  lemma SameFormat(dir: seq<SegFile>, mask: set<Position>)
    requires HasHeaders(dir) && dir != []
    ensures var a, b := dir[0].data, ElideDir(dir, mask)[0].data; a[..4] == b[..4] && a[4..6] == b[4..6]
  {
    hide RawsFrom, TailOf;
    var a, b := dir[0].data, ElideDir(dir, mask)[0].data;
    FileElided(a, 0, mask);
    assert a[..4] == a[..128][..4] && a[4..6] == a[..128][4..6];
    assert b[..4] == b[..128][..4] && b[4..6] == b[..128][4..6];
  }

  lemma OracleIsWalk(x: Context, dir: seq<SegFile>, a: bytes)
    requires dir != [] && dir[0].index == 0 && |dir[0].data| >= SIGNED_HEADER_LEN && |a| >= SIGNED_HEADER_LEN
    requires a[..4] == dir[0].data[..4] && a[4..6] == dir[0].data[4..6]
    requires a[..4] == Magic() ==> FromLe(a[4..6]) == SIGNED_VERSION
    ensures OracleLog(x, dir) == if LogWalk(x, dir).raised then Raises else Done(Conclude(x, LogWalk(x, dir)))
  {
    hide WalkSegments, Conclude, FromLe;
  }

  lemma SignedFormatOf(x: Context, dir: seq<SegFile>)
    requires NoViolation(x, dir) && HasHeaders(dir)
    ensures dir[0].data[..4] == Magic() ==> FromLe(dir[0].data[4..6]) == SIGNED_VERSION
  {
    hide WalkFrames, CloseSegment, WalkSegments, Clean, FromLe, EnterLog, SignedFields, KeyIdOf;
    NoViolationIsClean(x, dir);
    var s := CleanPasses(x, dir, 0, ZERO_DIGEST, true, StartWalk(x));
  }

  /** Elision preserves meaning: the report is the same but for the list of
      elided records, and so are all record hashes and positions. */
  lemma ElisionPreservesVerdict(x: Context, dir: seq<SegFile>, mask: set<Position>)
    requires NoViolation(x, dir)
    requires OnlyNonStructural(dir, mask)
    ensures HasHeaders(dir)
    ensures var dir' := ElideDir(dir, mask);
      && OracleLog(x, dir') == Done(OracleLog(x, dir).report.(elided := ElidedFrom(dir', 0)))
      && LogWalk(x, dir').positions == LogWalk(x, dir).positions
      && NoViolation(x, dir')
  {
    hide WalkSegments, ElideDir, OnlyNonStructural, Conclude, ElidedFrom, GoodLog, FromLe;
    NoViolationIsClean(x, dir);
    var dir' := ElideDir(dir, mask);
    var w := StartWalk(x);
    SegmentsElided(x, dir, mask, 0, ZERO_DIGEST, true, w, []);
    assert w.(elided := []) == w;
    assert [] + ElidedFrom(dir', 0) == ElidedFrom(dir', 0);
    ConcludeElided(x, LogWalk(x, dir), ElidedFrom(dir', 0));
    SameFormat(dir, mask);
    SignedFormatOf(x, dir);
    OracleIsWalk(x, dir', dir[0].data);
  }

  /** The list names exactly the records without a body: those elided now and
      those elided before. */
  lemma {:induction false} ElidedListed(raws: seq<Raw>, i: nat, k: nat, p: Position)
    ensures p in ElidedIn(raws, i, k) <==> p.segment == i && k <= p.id < k + |raws| && raws[p.id - k].body.None?
    decreases |raws|
  {
    if raws != [] {
      var here, rest := if raws[0].body.None? then [Position(i, k)] else [], raws[1..];
      ElidedListed(rest, i, k + 1, p);
      assert p in here <==> p == Position(i, k) && raws[0].body.None?;
      assert p in here + ElidedIn(rest, i, k + 1) <==> p in here || p in ElidedIn(rest, i, k + 1);
      if k < p.id < k + |raws| {
        assert rest[p.id - k - 1] == raws[p.id - k];
      }
    }
  }

  lemma {:induction false} ElidedExactly(dir: seq<SegFile>, i: nat, p: Position)
    requires i <= |dir|
    ensures p in ElidedFrom(dir, i) <==> i <= p.segment && RecordIn(dir, p) && Raws(dir, p.segment)[p.id].body.None?
    decreases |dir| - i
  {
    hide RawsFrom, ElidedIn;
    if i < |dir| {
      ElidedListed(Raws(dir, i), i, 0, p);
      ElidedExactly(dir, i + 1, p);
    }
  }

  lemma ElidedAreThose(dir: seq<SegFile>, mask: set<Position>, p: Position)
    requires HasHeaders(dir)
    ensures var dir' := ElideDir(dir, mask);
      p in ElidedFrom(dir', 0) <==> RecordIn(dir, p) && (p in mask || Raws(dir, p.segment)[p.id].body.None?)
  {
    hide RawsFrom, ElideFile, ElidedFrom, TailOf;
    var dir' := ElideDir(dir, mask);
    ElidedExactly(dir', 0, p);
    if p.segment < |dir| {
      FileElided(dir[p.segment].data, p.segment, mask);
    }
  }
}
