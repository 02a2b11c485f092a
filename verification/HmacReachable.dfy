/** Every run of the writer verifies: any sequence of appends, with any number
    of rollovers and crashes. */
module HmacReachable {
  import opened Bytes
  import opened Cbor
  import opened Payload
  import opened Record
  import opened RecordSize
  import opened Segment
  import opened Calendar
  import opened HmacLog
  import opened HmacWriter
  import opened HmacHistory
  import opened HmacWritten
  import opened HmacCrash
  import opened HmacRuns

  // ---- the invariant ----

  predicate IsFinalize(r: Rec) { r.input.event == Finalized() }

  predicate NoFinalize(recs: seq<Rec>) { forall k :: 0 <= k < |recs| ==> !IsFinalize(recs[k]) }

  /** Time of the last record that a caller appended. */
  function SegUser(prior: Option<int>, recs: seq<Rec>): Option<int> {
    if recs == [] then prior
    else if IsFinalize(recs[|recs| - 1]) then SegUser(prior, recs[..|recs| - 1])
    else Some(Ms(recs[|recs| - 1]))
  }

  function UserTs(h: History): Option<int> {
    if h == [] then None else SegUser(UserTs(h[..|h| - 1]), h[|h| - 1])
  }

  predicate OneMsLater(a: Option<int>, b: Option<int>) {
    a == b || (a.Some? && b.Some? && b.value == a.value + 1)
  }

  /** The last record is at most the finalize record's millisecond later than
      the last record a caller appended. */
  predicate Drift(h: History) { OneMsLater(UserTs(h), LogTs(h)) }

  predicate TsWf(h: History) {
    forall i, k :: 0 <= i < |h| && 0 <= k < |h[i]| ==> WellFormedTs(h[i][k].input.tsWall)
  }

  predicate Base(c: Crypto, h: LiveHistory) {
    LogWf(h) && LogTsOk(h) && LogShort(c, h, RECOVERY_CAP) && TsWf(h) && Drift(h[..|h| - 1])
  }

  predicate Inv(c: Crypto, h: LiveHistory) { Base(c, h) && NoFinalize(LastSegment(h)) }

  /** What a caller owes `append`: a well-formed input whose payload nesting
      and size the decoders accept, not an event reserved for the writer, and
      a clock that does not step back a minute. */
  predicate InputOk(c: Crypto, h: LiveHistory, input: RecordInput) {
    && WfInput(input) && WellFormedTs(input.tsWall) && input.event != Finalized()
    && |RecordBytes(c.keyId, input, NO_SESSION, ZERO_DIGEST, |LastSegment(h)|)| <= RECOVERY_CAP
    && (UserTs(h).Some? ==> ParseTsMs(input.tsWall) >= UserTs(h).value - 59_999)
  }

  /** No counter overflows and no segment index leaves four digits. */
  predicate Room(h: LiveHistory) { |h| < MAX_SEGMENTS && |LastSegment(h)| + 2 < U64_END }

  // ---- one record more, one segment more, some records less ----

  predicate Fresh(c: Crypto, h: LiveHistory, r: Rec) {
    && WfInput(r.input) && WellFormedTs(r.input.tsWall)
    && NoRegression(LogTs(h), Ms(r))
    && |PayloadOf(c, r, StateOf(c, h).lastHmac, |LastSegment(h)|)| <= RECOVERY_CAP
    && |LastSegment(h)| + 1 < U64_END
  }

  lemma ShortExtend(c: Crypto, h: LiveHistory, r: Rec)
    requires LogShort(c, h, RECOVERY_CAP) && |PayloadOf(c, r, StateOf(c, h).lastHmac, |LastSegment(h)|)| <= RECOVERY_CAP
    ensures LogShort(c, Extend(h, r), RECOVERY_CAP)
  {
    hide RecordBytes, Final, SegPayloads, LogPayloads;
    var h', init, recs := Extend(h, r), h[..|h| - 1], LastSegment(h);
    assert h' == init + [recs + [r]] && h == init + [recs];
    LogPayloadsSnoc(c, init, recs);
    LogPayloadsSnoc(c, init, recs + [r]);
    SegPayloadsSnoc(c, Final(c, LogPayloads(c, init)), recs, r);
    var pl, pl' := LogPayloads(c, h), LogPayloads(c, h');
    assert AllShort(pl[|h| - 1], RECOVERY_CAP);
    forall i | 0 <= i < |h'| ensures AllShort(pl'[i], RECOVERY_CAP) {
      if i < |init| {
        assert pl'[i] == pl[i];
      }
    }
  }

  lemma TsAtSame(prior: Option<int>, recs: seq<Rec>, r: Rec, k: nat)
    requires k <= |recs|
    ensures TsAt(prior, recs + [r], k) == TsAt(prior, recs, k)
    ensures (recs + [r])[k] == if k < |recs| then recs[k] else r
  {
    hide Ms;
  }

  lemma TsOkExtend(prior: Option<int>, recs: seq<Rec>, r: Rec)
    requires SegTsOk(prior, recs) && NoRegression(TsAt(prior, recs, |recs|), Ms(r))
    ensures SegTsOk(prior, recs + [r])
  {
    hide Ms, NoRegression;
    var more := recs + [r];
    forall k | 0 <= k <= |recs| ensures NoRegression(TsAt(prior, more, k), Ms(more[k])) {
      TsAtSame(prior, recs, r, k);
    }
  }

  lemma SegWfExtend(recs: seq<Rec>, r: Rec)
    requires SegWf(recs) && WfInput(r.input) && |recs| + 1 < U64_END
    ensures SegWf(recs + [r])
  {
    hide WfInput;
  }

  lemma BaseExtend(c: Crypto, h: LiveHistory, r: Rec)
    requires Base(c, h) && Fresh(c, h, r)
    ensures Base(c, Extend(h, r))
  {
    hide StateOf, PayloadOf, LogShort, WfInput, WellFormedTs, Drift, Ms, SegWf, SegTsOk, TsAt, NoRegression;
    var h', init, recs := Extend(h, r), h[..|h| - 1], LastSegment(h);
    ShortExtend(c, h, r);
    assert h'[..|h'| - 1] == init && LastSegment(h') == recs + [r];
    assert SegWf(recs);
    assert forall i :: 0 <= i < |init| ==> h'[i] == h[i];
    SegWfExtend(recs, r);
    TsOkExtend(LogTs(init), recs, r);
  }

  lemma BaseOpen(c: Crypto, h: LiveHistory)
    requires Base(c, h) && Drift(h)
    ensures Inv(c, OpenNext(h))
  {
    hide SegPayloads, LogPayloads, Final, Drift, WellFormedTs, SegWf;
    var h' := OpenNext(h);
    assert h'[..|h'| - 1] == h;
    LogPayloadsSnoc(c, h, []);
    EmptySegment(c, LogPayloads(c, h));
    assert SegWf([]) by { EmptySegWf(); }
  }

  lemma EmptySegWf()
    ensures SegWf([])
  {
  }

  lemma ShortTrunc(c: Crypto, h: LiveHistory, k: nat)
    requires LogShort(c, h, RECOVERY_CAP) && k <= |LastSegment(h)|
    ensures LogShort(c, Trunc(h, k), RECOVERY_CAP)
  {
    hide RecordBytes, Final, SegPayloads, LogPayloads;
    var h', init, recs := Trunc(h, k), h[..|h| - 1], LastSegment(h);
    assert h == init + [recs];
    LogPayloadsSnoc(c, init, recs);
    LogPayloadsSnoc(c, init, recs[..k]);
    SegPayloadsPrefix(c, Final(c, LogPayloads(c, init)), recs, k);
    var pl, pl' := LogPayloads(c, h), LogPayloads(c, h');
    assert AllShort(pl[|h| - 1], RECOVERY_CAP);
    forall i | 0 <= i < |h'| ensures AllShort(pl'[i], RECOVERY_CAP) {
      if i < |init| {
        assert pl'[i] == pl[i];
      }
    }
  }

  lemma InvTrunc(c: Crypto, h: LiveHistory, k: nat)
    requires Inv(c, h) && k <= |LastSegment(h)|
    ensures Inv(c, Trunc(h, k))
  {
    hide LogShort, WfInput, WellFormedTs, Drift, Ms, IsFinalize;
    var h', init, recs := Trunc(h, k), h[..|h| - 1], LastSegment(h);
    ShortTrunc(c, h, k);
    assert h'[..|h'| - 1] == init && LastSegment(h') == recs[..k];
    assert SegWf(recs);
    assert forall i :: 0 <= i < |init| ==> h'[i] == h[i];
    var prior := LogTs(init);
    forall j | 0 <= j < k ensures NoRegression(TsAt(prior, recs[..k], j), Ms(recs[..k][j])) {
      assert TsAt(prior, recs[..k], j) == TsAt(prior, recs, j);
    }
  }

  // ---- the writer's own records ----

  lemma TsIsText(ts: bytes)
    requires WellFormedTs(ts)
    ensures IsText(ts) && |ts| == TS_LEN && ts[TS_LEN - 1] == 0x5a
  {
    hide ValidDate, Decimal;
    forall i | 0 <= i < |ts| ensures ts[i] < 0x80 {
      DigitAt(ts, 0, 4, i);
      DigitAt(ts, 5, 7, i);
      DigitAt(ts, 8, 10, i);
      DigitAt(ts, 11, 13, i);
      DigitAt(ts, 14, 16, i);
      DigitAt(ts, 17, 19, i);
      DigitAt(ts, 20, 23, i);
    }
    AsciiIsUtf8(ts);
  }

  lemma DigitAt(ts: bytes, from: nat, to: nat, i: nat)
    requires from <= to <= |ts| && AllDigits(ts[from..to])
    ensures from <= i < to ==> ts[i] < 0x80
  {
    if from <= i < to {
      assert ts[from..to][i - from] == ts[i];
    }
  }

  lemma FinalizeWf(ts: bytes, mono: nat, records: nat, hmac: Digest)
    requires WellFormedTs(ts) && mono < U64_END && records < U64_END
    ensures WfInput(FinalizeInput(ts, mono, records, hmac))
  {
    hide WellFormedTs, ParseTsMs, BumpTsMs, PWf, IsText, SystemActor, Finalized, FinalHashKey, RecordsKey;
    BumpAddsOne(ts);
    TsIsText(BumpTsMs(ts));
    WriterTexts();
    FinalizePayloadWf(records, hmac);
  }

  lemma AsciiText(s: string)
    requires |s| < U64_END && forall i :: 0 <= i < |s| ==> s[i] < 128 as char
    ensures IsText(Ascii(s))
  {
    AsciiIsUtf8(Ascii(s));
  }

  lemma WriterTexts()
    ensures IsText(SystemActor()) && IsText(Finalized()) && IsText(FinalHashKey()) && IsText(RecordsKey())
  {
    hide IsText;
    AsciiText("system:audit");
    AsciiText("segment.finalized");
    AsciiText("final_hash");
    AsciiText("records");
  }

  lemma FinalizePayloadWf(records: nat, hmac: Digest)
    requires records < U64_END
    ensures PWf(PMap([Member(FinalHashKey(), PBytes(hmac)), Member(RecordsKey(), PUint(records))]), 1)
  {
    hide ValidUtf8, FinalHashKey, RecordsKey, SystemActor, Finalized;
    var m1, m2 := Member(FinalHashKey(), PBytes(hmac)), Member(RecordsKey(), PUint(records));
    var ms := [m1, m2];
    WriterTexts();
    assert LexLess(m1.key, m2.key);
    hide LexLess;
    assert IsBTree(ms);
    assert PWfMember(m1, 2) && PWfMember(m2, 2);
    assert ms[1..] == [m2] && [m2][1..] == [];
    assert PWfMembers([m2], 2) && PWfMembers(ms, 2);
  }

  /** A caller's record fits; so does the finalize record. */
  lemma UserFresh(c: Crypto, session: SessionId, h: LiveHistory, input: RecordInput)
    requires InputOk(c, h, input) && |LastSegment(h)| + 1 < U64_END && NoRegression(LogTs(h), ParseTsMs(input.tsWall))
    ensures Fresh(c, h, Rec(input, session))
  {
    hide WfInput, WellFormedTs, StateOf, EstimateRecord, RecordBytes, EncodePayload;
    RecordNoLonger(c, input, input, session, NO_SESSION, StateOf(c, h).lastHmac, ZERO_DIGEST, |LastSegment(h)|,
        |LastSegment(h)|);
  }

  lemma DriftNow(c: Crypto, h: LiveHistory)
    requires Inv(c, h)
    ensures Drift(h)
    ensures LastSegment(h) != [] ==> UserTs(h) == LogTs(h) == Some(Ms(LastSegment(h)[|LastSegment(h)| - 1]))
  {
    hide LogWf, LogTsOk, LogShort, TsWf, ParseTsMs;
    var recs := LastSegment(h);
    if recs != [] {
      assert !IsFinalize(recs[|recs| - 1]);
    }
  }

  lemma UserTsExtend(h: LiveHistory, r: Rec)
    ensures UserTs(Extend(h, r)) == if IsFinalize(r) then UserTs(h) else Some(Ms(r))
    ensures LogTs(Extend(h, r)) == Some(Ms(r))
  {
    hide ParseTsMs, IsFinalize;
    var h', recs := Extend(h, r), LastSegment(h);
    assert h'[..|h'| - 1] == h[..|h| - 1] && LastSegment(h') == recs + [r];
    assert (recs + [r])[..|recs|] == recs;
  }

  lemma UserTsOpen(h: History)
    ensures UserTs(OpenNext(h)) == UserTs(h) && LogTs(OpenNext(h)) == LogTs(h)
  {
    assert OpenNext(h)[..|h|] == h;
  }

  /** The finalize record keeps the invariant's base and drifts by at most a
      millisecond; opening the next segment restores the invariant. */
  lemma RolloverKeeps(c: Crypto, session: SessionId, h: LiveHistory)
    requires Inv(c, h) && LastSegment(h) != [] && |LastSegment(h)| + 1 < U64_END
    ensures var h1 := Extend(h, FinalizeOf(c, session, h));
      Base(c, h1) && Drift(h1) && Inv(c, OpenNext(h1)) && UserTs(OpenNext(h1)) == UserTs(h)
  {
    hide LogTsOk, LogShort, WellFormedTs, WfInput, FinalizeInput, EncodePayload, RecordBytes, Final, SegPayloads,
        LogPayloads, UserTs, LogTs, ParseTsMs;
    var recs, s, fin := LastSegment(h), StateOf(c, h), FinalizeOf(c, session, h);
    var last := recs[|recs| - 1].input;
    assert WellFormedTs(last.tsWall) by { assert h[|h| - 1][|recs| - 1] == recs[|recs| - 1]; }
    assert WfInput(last) by { assert SegWf(recs); }
    MonoFits(last);
    FinalizeWf(last.tsWall, last.tsMonoDelta, |recs|, s.lastHmac);
    FinalizeTs(last.tsWall, last.tsMonoDelta, |recs|, s.lastHmac);
    TsIsText(last.tsWall);
    FinalizeIsShort(c, last.tsWall, last.tsMonoDelta, |recs|, s.lastHmac, session, s.lastHmac, |recs|);
    DriftNow(c, h);
    assert Fresh(c, h, fin);
    BaseExtend(c, h, fin);
    UserTsExtend(h, fin);
    BaseOpen(c, Extend(h, fin));
    UserTsOpen(Extend(h, fin));
  }

  /** Across a rollover a clock may step back a minute less the finalize
      record's millisecond, and no more: a step of exactly 60,000 ms is
      accepted inside a segment but not across a rollover, unless the last
      record was at .999. */
  lemma StepAcrossRollover(c: Crypto, session: SessionId, h: LiveHistory, ms: int)
    requires Inv(c, h) && LastSegment(h) != []
    ensures var recs, h2 := LastSegment(h), OpenNext(Extend(h, FinalizeOf(c, session, h)));
      var ts := recs[|recs| - 1].input.tsWall;
      && |ts| == TS_LEN && AllDigits(ts[20..23])
      && (NoRegression(LogTs(h), ms) <==> ms >= ParseTsMs(ts) - 60_000)
      && (NoRegression(LogTs(h2), ms) <==> ms >= ParseTsMs(ts) - 60_000 + if Decimal(ts[20..23]) == 999 then 0 else 1)
  {
    hide *;
    var fin := FinalizeOf(c, session, h);
    LastTime(c, session, h);
    DriftNow(c, h);
    UserTsExtend(h, fin);
    UserTsOpen(Extend(h, fin));
    RegressionBound(LogTs(h), ms);
    RegressionBound(LogTs(OpenNext(Extend(h, fin))), ms);
  }

  lemma RegressionBound(prior: Option<int>, ms: int)
    requires prior.Some?
    ensures NoRegression(prior, ms) <==> ms >= prior.value - 60_000
  {
  }

  /** The finalize record's time, from the last record's. */
  lemma LastTime(c: Crypto, session: SessionId, h: LiveHistory)
    requires Inv(c, h) && LastSegment(h) != []
    ensures var last := LastSegment(h)[|LastSegment(h)| - 1];
      var ts := last.input.tsWall;
      && |ts| == TS_LEN && AllDigits(ts[20..23]) && Ms(last) == ParseTsMs(ts)
      && Ms(FinalizeOf(c, session, h)) == ParseTsMs(ts) + if Decimal(ts[20..23]) == 999 then 0 else 1
  {
    hide LogWf, LogTsOk, LogShort, Drift, NoFinalize, ParseTsMs, BumpTsMs, Decimal, ValidDate, FinalizeOf, AllDigits;
    var recs := LastSegment(h);
    assert WellFormedTs(recs[|recs| - 1].input.tsWall) by { assert h[|h| - 1][|recs| - 1] == recs[|recs| - 1]; }
    BumpAddsOne(recs[|recs| - 1].input.tsWall);
    FinalizeBumps(c, session, h);
  }

  lemma FinalizeBumps(c: Crypto, session: SessionId, h: LiveHistory)
    requires LastSegment(h) != []
    ensures FinalizeOf(c, session, h).input.tsWall == BumpTsMs(LastSegment(h)[|LastSegment(h)| - 1].input.tsWall)
  {
    hide BumpTsMs, SegPayloads, LogPayloads, Final, SegmentFile, HeadAfter, FinalHashKey, RecordsKey, SystemActor,
        Finalized;
  }

  lemma MonoFits(input: RecordInput)
    requires WfInput(input)
    ensures input.tsMonoDelta < U64_END
  {
  }

  lemma FinalizeTs(ts: bytes, mono: nat, records: nat, hmac: Digest)
    requires WellFormedTs(ts)
    ensures var input := FinalizeInput(ts, mono, records, hmac);
      WellFormedTs(input.tsWall) && input.event == Finalized()
      && ParseTsMs(ts) <= ParseTsMs(input.tsWall) <= ParseTsMs(ts) + 1
  {
    hide WellFormedTs, ParseTsMs, BumpTsMs;
    BumpAddsOne(ts);
  }

  lemma RecordKeeps(c: Crypto, session: SessionId, h: LiveHistory, input: RecordInput)
    requires Inv(c, h) && InputOk(c, h, input) && |LastSegment(h)| + 1 < U64_END
    ensures Inv(c, Extend(h, Rec(input, session)))
  {
    hide LogWf, LogTsOk, LogShort, TsWf, WfInput, WellFormedTs, ParseTsMs, EstimateRecord, Fresh, Base, UserTs, LogTs;
    var r, recs := Rec(input, session), LastSegment(h);
    DriftNow(c, h);
    UserFresh(c, session, h, input);
    BaseExtend(c, h, r);
    var h' := Extend(h, r);
    assert LastSegment(h') == recs + [r];
  }

  /** Every state an append passes through: the invariant at rest, and between
      the finalize record and the next segment its base. */
  predicate Midway(c: Crypto, session: SessionId, h: LiveHistory, t: LiveHistory) {
    Inv(c, t) || (t == Extend(h, FinalizeOf(c, session, h)) && LastSegment(h) != [])
  }

  lemma AppendKeeps(c: Crypto, cfg: WriterConfig, session: SessionId, h: LiveHistory, input: RecordInput)
    requires Inv(c, h) && InputOk(c, h, input) && Room(h)
    ensures Inv(c, AppendHistory(c, cfg, session, h, input))
    ensures forall i ::
      0 <= i < |AppendSteps(c, cfg, session, h, input)|
      ==> Midway(c, session, h, AppendSteps(c, cfg, session, h, input)[i])
  {
    hide Inv, InputOk, FinalizeOf, Extend, OpenNext, RollsOver;
    if RollsOver(c, cfg, session, h, input) {
      var h1 := Extend(h, FinalizeOf(c, session, h));
      RolledNonEmpty(c, cfg, session, h, input);
      RolloverKeeps(c, session, h);
      OpenNextLast(h1);
      InputOkSame(c, h, OpenNext(h1), input);
      RecordKeeps(c, session, OpenNext(h1), input);
    } else {
      RecordKeeps(c, session, h, input);
    }
  }

  lemma RolledNonEmpty(c: Crypto, cfg: WriterConfig, session: SessionId, h: LiveHistory, input: RecordInput)
    requires RollsOver(c, cfg, session, h, input)
    ensures LastSegment(h) != []
  {
    hide EstimateRecord, EstimateFinalize, SegmentFile;
  }

  lemma OpenNextLast(h: History)
    ensures LastSegment(OpenNext(h)) == []
  {
  }

  lemma InputOkSame(c: Crypto, h: LiveHistory, h': LiveHistory, input: RecordInput)
    requires InputOk(c, h, input) && UserTs(h) == UserTs(h')
    requires LastSegment(h') == [] && |LastSegment(h)| < U64_END
    ensures InputOk(c, h', input)
  {
    hide WfInput, WellFormedTs, UserTs, RecordBytes, EncodePayload;
    RecordNoLonger(c, input, input, NO_SESSION, NO_SESSION, ZERO_DIGEST, ZERO_DIGEST, 0, |LastSegment(h)|);
  }

  // ---- crashes ----

  lemma NoFinalizePrefix(recs: seq<Rec>, k: nat)
    requires NoFinalize(recs) && k <= |recs|
    ensures !EndsFinalized(recs[..k])
  {
    if k > 0 {
      assert !IsFinalize(recs[k - 1]);
    }
  }

  lemma EndsWithFinalize(c: Crypto, session: SessionId, h: LiveHistory)
    ensures EndsFinalized(LastSegment(Extend(h, FinalizeOf(c, session, h))))
  {
    hide StateOf, Finalized;
    var fin := FinalizeOf(c, session, h);
    assert LastSegment(Extend(h, fin)) == LastSegment(h) + [fin];
  }

  /** Recovery restores the invariant, wherever the crash fell. */
  lemma CrashKeeps(c: Crypto, session: SessionId, h: LiveHistory, t: LiveHistory, n: nat)
    requires Inv(c, h) && |LastSegment(h)| + 1 < U64_END && Midway(c, session, h, t) && HEADER_LEN <= n
    ensures Inv(c, Recovered(c, t, n))
  {
    hide Base, FinalizeOf, Complete, NoFinalize, EndsFinalized, Extend;
    var k := Kept(c, t, n);
    if Inv(c, t) {
      InvTrunc(c, t, k);
      NoFinalizePrefix(LastSegment(t), k);
      assert LastSegment(Trunc(t, k)) == LastSegment(t)[..k];
    } else {
      var fin := FinalizeOf(c, session, h);
      ExtendLast(h, fin);
      TruncOfExtend(h, fin, k);
      if k == |LastSegment(h)| + 1 {
        RolloverKeeps(c, session, h);
        EndsWithFinalize(c, session, h);
      } else {
        InvTrunc(c, h, k);
        NoFinalizePrefix(LastSegment(h), k);
        assert LastSegment(Trunc(h, k)) == LastSegment(h)[..k];
      }
    }
  }

  lemma ExtendLast(h: LiveHistory, r: Rec)
    ensures |LastSegment(Extend(h, r))| == |LastSegment(h)| + 1
  {
  }
}
