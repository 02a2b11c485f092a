/** Segment files stay within the configured size: the writer rolls over in
    time to fit the finalize record, over whole runs with crashes. */
module HmacSize {
  import opened Bytes
  import opened Cbor
  import opened Payload
  import opened Record
  import opened RecordSize
  import opened Segment
  import opened HmacLog
  import opened HmacWriter
  import opened HmacHistory
  import opened HmacWritten
  import opened HmacCrash
  import opened HmacRuns
  import opened HmacReachable
  import opened HmacEveryRun

  /** Bytes of a segment file with these payloads. */
  function FileLen(c: Crypto, ps: seq<bytes>): nat { HEADER_LEN + |Frames(c, ps)| }

  /** Bytes of the finalize record that would close a segment now. */
  function FinalizeLen(c: Crypto, recs: seq<Rec>): nat {
    FRAMING + |RecordBytes(c.keyId, FinalizeInput(LastTsWall(recs), LastTsMono(recs), |recs|, ZERO_DIGEST), NO_SESSION,
        ZERO_DIGEST, |recs|)|
  }

  /** After `k` records the segment still has room for its finalize record. */
  predicate RoomAt(c: Crypto, cfg: WriterConfig, ps: seq<bytes>, recs: seq<Rec>, k: nat)
    requires k <= |recs| == |ps|
  {
    FileLen(c, ps[..k]) + FinalizeLen(c, recs[..k]) <= cfg.segmentSizeBytes
  }

  predicate ClosedSized(c: Crypto, cfg: WriterConfig, ps: seq<bytes>)
  {
    |ps| <= 2 || FileLen(c, ps) <= cfg.segmentSizeBytes
  }

  predicate LastSized(c: Crypto, cfg: WriterConfig, h: LiveHistory) {
    forall k :: 2 <= k <= |LastSegment(h)| ==> RoomAt(c, cfg, LastPayloads(c, h), LastSegment(h), k)
  }

  predicate Sized(c: Crypto, cfg: WriterConfig, h: LiveHistory) {
    && (forall i :: 0 <= i < |h| - 1 ==> ClosedSized(c, cfg, LogPayloads(c, h)[i]))
    && LastSized(c, cfg, h)
  }

  // ---- lengths ----

  lemma FinalizeLenIs(c: Crypto, session: SessionId, recs: seq<Rec>, hmac: Digest, prev: Digest)
    requires |recs| < U64_END
    ensures FRAMING + |RecordBytes(c.keyId, FinalizeInput(LastTsWall(recs), LastTsMono(recs), |recs|, hmac), session,
        prev, |recs|)|
         == FinalizeLen(c, recs)
  {
    hide RecordBytes, EncodePayload, LastTsWall, LastTsMono;
    var ts, mono, n := LastTsWall(recs), LastTsMono(recs), |recs|;
    FinalizePayloadLen(ts, mono, n, hmac);
    FinalizePayloadLen(ts, mono, n, ZERO_DIGEST);
    RecordNoLonger(c, FinalizeInput(ts, mono, n, hmac), FinalizeInput(ts, mono, n, ZERO_DIGEST), session, NO_SESSION,
        prev, ZERO_DIGEST, n, n);
    RecordNoLonger(c, FinalizeInput(ts, mono, n, ZERO_DIGEST), FinalizeInput(ts, mono, n, hmac), NO_SESSION, session,
        ZERO_DIGEST, prev, n, n);
  }

  lemma FileLenSnoc(c: Crypto, ps: seq<bytes>, p: bytes)
    ensures FileLen(c, ps + [p]) == FileLen(c, ps) + |p| + FRAMING
  {
    FramesAppend(c, ps, [p]);
    assert Frames(c, [p]) == Frame(p, c.sign(p)) + Frames(c, []);
  }

  /** What the writer estimated before appending covers the record and the
      finalize record after it. */
  lemma EstimateCovers(c: Crypto, cfg: WriterConfig, session: SessionId, h: LiveHistory, input: RecordInput)
    requires |LastSegment(h)| + 1 < U64_END && LastSegment(h) != [] && cfg.finalizeOnRollover
    requires !RollsOver(c, cfg, session, h, input)
    ensures var r, recs := Rec(input, session), LastSegment(h);
      FileLen(c, LastPayloads(c, h) + [PayloadOf(c, r, StateOf(c, h).lastHmac, |recs|)])
          + FinalizeLen(c, recs + [r]) <= cfg.segmentSizeBytes
  {
    hide RecordBytes, EncodePayload, Frames, SegPayloads, LogPayloads, Final, FinalizeInput;
    var r, recs, s := Rec(input, session), LastSegment(h), StateOf(c, h);
    FileLenSnoc(c, LastPayloads(c, h), PayloadOf(c, r, s.lastHmac, |recs|));
    SameInput(input);
    EstimateDominates(c, input, input, session, session, s.lastHmac, |recs|);
    assert LastTsWall(recs + [r]) == input.tsWall && LastTsMono(recs + [r]) == input.tsMonoDelta;
    FinalizeNoLonger(input.tsWall, input.tsMonoDelta, |recs| + 1, ZERO_DIGEST);
    EstimateDominates(c, FinalizeInput(input.tsWall, input.tsMonoDelta, |recs| + 1, ZERO_DIGEST),
                      FinalizeInput(input.tsWall, input.tsMonoDelta, U64_MAX, ZERO_DIGEST), NO_SESSION, session,
                          ZERO_DIGEST, |recs| + 1);
  }

  lemma SameInput(input: RecordInput)
    ensures NoLonger(input, input)
  {
    hide EncodePayload;
  }

  // ---- steps ----

  /** The segments before the last do not change. */
  lemma EarlierPayloads(c: Crypto, h: LiveHistory, h': LiveHistory)
    requires |h| <= |h'| && h'[..|h| - 1] == h[..|h| - 1]
    ensures LogPayloads(c, h')[..|h| - 1] == LogPayloads(c, h)[..|h| - 1] == Before(c, h)
    ensures LogPayloads(c, h)[|h| - 1] == LastPayloads(c, h)
  {
    hide SegPayloads, LogPayloads, Final;
    LogPayloadsPrefix(c, h', |h| - 1);
    LogPayloadsPrefix(c, h, |h| - 1);
    SegmentPayloadsAt(c, h, |h| - 1);
  }

  lemma LastPayloadsExtend(c: Crypto, h: LiveHistory, r: Rec)
    ensures var h' := Extend(h, r);
      && h'[..|h| - 1] == h[..|h| - 1] && LastSegment(h') == LastSegment(h) + [r]
      && LastPayloads(c, h') == LastPayloads(c, h) + [PayloadOf(c, r, StateOf(c, h).lastHmac, |LastSegment(h)|)]
  {
    hide LogPayloads, Final, RecordBytes, SegPayloads;
    var h' := Extend(h, r);
    assert h'[..|h'| - 1] == h[..|h| - 1];
    SegPayloadsSnoc(c, Final(c, Before(c, h)), LastSegment(h), r);
  }

  lemma RecordSized(c: Crypto, cfg: WriterConfig, session: SessionId, h: LiveHistory, input: RecordInput)
    requires Sized(c, cfg, h) && |LastSegment(h)| + 1 < U64_END && cfg.finalizeOnRollover
    requires LastSegment(h) != [] ==> !RollsOver(c, cfg, session, h, input)
    ensures Sized(c, cfg, Extend(h, Rec(input, session)))
  {
    hide LogPayloads, LastPayloads, StateOf, FinalizeLen, FileLen, PayloadOf, RollsOver;
    var r := Rec(input, session);
    var h', recs, ps := Extend(h, r), LastSegment(h), LastPayloads(c, h);
    LastPayloadsExtend(c, h, r);
    EarlierPayloads(c, h, h');
    var ps' := LastPayloads(c, h');
    forall i | 0 <= i < |h'| - 1 ensures ClosedSized(c, cfg, LogPayloads(c, h')[i]) {
      assert LogPayloads(c, h')[..|h| - 1][i] == LogPayloads(c, h)[..|h| - 1][i];
    }
    forall k | 2 <= k <= |recs| + 1 ensures RoomAt(c, cfg, ps', recs + [r], k) {
      if k == |recs| + 1 {
        EstimateCovers(c, cfg, session, h, input);
        assert ps'[..k] == ps' && (recs + [r])[..k] == recs + [r];
      } else {
        assert RoomAt(c, cfg, ps, recs, k);
        assert ps'[..k] == ps[..k] && (recs + [r])[..k] == recs[..k];
      }
    }
  }

  /** A finalized segment is within the size. */
  lemma RolledSized(c: Crypto, cfg: WriterConfig, session: SessionId, h: LiveHistory)
    requires Sized(c, cfg, h) && LastSegment(h) != [] && |LastSegment(h)| + 1 < U64_END
    ensures var h1 := Extend(h, FinalizeOf(c, session, h));
      ClosedSized(c, cfg, LastPayloads(c, h1)) && Sized(c, cfg, OpenNext(h1))
  {
    hide LogPayloads, LastPayloads, Final, FinalizeLen, FileLen, PayloadOf, SegPayloads;
    var fin, recs, ps := FinalizeOf(c, session, h), LastSegment(h), LastPayloads(c, h);
    var h1 := Extend(h, fin);
    LastPayloadsExtend(c, h, fin);
    if |recs| >= 2 {
      assert RoomAt(c, cfg, ps, recs, |recs|);
      assert ps[..|recs|] == ps && recs[..|recs|] == recs;
      ClosingFits(c, session, h);
    }
    var h2 := OpenNext(h1);
    assert h2[..|h1| - 1] == h1[..|h1| - 1] == h[..|h| - 1];
    EarlierPayloads(c, h, h2);
    EarlierPayloads(c, h, h1);
    OpenPayloads(c, h1);
    forall i | 0 <= i < |h2| - 1 ensures ClosedSized(c, cfg, LogPayloads(c, h2)[i]) {
      if i < |h| - 1 {
        assert LogPayloads(c, h2)[..|h| - 1][i] == LogPayloads(c, h)[..|h| - 1][i];
      }
    }
  }

  lemma OpenPayloads(c: Crypto, h: LiveHistory)
    ensures LastSegment(OpenNext(h)) == [] && LogPayloads(c, OpenNext(h))[|h| - 1] == LastPayloads(c, h)
  {
    hide LogPayloads, LastPayloads, SegPayloads;
    EarlierPayloads(c, h, h);
    LogPayloadsSnoc(c, h, []);
  }

  lemma ClosingFits(c: Crypto, session: SessionId, h: LiveHistory)
    requires |LastSegment(h)| < U64_END
    ensures FileLen(c, LastPayloads(c, Extend(h, FinalizeOf(c, session, h))))
         == FileLen(c, LastPayloads(c, h)) + FinalizeLen(c, LastSegment(h))
  {
    hide LogPayloads, LastPayloads, Final, FinalizeLen, FileLen, RecordBytes, SegPayloads, FinalizeInput, SegmentFile;
    var fin, s, recs := FinalizeOf(c, session, h), StateOf(c, h), LastSegment(h);
    LastPayloadsExtend(c, h, fin);
    FileLenSnoc(c, LastPayloads(c, h), PayloadOf(c, fin, s.lastHmac, |recs|));
    FinalizeLenIs(c, session, recs, s.lastHmac, s.lastHmac);
  }

  lemma TruncSized(c: Crypto, cfg: WriterConfig, h: LiveHistory, k: nat)
    requires Sized(c, cfg, h) && k <= |LastSegment(h)|
    ensures Sized(c, cfg, Trunc(h, k))
  {
    hide LogPayloads, Final, FinalizeLen, FileLen, SegPayloads;
    var t, recs, ps := Trunc(h, k), LastSegment(h), LastPayloads(c, h);
    assert t[..|t| - 1] == h[..|h| - 1] && LastSegment(t) == recs[..k];
    EarlierPayloads(c, h, t);
    SegPayloadsPrefix(c, Final(c, Before(c, h)), recs, k);
    forall i | 0 <= i < |t| - 1 ensures ClosedSized(c, cfg, LogPayloads(c, t)[i]) {
      assert LogPayloads(c, t)[..|h| - 1][i] == LogPayloads(c, h)[..|h| - 1][i];
    }
    forall j | 2 <= j <= k ensures RoomAt(c, cfg, LastPayloads(c, t), recs[..k], j) {
      assert RoomAt(c, cfg, ps, recs, j);
      assert ps[..k][..j] == ps[..j] && recs[..k][..j] == recs[..j];
    }
  }

  /** Every state of an append keeps the sizes, the one between the finalize
      record and the next segment apart. */
  predicate MidwaySized(c: Crypto, cfg: WriterConfig, session: SessionId, h: LiveHistory, t: LiveHistory) {
    Sized(c, cfg, t) || (t == Extend(h, FinalizeOf(c, session, h)) && LastSegment(h) != [])
  }

  lemma AppendSized(c: Crypto, cfg: WriterConfig, session: SessionId, h: LiveHistory, input: RecordInput)
    requires Sized(c, cfg, h) && cfg.finalizeOnRollover && |LastSegment(h)| + 2 < U64_END
    ensures Sized(c, cfg, AppendHistory(c, cfg, session, h, input))
    ensures forall i ::
      0 <= i < |AppendSteps(c, cfg, session, h, input)|
      ==> MidwaySized(c, cfg, session, h, AppendSteps(c, cfg, session, h, input)[i])
  {
    hide Sized, FinalizeOf, Extend, OpenNext, RollsOver, LastSegment;
    var steps := AppendSteps(c, cfg, session, h, input);
    if RollsOver(c, cfg, session, h, input) {
      var h1 := Extend(h, FinalizeOf(c, session, h));
      var h3 := Extend(OpenNext(h1), Rec(input, session));
      RolledNonEmpty(c, cfg, session, h, input);
      RolledSized(c, cfg, session, h);
      OpenNextLast(h1);
      RecordSized(c, cfg, session, OpenNext(h1), input);
      assert steps == [h1, OpenNext(h1), h3];
      forall i | 0 <= i < |steps| ensures MidwaySized(c, cfg, session, h, steps[i]) {
        assert i == 0 || i == 1 || i == 2;
      }
    } else {
      RecordSized(c, cfg, session, h, input);
      assert steps == [Extend(h, Rec(input, session))];
    }
  }

  lemma CrashSized(c: Crypto, cfg: WriterConfig, session: SessionId, h: LiveHistory, t: LiveHistory, n: nat)
    requires Inv(c, h) && Sized(c, cfg, h) && |LastSegment(h)| + 1 < U64_END && HEADER_LEN <= n
    requires Midway(c, session, h, t) && MidwaySized(c, cfg, session, h, t)
    ensures Sized(c, cfg, Recovered(c, t, n))
  {
    hide Base, FinalizeOf, Kept, NoFinalize, EndsFinalized, Extend, OpenNext, Sized;
    var k := Kept(c, t, n);
    var fin := FinalizeOf(c, session, h);
    if t == Extend(h, fin) && LastSegment(h) != [] {
      ExtendLast(h, fin);
      TruncOfExtend(h, fin, k);
      if k == |LastSegment(h)| + 1 {
        RolledSized(c, cfg, session, h);
        EndsWithFinalize(c, session, h);
      } else {
        TruncSized(c, cfg, h, k);
        NoFinalizePrefix(LastSegment(h), k);
        assert LastSegment(Trunc(h, k)) == LastSegment(h)[..k];
      }
    } else {
      TruncSized(c, cfg, t, k);
      NoFinalizePrefix(LastSegment(t), k);
      assert LastSegment(Trunc(t, k)) == LastSegment(t)[..k];
    }
  }

  // ---- runs ----

  lemma NextSized(c: Crypto, cfg: WriterConfig, session: SessionId, h: LiveHistory, e: Event)
    requires Inv(c, h) && Sized(c, cfg, h) && cfg.finalizeOnRollover && EventOk(c, cfg, session, h, e)
    ensures Sized(c, cfg, NextHistory(c, cfg, session, h, e))
  {
    hide Inv, Sized, InputOk, AppendSteps, Recovered, Accepted, Midway, MidwaySized;
    if e.Append? {
      if Accepted(e.input) {
        AppendSized(c, cfg, session, h, e.input);
      }
    } else {
      var t := StepHistories(c, cfg, session, h, e.input)[e.step];
      StepMidway(c, cfg, session, h, e.input, e.step);
      AppendSized(c, cfg, session, h, e.input);
      if e.step == 0 {
        MidwayNow(c, cfg, session, h);
      } else {
        assert t == AppendSteps(c, cfg, session, h, e.input)[e.step - 1];
      }
      CrashSized(c, cfg, session, h, t, e.keep);
    }
  }

  lemma MidwayNow(c: Crypto, cfg: WriterConfig, session: SessionId, h: LiveHistory)
    requires Sized(c, cfg, h)
    ensures MidwaySized(c, cfg, session, h, h)
  {
    hide Sized;
  }

  lemma {:induction false} RunSized(c: Crypto, cfg: WriterConfig, m: Machine, h: LiveHistory, events: seq<Event>)
    requires Represents(c, m.ws, h) && m.ws.dir != [] && Inv(c, h) && |h| <= MAX_SEGMENTS && Sized(c, cfg, h)
    requires cfg.finalizeOnRollover && EventsOk(c, cfg, m.session, h, events)
    ensures Sized(c, cfg, RunHistory(c, cfg, m.session, h, events))
    decreases |events|
  {
    hide Represents, Inv, EventOk, Next, NextHistory, NextSession, Sized;
    if events != [] {
      var e := events[0];
      NextKeeps(c, cfg, m, h, e);
      NextSized(c, cfg, m.session, h, e);
      RunSized(c, cfg, Next(c, cfg, m, e).value, NextHistory(c, cfg, m.session, h, e), events[1..]);
    }
  }

  /** A segment that holds one record, and perhaps the finalize record. */
  predicate OneRecord(recs: seq<Rec>, closed: bool) { |recs| <= if closed then 2 else 1 }

  lemma StartSized(c: Crypto, cfg: WriterConfig)
    ensures Sized(c, cfg, [[]])
  {
  }

  lemma FileLenAt(c: Crypto, h: LiveHistory, i: nat)
    requires i < |h|
    ensures |DirOfHistory(c, h)[i].data| == FileLen(c, LogPayloads(c, h)[i])
  {
    hide LogPayloads, Frames, Final;
    FileAt(c, LogPayloads(c, h), i);
  }

  lemma SizedFile(c: Crypto, cfg: WriterConfig, h: LiveHistory, i: nat)
    requires Sized(c, cfg, h) && i < |h|
    ensures OneRecord(h[i], i < |h| - 1) || |DirOfHistory(c, h)[i].data| <= cfg.segmentSizeBytes
  {
    hide LogPayloads, LastPayloads, SegPayloads, FileLen, FinalizeLen, DirOfHistory, Final;
    FileLenAt(c, h, i);
    SegmentPayloadsAt(c, h, i);
    EarlierPayloads(c, h, h);
    if i == |h| - 1 && |h[i]| >= 2 {
      LastFits(c, cfg, h);
    }
  }

  lemma LastFits(c: Crypto, cfg: WriterConfig, h: LiveHistory)
    requires LastSized(c, cfg, h) && |LastSegment(h)| >= 2
    ensures FileLen(c, LastPayloads(c, h)) <= cfg.segmentSizeBytes
  {
    hide LastPayloads, FileLen, FinalizeLen;
    var n := |LastSegment(h)|;
    assert RoomAt(c, cfg, LastPayloads(c, h), LastSegment(h), n);
    assert LastPayloads(c, h)[..n] == LastPayloads(c, h);
  }

  /** The size bound: after any run with rollover on, every file, finalize
      record included, is within the configured size, unless it holds a
      single record besides the finalize record. */
  lemma SegmentSizeBound(c: Crypto, cfg: WriterConfig, session: SessionId, events: seq<Event>, i: nat)
    requires cfg.finalizeOnRollover && EventsOk(c, cfg, session, [[]], events)
    requires i < |RunHistory(c, cfg, session, [[]], events)|
    ensures var m, h := Run(c, cfg, Start(c, session), events), RunHistory(c, cfg, session, [[]], events);
      && m.Some? && |m.value.ws.dir| == |h|
      && (OneRecord(h[i], i < |h| - 1) || |m.value.ws.dir[i].data| <= cfg.segmentSizeBytes)
  {
    hide RunHistory, Run, EventsOk, Inv, StateOf, DirOfHistory, Sized, OneRecord;
    var m := Start(c, session);
    FreshRepresents(c);
    DirNonEmpty(c, m.ws, [[]]);
    StartInv(c);
    StartSized(c, cfg);
    RunKeeps(c, cfg, m, [[]], events);
    RunSized(c, cfg, m, [[]], events);
    SizedFile(c, cfg, RunHistory(c, cfg, session, [[]], events), i);
  }
}
