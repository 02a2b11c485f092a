/** Histories: the records of a log as the callers handed them over, and the
    one writer state and directory each history stands for. */
module HmacHistory {
  import opened Bytes
  import opened Record
  import opened Segment
  import opened HmacLog
  import opened HmacWriter

  /** One record: the input and the session that wrote it. */
  datatype Rec = Rec(input: RecordInput, session: SessionId)

  /** Records, segment by segment. */
  type History = seq<seq<Rec>>

  /** A log that has at least its first segment. */
  type LiveHistory = h: History | h != [] witness [[]]

  function PayloadOf(c: Crypto, r: Rec, prev: Digest, id: nat): bytes {
    RecordBytes(c.keyId, r.input, r.session, prev, id)
  }

  /** The payloads of a segment whose first record links to `start`. */
  function SegPayloads(c: Crypto, start: Digest, recs: seq<Rec>): (ps: seq<bytes>)
    ensures |ps| == |recs|
  {
    if recs == [] then []
    else
      var n := |recs| - 1;
      var ps := SegPayloads(c, start, recs[..n]);
      ps + [PayloadOf(c, recs[n], HeadAfter(c, start, ps), n)]
  }

  function LogPayloads(c: Crypto, h: History): (pl: PLog)
    ensures |pl| == |h|
  {
    if h == [] then []
    else
      var pl := LogPayloads(c, h[..|h| - 1]);
      pl + [SegPayloads(c, Final(c, pl), h[|h| - 1])]
  }

  function DirOf(files: seq<bytes>): (dir: seq<SegFile>)
    ensures |dir| == |files| && forall i :: 0 <= i < |dir| ==> dir[i] == SegFile(i, files[i])
  {
    if files == [] then [] else DirOf(files[..|files| - 1]) + [SegFile(|files| - 1, files[|files| - 1])]
  }

  /** The directory a history stands for. */
  function DirOfHistory(c: Crypto, h: History): (dir: seq<SegFile>)
    ensures |dir| == |h|
  {
    DirOf(Files(c, LogPayloads(c, h)))
  }

  function LastSegment(h: History): seq<Rec>
    requires h != []
  {
    h[|h| - 1]
  }

  function LastTsWall(recs: seq<Rec>): bytes {
    if recs == [] then [] else recs[|recs| - 1].input.tsWall
  }

  function LastTsMono(recs: seq<Rec>): nat {
    if recs == [] then 0 else recs[|recs| - 1].input.tsMonoDelta
  }

  /** The state of a segment with records `recs` after the segments `before`. */
  function SegStateOf(c: Crypto, before: PLog, recs: seq<Rec>): SegState {
    var ps := SegPayloads(c, Final(c, before), recs);
    SegState(|before|, |SegmentFile(c, before, ps)|, HeadAfter(c, Final(c, before), ps), |recs|, |recs|,
             LastTsWall(recs), LastTsMono(recs))
  }

  /** The writer state a history stands for. */
  function StateOf(c: Crypto, h: History): SegState
    requires h != []
  {
    SegStateOf(c, LogPayloads(c, h[..|h| - 1]), LastSegment(h))
  }

  predicate Represents(c: Crypto, ws: WState, h: History) {
    h != [] && ws == WState(DirOfHistory(c, h), StateOf(c, h))
  }

  // ---- steps ----

  /** One more record in the current segment. */
  function Extend(h: LiveHistory, r: Rec): (h': LiveHistory)
    ensures |h'| == |h|
  {
    h[..|h| - 1] + [LastSegment(h) + [r]]
  }

  function OpenNext(h: History): LiveHistory { h + [[]] }

  /** The finalize record the writer appends to `h`. */
  function FinalizeOf(c: Crypto, session: SessionId, h: LiveHistory): Rec {
    var s := StateOf(c, h);
    Rec(FinalizeInput(s.lastTsWall, s.lastTsMonoDelta, s.recordCount, s.lastHmac), session)
  }

  predicate RollsOver(c: Crypto, cfg: WriterConfig, session: SessionId, h: LiveHistory, input: RecordInput) {
    MustRoll(c, cfg, session, StateOf(c, h), input)
  }

  /** The histories `append` passes through: finalize, open, record. */
  function AppendSteps(c: Crypto, cfg: WriterConfig, session: SessionId, h: LiveHistory, input: RecordInput)
      : (steps: seq<LiveHistory>)
    ensures steps != []
  {
    if RollsOver(c, cfg, session, h, input) then
      var h1 := Extend(h, FinalizeOf(c, session, h));
      [h1, OpenNext(h1), Extend(OpenNext(h1), Rec(input, session))]
    else [Extend(h, Rec(input, session))]
  }

  function AppendHistory(c: Crypto, cfg: WriterConfig, session: SessionId, h: LiveHistory, input: RecordInput)
      : LiveHistory
  {
    var steps := AppendSteps(c, cfg, session, h, input);
    steps[|steps| - 1]
  }

  // ---- the writer's state is the state of its history ----

  lemma LogPayloadsSnoc(c: Crypto, before: History, recs: seq<Rec>)
    ensures var pl := LogPayloads(c, before);
      LogPayloads(c, before + [recs]) == pl + [SegPayloads(c, Final(c, pl), recs)]
  {
    assert (before + [recs])[..|before|] == before;
  }

  lemma SegPayloadsSnoc(c: Crypto, start: Digest, recs: seq<Rec>, r: Rec)
    ensures var ps := SegPayloads(c, start, recs);
      SegPayloads(c, start, recs + [r]) == ps + [PayloadOf(c, r, HeadAfter(c, start, ps), |recs|)]
  {
    assert (recs + [r])[..|recs|] == recs;
  }

  lemma DirOfSnoc(c: Crypto, pl: PLog, ps: seq<bytes>)
    ensures DirOf(Files(c, pl + [ps])) == DirOf(Files(c, pl)) + [SegFile(|pl|, SegmentFile(c, pl, ps))]
  {
    FinalOfSegment(c, pl, ps);
    var fs := Files(c, pl) + [SegmentFile(c, pl, ps)];
    assert fs[..|pl|] == Files(c, pl);
  }

  /** The directory of a history, last file apart. */
  lemma DirSplit(c: Crypto, h: History)
    requires h != []
    ensures var before := LogPayloads(c, h[..|h| - 1]);
      DirOfHistory(c, h) == DirOfHistory(c, h[..|h| - 1])
        + [SegFile(|h| - 1, SegmentFile(c, before, SegPayloads(c, Final(c, before), LastSegment(h))))]
  {
    var before := LogPayloads(c, h[..|h| - 1]);
    DirOfSnoc(c, before, SegPayloads(c, Final(c, before), LastSegment(h)));
  }

  /** Writing a record takes the state of `h` to the state of `h` extended. */
  lemma RecordStep(c: Crypto, session: SessionId, ws: WState, h: History, input: RecordInput)
    requires Represents(c, ws, h)
    ensures Represents(c, AfterRecord(c, session, ws, input), Extend(h, Rec(input, session)))
  {
    hide RecordBytes, Frame, SegmentFile, DirOfHistory, SegPayloads, LogPayloads, Final;
    var r, h' := Rec(input, session), Extend(h, Rec(input, session));
    var init, recs := h[..|h| - 1], LastSegment(h);
    var before := LogPayloads(c, init);
    var start := Final(c, before);
    var ps := SegPayloads(c, start, recs);
    var p := PayloadOf(c, r, HeadAfter(c, start, ps), |recs|);
    var ws' := AfterRecord(c, session, ws, input);
    assert h'[..|h'| - 1] == init && LastSegment(h') == recs + [r];
    DirSplit(c, h);
    DirSplit(c, h');
    SegPayloadsSnoc(c, start, recs, r);
    FrameAppended(c, before, ps, p);
    assert ws' == AfterFrame(c, ws, p, input.tsWall, input.tsMonoDelta);
    assert ws'.seg == StateOf(c, h');
    assert ws'.dir == DirOfHistory(c, h');
  }

  lemma FinalOfHistory(c: Crypto, h: History)
    requires h != []
    ensures Final(c, LogPayloads(c, h)) == StateOf(c, h).lastHmac
  {
    var before := LogPayloads(c, h[..|h| - 1]);
    FinalOfSegment(c, before, SegPayloads(c, Final(c, before), LastSegment(h)));
  }

  lemma OpenStep(c: Crypto, ws: WState, h: History)
    requires Represents(c, ws, h)
    ensures Represents(c, AfterOpenNext(c, ws), OpenNext(h))
  {
    hide SegPayloads, LogPayloads, Final;
    var h' := OpenNext(h);
    assert h'[..|h'| - 1] == h;
    DirSplit(c, h');
    FinalOfHistory(c, h);
    var pl := LogPayloads(c, h);
    EmptySegment(c, pl);
    assert LastSegment(h') == [];
    assert AfterOpenNext(c, ws).seg == StateOf(c, h');
    assert AfterOpenNext(c, ws).dir == DirOfHistory(c, h');
  }

  lemma EmptySegment(c: Crypto, pl: PLog)
    ensures SegPayloads(c, Final(c, pl), []) == []
    ensures SegmentFile(c, pl, []) == HeaderAfter(c, pl).ToBytes(c) && |SegmentFile(c, pl, [])| == HEADER_LEN
    ensures HeadAfter(c, Final(c, pl), []) == Final(c, pl)
  {
    assert SegmentFile(c, pl, []) == HeaderAfter(c, pl).ToBytes(c) + [];
  }

  /** `append` takes the state of a history to the state of the history it
      makes, through the same finalize and open steps. */
  lemma AppendStep(c: Crypto, cfg: WriterConfig, session: SessionId, ws: WState, h: History, input: RecordInput)
    requires Represents(c, ws, h) && !Overflows(c, cfg, session, ws, input)
    ensures Represents(c, AfterAppend(c, cfg, session, ws, input), AppendHistory(c, cfg, session, h, input))
  {
    hide StateOf, DirOfHistory, AfterRecord, AfterOpenNext, MustRoll;
    assert RollsOver(c, cfg, session, h, input) == MustRoll(c, cfg, session, ws.seg, input);
    if MustRoll(c, cfg, session, ws.seg, input) {
      var fin := FinalizeOf(c, session, h);
      RecordStep(c, session, ws, h, fin.input);
      var ws1, h1 := AfterFinalize(c, session, ws), Extend(h, fin);
      OpenStep(c, ws1, h1);
      RecordStep(c, session, AfterOpenNext(c, ws1), OpenNext(h1), input);
    } else {
      RecordStep(c, session, ws, h, input);
    }
  }

  /** A new log: segment 0 with only its header. */
  lemma FreshRepresents(c: Crypto)
    ensures var (file, seg) := FreshSegment(c, 0, ZERO_DIGEST, GenesisStart(c));
      Represents(c, WState([file], seg), [[]])
  {
    var h: History := [[]];
    assert h[..0] == [];
    DirSplit(c, h);
    EmptySegment(c, []);
    assert LogPayloads(c, []) == [] && LastSegment(h) == [];
    var (file, seg) := FreshSegment(c, 0, ZERO_DIGEST, GenesisStart(c));
    assert seg == StateOf(c, h);
    assert [file] == DirOfHistory(c, h);
  }

  // ---- prefixes ----

  lemma {:induction false} SegPayloadsPrefix(c: Crypto, start: Digest, recs: seq<Rec>, k: nat)
    requires k <= |recs|
    ensures SegPayloads(c, start, recs[..k]) == SegPayloads(c, start, recs)[..k]
    decreases |recs|
  {
    hide RecordBytes;
    if k == |recs| {
      assert recs[..k] == recs;
    } else {
      var n := |recs| - 1;
      SegPayloadsPrefix(c, start, recs[..n], k);
      assert recs[..n][..k] == recs[..k];
      assert SegPayloads(c, start, recs)[..k] == SegPayloads(c, start, recs[..n])[..k];
    }
  }

  /** The `k`th payload of a segment is its record, linked to the tag before. */
  lemma PayloadAt(c: Crypto, start: Digest, recs: seq<Rec>, k: nat)
    requires k < |recs|
    ensures var ps := SegPayloads(c, start, recs);
      ps[k] == PayloadOf(c, recs[k], HeadAfter(c, start, ps[..k]), k)
  {
    hide RecordBytes;
    var ps := SegPayloads(c, start, recs);
    SegPayloadsPrefix(c, start, recs, k + 1);
    SegPayloadsPrefix(c, start, recs, k);
    assert recs[..k + 1] == recs[..k] + [recs[k]];
    SegPayloadsSnoc(c, start, recs[..k], recs[k]);
    assert ps[k] == ps[..k + 1][k];
  }

  lemma {:induction false} LogPayloadsPrefix(c: Crypto, h: History, i: nat)
    requires i <= |h|
    ensures LogPayloads(c, h[..i]) == LogPayloads(c, h)[..i]
    decreases |h|
  {
    hide SegPayloads, Final;
    if i == |h| {
      assert h[..i] == h;
    } else {
      LogPayloadsPrefix(c, h[..|h| - 1], i);
      assert h[..|h| - 1][..i] == h[..i];
      assert LogPayloads(c, h)[..i] == LogPayloads(c, h[..|h| - 1])[..i];
    }
  }

  /** The payloads of segment `i` continue the chain of the segments before. */
  lemma SegmentPayloadsAt(c: Crypto, h: History, i: nat)
    requires i < |h|
    ensures var pl := LogPayloads(c, h);
      pl[i] == SegPayloads(c, Final(c, pl[..i]), h[i])
  {
    hide SegPayloads, Final;
    var pl := LogPayloads(c, h);
    LogPayloadsPrefix(c, h, i + 1);
    LogPayloadsPrefix(c, h, i);
    assert h[..i + 1] == h[..i] + [h[i]];
    LogPayloadsSnoc(c, h[..i], h[i]);
    assert pl[i] == pl[..i + 1][i];
  }
}
