/** Writer and reader together: single bytes reach the disk, calls of
    `next_record` fall anywhere between them, and processes are killed. */
module HmacLive {
  import opened Bytes
  import opened Cbor
  import opened Record
  import opened Segment
  import opened HmacLog
  import opened HmacWriter
  import opened HmacHistory
  import opened HmacWritten
  import opened HmacRecovery
  import opened HmacCrash
  import opened HmacReachable
  import opened HmacEveryRun
  import opened HmacReader
  import opened HmacReading

  // ---- the system ----

  /** `Begin` calls `append`; `Byte` makes one more byte of it visible; `Call`
      is one call of `next_record`; `Kill` ends the writer where it is, leaving
      every visible byte, and another session reopens the directory. */
  datatype Move = Begin(input: RecordInput) | Byte | Call | Kill(next: SessionId)

  /** A writer, the append it is in, the state that append is writing, and how
      many bytes of that state's last file are visible; a reader, and what it
      has yielded. */
  datatype Live = Live(m: Machine, pending: Option<RecordInput>, step: nat, keep: nat, cursor: Cursor,
      yielded: seq<ReadRecord>)

  function LastData(dir: seq<SegFile>): bytes
    requires dir != []
  {
    dir[|dir| - 1].data
  }

  predicate Shape(c: Crypto, cfg: WriterConfig, s: Live) {
    && s.m.ws.dir != []
    && (s.pending.Some? ==> s.step < |AppendStates(c, cfg, s.m.session, s.m.ws, s.pending.value)|)
    && Target(c, cfg, s).dir != [] && s.keep <= |LastData(Target(c, cfg, s).dir)|
  }

  /** The state being written, or the one at rest. */
  function Target(c: Crypto, cfg: WriterConfig, s: Live): WState
    requires s.m.ws.dir != []
    requires s.pending.Some? ==> s.step < |AppendStates(c, cfg, s.m.session, s.m.ws, s.pending.value)|
  {
    if s.pending.None? then s.m.ws else AppendStates(c, cfg, s.m.session, s.m.ws, s.pending.value)[s.step]
  }

  /** What is visible. */
  function OnDisk(c: Crypto, cfg: WriterConfig, s: Live): seq<SegFile>
    requires Shape(c, cfg, s)
  {
    CutLast(Target(c, cfg, s).dir, s.keep)
  }

  predicate AtRest(s: Live) { s.pending.None? && s.m.ws.dir != [] && s.keep == |LastData(s.m.ws.dir)| }

  function AfterByte(c: Crypto, cfg: WriterConfig, s: Live): Live
    requires Shape(c, cfg, s)
  {
    var target := Target(c, cfg, s);
    if s.keep < |LastData(target.dir)| then s.(keep := s.keep + 1)
    else if s.pending.None? then s
    else
      var states := AppendStates(c, cfg, s.m.session, s.m.ws, s.pending.value);
      if s.step + 1 == |states| then s.(m := s.m.(ws := target), pending := None, step := 0)
      else s.(step := s.step + 1, keep := if |states[s.step + 1].dir| > |target.dir| then 0 else s.keep)
  }

  function AfterCall(c: Crypto, cfg: WriterConfig, s: Live): Option<Live>
    requires Shape(c, cfg, s)
  {
    var disk := Datas(OnDisk(c, cfg, s));
    if !s.cursor.On(disk) then None
    else
      var r := NextStep(c, disk, s.cursor);
      Some(s.(cursor := r.cursor, yielded := s.yielded + if r.output.Yield? then [r.output.record] else []))
  }

  /** Reopening truncates the last file at once; the header of a next segment
      is then written byte by byte. */
  function AfterKill(c: Crypto, cfg: WriterConfig, s: Live, next: SessionId): Option<Live>
    requires Shape(c, cfg, s)
  {
    var dir := OnDisk(c, cfg, s);
    var r := Open(c, dir);
    if r.Err? || r.value.ws.dir == [] then None
    else
      var ws := r.value.ws;
      Some(Live(Machine(ws, next), None, 0, if |ws.dir| > |dir| then 0 else |LastData(ws.dir)|, s.cursor, s.yielded))
  }

  function AfterMove(c: Crypto, cfg: WriterConfig, s: Live, move: Move): Option<Live>
    requires Shape(c, cfg, s)
  {
    match move
    case Begin(input) => Some(if AtRest(s) && Accepted(input) then s.(pending := Some(input), step := 0) else s)
    case Byte => Some(AfterByte(c, cfg, s))
    case Call => AfterCall(c, cfg, s)
    case Kill(next) => AfterKill(c, cfg, s, next)
  }

  function LiveRun(c: Crypto, cfg: WriterConfig, s: Live, moves: seq<Move>): Option<Live>
    decreases |moves|
  {
    if moves == [] then Some(s)
    else if !Shape(c, cfg, s) then None
    else
      var s' := AfterMove(c, cfg, s, moves[0]);
      if s'.None? then None else LiveRun(c, cfg, s'.value, moves[1..])
  }

  /** The first segment's file exists; nothing of its header is visible. */
  function LiveStart(c: Crypto, session: SessionId): Live { Live(Start(c, session), None, 0, 0, START, []) }

  // ---- histories ----

  /** The history of the state being written. */
  function Now(c: Crypto, cfg: WriterConfig, s: Live, h: LiveHistory): LiveHistory {
    hide *;
    if s.pending.None? then h
    else
      var steps := StepHistories(c, cfg, s.m.session, h, s.pending.value);
      if s.step < |steps| then steps[s.step] else h
  }

  /** The writer's history after a move. */
  function HistoryAfter(c: Crypto, cfg: WriterConfig, s: Live, h: LiveHistory, move: Move): LiveHistory
    requires Shape(c, cfg, s)
  {
    match move
    case Byte => if s.pending.Some? && AfterByte(c, cfg, s).pending.None? then Now(c, cfg, s, h) else h
    case Kill(_) => if s.keep < HEADER_LEN then h else Recovered(c, Now(c, cfg, s, h), s.keep)
    case _ => h
  }

  /** What callers owe, and that a kill falls after the last file's header. */
  predicate MoveOk(c: Crypto, cfg: WriterConfig, s: Live, h: LiveHistory, move: Move) {
    match move
    case Begin(input) => AtRest(s) && Accepted(input) ==> InputOk(c, h, input) && Room(h)
    case Kill(_) => HEADER_LEN <= s.keep && Room(h)
    case _ => true
  }

  predicate MovesOk(c: Crypto, cfg: WriterConfig, s: Live, h: LiveHistory, moves: seq<Move>)
    decreases |moves|
  {
    moves == [] || (
      && Shape(c, cfg, s) && MoveOk(c, cfg, s, h, moves[0])
      && var s' := AfterMove(c, cfg, s, moves[0]);
         s'.Some? ==> MovesOk(c, cfg, s'.value, HistoryAfter(c, cfg, s, h, moves[0]), moves[1..]))
  }

  function LiveHistoryOf(c: Crypto, cfg: WriterConfig, s: Live, h: LiveHistory, moves: seq<Move>): LiveHistory
    decreases |moves|
  {
    if moves == [] || !Shape(c, cfg, s) then h
    else
      var s' := AfterMove(c, cfg, s, moves[0]);
      if s'.None? then h else LiveHistoryOf(c, cfg, s'.value, HistoryAfter(c, cfg, s, h, moves[0]), moves[1..])
  }

  // ---- one history continues another ----

  predicate Continues(h: History, h': History) {
    && h != [] && |h| <= |h'|
    && (forall i :: 0 <= i < |h| - 1 ==> h'[i] == h[i])
    && LastSegment(h) <= h'[|h| - 1]
  }

  lemma ContinuesAt(h: History, h': History, i: nat)
    requires Continues(h, h') && i < |h|
    ensures |h| <= |h'| && h'[..i] == h[..i] && h[i] <= h'[i] && (i < |h| - 1 ==> h'[i] == h[i])
  {
  }

  lemma PayloadsContinue(c: Crypto, h: History, h': History, i: nat, k: nat)
    requires Continues(h, h') && i < |h| && k <= |h[i]|
    ensures k <= |h'[i]| && LogPayloads(c, h)[..i] == LogPayloads(c, h')[..i]
    ensures PayloadsAt(c, h, i)[..k] == PayloadsAt(c, h', i)[..k]
    ensures k < |h[i]| ==> h[i][k] == h'[i][k]
  {
    hide SegPayloads, LogPayloads, Final, Continues;
    ContinuesAt(h, h', i);
    LogPayloadsPrefix(c, h, i);
    LogPayloadsPrefix(c, h', i);
    SegmentPayloadsAt(c, h, i);
    SegmentPayloadsAt(c, h', i);
    var start := Final(c, LogPayloads(c, h)[..i]);
    SegPayloadsPrefix(c, start, h[i], k);
    SegPayloadsPrefix(c, start, h'[i], k);
    assert h[i][..k] == h'[i][..k];
  }

  lemma SameRecordAt(c: Crypto, h: History, h': History, i: nat, k: nat)
    requires Continues(h, h') && i < |h| && k <= |h[i]|
    ensures k <= |h'[i]| && OffsetAt(c, h, i, k) == OffsetAt(c, h', i, k)
    ensures k < |h[i]| ==> RecordAt(c, h, i, k) == RecordAt(c, h', i, k)
  {
    hide LogPayloads, Final, Continues, PayloadsAt, Frames, RecordBytes;
    PayloadsContinue(c, h, h', i, k);
  }

  /** What is ahead in the longer history: what was ahead, then the rest. */
  lemma {:induction false} AheadContinues(c: Crypto, h: LiveHistory, h': LiveHistory, i: nat, k: nat)
    requires Continues(h, h') && i < |h| && k <= |h[i]|
    ensures k <= |h'[i]| && Ahead(c, h', i, k) == Ahead(c, h, i, k) + Ahead(c, h', |h| - 1, |LastSegment(h)|)
    decreases |h| - i, |h[i]| - k
  {
    hide RecordAt, Continues;
    ContinuesAt(h, h', i);
    ContinuesAt(h, h', |h| - 1);
    if k < |h[i]| {
      SameRecordAt(c, h, h', i, k);
      AheadContinues(c, h, h', i, k + 1);
    } else if i + 1 < |h| {
      AheadContinues(c, h, h', i + 1, 0);
    }
  }

  // ---- what the reader has done ----

  /** The reader stands before record `k` of segment `i`, has yielded all
      before it, and that is visible. */
  predicate ReaderAt(c: Crypto, t: LiveHistory, keep: nat, cursor: Cursor, yielded: seq<ReadRecord>, i: nat, k: nat) {
    && Stands(c, t, cursor, i, k)
    && yielded + Ahead(c, t, i, k) == Appended(c, t)
    && (i == |t| - 1 && k > 0 ==> OffsetAt(c, t, i, k) <= keep)
  }

  lemma Cancel<T>(a: seq<T>, b: seq<T>, x: seq<T>)
    requires a + x == b + x
    ensures a == b
  {
    assert (a + x)[..|a|] == a && (b + x)[..|b|] == b;
  }

  lemma StandsContinue(c: Crypto, h: LiveHistory, h': LiveHistory, cursor: Cursor, i: nat, k: nat)
    requires Continues(h, h') && i < |h| && k <= |h[i]|
    ensures Stands(c, h, cursor, i, k) <==> Stands(c, h', cursor, i, k)
  {
    hide OffsetAt, RecordAt, Continues;
    ContinuesAt(h, h', i);
    SameRecordAt(c, h, h', i, k);
  }

  /** The log grows under the reader. */
  lemma ReaderGrows(c: Crypto, t: LiveHistory, t': LiveHistory, keep: nat, keep': nat, cursor: Cursor,
      yielded: seq<ReadRecord>, i: nat, k: nat)
    requires Continues(t, t') && ReaderAt(c, t, keep, cursor, yielded, i, k)
    requires |t'| > |t| || keep <= keep'
    ensures ReaderAt(c, t', keep', cursor, yielded, i, k)
  {
    hide OffsetAt, Continues, Ahead;
    FirstIndex(t, t');
    ContinuesAt(t, t', i);
    SameRecordAt(c, t, t', i, k);
    StandsContinue(c, t, t', cursor, i, k);
    AheadContinues(c, t, t', i, k);
    AheadContinues(c, t, t', 0, 0);
    ContinuesAt(t, t', |t| - 1);
    assert yielded + Ahead(c, t', i, k) == (yielded + Ahead(c, t, i, k)) + Ahead(c, t', |t| - 1, |LastSegment(t)|);
  }

  lemma FirstIndex(t: LiveHistory, t': LiveHistory)
    requires Continues(t, t')
    ensures |t| <= |t'|
  {
  }

  /** Records the reader has passed are among those kept. */
  lemma {:induction false} PassedIsComplete(c: Crypto, ps: seq<bytes>, k: nat, m: nat)
    requires k <= |ps| && |Frames(c, ps[..k])| <= m
    ensures k <= Complete(ps, m)
  {
    if k > 0 {
      assert ps[..k][0] == ps[0] && ps[..k][1..] == ps[1..][..k - 1];
      PassedIsComplete(c, ps[1..], k - 1, m - |ps[0]| - FRAMING);
    }
  }

  lemma PassedIsKept(c: Crypto, t: LiveHistory, keep: nat, k: nat)
    requires HEADER_LEN <= keep && k <= |LastSegment(t)|
    requires k > 0 ==> OffsetAt(c, t, |t| - 1, k) <= keep
    ensures k <= Kept(c, t, keep)
  {
    hide SegPayloads, LogPayloads, Frames, Complete, Final;
    if k > 0 {
      SegmentPayloadsAt(c, t, |t| - 1);
      LogPayloadsPrefix(c, t, |t| - 1);
      PassedIsComplete(c, LastPayloads(c, t), k, keep - HEADER_LEN);
    }
  }

  lemma TruncContinues(t: LiveHistory, k: nat)
    requires k <= |LastSegment(t)|
    ensures Continues(Trunc(t, k), t) && |Trunc(t, k)| == |t|
    ensures forall i :: 0 <= i < |t| - 1 ==> Trunc(t, k)[i] == t[i]
    ensures Trunc(t, k)[|t| - 1] == LastSegment(t)[..k]
  {
  }

  /** The log loses its unfinished end under the reader. */
  lemma ReaderShrinks(c: Crypto, t: LiveHistory, keep: nat, keep': nat, cursor: Cursor, yielded: seq<ReadRecord>,
      i: nat, k: nat)
    requires ReaderAt(c, t, keep, cursor, yielded, i, k) && HEADER_LEN <= keep
    requires var t0 := Trunc(t, Kept(c, t, keep)); keep' >= |FilesOf(c, t0)[|t| - 1]|
    ensures ReaderAt(c, Trunc(t, Kept(c, t, keep)), keep', cursor, yielded, i, k)
  {
    hide OffsetAt, Continues, Ahead, Kept, FilesOf, Trunc;
    var kept := Kept(c, t, keep);
    var t0 := Trunc(t, kept);
    TruncContinues(t, kept);
    if i == |t| - 1 {
      PassedIsKept(c, t, keep, k);
    }
    SameRecordAt(c, t0, t, i, k);
    StandsContinue(c, t0, t, cursor, i, k);
    AheadContinues(c, t0, t, i, k);
    AheadContinues(c, t0, t, 0, 0);
    var rest := Ahead(c, t, |t| - 1, |LastSegment(t0)|);
    assert yielded + Ahead(c, t0, i, k) + rest == yielded + (Ahead(c, t0, i, k) + rest);
    Cancel(yielded + Ahead(c, t0, i, k), Appended(c, t0), rest);
    OffsetInFile(c, t0, i, k);
  }

  // ---- each move ----

  /** The writer stands for `h`, on its way to `Now`. */
  predicate WriterAt(c: Crypto, cfg: WriterConfig, s: Live, h: LiveHistory) {
    && Represents(c, s.m.ws, h) && s.m.ws.dir != [] && Inv(c, h) && |h| <= MAX_SEGMENTS
    && (s.pending.Some? ==>
          && InputOk(c, h, s.pending.value) && Room(h) && Accepted(s.pending.value)
          && s.step < |StepHistories(c, cfg, s.m.session, h, s.pending.value)|)
    && s.keep <= |LastFile(c, Now(c, cfg, s, h))|
  }

  lemma NowIs(c: Crypto, cfg: WriterConfig, s: Live, h: LiveHistory)
    requires WriterAt(c, cfg, s, h)
    ensures s.pending.Some?
      ==> |AppendStates(c, cfg, s.m.session, s.m.ws, s.pending.value)|
          == |StepHistories(c, cfg, s.m.session, h, s.pending.value)|
    ensures Shape(c, cfg, s) && Represents(c, Target(c, cfg, s), Now(c, cfg, s, h))
    ensures |LastData(Target(c, cfg, s).dir)| == |LastFile(c, Now(c, cfg, s, h))|
    ensures OnDisk(c, cfg, s) == CutDir(c, Now(c, cfg, s, h), s.keep)
    ensures Midway(c, s.m.session, h, Now(c, cfg, s, h)) && |h| <= |Now(c, cfg, s, h)| <= |h| + 1
    ensures |Target(c, cfg, s).dir| == |Now(c, cfg, s, h)|
  {
    hide Inv, InputOk, Represents, StepHistories, AppendStates, LastFile, CutDir, CutLast, Accepted, Room;
    var t := Now(c, cfg, s, h);
    if s.pending.Some? {
      StatesRepresent(c, cfg, s.m.session, s.m.ws, h, s.pending.value, s.step);
      StepMidway(c, cfg, s.m.session, h, s.pending.value, s.step);
      StepsGrow(c, cfg, s.m.session, h, s.pending.value);
    }
    CutOfState(c, Target(c, cfg, s), t, s.keep);
    DirNonEmpty(c, Target(c, cfg, s), t);
  }

  /** The disk shows part of the log being written. */
  lemma DiskShows(c: Crypto, t: LiveHistory, keep: nat)
    requires keep <= |LastFile(c, t)|
    ensures var d, full := Datas(CutDir(c, t, keep)), FilesOf(c, t);
      Shows(d, full) && |d| == |t| && |d[|t| - 1]| == keep && (keep == |LastFile(c, t)| ==> d == full)
  {
    hide SegPayloads, LogPayloads, SegmentFile, Final, LastFile;
    var full, last := FilesOf(c, t), LastFile(c, t);
    LastFileIs(c, t);
    DirSplit(c, t);
    DataOfDir(full);
    var dir, cut := DirOfHistory(c, t), CutDir(c, t, keep);
    assert Datas(dir) == full;
    CutShows(dir, cut, full, last, keep);
  }

  lemma CutShows(dir: seq<SegFile>, cut: seq<SegFile>, full: Disk, last: bytes, keep: nat)
    requires dir != [] && Datas(dir) == full && full[|full| - 1] == last && keep <= |last|
    requires |cut| == |dir| && cut[..|dir| - 1] == dir[..|dir| - 1] && cut[|dir| - 1].data == last[..keep]
    ensures var d := Datas(cut);
      Shows(d, full) && |d| == |full| && |d[|d| - 1]| == keep && (keep == |last| ==> d == full)
  {
    var d := Datas(cut);
    forall i | 0 <= i < |dir| - 1 ensures d[i] == full[i] {
      assert cut[i] == cut[..|dir| - 1][i] && dir[i] == dir[..|dir| - 1][i];
    }
    assert keep == |last| ==> last[..keep] == last;
  }

  lemma NowReadable(c: Crypto, cfg: WriterConfig, s: Live, h: LiveHistory)
    requires WriterAt(c, cfg, s, h)
    ensures Readable(c, Now(c, cfg, s, h))
  {
    hide Inv, InputOk, Represents, StepHistories, LastFile, Accepted, Midway, Base, LogShort, LogWf;
    NowIs(c, cfg, s, h);
    var t := Now(c, cfg, s, h);
    if s.pending.Some? {
      RoomLeft(h);
      MidwayBase(c, s.m.session, h, t);
    } else {
      InvBase(c, h);
    }
    BaseReadable(c, t);
  }

  lemma RoomLeft(h: LiveHistory)
    requires Room(h)
    ensures |h| < MAX_SEGMENTS && |LastSegment(h)| + 1 < U64_END
  {
  }

  lemma InvBase(c: Crypto, h: LiveHistory)
    requires Inv(c, h)
    ensures Base(c, h)
  {
  }

  lemma BaseReadable(c: Crypto, t: LiveHistory)
    requires Base(c, t) && |t| <= MAX_SEGMENTS
    ensures Readable(c, t)
  {
    hide LogPayloads, SegWf, LogTsOk, TsWf, Drift;
    forall i | 0 <= i < |t| ensures AllShort(LogPayloads(c, t)[i], NO_CAP) {
      assert AllShort(LogPayloads(c, t)[i], RECOVERY_CAP);
    }
  }

  lemma CallMove(c: Crypto, cfg: WriterConfig, s: Live, h: LiveHistory, i: nat, k: nat) returns (i': nat, k': nat)
    requires WriterAt(c, cfg, s, h) && ReaderAt(c, Now(c, cfg, s, h), s.keep, s.cursor, s.yielded, i, k)
    ensures Shape(c, cfg, s)
    ensures var r := AfterCall(c, cfg, s);
      && r.Some? && r.value.m == s.m && r.value.pending == s.pending && r.value.step == s.step && r.value.keep == s.keep
      && ReaderAt(c, Now(c, cfg, s, h), s.keep, r.value.cursor, r.value.yielded, i', k')
  {
    hide WriterAt, Shape, OnDisk, Now, OffsetAt, Ahead, FilesOf, Readable, NextStep, Datas, CutDir, Midway, Shows,
        Target, Represents, LastFile;
    NowIs(c, cfg, s, h);
    NowReadable(c, cfg, s, h);
    var t, disk := Now(c, cfg, s, h), Datas(OnDisk(c, cfg, s));
    KeepFits(c, cfg, s, h);
    DiskShows(c, t, s.keep);
    i', k' := CallKeeps(c, t, disk, s.cursor, i, k);
    var step := NextStep(c, disk, s.cursor);
    if step.output.Yield? {
      assert s.yielded + Ahead(c, t, i, k) == s.yielded + [step.output.record] + Ahead(c, t, i', k');
    } else {
      assert s.yielded + [] == s.yielded;
    }
  }

  lemma KeepFits(c: Crypto, cfg: WriterConfig, s: Live, h: LiveHistory)
    requires WriterAt(c, cfg, s, h)
    ensures s.keep <= |LastFile(c, Now(c, cfg, s, h))|
  {
    hide LastFile, Now, Represents, Inv, InputOk;
  }

  lemma ExtendContinues(h: LiveHistory, r: Rec)
    ensures Continues(h, Extend(h, r))
  {
  }

  lemma OpenContinues(h: LiveHistory)
    ensures Continues(h, OpenNext(h))
  {
  }

  /** From one write of an append to the next. */
  lemma StepContinues(c: Crypto, cfg: WriterConfig, session: SessionId, h: LiveHistory, input: RecordInput, j: nat)
    requires j + 1 < |StepHistories(c, cfg, session, h, input)|
    ensures var steps := StepHistories(c, cfg, session, h, input); Continues(steps[j], steps[j + 1])
  {
    hide Continues, Extend, OpenNext, FinalizeOf, RollsOver;
    if RollsOver(c, cfg, session, h, input) {
      var h1 := Extend(h, FinalizeOf(c, session, h));
      ExtendContinues(h, FinalizeOf(c, session, h));
      OpenContinues(h1);
      ExtendContinues(OpenNext(h1), Rec(input, session));
    } else {
      ExtendContinues(h, Rec(input, session));
    }
  }

  /** The same on files: the last one grows, or one more is added. */
  lemma StatesGrow(c: Crypto, cfg: WriterConfig, session: SessionId, ws: WState, input: RecordInput, j: nat)
    requires ws.dir != [] && j + 1 < |AppendStates(c, cfg, session, ws, input)|
    ensures var states := AppendStates(c, cfg, session, ws, input);
      GrowsTo(states[j].dir, states[j + 1].dir)
  {
    hide RecordBytes, MustRoll, FinalizeInput, GrowsTo, Frame;
    if MustRoll(c, cfg, session, ws.seg, input) {
      var ws1 := AfterFinalize(c, session, ws);
      var ws2 := AfterOpenNext(c, ws1);
      RecordGrows(c, session, ws, FinalizeInput(ws.seg.lastTsWall, ws.seg.lastTsMonoDelta, ws.seg.recordCount,
          ws.seg.lastHmac));
      OpenGrows(c, ws1);
      RecordGrows(c, session, ws2, input);
    } else {
      RecordGrows(c, session, ws, input);
    }
  }

  predicate GrowsTo(d: seq<SegFile>, d': seq<SegFile>) {
    && d != [] && |d| <= |d'| <= |d| + 1
    && (forall i :: 0 <= i < |d| - 1 ==> d'[i] == d[i])
    && (if |d'| == |d| then LastData(d) <= LastData(d') else d'[|d| - 1] == d[|d| - 1])
  }

  lemma RecordGrows(c: Crypto, session: SessionId, ws: WState, input: RecordInput)
    requires ws.dir != []
    ensures GrowsTo(ws.dir, AfterRecord(c, session, ws, input).dir)
  {
    hide RecordBytes, Frame;
  }

  lemma OpenGrows(c: Crypto, ws: WState)
    requires ws.dir != []
    ensures GrowsTo(ws.dir, AfterOpenNext(c, ws).dir)
  {
  }

  lemma ByteMove(c: Crypto, cfg: WriterConfig, s: Live, h: LiveHistory, i: nat, k: nat)
    requires WriterAt(c, cfg, s, h) && ReaderAt(c, Now(c, cfg, s, h), s.keep, s.cursor, s.yielded, i, k)
    ensures Shape(c, cfg, s)
    ensures var s', h' := AfterByte(c, cfg, s), HistoryAfter(c, cfg, s, h, Byte);
      WriterAt(c, cfg, s', h') && ReaderAt(c, Now(c, cfg, s', h'), s'.keep, s'.cursor, s'.yielded, i, k)
  {
    hide Inv, InputOk, Represents, StepHistories, AppendStates, LastFile, OffsetAt, Ahead, Accepted, Room, Midway,
        CutDir, CutLast, Continues;
    NowIs(c, cfg, s, h);
    if s.keep >= |LastData(Target(c, cfg, s).dir)| && s.pending.Some? {
      if s.step + 1 == |AppendStates(c, cfg, s.m.session, s.m.ws, s.pending.value)| {
        LastStep(c, cfg, s, h);
      } else {
        NextWrite(c, cfg, s, h, i, k);
      }
    }
  }

  lemma LastStep(c: Crypto, cfg: WriterConfig, s: Live, h: LiveHistory)
    requires WriterAt(c, cfg, s, h) && s.pending.Some?
    requires s.step + 1 == |StepHistories(c, cfg, s.m.session, h, s.pending.value)|
    ensures var t := Now(c, cfg, s, h); Inv(c, t) && |t| <= MAX_SEGMENTS
  {
    hide Inv, InputOk, Represents, LastFile, Accepted, RollsOver, FinalizeOf, Extend, OpenNext;
    AppendKeeps(c, cfg, s.m.session, h, s.pending.value);
    StepsGrow(c, cfg, s.m.session, h, s.pending.value);
    var steps := AppendSteps(c, cfg, s.m.session, h, s.pending.value);
    assert StepHistories(c, cfg, s.m.session, h, s.pending.value)[s.step] == steps[|steps| - 1];
  }

  lemma NextWrite(c: Crypto, cfg: WriterConfig, s: Live, h: LiveHistory, i: nat, k: nat)
    requires WriterAt(c, cfg, s, h) && ReaderAt(c, Now(c, cfg, s, h), s.keep, s.cursor, s.yielded, i, k)
    requires s.pending.Some? && s.step + 1 < |StepHistories(c, cfg, s.m.session, h, s.pending.value)|
    requires Shape(c, cfg, s) && s.keep == |LastData(Target(c, cfg, s).dir)|
    requires s.step + 1 < |AppendStates(c, cfg, s.m.session, s.m.ws, s.pending.value)|
    ensures var s' := AfterByte(c, cfg, s);
      WriterAt(c, cfg, s', h) && ReaderAt(c, Now(c, cfg, s', h), s'.keep, s'.cursor, s'.yielded, i, k)
  {
    hide Inv, InputOk, StepHistories, AppendStates, LastFile, ReaderAt, Accepted, Room, CutDir, Continues, StateOf,
        DirOfHistory;
    var input, session := s.pending.value, s.m.session;
    var states, steps := AppendStates(c, cfg, session, s.m.ws, input), StepHistories(c, cfg, session, h, input);
    StatesRepresent(c, cfg, session, s.m.ws, h, input, s.step);
    StatesRepresent(c, cfg, session, s.m.ws, h, input, s.step + 1);
    StepContinues(c, cfg, session, h, input, s.step);
    StatesGrow(c, cfg, session, s.m.ws, input, s.step);
    var s' := AfterByte(c, cfg, s);
    CutOfState(c, states[s.step + 1], steps[s.step + 1], 0);
    ReaderGrows(c, steps[s.step], steps[s.step + 1], s.keep, s'.keep, s.cursor, s.yielded, i, k);
  }

  lemma KillMove(c: Crypto, cfg: WriterConfig, s: Live, h: LiveHistory, next: SessionId, i: nat, k: nat)
    requires WriterAt(c, cfg, s, h) && ReaderAt(c, Now(c, cfg, s, h), s.keep, s.cursor, s.yielded, i, k)
    requires HEADER_LEN <= s.keep && Room(h)
    ensures Shape(c, cfg, s)
    ensures var r, h' := AfterKill(c, cfg, s, next), Recovered(c, Now(c, cfg, s, h), s.keep);
      r.Some? && WriterAt(c, cfg, r.value, h') && ReaderAt(c, Now(c, cfg, r.value, h'), r.value.keep, r.value.cursor,
          r.value.yielded, i, k)
  {
    hide *;
    NowIs(c, cfg, s, h);
    KeepFits(c, cfg, s, h);
    var t := Now(c, cfg, s, h);
    WriterInv(c, cfg, s, h);
    RoomLeft(h);
    MidwayBase(c, s.m.session, h, t);
    SegmentsFit();
    RecoverableState(c, t);
    RecoverySimulates(c, t, s.keep);
    CrashKeeps(c, s.m.session, h, t, s.keep);
    RecoveredGrows(c, s.m.session, h, t, s.keep);
    Reopens(c, cfg, s, t, next);
    var h', live := Recovered(c, t, s.keep), AfterKill(c, cfg, s, next).value;
    AtRestAgain(c, cfg, live, h');
    ReaderRecovers(c, t, s.keep, live.keep, s.cursor, s.yielded, i, k);
  }

  lemma SegmentsFit()
    ensures MAX_SEGMENTS + 1 < INDEX_END
  {
  }

  lemma WriterInv(c: Crypto, cfg: WriterConfig, s: Live, h: LiveHistory)
    requires WriterAt(c, cfg, s, h)
    ensures Inv(c, h)
  {
    hide LastFile, Now, Represents, Inv, InputOk;
  }

  lemma AtRestAgain(c: Crypto, cfg: WriterConfig, s: Live, h: LiveHistory)
    requires s.pending.None? && s.m.ws.dir != [] && Represents(c, s.m.ws, h) && Inv(c, h) && |h| <= MAX_SEGMENTS
        && s.keep <= |LastFile(c, h)|
    ensures WriterAt(c, cfg, s, h) && Now(c, cfg, s, h) == h
  {
    hide Represents, Inv, LastFile, InputOk;
  }

  lemma Reopens(c: Crypto, cfg: WriterConfig, s: Live, t: LiveHistory, next: SessionId)
    requires Shape(c, cfg, s) && HEADER_LEN <= s.keep <= |LastFile(c, t)| && OnDisk(c, cfg, s) == CutDir(c, t, s.keep)
    requires var r := Open(c, CutDir(c, t, s.keep)); r.Ok? && Represents(c, r.value.ws, Recovered(c, t, s.keep))
    ensures var r, h' := AfterKill(c, cfg, s, next), Recovered(c, t, s.keep);
      && r.Some? && r.value.pending.None? && r.value.m.ws.dir != [] && Represents(c, r.value.m.ws, h')
          && r.value.keep <= |LastFile(c, h')|
      && r.value.cursor == s.cursor && r.value.yielded == s.yielded
      && (|h'| == |t| ==> r.value.keep == |LastFile(c, h')|)
  {
    hide Shape, OnDisk, LastFile, Recovered, Open, Represents, DirOfHistory;
    var ws := Open(c, CutDir(c, t, s.keep)).value.ws;
    var h' := Recovered(c, t, s.keep);
    DirNonEmpty(c, ws, h');
    CutOfState(c, ws, h', 0);
    assert |CutDir(c, t, s.keep)| == |t|;
  }

  lemma ReaderRecovers(c: Crypto, t: LiveHistory, keep: nat, keep': nat, cursor: Cursor, yielded: seq<ReadRecord>,
      i: nat, k: nat)
    requires ReaderAt(c, t, keep, cursor, yielded, i, k) && HEADER_LEN <= keep
    requires var h' := Recovered(c, t, keep); |h'| == |t| ==> keep' == |LastFile(c, h')|
    ensures ReaderAt(c, Recovered(c, t, keep), keep', cursor, yielded, i, k)
  {
    hide ReaderAt, Kept, LastFile, EndsFinalized, FilesOf, Trunc, Continues;
    var t0, h' := Trunc(t, Kept(c, t, keep)), Recovered(c, t, keep);
    LastFileIs(c, t0);
    ReaderShrinks(c, t, keep, |LastFile(c, t0)|, cursor, yielded, i, k);
    if h' != t0 {
      OpenContinues(t0);
      ReaderGrows(c, t0, h', |LastFile(c, t0)|, keep', cursor, yielded, i, k);
    }
  }

  lemma LastFileIs(c: Crypto, t: LiveHistory)
    ensures LastFile(c, t) == FilesOf(c, t)[|t| - 1]
  {
    hide SegPayloads, LogPayloads, Final, SegmentFile;
    DirSplit(c, t);
    assert DirOfHistory(c, t)[|t| - 1].data == FilesOf(c, t)[|t| - 1];
  }

  /** Every move keeps writer and reader in step. */
  lemma MoveKeeps(c: Crypto, cfg: WriterConfig, s: Live, h: LiveHistory, move: Move, i: nat, k: nat)
      returns (i': nat, k': nat)
    requires WriterAt(c, cfg, s, h) && ReaderAt(c, Now(c, cfg, s, h), s.keep, s.cursor, s.yielded, i, k)
    requires MoveOk(c, cfg, s, h, move)
    ensures Shape(c, cfg, s)
    ensures var r, h' := AfterMove(c, cfg, s, move), HistoryAfter(c, cfg, s, h, move);
      && r.Some? && WriterAt(c, cfg, r.value, h')
      && ReaderAt(c, Now(c, cfg, r.value, h'), r.value.keep, r.value.cursor, r.value.yielded, i', k')
  {
    hide WriterAt, ReaderAt, Shape, AfterByte, AfterCall, AfterKill, Now, Recovered, Room, InputOk, Accepted, AtRest;
    NowIs(c, cfg, s, h);
    i', k' := i, k;
    match move
    case Begin(input) =>
      if AtRest(s) && Accepted(input) {
        BeginMove(c, cfg, s, h, input);
      }
    case Byte => ByteMove(c, cfg, s, h, i, k);
    case Call =>
      i', k' := CallMove(c, cfg, s, h, i, k);
      SameWriter(c, cfg, s, AfterCall(c, cfg, s).value, h);
    case Kill(next) => KillMove(c, cfg, s, h, next, i, k);
  }

  lemma BeginMove(c: Crypto, cfg: WriterConfig, s: Live, h: LiveHistory, input: RecordInput)
    requires WriterAt(c, cfg, s, h) && AtRest(s) && Accepted(input) && InputOk(c, h, input) && Room(h)
    ensures var s' := s.(pending := Some(input), step := 0);
      WriterAt(c, cfg, s', h) && Now(c, cfg, s', h) == Now(c, cfg, s, h)
  {
    hide Represents, Inv, InputOk, Accepted, Room, LastFile, AppendSteps;
  }

  lemma SameWriter(c: Crypto, cfg: WriterConfig, s: Live, s': Live, h: LiveHistory)
    requires WriterAt(c, cfg, s, h) && s'.m == s.m && s'.pending == s.pending && s'.step == s.step && s'.keep == s.keep
    ensures WriterAt(c, cfg, s', h) && Now(c, cfg, s', h) == Now(c, cfg, s, h)
  {
    hide Represents, Inv, InputOk, Accepted, Room, LastFile, StepHistories;
  }

  lemma {:induction false} LiveKeeps(c: Crypto, cfg: WriterConfig, s: Live, h: LiveHistory, moves: seq<Move>, i: nat,
      k: nat) returns (i': nat, k': nat)
    requires WriterAt(c, cfg, s, h) && ReaderAt(c, Now(c, cfg, s, h), s.keep, s.cursor, s.yielded, i, k)
    requires MovesOk(c, cfg, s, h, moves)
    ensures var r, h' := LiveRun(c, cfg, s, moves), LiveHistoryOf(c, cfg, s, h, moves);
      && r.Some? && WriterAt(c, cfg, r.value, h')
      && ReaderAt(c, Now(c, cfg, r.value, h'), r.value.keep, r.value.cursor, r.value.yielded, i', k')
    decreases |moves|
  {
    hide WriterAt, ReaderAt, Shape, AfterMove, HistoryAfter, MoveOk, Now;
    i', k' := i, k;
    if moves != [] {
      i', k' := MoveKeeps(c, cfg, s, h, moves[0], i, k);
      i', k' := LiveKeeps(c, cfg, AfterMove(c, cfg, s, moves[0]).value, HistoryAfter(c, cfg, s, h, moves[0]),
          moves[1..], i', k');
    }
  }

  /** A call never sees more than was appended, in order and without gaps,
      however bytes, calls and kills interleave; and once the writer rests,
      enough further calls yield all of it. */
  lemma ReaderFollowsWriter(c: Crypto, cfg: WriterConfig, session: SessionId, moves: seq<Move>, n: nat)
    requires MovesOk(c, cfg, LiveStart(c, session), [[]], moves)
    ensures var r, h := LiveRun(c, cfg, LiveStart(c, session), moves),
        LiveHistoryOf(c, cfg, LiveStart(c, session), [[]], moves);
      && r.Some? && r.value.yielded <= Appended(c, Now(c, cfg, r.value, h))
      && (AtRest(r.value) ==>
            && Represents(c, r.value.m.ws, h)
            && var full := Datas(r.value.m.ws.dir);
               && r.value.cursor.On(full)
               && (n >= |Appended(c, h)|
                 ==> r.value.yielded + Yielded(c, Repeat(full, n), r.value.cursor) == Appended(c, h)))
  {
    hide WriterAt, Represents, Now, LiveRun, LiveHistoryOf, MovesOk, Stands, Ahead, Yielded, Repeat, Datas, FilesOf,
        AtRest;
    var s := LiveStart(c, session);
    LiveStarts(c, cfg, session);
    var i, k := LiveKeeps(c, cfg, s, [[]], moves, 0, 0);
    var r, h := LiveRun(c, cfg, s, moves).value, LiveHistoryOf(c, cfg, s, [[]], moves);
    if AtRest(r) {
      Resting(c, cfg, r, h);
      StandsOn(c, h, r.cursor, i, k);
      if n >= |Appended(c, h)| {
        DrainsFrom(c, h, r.cursor, i, k, n);
      }
    }
  }

  lemma StandsOn(c: Crypto, h: LiveHistory, cursor: Cursor, i: nat, k: nat)
    requires Stands(c, h, cursor, i, k)
    ensures cursor.On(FilesOf(c, h))
  {
    hide OffsetAt, FilesOf;
  }

  lemma Resting(c: Crypto, cfg: WriterConfig, s: Live, h: LiveHistory)
    requires WriterAt(c, cfg, s, h) && AtRest(s)
    ensures Now(c, cfg, s, h) == h && Represents(c, s.m.ws, h) && Readable(c, h) && Datas(s.m.ws.dir) == FilesOf(c, h)
  {
    hide Represents, Inv, InputOk, Readable, FilesOf, Datas, LastFile;
    NowReadable(c, cfg, s, h);
    DiskOfState(c, s.m.ws, h);
  }

  lemma LiveStarts(c: Crypto, cfg: WriterConfig, session: SessionId)
    ensures var s := LiveStart(c, session);
      WriterAt(c, cfg, s, [[]]) && ReaderAt(c, Now(c, cfg, s, [[]]), s.keep, s.cursor, s.yielded, 0, 0)
  {
    hide Represents, Inv, LastFile, InputOk, Ahead, FreshLog;
    StartRepresents(c, session);
    StartInv(c);
    assert [] + Appended(c, [[]]) == Appended(c, [[]]);
  }

  // ---- without kills the disk only grows ----

  /** Until a writer is killed, no visible byte changes: each move adds to the
      last file or adds a file. */
  lemma MoveShows(c: Crypto, cfg: WriterConfig, s: Live, move: Move)
    requires Shape(c, cfg, s) && !move.Kill?
    ensures var r := AfterMove(c, cfg, s, move);
      r.Some? ==> Shape(c, cfg, r.value) && Shows(Datas(OnDisk(c, cfg, s)), Datas(OnDisk(c, cfg, r.value)))
  {
    hide AppendStates, NextStep, Accepted, AfterByte, Shows, Datas, CutLast;
    ShowsItself(Datas(OnDisk(c, cfg, s)));
    if move.Byte? {
      ByteShows(c, cfg, s);
    }
  }

  lemma ByteShows(c: Crypto, cfg: WriterConfig, s: Live)
    requires Shape(c, cfg, s)
    ensures var s' := AfterByte(c, cfg, s);
      Shape(c, cfg, s') && Shows(Datas(OnDisk(c, cfg, s)), Datas(OnDisk(c, cfg, s')))
  {
    hide AppendStates, Shows, Datas, CutLast;
    var s', dir := AfterByte(c, cfg, s), Target(c, cfg, s).dir;
    if s.keep >= |LastData(dir)| && s.pending.Some?
        && s.step + 1 < |AppendStates(c, cfg, s.m.session, s.m.ws, s.pending.value)| {
      StatesGrow(c, cfg, s.m.session, s.m.ws, s.pending.value, s.step);
      WriteShows(dir, Target(c, cfg, s').dir, s'.keep);
    } else {
      CutsShow(dir, s.keep, s'.keep);
    }
  }

  lemma CutsShow(dir: seq<SegFile>, keep: nat, keep': nat)
    requires dir != [] && keep <= keep' <= |LastData(dir)|
    ensures Shows(Datas(CutLast(dir, keep)), Datas(CutLast(dir, keep')))
  {
  }

  lemma WriteShows(dir: seq<SegFile>, dir': seq<SegFile>, keep': nat)
    requires GrowsTo(dir, dir') && keep' == if |dir'| > |dir| then 0 else |LastData(dir)|
    ensures keep' <= |LastData(dir')| && Shows(Datas(CutLast(dir, |LastData(dir)|)), Datas(CutLast(dir', keep')))
  {
  }

  /** The disks that the calls of a run see. */
  function Seen(c: Crypto, cfg: WriterConfig, s: Live, moves: seq<Move>): seq<Disk>
    decreases |moves|
  {
    if moves == [] || !Shape(c, cfg, s) then []
    else
      var s' := AfterMove(c, cfg, s, moves[0]);
      (if moves[0].Call? then [Datas(OnDisk(c, cfg, s))] else [])
      + if s'.None? then [] else Seen(c, cfg, s'.value, moves[1..])
  }

  /** So the disks a reader meets in a run without kills are growing ones. */
  lemma {:induction false} SeenGrow(c: Crypto, cfg: WriterConfig, s: Live, moves: seq<Move>)
    requires Shape(c, cfg, s) && LiveRun(c, cfg, s, moves).Some? && forall j :: 0 <= j < |moves| ==> !moves[j].Kill?
    ensures var end, seen := LiveRun(c, cfg, s, moves).value, Seen(c, cfg, s, moves);
      && Shape(c, cfg, end) && Growing(seen, Datas(OnDisk(c, cfg, end)))
      && Shows(Datas(OnDisk(c, cfg, s)), if seen == [] then Datas(OnDisk(c, cfg, end)) else seen[0])
    decreases |moves|
  {
    hide Shape, OnDisk, Datas, AfterMove, Shows;
    var d := Datas(OnDisk(c, cfg, s));
    ShowsItself(d);
    if moves != [] {
      var s' := AfterMove(c, cfg, s, moves[0]).value;
      MoveShows(c, cfg, s, moves[0]);
      SeenGrow(c, cfg, s', moves[1..]);
      var end, later := LiveRun(c, cfg, s, moves).value, Seen(c, cfg, s', moves[1..]);
      ShowsTransitive(d, Datas(OnDisk(c, cfg, s')), if later == [] then Datas(OnDisk(c, cfg, end)) else later[0]);
      if moves[0].Call? {
        assert Seen(c, cfg, s, moves) == [d] + later;
      } else {
        assert [] + later == later;
      }
    }
  }
}
