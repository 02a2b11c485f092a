/** The end-to-end statement for format 0x0001: whatever a caller appends,
    wherever the process is killed, the log it leaves verifies. */
module HmacEveryRun {
  import opened Bytes
  import opened Cbor
  import opened Record
  import opened Segment
  import opened HmacLog
  import opened HmacVerifier
  import opened HmacWriter
  import opened HmacHistory
  import opened HmacWritten
  import opened HmacRecovery
  import opened HmacCrash
  import opened HmacRuns
  import opened HmacReachable

  /** What happens to a log. A crash while `input` is being appended falls
      after `step` of the writes that append makes, and leaves `keep` bytes of
      the last file; a new session then reopens the directory. */
  datatype Event = Append(input: RecordInput) | Crash(input: RecordInput, step: nat, keep: nat, next: SessionId)

  datatype Machine = Machine(ws: WState, session: SessionId)

  // ---- what the program does ----

  /** The states one append passes through, first to last. */
  function AppendStates(c: Crypto, cfg: WriterConfig, session: SessionId, ws: WState, input: RecordInput)
      : (states: seq<WState>)
    requires ws.dir != []
    ensures |states| >= 2 && states[0] == ws
  {
    if MustRoll(c, cfg, session, ws.seg, input) then
      var ws1 := AfterFinalize(c, session, ws);
      var ws2 := AfterOpenNext(c, ws1);
      [ws, ws1, ws2, AfterRecord(c, session, ws2, input)]
    else [ws, AfterRecord(c, session, ws, input)]
  }

  function CutLast(dir: seq<SegFile>, keep: nat): seq<SegFile>
    requires dir != [] && keep <= |dir[|dir| - 1].data|
  {
    dir[|dir| - 1 := SegFile(dir[|dir| - 1].index, dir[|dir| - 1].data[..keep])]
  }

  /** The files a crash leaves, if it can fall there. */
  function Wreck(c: Crypto, cfg: WriterConfig, m: Machine, e: Event): Option<seq<SegFile>>
    requires m.ws.dir != [] && e.Crash?
  {
    var states := AppendStates(c, cfg, m.session, m.ws, e.input);
    if e.step >= |states| || states[e.step].dir == [] then None
    else
      var dir := states[e.step].dir;
      if e.keep > |dir[|dir| - 1].data| then None else Some(CutLast(dir, e.keep))
  }

  /** One event; nothing when the reopening fails. */
  function Next(c: Crypto, cfg: WriterConfig, m: Machine, e: Event): Option<Machine>
    requires m.ws.dir != []
  {
    match e
    case Append(input) =>
      if !Accepted(input) then Some(m) else Some(m.(ws := AfterAppend(c, cfg, m.session, m.ws, input)))
    case Crash(_, _, _, next) =>
      var left := Wreck(c, cfg, m, e);
      if left.None? then None
      else
        var r := Open(c, left.value);
        if r.Err? then None else Some(Machine(r.value.ws, next))
  }

  function Run(c: Crypto, cfg: WriterConfig, m: Machine, events: seq<Event>): Option<Machine>
    decreases |events|
  {
    if events == [] then Some(m)
    else if m.ws.dir == [] then None
    else
      var m' := Next(c, cfg, m, events[0]);
      if m'.None? then None else Run(c, cfg, m'.value, events[1..])
  }

  function Start(c: Crypto, session: SessionId): Machine { Machine(FreshLog(c).ws, session) }

  // ---- what callers and crashes owe ----

  function StepHistories(c: Crypto, cfg: WriterConfig, session: SessionId, h: LiveHistory, input: RecordInput)
      : (steps: seq<LiveHistory>)
    ensures |steps| >= 2 && steps[0] == h
  {
    [h] + AppendSteps(c, cfg, session, h, input)
  }

  /** The crash keeps the header of the last file. */
  predicate CutOk(c: Crypto, t: LiveHistory, keep: nat) { HEADER_LEN <= keep <= |LastFile(c, t)| }

  /** The event is within the model's hypotheses, in history `h`. */
  predicate EventOk(c: Crypto, cfg: WriterConfig, session: SessionId, h: LiveHistory, e: Event) {
    match e
    case Append(input) => Accepted(input) ==> InputOk(c, h, input) && Room(h)
    case Crash(input, step, keep, _) =>
      var steps := StepHistories(c, cfg, session, h, input);
      InputOk(c, h, input) && Room(h) && step < |steps| && CutOk(c, steps[step], keep)
  }

  function NextHistory(c: Crypto, cfg: WriterConfig, session: SessionId, h: LiveHistory, e: Event): LiveHistory
    requires EventOk(c, cfg, session, h, e)
  {
    match e
    case Append(input) => if Accepted(input) then AppendHistory(c, cfg, session, h, input) else h
    case Crash(input, step, keep, _) => Recovered(c, StepHistories(c, cfg, session, h, input)[step], keep)
  }

  function NextSession(session: SessionId, e: Event): SessionId { if e.Crash? then e.next else session }

  predicate EventsOk(c: Crypto, cfg: WriterConfig, session: SessionId, h: LiveHistory, events: seq<Event>)
    decreases |events|
  {
    events == [] || (
      && EventOk(c, cfg, session, h, events[0])
      && EventsOk(c, cfg, NextSession(session, events[0]), NextHistory(c, cfg, session, h, events[0]), events[1..]))
  }

  function RunHistory(c: Crypto, cfg: WriterConfig, session: SessionId, h: LiveHistory, events: seq<Event>): LiveHistory
    requires EventsOk(c, cfg, session, h, events)
    decreases |events|
  {
    if events == [] then h
    else RunHistory(c, cfg, NextSession(session, events[0]), NextHistory(c, cfg, session, h, events[0]), events[1..])
  }

  // ---- each step ----

  lemma DirNonEmpty(c: Crypto, ws: WState, h: History)
    requires Represents(c, ws, h)
    ensures ws.dir != [] && |ws.dir| == |h|
  {
  }

  lemma IndexOfState(c: Crypto, ws: WState, h: History)
    requires Represents(c, ws, h)
    ensures ws.seg.index == |h| - 1
  {
    hide SegPayloads, LogPayloads;
  }

  /** Every state of an append represents the history of the same step. */
  lemma StatesRepresent(c: Crypto, cfg: WriterConfig, session: SessionId, ws: WState, h: History, input: RecordInput,
      i: nat)
    requires Represents(c, ws, h) && ws.dir != []
    requires i < |StepHistories(c, cfg, session, h, input)|
    ensures |AppendStates(c, cfg, session, ws, input)| == |StepHistories(c, cfg, session, h, input)|
    ensures Represents(c, AppendStates(c, cfg, session, ws, input)[i], StepHistories(c, cfg, session, h, input)[i])
  {
    hide StateOf, DirOfHistory, AfterRecord, AfterOpenNext, MustRoll;
    if MustRoll(c, cfg, session, ws.seg, input) {
      var fin := FinalizeOf(c, session, h);
      RecordStep(c, session, ws, h, fin.input);
      var ws1, h1 := AfterFinalize(c, session, ws), Extend(h, fin);
      OpenStep(c, ws1, h1);
      RecordStep(c, session, AfterOpenNext(c, ws1), OpenNext(h1), input);
    } else {
      RecordStep(c, session, ws, h, input);
    }
  }

  /** Cutting the last file of a represented directory. */
  lemma CutOfState(c: Crypto, ws: WState, h: History, keep: nat)
    requires Represents(c, ws, h)
    ensures ws.dir != [] && |ws.dir[|ws.dir| - 1].data| == |LastFile(c, h)|
    ensures keep <= |LastFile(c, h)| ==> CutLast(ws.dir, keep) == CutDir(c, h, keep)
  {
    hide SegPayloads, LogPayloads, SegmentFile, DirOfHistory;
    DirSplit(c, h);
  }

  lemma RecoverableState(c: Crypto, t: LiveHistory)
    requires Base(c, t) && |t| < INDEX_END
    ensures Recoverable(c, t)
  {
    hide SegPayloads, LogPayloads, SegWf, AllShort;
    SegmentPayloadsAt(c, t, |t| - 1);
    LogPayloadsPrefix(c, t, |t| - 1);
    assert AllShort(LogPayloads(c, t)[|t| - 1], RECOVERY_CAP);
  }

  lemma StepsGrow(c: Crypto, cfg: WriterConfig, session: SessionId, h: LiveHistory, input: RecordInput)
    ensures forall i ::
      0 <= i < |StepHistories(c, cfg, session, h, input)|
      ==> |h| <= |StepHistories(c, cfg, session, h, input)[i]| <= |h| + 1
    ensures |AppendHistory(c, cfg, session, h, input)| <= |h| + 1
  {
    hide Extend, RollsOver, FinalizeOf;
  }

  lemma MidwayBase(c: Crypto, session: SessionId, h: LiveHistory, t: LiveHistory)
    requires Inv(c, h) && |LastSegment(h)| + 1 < U64_END && Midway(c, session, h, t)
    ensures Base(c, t)
  {
    hide Base, NoFinalize, FinalizeOf, Extend;
    if !Inv(c, t) {
      RolloverKeeps(c, session, h);
    }
  }

  lemma StepMidway(c: Crypto, cfg: WriterConfig, session: SessionId, h: LiveHistory, input: RecordInput, i: nat)
    requires Inv(c, h) && InputOk(c, h, input) && Room(h) && i < |StepHistories(c, cfg, session, h, input)|
    ensures Midway(c, session, h, StepHistories(c, cfg, session, h, input)[i])
  {
    hide Inv, InputOk, AppendSteps, FinalizeOf, Extend;
    AppendKeeps(c, cfg, session, h, input);
    if i > 0 {
      assert StepHistories(c, cfg, session, h, input)[i] == AppendSteps(c, cfg, session, h, input)[i - 1];
    }
  }

  /** The wreck is the step's directory, cut. */
  lemma WreckIsCut(c: Crypto, cfg: WriterConfig, m: Machine, h: LiveHistory, e: Event, t: LiveHistory)
    requires Represents(c, m.ws, h) && m.ws.dir != [] && e.Crash?
    requires e.step < |StepHistories(c, cfg, m.session, h, e.input)|
        && t == StepHistories(c, cfg, m.session, h, e.input)[e.step]
    requires e.keep <= |LastFile(c, t)|
    ensures Wreck(c, cfg, m, e) == Some(CutDir(c, t, e.keep))
  {
    hide Represents, StepHistories, AppendStates, LastFile, CutDir, CutLast;
    StatesRepresent(c, cfg, m.session, m.ws, h, e.input, e.step);
    CutOfState(c, AppendStates(c, cfg, m.session, m.ws, e.input)[e.step], t, e.keep);
  }

  lemma CrashNext(c: Crypto, cfg: WriterConfig, m: Machine, h: LiveHistory, e: Event)
    requires Represents(c, m.ws, h) && m.ws.dir != [] && Inv(c, h) && |h| <= MAX_SEGMENTS && e.Crash?
    requires EventOk(c, cfg, m.session, h, e)
    ensures var r, h' := Next(c, cfg, m, e), NextHistory(c, cfg, m.session, h, e);
      && r.Some? && Represents(c, r.value.ws, h') && Inv(c, h') && r.value.session == NextSession(m.session, e)
      && |h'| <= MAX_SEGMENTS
  {
    hide Inv, InputOk, Represents, StepHistories, Wreck, Open, Recovered, Recoverable, LastFile, CutDir, Midway,
        StateOf, Trunc, Kept;
    var t := StepHistories(c, cfg, m.session, h, e.input)[e.step];
    StepsGrow(c, cfg, m.session, h, e.input);
    StepMidway(c, cfg, m.session, h, e.input, e.step);
    MidwayBase(c, m.session, h, t);
    RecoverableState(c, t);
    WreckIsCut(c, cfg, m, h, e, t);
    RecoverySimulates(c, t, e.keep);
    CrashKeeps(c, m.session, h, t, e.keep);
    RecoveredGrows(c, m.session, h, t, e.keep);
  }

  lemma RecoveredGrows(c: Crypto, session: SessionId, h: LiveHistory, t: LiveHistory, n: nat)
    requires HEADER_LEN <= n && Midway(c, session, h, t) && |t| <= |h| + 1
    ensures |Recovered(c, t, n)| <= |h| + 1
  {
    hide Kept, EndsFinalized, Base, NoFinalize, FinalizeOf;
    if Inv(c, t) {
      NoFinalizePrefix(LastSegment(t), Kept(c, t, n));
      assert LastSegment(Trunc(t, Kept(c, t, n))) == LastSegment(t)[..Kept(c, t, n)];
    }
  }

  lemma AppendNext(c: Crypto, cfg: WriterConfig, m: Machine, h: LiveHistory, e: Event)
    requires Represents(c, m.ws, h) && m.ws.dir != [] && Inv(c, h) && |h| <= MAX_SEGMENTS && e.Append?
    requires EventOk(c, cfg, m.session, h, e)
    ensures var r, h' := Next(c, cfg, m, e), NextHistory(c, cfg, m.session, h, e);
      && r.Some? && Represents(c, r.value.ws, h') && Inv(c, h') && r.value.session == NextSession(m.session, e)
      && |h'| <= MAX_SEGMENTS
  {
    hide Inv, InputOk, Represents, AfterAppend, AppendHistory, Accepted, MustRoll;
    if Accepted(e.input) {
      IndexOfState(c, m.ws, h);
      AppendStep(c, cfg, m.session, m.ws, h, e.input);
      AppendKeeps(c, cfg, m.session, h, e.input);
      StepsGrow(c, cfg, m.session, h, e.input);
    }
  }

  lemma NextKeeps(c: Crypto, cfg: WriterConfig, m: Machine, h: LiveHistory, e: Event)
    requires Represents(c, m.ws, h) && m.ws.dir != [] && Inv(c, h) && |h| <= MAX_SEGMENTS
    requires EventOk(c, cfg, m.session, h, e)
    ensures var r, h' := Next(c, cfg, m, e), NextHistory(c, cfg, m.session, h, e);
      && r.Some? && Represents(c, r.value.ws, h') && r.value.ws.dir != [] && Inv(c, h')
      && r.value.session == NextSession(m.session, e) && |h'| <= MAX_SEGMENTS
  {
    hide *;
    if e.Append? {
      AppendNext(c, cfg, m, h, e);
    } else {
      CrashNext(c, cfg, m, h, e);
    }
    DirNonEmpty(c, Next(c, cfg, m, e).value.ws, NextHistory(c, cfg, m.session, h, e));
  }

  lemma {:induction false} RunKeeps(c: Crypto, cfg: WriterConfig, m: Machine, h: LiveHistory, events: seq<Event>)
    requires Represents(c, m.ws, h) && m.ws.dir != [] && Inv(c, h) && |h| <= MAX_SEGMENTS
    requires EventsOk(c, cfg, m.session, h, events)
    ensures var r, h' := Run(c, cfg, m, events), RunHistory(c, cfg, m.session, h, events);
      r.Some? && Represents(c, r.value.ws, h') && Inv(c, h') && |h'| <= MAX_SEGMENTS
    decreases |events|
  {
    hide Represents, Inv, EventOk, Next, NextHistory, NextSession;
    if events != [] {
      var e := events[0];
      NextKeeps(c, cfg, m, h, e);
      RunKeeps(c, cfg, Next(c, cfg, m, e).value, NextHistory(c, cfg, m.session, h, e), events[1..]);
    }
  }

  // ---- crash and resume against an uninterrupted run ----

  /** Every input is within the hypotheses where the run has come to. */
  predicate InputsOk(c: Crypto, cfg: WriterConfig, session: SessionId, inputs: seq<RecordInput>) {
    inputs == [] || (
      var n := |inputs| - 1;
      var tr := Trace(c, cfg, session, inputs[..n]);
      var h := tr[|tr| - 1];
      InputsOk(c, cfg, session, inputs[..n]) && InputOk(c, h, inputs[n]) && Room(h))
  }

  predicate AllBase(c: Crypto, tr: seq<LiveHistory>) { forall t :: t in tr ==> Base(c, t) && |t| <= MAX_SEGMENTS }

  lemma TraceSnoc(c: Crypto, cfg: WriterConfig, session: SessionId, inputs: seq<RecordInput>)
    requires inputs != []
    ensures var n := |inputs| - 1;
      var init, tr := Trace(c, cfg, session, inputs[..n]), Trace(c, cfg, session, inputs);
      var h := init[|init| - 1];
      tr == init + AppendSteps(c, cfg, session, h, inputs[n])
          && tr[|tr| - 1] == AppendHistory(c, cfg, session, h, inputs[n])
  {
    hide AppendSteps;
  }

  lemma BothBase(c: Crypto, tr: seq<LiveHistory>, steps: seq<LiveHistory>)
    requires AllBase(c, tr) && AllBase(c, steps)
    ensures AllBase(c, tr + steps)
  {
    hide Base;
  }

  lemma {:induction false} TraceKeeps(c: Crypto, cfg: WriterConfig, session: SessionId, inputs: seq<RecordInput>)
    requires InputsOk(c, cfg, session, inputs)
    ensures var tr := Trace(c, cfg, session, inputs); AllBase(c, tr) && Inv(c, tr[|tr| - 1])
    ensures forall j :: 0 <= j < |inputs| ==> inputs[j].event != Finalized()
  {
    hide InputOk, Inv, AllBase, AppendSteps, Room, Finalized, Trace, AppendHistory;
    if inputs == [] {
      StartInv(c);
      StartBase(c);
      TraceStart(c, cfg, session);
    } else {
      var n := |inputs| - 1;
      var tr := Trace(c, cfg, session, inputs[..n]);
      var h := tr[|tr| - 1];
      TraceSnoc(c, cfg, session, inputs);
      TraceKeeps(c, cfg, session, inputs[..n]);
      StepsBase(c, cfg, session, h, inputs[n]);
      BothBase(c, tr, AppendSteps(c, cfg, session, h, inputs[n]));
      NotFinalized(c, h, inputs[n]);
      forall j | 0 <= j < |inputs| ensures inputs[j].event != Finalized() {
        assert j < n ==> inputs[..n][j] == inputs[j];
      }
    }
  }

  lemma TraceStart(c: Crypto, cfg: WriterConfig, session: SessionId)
    ensures Trace(c, cfg, session, []) == [[[]]]
  {
  }

  lemma NotFinalized(c: Crypto, h: LiveHistory, input: RecordInput)
    requires InputOk(c, h, input)
    ensures input.event != Finalized()
  {
  }

  lemma StartBase(c: Crypto)
    ensures AllBase(c, [[[]]])
  {
    hide Base, Inv;
    StartInv(c);
    InvIsBase(c, [[]]);
  }

  lemma InvIsBase(c: Crypto, h: LiveHistory)
    requires Inv(c, h)
    ensures Base(c, h)
  {
  }

  lemma StepsBase(c: Crypto, cfg: WriterConfig, session: SessionId, h: LiveHistory, input: RecordInput)
    requires Inv(c, h) && InputOk(c, h, input) && Room(h)
    ensures AllBase(c, AppendSteps(c, cfg, session, h, input)) && Inv(c, AppendHistory(c, cfg, session, h, input))
  {
    hide InputOk, Inv, Base, AppendSteps, Midway;
    var steps := AppendSteps(c, cfg, session, h, input);
    AppendKeeps(c, cfg, session, h, input);
    StepsGrow(c, cfg, session, h, input);
    forall t | t in steps ensures Base(c, t) && |t| <= MAX_SEGMENTS {
      var i :| 0 <= i < |steps| && steps[i] == t;
      assert StepHistories(c, cfg, session, h, input)[i + 1] == t;
      MidwayBase(c, session, h, t);
    }
  }

  lemma BaseOf(c: Crypto, tr: seq<LiveHistory>, i: nat)
    requires AllBase(c, tr) && i < |tr|
    ensures Base(c, tr[i]) && |tr[i]| <= MAX_SEGMENTS
  {
    hide Base;
  }

  lemma ReopensRecovered(c: Crypto, t: LiveHistory, n: nat)
    requires Base(c, t) && |t| <= MAX_SEGMENTS && CutOk(c, t, n)
    ensures HEADER_LEN <= n <= |LastFile(c, t)|
    ensures var r := Open(c, CutDir(c, t, n)); r.Ok? && Represents(c, r.value.ws, Recovered(c, t, n))
  {
    hide Base, Open, CutDir, Represents, Recovered, LastFile, Recoverable, Trunc, Kept, StateOf, LastSegment;
    RecoverableState(c, t);
    RecoverySimulates(c, t, n);
  }

  /** Opening `dir` gives the writer state of a history of the list. */
  predicate OpensInto(c: Crypto, dir: seq<SegFile>, tr: seq<LiveHistory>) {
    var r := Open(c, dir);
    r.Ok? && exists j :: 0 <= j < |tr| && Represents(c, r.value.ws, tr[j])
  }

  lemma OpensThere(c: Crypto, dir: seq<SegFile>, tr: seq<LiveHistory>, t: LiveHistory)
    requires Open(c, dir).Ok? && Represents(c, Open(c, dir).value.ws, t) && t in tr
    ensures OpensInto(c, dir, tr)
  {
    hide Open, Represents;
    var j :| 0 <= j < |tr| && tr[j] == t;
  }

  /** Crash and resume simulate an uninterrupted run: cut the directory of any
      state the run passes through at any byte past the last header, and
      reopening succeeds, in a state that the uninterrupted run passes through
      too. */
  lemma ReopenedIsPassed(c: Crypto, cfg: WriterConfig, session: SessionId, inputs: seq<RecordInput>, i: nat, n: nat)
    requires InputsOk(c, cfg, session, inputs) && i < |Trace(c, cfg, session, inputs)|
    requires CutOk(c, Trace(c, cfg, session, inputs)[i], n)
    ensures n <= |LastFile(c, Trace(c, cfg, session, inputs)[i])|
    ensures var tr := Trace(c, cfg, session, inputs); OpensInto(c, CutDir(c, tr[i], n), tr)
  {
    hide *;
    var tr := Trace(c, cfg, session, inputs);
    TraceKeeps(c, cfg, session, inputs);
    BaseOf(c, tr, i);
    ReopensRecovered(c, tr[i], n);
    RecoveredIsPassed(c, cfg, session, inputs, i, n);
    OpensThere(c, CutDir(c, tr[i], n), tr, Recovered(c, tr[i], n));
  }

  // ---- the theorem ----

  lemma StartInv(c: Crypto)
    ensures Inv(c, [[]])
  {
    hide SegPayloads;
    var h: LiveHistory := [[]];
    assert h[..0] == [];
    assert LogPayloads(c, []) == [];
    LogPayloadsSnoc(c, [], []);
    assert [] + [[]] == h;
    EmptySegment(c, []);
    EmptySegWf();
  }

  lemma InvWritten(c: Crypto, h: LiveHistory)
    requires Inv(c, h) && |h| <= MAX_SEGMENTS
    ensures Written(c, h)
  {
    hide LogPayloads, SegWf, LogTsOk;
    forall i | 0 <= i < |h| ensures AllShort(LogPayloads(c, h)[i], NO_CAP) {
      assert AllShort(LogPayloads(c, h)[i], RECOVERY_CAP);
    }
  }

  /** Every run verifies. From an empty directory, any sequence of appends
      and crashes, with any segment size and any number of rollovers, ends
      with a log that the verifier accepts: every frame inspected, the final
      tag the writer's, with no checkpoint or with any record's tag as the
      checkpoint. The writer never fails to reopen. */
  lemma EveryRunVerifies(c: Crypto, cfg: WriterConfig, session: SessionId, events: seq<Event>, cp: Option<Checkpoint>)
    requires EventsOk(c, cfg, session, [[]], events)
    requires TrueCheckpoint(c, cp, LogPayloads(c, RunHistory(c, cfg, session, [[]], events)))
    ensures var m, h := Run(c, cfg, Start(c, session), events), RunHistory(c, cfg, session, [[]], events);
      && m.Some? && Represents(c, m.value.ws, h)
      && Verify(c, cp, m.value.ws.dir)
         == Ok(Report(Verified, |m.value.ws.dir|, TotalRecords(h), Some(m.value.ws.seg.index),
             Some(m.value.ws.seg.lastHmac), None))
  {
    hide RunHistory, Run, EventsOk, Inv, Written, StateOf, DirOfHistory, Verify, TrueCheckpoint;
    var m, h := Start(c, session), RunHistory(c, cfg, session, [[]], events);
    FreshRepresents(c);
    DirNonEmpty(c, m.ws, [[]]);
    StartInv(c);
    RunKeeps(c, cfg, m, [[]], events);
    InvWritten(c, h);
    var end := Run(c, cfg, m, events).value;
    IndexOfState(c, end.ws, h);
    WrittenLogVerifies(c, cp, h);
  }
}
