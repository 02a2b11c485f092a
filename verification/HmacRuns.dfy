/** Whole runs of the writer: appends, rollovers and crashes in any order. */
module HmacRuns {
  import opened Bytes
  import opened Record
  import opened Segment
  import opened HmacWriter
  import opened HmacHistory
  import opened HmacCrash

  // ---- an uninterrupted run passes through every recovered state ----

  /** Every history an uninterrupted run over `inputs` passes through. */
  function Trace(c: Crypto, cfg: WriterConfig, session: SessionId, inputs: seq<RecordInput>): (tr: seq<LiveHistory>)
    ensures tr != []
  {
    if inputs == [] then [[[]]]
    else
      var tr := Trace(c, cfg, session, inputs[..|inputs| - 1]);
      tr + AppendSteps(c, cfg, session, tr[|tr| - 1], inputs[|inputs| - 1])
  }

  /** No history of the list loses records to a crash, or has a rollover cut
      short, without landing on another history of the list. */
  predicate CrashClosed(tr: seq<LiveHistory>) {
    && (forall t, k :: t in tr && 0 <= k <= |LastSegment(t)| ==> Trunc(t, k) in tr)
    && (forall t :: t in tr && EndsFinalized(LastSegment(t)) ==> OpenNext(t) in tr)
  }

  lemma TruncOfExtend(h: LiveHistory, r: Rec, k: nat)
    requires k <= |LastSegment(h)| + 1
    ensures Trunc(Extend(h, r), k) == if k == |LastSegment(h)| + 1 then Extend(h, r) else Trunc(h, k)
  {
    var h' := Extend(h, r);
    assert h'[..|h'| - 1] == h[..|h| - 1];
    assert LastSegment(h') == LastSegment(h) + [r];
    if k <= |LastSegment(h)| {
      assert LastSegment(h')[..k] == LastSegment(h)[..k];
    } else {
      assert LastSegment(h')[..k] == LastSegment(h');
      assert h' == h'[..|h'| - 1] + [LastSegment(h')];
    }
  }

  lemma TruncOfOpenNext(h: LiveHistory, k: nat)
    requires k <= |LastSegment(OpenNext(h))|
    ensures k == 0 && Trunc(OpenNext(h), k) == OpenNext(h)
  {
    assert OpenNext(h)[..|h|] == h;
  }

  /** One more step keeps the list closed, given what the step must provide. */
  lemma ClosedSnoc(tr: seq<LiveHistory>, t: LiveHistory)
    requires CrashClosed(tr)
    requires forall k :: 0 <= k <= |LastSegment(t)| ==> Trunc(t, k) in tr + [t]
    requires EndsFinalized(LastSegment(t)) ==> OpenNext(t) in tr + [t]
    ensures CrashClosed(tr + [t])
  {
    hide EndsFinalized;
  }

  lemma ExtendClosed(tr: seq<LiveHistory>, h: LiveHistory, r: Rec)
    requires CrashClosed(tr) && h in tr && r.input.event != Finalized()
    ensures CrashClosed(tr + [Extend(h, r)])
  {
    hide Finalized;
    var t := Extend(h, r);
    forall k | 0 <= k <= |LastSegment(t)| ensures Trunc(t, k) in tr + [t] {
      TruncOfExtend(h, r, k);
    }
    ClosedSnoc(tr, t);
  }

  /** The finalize step and the open step go together. */
  lemma RolloverClosed(tr: seq<LiveHistory>, h: LiveHistory, fin: Rec)
    requires CrashClosed(tr) && h in tr
    ensures var h1 := Extend(h, fin); CrashClosed(tr + [OpenNext(h1), h1])
    ensures var h1 := Extend(h, fin); CrashClosed(tr + [h1, OpenNext(h1)])
  {
    hide EndsFinalized;
    var h1 := Extend(h, fin);
    var h2 := OpenNext(h1);
    assert LastSegment(h2) == [];
    assert !EndsFinalized(LastSegment(h2)) by { NotFinalizedEmpty(); }
    forall k | 0 <= k <= |LastSegment(h2)| ensures Trunc(h2, k) in tr + [h2] {
      TruncOfOpenNext(h1, k);
    }
    ClosedSnoc(tr, h2);
    forall k | 0 <= k <= |LastSegment(h1)| ensures Trunc(h1, k) in tr + [h2] + [h1] {
      TruncOfExtend(h, fin, k);
    }
    ClosedSnoc(tr + [h2], h1);
    assert tr + [h2] + [h1] == tr + [h2, h1];
    ClosedPermutes(tr + [h2, h1], tr + [h1, h2]);
  }

  lemma NotFinalizedEmpty()
    ensures !EndsFinalized([])
  {
  }

  lemma ClosedPermutes(tr: seq<LiveHistory>, tr': seq<LiveHistory>)
    requires CrashClosed(tr) && forall t :: t in tr <==> t in tr'
    ensures CrashClosed(tr')
  {
    hide EndsFinalized;
  }

  lemma {:induction false} TraceClosed(c: Crypto, cfg: WriterConfig, session: SessionId, inputs: seq<RecordInput>)
    requires forall i :: 0 <= i < |inputs| ==> inputs[i].event != Finalized()
    ensures CrashClosed(Trace(c, cfg, session, inputs))
  {
    hide RollsOver, FinalizeOf, CrashClosed, Finalized, Extend;
    if inputs == [] {
      InitialClosed();
    } else {
      var n := |inputs| - 1;
      var tr := Trace(c, cfg, session, inputs[..n]);
      var h, r := tr[|tr| - 1], Rec(inputs[n], session);
      TraceClosed(c, cfg, session, inputs[..n]);
      if RollsOver(c, cfg, session, h, inputs[n]) {
        var h1 := Extend(h, FinalizeOf(c, session, h));
        var h2 := OpenNext(h1);
        RolloverClosed(tr, h, FinalizeOf(c, session, h));
        assert h2 in tr + [h1, h2];
        ExtendClosed(tr + [h1, h2], h2, r);
        assert tr + [h1, h2] + [Extend(h2, r)] == tr + [h1, h2, Extend(h2, r)];
      } else {
        ExtendClosed(tr, h, r);
      }
    }
  }

  lemma InitialClosed()
    ensures CrashClosed([[[]]])
  {
    hide EndsFinalized;
    var h: LiveHistory := [[]];
    NotFinalizedEmpty();
    assert Trunc(h, 0) == h;
  }

  /** Crash and resume simulate an uninterrupted run: wherever in a run the
      crash falls, and at whatever byte past the header it cuts, the recovered
      history is one the uninterrupted run passes through. */
  lemma RecoveredIsPassed(c: Crypto, cfg: WriterConfig, session: SessionId, inputs: seq<RecordInput>, i: nat, n: nat)
    requires forall j :: 0 <= j < |inputs| ==> inputs[j].event != Finalized()
    requires i < |Trace(c, cfg, session, inputs)|
    requires HEADER_LEN <= n <= |LastFile(c, Trace(c, cfg, session, inputs)[i])|
    ensures Recovered(c, Trace(c, cfg, session, inputs)[i], n) in Trace(c, cfg, session, inputs)
  {
    hide Trace, LastFile, Kept, EndsFinalized;
    var tr := Trace(c, cfg, session, inputs);
    TraceClosed(c, cfg, session, inputs);
    assert tr[i] in tr;
    var t := Trunc(tr[i], Kept(c, tr[i], n));
    assert t in tr;
  }
}
