/** A crash leaves a resumable log: whatever byte of the last segment it cut
    at, reopening keeps exactly the complete records and reaches the state
    the writer had when it had written those. */
module HmacCrash {
  import opened Bytes
  import opened Cbor
  import opened Record
  import opened Segment
  import opened HmacLog
  import opened HmacWriter
  import opened HmacHistory
  import opened HmacWritten
  import opened HmacRecovery

  /** Payloads recovery accepts. */
  predicate Recoverable(c: Crypto, h: History) {
    h != [] && |h| < INDEX_END && SegWf(LastSegment(h))
    && AllShort(LastPayloads(c, h), RECOVERY_CAP)
  }

  function Before(c: Crypto, h: History): PLog
    requires h != []
  {
    LogPayloads(c, h[..|h| - 1])
  }

  function LastPayloads(c: Crypto, h: History): (ps: seq<bytes>)
    requires h != []
    ensures |ps| == |LastSegment(h)|
  {
    SegPayloads(c, Final(c, Before(c, h)), LastSegment(h))
  }

  function LastFile(c: Crypto, h: History): bytes
    requires h != []
  {
    SegmentFile(c, Before(c, h), LastPayloads(c, h))
  }

  /** The directory after a crash that kept `n` bytes of the last file. */
  function CutDir(c: Crypto, h: History, n: nat): seq<SegFile>
    requires h != [] && n <= |LastFile(c, h)|
  {
    DirOfHistory(c, h[..|h| - 1]) + [SegFile(|h| - 1, LastFile(c, h)[..n])]
  }

  /** The history with only `k` records in its last segment. */
  function Trunc(h: History, k: nat): (h': History)
    requires h != [] && k <= |LastSegment(h)|
    ensures h' != [] && |h'| == |h|
  {
    h[..|h| - 1] + [LastSegment(h)[..k]]
  }

  /** How many of the frames of `ps` are complete in `m` bytes. */
  function Complete(ps: seq<bytes>, m: nat): (k: nat)
    ensures k <= |ps|
  {
    if ps == [] || |ps[0]| + FRAMING > m then 0 else 1 + Complete(ps[1..], m - |ps[0]| - FRAMING)
  }

  function Kept(c: Crypto, h: History, n: nat): (k: nat)
    requires h != [] && HEADER_LEN <= n
    ensures k <= |LastSegment(h)|
  {
    Complete(LastPayloads(c, h), n - HEADER_LEN)
  }

  predicate EndsFinalized(recs: seq<Rec>) { recs != [] && recs[|recs| - 1].input.event == Finalized() }

  /** The history of the reopened log: the complete records, and the next
      segment if the last of them is a finalize record. */
  function Recovered(c: Crypto, h: History, n: nat): (h': History)
    requires h != [] && HEADER_LEN <= n
    ensures h' != []
  {
    var t := Trunc(h, Kept(c, h, n));
    if EndsFinalized(LastSegment(t)) then OpenNext(t) else t
  }

  // ---- the scan over a written segment ----

  /** What the scan knows after `k` records. */
  function ScanAt(c: Crypto, start: Digest, recs: seq<Rec>, k: nat): Scan
    requires k <= |recs|
  {
    Scan(k, if k == 0 then None else Some(k - 1), HeadAfter(c, start, SegPayloads(c, start, recs)[..k]),
         LastTsWall(recs[..k]), LastTsMono(recs[..k]), EndsFinalized(recs[..k]))
  }

  lemma ScanStep(c: Crypto, start: Digest, recs: seq<Rec>, k: nat, offset: nat)
    requires k < |recs| && SegWf(recs)
    ensures var p := SegPayloads(c, start, recs)[k];
      ScanRecord(c, p, c.sign(p), offset, ScanAt(c, start, recs, k)) == Ok(ScanAt(c, start, recs, k + 1))
  {
    hide RecordBytes, RecordValue, Decode, ParseRecoveredRecord, SegPayloads, WfInput, Finalized;
    var ps, r := SegPayloads(c, start, recs), recs[k];
    var prev := HeadAfter(c, start, ps[..k]);
    PayloadAt(c, start, recs, k);
    RecordDecodes(c.keyId, r.input, r.session, prev, k);
    RecordReadsBack(c.keyId, r.input, r.session, prev, k);
    assert recs[..k + 1][k] == r;
    assert HeadAfter(c, start, ps[..k + 1]) == c.sign(ps[k]);
  }

  /** Bytes of the first `k` frames. */
  lemma FramesSplit(c: Crypto, ps: seq<bytes>, k: nat)
    requires k <= |ps|
    ensures Frames(c, ps) == Frames(c, ps[..k]) + Frames(c, ps[k..])
  {
    FramesAppend(c, ps[..k], ps[k..]);
    assert ps == ps[..k] + ps[k..];
  }

  /** Over a whole frame the scan moves on. */
  lemma ScanWhole(c: Crypto, start: Digest, recs: seq<Rec>, data: bytes, offset: nat, k: nat)
    requires k < |recs| && SegWf(recs) && offset < |data|
    requires var p := SegPayloads(c, start, recs)[k];
      ReadFrame(data, offset, RECOVERY_CAP) == Framed(p, c.sign(p), offset + |p| + FRAMING)
    ensures ScanFrom(c, data, offset, ScanAt(c, start, recs, k))
         == ScanFrom(c, data, offset + |SegPayloads(c, start, recs)[k]| + FRAMING, ScanAt(c, start, recs, k + 1))
  {
    hide SegPayloads, ScanRecord, ReadFrame, SegWf, ScanAt;
    ScanStep(c, start, recs, k, offset);
  }

  /** At the end, or at a torn frame, the scan stops. */
  lemma ScanStops(c: Crypto, data: bytes, offset: nat, s: Scan)
    requires offset <= |data| && (offset < |data| ==> ReadFrame(data, offset, RECOVERY_CAP).Torn?)
    ensures ScanFrom(c, data, offset, s) == Ok(ScanResult(s, offset, |data| - offset))
  {
    hide ReadFrame;
  }

  lemma NoneComplete(c: Crypto, ps: seq<bytes>)
    ensures ps[..0] == [] && Frames(c, ps[..0]) == [] && Complete(ps, 0) == 0
  {
  }

  /** The scan of a file cut anywhere past its header. */
  lemma {:induction false} ScanCut(c: Crypto, start: Digest, recs: seq<Rec>, data: bytes, offset: nat, k: nat)
    requires SegWf(recs) && k <= |recs| && offset <= |data|
    requires AllShort(SegPayloads(c, start, recs), RECOVERY_CAP)
    requires var rest := Frames(c, SegPayloads(c, start, recs)[k..]);
      |data| - offset <= |rest| && data[offset..] == rest[..|data| - offset]
    ensures var ps := SegPayloads(c, start, recs);
      var m := Complete(ps[k..], |data| - offset);
      var kept := |Frames(c, ps[k..][..m])|;
      && k + m <= |recs| && offset + kept <= |data|
      && ScanFrom(c, data, offset, ScanAt(c, start, recs, k))
         == Ok(ScanResult(ScanAt(c, start, recs, k + m), offset + kept, |data| - offset - kept))
    decreases |recs| - k
  {
    hide SegPayloads, ScanFrom, ReadFrame, SegWf, ScanAt, AllShort, Complete, Frames;
    var ps := SegPayloads(c, start, recs);
    var left := |data| - offset;
    NoneComplete(c, ps[k..]);
    if left == 0 {
      ScanStops(c, data, offset, ScanAt(c, start, recs, k));
    } else {
      FramesLeft(c, ps, k);
      CutStep(c, RECOVERY_CAP, ps, data, offset, k);
      var p := ps[k];
      if |p| + FRAMING <= left {
        ScanWhole(c, start, recs, data, offset, k);
        ScanCut(c, start, recs, data, offset + |p| + FRAMING, k + 1);
        CompleteStep(c, ps, k, left);
      } else {
        ScanStops(c, data, offset, ScanAt(c, start, recs, k));
      }
    }
  }

  lemma FramesLeft(c: Crypto, ps: seq<bytes>, k: nat)
    requires k <= |ps|
    ensures |Frames(c, ps[k..])| > 0 ==> k < |ps|
  {
  }

  /** At the next frame: whole, or torn. */
  lemma CutStep(c: Crypto, cap: nat, ps: seq<bytes>, data: bytes, offset: nat, k: nat)
    requires k < |ps| && offset < |data| && AllShort(ps, cap) && cap <= NO_CAP
    requires |data| - offset <= |Frames(c, ps[k..])| && data[offset..] == Frames(c, ps[k..])[..|data| - offset]
    ensures var p := ps[k];
      var end := offset + |p| + FRAMING;
      if end <= |data| then
        && ReadFrame(data, offset, cap) == Framed(p, c.sign(p), end)
        && |data| - end <= |Frames(c, ps[k + 1..])| && data[end..] == Frames(c, ps[k + 1..])[..|data| - end]
      else ReadFrame(data, offset, cap) == Torn && Complete(ps[k..], |data| - offset) == 0
  {
    hide ReadFrame, Frame;
    var p, left := ps[k], |data| - offset;
    var f, rest := Frame(p, c.sign(p)), Frames(c, ps[k + 1..]);
    assert ps[k..][0] == p && ps[k..][1..] == ps[k + 1..];
    assert Frames(c, ps[k..]) == f + rest;
    if |f| <= left {
      assert data[offset..offset + |f|] == data[offset..][..|f|] == (f + rest)[..left][..|f|] == f;
      ReadOfFrame(data, offset, cap, p, c.sign(p));
      assert data[offset + |f|..] == data[offset..][|f|..] == (f + rest)[..left][|f|..] == rest[..left - |f|];
    } else {
      assert (f + rest)[..left] == f[..left];
      ReadOfPartialFrame(data, offset, cap, p, c.sign(p), left);
    }
  }

  lemma CompleteStep(c: Crypto, ps: seq<bytes>, k: nat, left: nat)
    requires k < |ps| && |ps[k]| + FRAMING <= left
    ensures var m := Complete(ps[k + 1..], left - |ps[k]| - FRAMING);
      && Complete(ps[k..], left) == m + 1
      && |Frames(c, ps[k..][..m + 1])| == |ps[k]| + FRAMING + |Frames(c, ps[k + 1..][..m])|
  {
    hide Frame;
    var m := Complete(ps[k + 1..], left - |ps[k]| - FRAMING);
    assert ps[k..][0] == ps[k] && ps[k..][1..] == ps[k + 1..];
    assert ps[k..][..m + 1][1..] == ps[k + 1..][..m];
  }

  // ---- reopening ----

  lemma StartOfScan(c: Crypto, before: PLog, ps: seq<bytes>, n: nat)
    requires |before| < INDEX_END && HEADER_LEN <= n <= |SegmentFile(c, before, ps)|
    ensures ScanStart(c, SegFile(|before|, SegmentFile(c, before, ps)[..n]))
        == Ok(Scan(0, None, Final(c, before), [], 0, false))
  {
    hide Frames, Final, Fields;
    var hd := HeaderAfter(c, before);
    var rest := Frames(c, ps)[..n - HEADER_LEN];
    var data := SegmentFile(c, before, ps)[..n];
    assert data == hd.ToBytes(c) + rest;
    HeaderRoundTrip(c, hd, data, rest);
    assert data[..HEADER_BODY_LEN] == hd.Body();
    GenesisFinal(c, before);
  }

  /** The scan of the cut last segment keeps exactly the complete frames. */
  lemma ScanOfCut(c: Crypto, h: History, n: nat)
    requires Recoverable(c, h) && HEADER_LEN <= n <= |LastFile(c, h)|
    ensures var k, ps := Kept(c, h, n), LastPayloads(c, h);
      var size := HEADER_LEN + |Frames(c, ps[..k])|;
      && size <= n
      && ScanSegment(c, SegFile(|h| - 1, LastFile(c, h)[..n]))
         == Ok(ScanResult(ScanAt(c, Final(c, Before(c, h)), LastSegment(h), k), size, n - size))
  {
    hide SegPayloads, LogPayloads, Final, Frames, ScanFrom, ScanStart, Complete;
    var before, ps := Before(c, h), LastPayloads(c, h);
    var start, recs, data := Final(c, before), LastSegment(h), LastFile(c, h)[..n];
    StartOfScan(c, before, ps, n);
    assert ps[..0] == [] && recs[..0] == [] && ps[0..] == ps;
    assert data[HEADER_LEN..] == Frames(c, ps)[..n - HEADER_LEN];
    ScanCut(c, start, recs, data, HEADER_LEN, 0);
  }

  lemma TruncatedFile(c: Crypto, before: PLog, ps: seq<bytes>, k: nat, n: nat)
    requires k <= |ps| && n <= |SegmentFile(c, before, ps)| && HEADER_LEN + |Frames(c, ps[..k])| <= n
    ensures SegmentFile(c, before, ps)[..n][..HEADER_LEN + |Frames(c, ps[..k])|] == SegmentFile(c, before, ps[..k])
  {
    FramesSplit(c, ps, k);
  }

  /** What the scan of the cut directory found. */
  function CutScan(c: Crypto, h: History, n: nat): ScanResult
    requires h != [] && HEADER_LEN <= n && KeptFits(c, h, n)
  {
    var k := Kept(c, h, n);
    var size := HEADER_LEN + |Frames(c, LastPayloads(c, h)[..k])|;
    ScanResult(ScanAt(c, Final(c, Before(c, h)), LastSegment(h), k), size, n - size)
  }

  /** Reopening at what the scan found is the state of the shortened
      history. */
  lemma ReopenedIsState(c: Crypto, h: History, n: nat, t: LiveHistory, dir: seq<SegFile>, scan: ScanResult)
    requires Recoverable(c, h) && HEADER_LEN <= n <= |LastFile(c, h)|
    requires KeptFits(c, h, n)
    requires t == Trunc(h, Kept(c, h, n)) && dir == CutDir(c, h, n) && scan == CutScan(c, h, n)
    requires dir != [] && scan.bytesWritten <= |dir[|dir| - 1].data|
    ensures scan.bytesWritten == |LastFile(c, t)| <= n
    ensures Reopened(dir, scan) == WState(DirOfHistory(c, t), StateOf(c, t))
    ensures scan.scan.lastHmac == StateOf(c, t).lastHmac
  {
    hide SegPayloads, LogPayloads, Final, Frames, Complete, SegmentFile, EndsFinalized;
    var k := Kept(c, h, n);
    var ps, before := LastPayloads(c, h), Before(c, h);
    var start, recs := Final(c, before), LastSegment(h);
    SegPayloadsPrefix(c, start, recs, k);
    TruncatedFile(c, before, ps, k, n);
    assert t[..|t| - 1] == h[..|h| - 1] && LastSegment(t) == recs[..k];
    assert LastPayloads(c, t) == ps[..k];
    DirSplit(c, t);
    TruncatedSize(c, before, ps[..k]);
    var ws := Reopened(dir, scan);
    assert ws.seg == StateOf(c, t);
    assert ws.dir == DirOfHistory(c, t);
  }

  /** Reopening after a crash. The complete records survive and nothing else
      does; the bytes of the rest are reported as truncated; the writer is in
      the one state of the recovered history; and a finalize record that
      survived has its rollover completed. */
  lemma RecoverySimulates(c: Crypto, h: History, n: nat)
    requires Recoverable(c, h) && |h| + 1 < INDEX_END && HEADER_LEN <= n <= |LastFile(c, h)|
    ensures var r, h' := Open(c, CutDir(c, h, n)), Recovered(c, h, n);
      var t := Trunc(h, Kept(c, h, n));
      && r.Ok? && Represents(c, r.value.ws, h')
      && |LastFile(c, t)| <= n
      && r.value.report.truncatedBytes == n - |LastFile(c, t)|
      && r.value.report.lastHmac == StateOf(c, t).lastHmac
      && r.value.report.currentSegment == |h'| - 1
      && r.value.report.lastRecordId == (if |LastSegment(t)| == 0 then None else Some(|LastSegment(t)| - 1))
      && r.value.report.recordsInCurrentSegment == |LastSegment(h')|
      && r.value.report.action == (if h' != t then OpenedNextAfterFinalized
                                   else if n > |LastFile(c, t)| then Repaired else Resumed)
  {
    hide LastPayloads, Final, Before, Frames, Open, LastFile, Reopened, CutScan, EndsFinalized, StateOf, DirOfHistory,
        SegWf, AllShort, Kept, AfterOpenNext, CutDir;
    var k := Kept(c, h, n);
    var t := Trunc(h, k);
    var scan := OpensAtCut(c, h, n);
    var dir := CutDir(c, h, n);
    ReopenedIsState(c, h, n, t, dir, scan);
    var ws := Reopened(dir, scan);
    StateIndex(c, t);
    OpenStep(c, ws, t);
    OpenNextDiffers(t);
    LastIsKept(h, k);
  }

  lemma LastIsKept(h: History, k: nat)
    requires h != [] && k <= |LastSegment(h)|
    ensures LastSegment(Trunc(h, k)) == LastSegment(h)[..k]
  {
  }

  /** Opening `dir` resumes at what the scan found. */
  predicate ResumesAt(c: Crypto, dir: seq<SegFile>, scan: ScanResult) {
    dir != [] && scan.bytesWritten <= |dir[|dir| - 1].data| && Open(c, dir) == Resume(c, dir, scan)
  }

  /** The scan found the first `k` records of `recs` in `n` bytes. */
  predicate FoundIn(scan: ScanResult, recs: seq<Rec>, k: nat, n: nat)
    requires k <= |recs|
  {
    && scan.truncatedBytes == n - scan.bytesWritten
    && scan.scan.recordCount == k && scan.scan.lastRecordId == (if k == 0 then None else Some(k - 1))
    && scan.scan.lastWasFinalize == EndsFinalized(recs[..k])
  }

  predicate KeptFits(c: Crypto, h: History, n: nat)
    requires h != [] && HEADER_LEN <= n
  {
    HEADER_LEN + |Frames(c, LastPayloads(c, h)[..Kept(c, h, n)])| <= n
  }

  lemma OpensAtCut(c: Crypto, h: History, n: nat) returns (scan: ScanResult)
    requires Recoverable(c, h) && HEADER_LEN <= n <= |LastFile(c, h)|
    ensures KeptFits(c, h, n) && scan == CutScan(c, h, n)
    ensures ResumesAt(c, CutDir(c, h, n), scan) && FoundIn(scan, LastSegment(h), Kept(c, h, n), n)
  {
    hide LastPayloads, Final, Before, Frames, ScanSegment, LastFile, ResumesAt, CutDir, FoundIn, SegWf, AllShort, Kept,
        EndsFinalized;
    ScanOfCut(c, h, n);
    scan := CutScan(c, h, n);
    CutEnds(c, h, n);
    OpensWith(c, CutDir(c, h, n), scan);
    ScanFound(c, h, n);
  }

  lemma CutEnds(c: Crypto, h: History, n: nat)
    requires h != [] && n <= |LastFile(c, h)|
    ensures var dir := CutDir(c, h, n); dir != [] && dir[|dir| - 1] == SegFile(|h| - 1, LastFile(c, h)[..n])
  {
    hide LastFile, DirOfHistory;
  }

  lemma OpensWith(c: Crypto, dir: seq<SegFile>, scan: ScanResult)
    requires dir != [] && ScanSegment(c, dir[|dir| - 1]) == Ok(scan)
    ensures ResumesAt(c, dir, scan)
  {
    hide ScanSegment, Resume;
    ScanBounds(c, dir[|dir| - 1]);
  }

  lemma ScanFound(c: Crypto, h: History, n: nat)
    requires h != [] && HEADER_LEN <= n && KeptFits(c, h, n)
    ensures FoundIn(CutScan(c, h, n), LastSegment(h), Kept(c, h, n), n)
  {
    hide LastPayloads, Final, Before, Frames, Kept, EndsFinalized;
  }

  lemma StateIndex(c: Crypto, t: History)
    requires t != []
    ensures StateOf(c, t).index == |t| - 1
  {
    hide SegPayloads, LogPayloads;
  }

  lemma OpenNextDiffers(t: History)
    ensures OpenNext(t) != t
  {
    assert |OpenNext(t)| == |t| + 1;
  }

  lemma TruncatedSize(c: Crypto, before: PLog, ps: seq<bytes>)
    ensures |SegmentFile(c, before, ps)| == HEADER_LEN + |Frames(c, ps)|
  {
  }
}
