/** The live reader never skips, repeats or reorders a record, and loses none
    to an error, while the log grows under it. */
module HmacReading {
  import opened Bytes
  import opened Cbor
  import opened Record
  import opened Segment
  import opened HmacLog
  import opened HmacWriter
  import opened HmacHistory
  import opened HmacWritten
  import opened HmacCrash
  import opened HmacReachable
  import opened HmacEveryRun
  import opened HmacReader

  function FilesOf(c: Crypto, h: History): (fs: Disk)
    ensures |fs| == |h|
  {
    Files(c, LogPayloads(c, h))
  }

  /** `d` may still grow into `full`: bytes are added to the last file, and
      files after it. Earlier files are final. */
  predicate Shows(d: Disk, full: Disk) {
    && |d| <= |full|
    && (forall i :: 0 <= i < |d| - 1 ==> d[i] == full[i])
    && (d != [] ==> d[|d| - 1] <= full[|d| - 1])
  }

  /** The disks a reader meets, one per call, on the way to `full`. */
  predicate Growing(disks: seq<Disk>, full: Disk) {
    disks == [] || (Shows(disks[0], if |disks| > 1 then disks[1] else full) && Growing(disks[1..], full))
  }

  lemma {:induction false} GrowingShows(disks: seq<Disk>, full: Disk)
    requires Growing(disks, full) && disks != []
    ensures Shows(disks[0], full)
  {
    if |disks| > 1 {
      GrowingShows(disks[1..], full);
      ShowsTransitive(disks[0], disks[1], full);
    }
  }

  lemma ShowsTransitive(a: Disk, b: Disk, d: Disk)
    requires Shows(a, b) && Shows(b, d)
    ensures Shows(a, d)
  {
    if a != [] {
      var n := |a| - 1;
      assert b[n] <= d[n];
    }
  }

  predicate Readable(c: Crypto, h: History) {
    |h| <= MAX_SEGMENTS && LogWf(h) && LogShort(c, h, NO_CAP)
  }

  // ---- what a reader should see ----

  function PayloadsAt(c: Crypto, h: History, i: nat): (ps: seq<bytes>)
    requires i < |h|
    ensures |ps| == |h[i]|
  {
    SegmentPayloadsAt(c, h, i);
    LogPayloads(c, h)[i]
  }

  function OffsetAt(c: Crypto, h: History, i: nat, k: nat): nat
    requires i < |h| && k <= |h[i]|
  {
    HEADER_LEN + |Frames(c, PayloadsAt(c, h, i)[..k])|
  }

  /** What record `k` of segment `i` links to. */
  function LinkAt(c: Crypto, h: History, i: nat, k: nat): Digest
    requires i < |h| && k <= |h[i]|
  {
    HeadAfter(c, Final(c, LogPayloads(c, h)[..i]), PayloadsAt(c, h, i)[..k])
  }

  /** Record `k` of segment `i`, as appended. */
  function RecordAt(c: Crypto, h: History, i: nat, k: nat): ReadRecord
    requires i < |h| && k < |h[i]|
  {
    var r := h[i][k];
    var p := PayloadOf(c, r, LinkAt(c, h, i, k), k);
    ReadRecord(i, RecordFields(k, LinkAt(c, h, i, k), r.input.tsWall, r.input.tsMonoDelta, r.session, r.input.actor,
                               r.input.event, r.input.payload, c.keyId, r.input.schemaVersion),
               c.sign(p), p, OffsetAt(c, h, i, k))
  }

  /** The records from record `k` of segment `i` on. */
  function Ahead(c: Crypto, h: History, i: nat, k: nat): seq<ReadRecord>
    requires i < |h| && k <= |h[i]|
    decreases |h| - i, |h[i]| - k
  {
    if k < |h[i]| then [RecordAt(c, h, i, k)] + Ahead(c, h, i, k + 1)
    else if i + 1 < |h| then Ahead(c, h, i + 1, 0)
    else []
  }

  /** Everything appended, in order. */
  function Appended(c: Crypto, h: LiveHistory): seq<ReadRecord> { Ahead(c, h, 0, 0) }

  // ---- one call ----

  /** The cursor stands before record `k` of segment `i`. */
  predicate Stands(c: Crypto, h: History, s: Cursor, i: nat, k: nat) {
    && i < |h| && k <= |h[i]|
    && if s.holding then s.segment == Some(i) && s.offset == OffsetAt(c, h, i, k)
       else k == 0 && s.NextIndex() == i
  }

  lemma HeaderVisible(c: Crypto, before: PLog, ps: seq<bytes>, data: bytes)
    requires data <= SegmentFile(c, before, ps) && |before| < INDEX_END
    ensures HeaderReads(c, data, |before|) <==> |data| >= HEADER_LEN
  {
    hide Frames, Final, Fields;
    if |data| >= HEADER_LEN {
      var hd := HeaderAfter(c, before);
      var full := hd.ToBytes(c) + Frames(c, ps);
      FieldsOfBytes(c, hd, Frames(c, ps));
      PartsOfHeader(full, hd);
      assert data[..4] == full[..4] == hd.Body()[..4];
      assert data[4..6] == full[4..6] && data[6..8] == full[6..8] && data[72..76] == full[72..76];
      assert data[..HEADER_BODY_LEN] == full[..HEADER_BODY_LEN] == hd.Body();
    }
  }

  lemma PartsOfHeader(b: bytes, hd: SegmentHeader)
    requires |b| >= HEADER_LEN && Fields(b) == hd
    ensures FromLe(b[4..6]) == hd.version && FromLe(b[6..8]) == hd.segmentIndex
  {
  }

  lemma FileOf(c: Crypto, h: History, i: nat)
    requires i < |h|
    ensures |LogPayloads(c, h)[..i]| == i
    ensures FilesOf(c, h)[i] == SegmentFile(c, LogPayloads(c, h)[..i], PayloadsAt(c, h, i))
  {
    hide SegPayloads, LogPayloads, Frames;
    FileAt(c, LogPayloads(c, h), i);
  }

  /** The frame at record `k` is read as that record, or is not complete. */
  lemma ReadHere(c: Crypto, h: History, data: bytes, i: nat, k: nat)
    requires Readable(c, h) && i < |h| && data <= FilesOf(c, h)[i] && k <= |h[i]| && OffsetAt(c, h, i, k) < |data|
    ensures k < |h[i]|
    ensures var out := ReadAt(data, i, OffsetAt(c, h, i, k));
      if OffsetAt(c, h, i, k + 1) <= |data| then
        out == Yield(RecordAt(c, h, i, k)) && OffsetAt(c, h, i, k) + FRAMING + |out.record.payload|
            == OffsetAt(c, h, i, k + 1)
      else out == Failure(TornTail(i, OffsetAt(c, h, i, k)))
  {
    hide LogPayloads, SegPayloads, Final, ReadFrame, Frames, RecordBytes, WfInput, DecodeRecordMap, Decode, RecordValue;
    var ps, offset := PayloadsAt(c, h, i), OffsetAt(c, h, i, k);
    FileOf(c, h, i);
    FramesSplit(c, ps, k);
    var rest := Frames(c, ps[k..]);
    assert data[offset..] == rest[..|data| - offset] by {
      assert FilesOf(c, h)[i][offset..] == rest;
    }
    if k == |ps| {
      assert false by { EmptyFrames(c, ps[k..]); }
    }
    SegmentShort(c, h, i);
    CutStep(c, NO_CAP, ps, data, offset, k);
    FramesSnoc(c, ps, k);
    SegmentPayloadsAt(c, h, i);
    PayloadAt(c, Final(c, LogPayloads(c, h)[..i]), h[i], k);
    var r, link := h[i][k], LinkAt(c, h, i, k);
    RecordDecodes(c.keyId, r.input, r.session, link, k);
    RecordReadsBack(c.keyId, r.input, r.session, link, k);
  }

  lemma SegmentShort(c: Crypto, h: History, i: nat)
    requires Readable(c, h) && i < |h|
    ensures AllShort(PayloadsAt(c, h, i), NO_CAP) && |h[i]| < U64_END && forall k ::
      0 <= k < |h[i]| ==> WfInput(h[i][k].input)
  {
    hide LogPayloads, WfInput;
  }

  lemma EmptyFrames(c: Crypto, ps: seq<bytes>)
    requires ps == []
    ensures Frames(c, ps) == []
  {
  }

  lemma FramesSnoc(c: Crypto, ps: seq<bytes>, k: nat)
    requires k < |ps|
    ensures |Frames(c, ps[..k + 1])| == |Frames(c, ps[..k])| + |ps[k]| + FRAMING
  {
    assert ps[..k + 1] == ps[..k] + [ps[k]];
    FramesAppend(c, ps[..k], [ps[k]]);
    assert Frames(c, [ps[k]]) == Frame(ps[k], c.sign(ps[k])) + Frames(c, []);
  }

  /** Behind the end of a complete file there is nothing left of it. */
  lemma AllRead(c: Crypto, h: History, i: nat, k: nat)
    requires i < |h| && k <= |h[i]| && |FilesOf(c, h)[i]| <= OffsetAt(c, h, i, k)
    ensures k == |h[i]|
  {
    hide LogPayloads, SegPayloads, Frames;
    var ps := PayloadsAt(c, h, i);
    FileOf(c, h, i);
    FramesSplit(c, ps, k);
    if k < |ps| {
      FramesNonEmpty(c, ps[k..]);
    }
  }

  lemma FramesNonEmpty(c: Crypto, ps: seq<bytes>)
    ensures ps != [] ==> |Frames(c, ps)| > 0
  {
  }

  /** What a call promises: the cursor stands before what is still ahead. */
  predicate Called(c: Crypto, h: History, disk: Disk, step: Step, i: nat, k: nat, i': nat, k': nat)
    requires i < |h| && k <= |h[i]|
  {
    && Stands(c, h, step.cursor, i', k')
    && ((i', k') == (i, k) || k' == 0 || (i' < |disk| && OffsetAt(c, h, i', k') <= |disk[i']|))
    && (step.output.Yield? ==> Ahead(c, h, i, k) == [step.output.record] + Ahead(c, h, i', k'))
    && (!step.output.Yield? ==> Ahead(c, h, i, k) == Ahead(c, h, i', k'))
    && (step.output.Failure?
      ==> disk != FilesOf(c, h) && (step.output.error.TornTail? || step.output.error.InvalidHeader?))
    && (disk == FilesOf(c, h) && Ahead(c, h, i, k) != [] ==> step.output.Yield?)
  }

  lemma StandsHeld(c: Crypto, h: History, disk: Disk, s: Cursor, i: nat, k: nat)
    requires Stands(c, h, s, i, k) && s.On(disk) && i < |disk|
    ensures Held(disk, s).Some? && Held(disk, s).value.segment == Some(i) && Held(disk, s).value.holding
    ensures Stands(c, h, Held(disk, s).value, i, k)
  {
    hide LogPayloads, SegPayloads;
    assert k == 0 ==> PayloadsAt(c, h, i)[..k] == [];
  }

  lemma FileShown(c: Crypto, h: History, disk: Disk, i: nat)
    requires Readable(c, h) && Shows(disk, FilesOf(c, h)) && i < |disk|
    ensures disk[i] <= FilesOf(c, h)[i] && i < |h| && (i + 1 < |disk| ==> disk[i] == FilesOf(c, h)[i])
    ensures HeaderReads(c, disk[i], i) <==> |disk[i]| >= HEADER_LEN
    ensures |FilesOf(c, h)[i]| >= HEADER_LEN
  {
    hide LogPayloads, SegPayloads, Frames, SegmentFile, HeaderReads;
    FileOf(c, h, i);
    HeaderVisible(c, LogPayloads(c, h)[..i], PayloadsAt(c, h, i), disk[i]);
  }

  /** Past the last visible byte of a segment. */
  lemma AtEnd(c: Crypto, h: History, disk: Disk, i: nat, k: nat)
    requires Readable(c, h) && Shows(disk, FilesOf(c, h)) && i < |disk| <= |h| && k <= |h[i]|
    requires |disk[i]| <= OffsetAt(c, h, i, k)
    ensures i + 1 < |disk| ==> k == |h[i]| && Ahead(c, h, i, k) == Ahead(c, h, i + 1, 0)
    ensures i + 1 == |disk| && disk == FilesOf(c, h) ==> Ahead(c, h, i, k) == []
  {
    hide FilesOf, Readable, OffsetAt, RecordAt;
    FileShown(c, h, disk, i);
    if disk[i] == FilesOf(c, h)[i] {
      AllRead(c, h, i, k);
    }
  }

  /** The frame at record `k`, read: the record, or torn in an unfinished
      log. */
  predicate ReadsThere(c: Crypto, h: History, disk: Disk, i: nat, k: nat)
    requires i < |disk| <= |h| && k <= |h[i]| && OffsetAt(c, h, i, k) < |disk[i]|
  {
    var out := ReadAt(disk[i], i, OffsetAt(c, h, i, k));
    && k < |h[i]|
    && (out.Yield? ==> Ahead(c, h, i, k) == [out.record] + Ahead(c, h, i, k + 1)
                       && OffsetAt(c, h, i, k) + FRAMING + |out.record.payload|
                           == OffsetAt(c, h, i, k + 1) <= |disk[i]|)
    && (!out.Yield? ==> out.Failure? && out.error.TornTail? && disk != FilesOf(c, h))
  }

  lemma ReadInside(c: Crypto, h: History, disk: Disk, i: nat, k: nat)
    requires Readable(c, h) && Shows(disk, FilesOf(c, h)) && i < |disk| <= |h| && k <= |h[i]|
    requires OffsetAt(c, h, i, k) < |disk[i]|
    ensures ReadsThere(c, h, disk, i, k)
  {
    hide FilesOf, Readable, OffsetAt, RecordAt, ReadAt;
    FileShown(c, h, disk, i);
    ReadHere(c, h, disk[i], i, k);
    if OffsetAt(c, h, i, k + 1) > |disk[i]| {
      OffsetInFile(c, h, i, k + 1);
    }
  }

  lemma OffsetInFile(c: Crypto, h: History, i: nat, k: nat)
    requires i < |h| && k <= |h[i]|
    ensures OffsetAt(c, h, i, k) <= |FilesOf(c, h)[i]|
  {
    hide LogPayloads, SegPayloads, Frames;
    FileOf(c, h, i);
    FramesSplit(c, PayloadsAt(c, h, i), k);
  }

  /** One call of `next_record`, whatever part of the log is visible. */
  lemma CallKeeps(c: Crypto, h: LiveHistory, disk: Disk, s: Cursor, i: nat, k: nat) returns (i': nat, k': nat)
    requires Readable(c, h) && Shows(disk, FilesOf(c, h)) && s.On(disk) && Stands(c, h, s, i, k)
    ensures Called(c, h, disk, NextStep(c, disk, s), i, k, i', k')
    decreases |h| - i
  {
    hide FilesOf, Readable, OffsetAt, ReadAt, HeaderReads, RecordAt, Ahead, Shows;
    ShownSize(c, h, disk);
    i', k' := i, k;
    if i >= |disk| {
      assert NextStep(c, disk, s) == Step(s, Nothing);
    } else {
      StandsHeld(c, h, disk, s, i, k);
      FileShown(c, h, disk, i);
      var o := Held(disk, s).value;
      var v := o.(headerVerified := true);
      if o.headerVerified || HeaderReads(c, disk[i], i) {
        if v.offset < |disk[i]| {
          ReadInside(c, h, disk, i, k);
          if ReadAt(disk[i], i, v.offset).Yield? {
            k' := k + 1;
          }
        } else {
          AtEnd(c, h, disk, i, k);
          if i + 1 < |disk| {
            i', k' := CallKeeps(c, h, disk, v.(holding := false, headerVerified := false), i + 1, 0);
          }
        }
      }
    }
  }

  lemma ShownSize(c: Crypto, h: History, disk: Disk)
    requires Shows(disk, FilesOf(c, h))
    ensures |disk| <= |h| && (disk == FilesOf(c, h) ==> |disk| == |h|)
  {
  }

  lemma ShowsSize(d: Disk, full: Disk)
    requires Shows(d, full)
    ensures |d| <= |full|
  {
  }

  // ---- whole runs ----

  function Yielded(c: Crypto, disks: seq<Disk>, s: Cursor): seq<ReadRecord>
    requires disks != [] ==> s.On(disks[0])
    requires forall j :: 0 <= j < |disks| - 1 ==> |disks[j]| <= |disks[j + 1]|
  {
    if disks == [] then []
    else
      var step := NextStep(c, disks[0], s);
      (if step.output.Yield? then [step.output.record] else []) + Yielded(c, disks[1..], step.cursor)
  }

  lemma {:induction false} GrowingSizes(disks: seq<Disk>, full: Disk)
    requires Growing(disks, full)
    ensures forall j :: 0 <= j < |disks| - 1 ==> |disks[j]| <= |disks[j + 1]|
  {
    if disks != [] {
      GrowingSizes(disks[1..], full);
      forall j | 0 <= j < |disks| - 1 ensures |disks[j]| <= |disks[j + 1]| {
        if j > 0 {
          assert disks[j] == disks[1..][j - 1] && disks[j + 1] == disks[1..][j];
        }
      }
    }
  }

  /** From any standing point: what is yielded is what was ahead, in order,
      up to some point. */
  lemma {:induction false} YieldsPrefix(c: Crypto, h: LiveHistory, disks: seq<Disk>, s: Cursor, i: nat, k: nat)
    requires Readable(c, h) && Growing(disks, FilesOf(c, h)) && Stands(c, h, s, i, k)
    requires disks != [] ==> s.On(disks[0])
    requires forall j :: 0 <= j < |disks| - 1 ==> |disks[j]| <= |disks[j + 1]|
    ensures Yielded(c, disks, s) <= Ahead(c, h, i, k)
    decreases |disks|
  {
    hide FilesOf, Readable, NextStep, Stands, Ahead, Shows;
    if disks != [] {
      GrowingShows(disks, FilesOf(c, h));
      var i', k' := CallKeeps(c, h, disks[0], s, i, k);
      YieldsPrefix(c, h, disks[1..], NextStep(c, disks[0], s).cursor, i', k');
    }
  }

  /** Over any disks that grow into a log, the records yielded are a prefix of
      the records appended. That a writer's disks grow so is
      `HmacLive.SeenGrow`. */
  lemma ReaderNeverSkips(c: Crypto, h: LiveHistory, disks: seq<Disk>)
    requires Readable(c, h) && Growing(disks, FilesOf(c, h))
    ensures forall j :: 0 <= j < |disks| - 1 ==> |disks[j]| <= |disks[j + 1]|
    ensures Yielded(c, disks, START) <= Appended(c, h)
  {
    hide FilesOf, Readable, Ahead;
    GrowingSizes(disks, FilesOf(c, h));
    YieldsPrefix(c, h, disks, START, 0, 0);
  }

  function Repeat(d: Disk, n: nat): (ds: seq<Disk>)
    ensures |ds| == n && forall j :: 0 <= j < n ==> ds[j] == d
  {
    if n == 0 then [] else [d] + Repeat(d, n - 1)
  }

  /** `n` calls on a finished log yield `ahead`. */
  predicate Drains(c: Crypto, full: Disk, s: Cursor, n: nat, ahead: seq<ReadRecord>)
    requires s.On(full)
  {
    Yielded(c, Repeat(full, n), s) == ahead
  }

  lemma {:induction false} DrainsFrom(c: Crypto, h: LiveHistory, s: Cursor, i: nat, k: nat, n: nat)
    requires Readable(c, h) && Stands(c, h, s, i, k) && s.On(FilesOf(c, h))
    requires n >= |Ahead(c, h, i, k)|
    ensures Drains(c, FilesOf(c, h), s, n, Ahead(c, h, i, k))
    decreases n
  {
    hide FilesOf, Readable, NextStep, Stands, Ahead;
    if n > 0 {
      var disk := FilesOf(c, h);
      assert Repeat(disk, n)[1..] == Repeat(disk, n - 1);
      var i', k' := CallKeeps(c, h, disk, s, i, k);
      DrainsFrom(c, h, NextStep(c, disk, s).cursor, i', k', n - 1);
    }
  }

  lemma {:induction false} RepeatGrows(full: Disk, n: nat)
    ensures Growing(Repeat(full, n), full)
  {
    hide Shows;
    if n > 0 {
      assert Repeat(full, n)[1..] == Repeat(full, n - 1);
      ShowsItself(full);
      RepeatGrows(full, n - 1);
    }
  }

  lemma {:induction false} StoppedGrows(disks: seq<Disk>, full: Disk, n: nat)
    requires Growing(disks, full)
    ensures Growing(disks + Repeat(full, n), full)
  {
    hide Shows;
    if disks == [] {
      RepeatGrows(full, n);
      assert disks + Repeat(full, n) == Repeat(full, n);
    } else {
      StoppedGrows(disks[1..], full, n);
      assert (disks + Repeat(full, n))[1..] == disks[1..] + Repeat(full, n);
    }
  }

  /** Once the writer has stopped, enough further calls yield everything that
      was appended, whatever came before. */
  lemma {:induction false} ReaderCatchesUp(c: Crypto, h: LiveHistory, disks: seq<Disk>, s: Cursor, i: nat, k: nat,
      n: nat)
    requires Readable(c, h) && Growing(disks, FilesOf(c, h)) && Stands(c, h, s, i, k)
    requires s.On(if disks == [] then FilesOf(c, h) else disks[0])
    requires n >= |Ahead(c, h, i, k)|
    ensures var all := disks + Repeat(FilesOf(c, h), n);
      && (forall j :: 0 <= j < |all| - 1 ==> |all[j]| <= |all[j + 1]|)
      && (all != [] ==> s.On(all[0]))
      && Yielded(c, all, s) == Ahead(c, h, i, k)
    decreases |disks|
  {
    hide FilesOf, Readable, NextStep, Stands, Ahead, Shows, Repeat;
    var full := FilesOf(c, h);
    var all := disks + Repeat(full, n);
    StoppedGrows(disks, full, n);
    GrowingSizes(all, full);
    if disks == [] {
      assert all == Repeat(full, n);
      DrainsFrom(c, h, s, i, k, n);
    } else {
      GrowingShows(disks, full);
      var i', k' := CallKeeps(c, h, disks[0], s, i, k);
      ShowsSize(disks[0], if |disks| > 1 then disks[1] else full);
      assert all[1..] == disks[1..] + Repeat(full, n);
      ReaderCatchesUp(c, h, disks[1..], NextStep(c, disks[0], s).cursor, i', k', n);
    }
  }

  /** The whole reading of a finished log, from a fresh iterator. */
  lemma ReaderYieldsAll(c: Crypto, h: LiveHistory, disks: seq<Disk>, n: nat)
    requires Readable(c, h) && Growing(disks, FilesOf(c, h)) && n >= |Appended(c, h)|
    ensures var all := disks + Repeat(FilesOf(c, h), n);
      && (forall j :: 0 <= j < |all| - 1 ==> |all[j]| <= |all[j + 1]|)
      && Yielded(c, all, START) == Appended(c, h)
  {
    hide FilesOf, Readable, Ahead;
    ReaderCatchesUp(c, h, disks, START, 0, 0, n);
  }

  // ---- seeking ----

  lemma {:induction false} SeekFromFinds(c: Crypto, h: History, i: nat, k: nat, id: nat)
    requires Readable(c, h) && i < |h| && k <= |h[i]| && k <= id
    ensures SeekFrom(FilesOf(c, h)[i], i, id, OffsetAt(c, h, i, k)) == if id < |h[i]| then Found(RecordAt(c, h, i, id))
        else NotFound
    decreases |h[i]| - k
  {
    hide Readable, FilesOf, ReadAt, PayloadOf, OffsetAt;
    var data := FilesOf(c, h)[i];
    OffsetInFile(c, h, i, k);
    if k == |h[i]| {
      LastOffset(c, h, i);
    } else {
      if OffsetAt(c, h, i, k) >= |data| {
        AllRead(c, h, i, k);
      }
      OffsetInFile(c, h, i, k + 1);
      ReadHere(c, h, data, i, k);
      if k < id {
        SeekFromFinds(c, h, i, k + 1, id);
      }
    }
  }

  lemma LastOffset(c: Crypto, h: History, i: nat)
    requires i < |h|
    ensures OffsetAt(c, h, i, |h[i]|) == |FilesOf(c, h)[i]|
  {
    hide LogPayloads, SegPayloads, Frames;
    FileOf(c, h, i);
    var ps := PayloadsAt(c, h, i);
    assert ps[..|h[i]|] == ps;
  }

  /** Seeking a written log finds exactly the records that exist. */
  lemma SeekFinds(c: Crypto, h: History, i: nat, id: nat)
    requires Readable(c, h)
    ensures SeekRecord(c, FilesOf(c, h), i, id)
         == if i < |h| && id < |h[i]| then Found(RecordAt(c, h, i, id)) else NotFound
  {
    hide Readable, FilesOf, RecordAt, SeekFrom, HeaderReads;
    if i < |h| {
      ShowsItself(FilesOf(c, h));
      FileShown(c, h, FilesOf(c, h), i);
      SeekFromFinds(c, h, i, 0, id);
      FirstOffset(c, h, i);
    }
  }

  lemma FirstOffset(c: Crypto, h: History, i: nat)
    requires i < |h|
    ensures OffsetAt(c, h, i, 0) == HEADER_LEN
  {
    hide LogPayloads, SegPayloads;
    assert PayloadsAt(c, h, i)[..0] == [];
  }

  // ---- the log of a run ----

  lemma {:induction false} DataOfDir(files: Disk)
    ensures Datas(DirOf(files)) == files
  {
  }

  function Datas(dir: seq<SegFile>): (d: Disk)
    ensures |d| == |dir|
  { seq(|dir|, i requires 0 <= i < |dir| => dir[i].data) }

  lemma ShowsItself(d: Disk)
    ensures Shows(d, d)
  {
  }

  /** The disk of a writer state is that of its history. */
  lemma DiskOfState(c: Crypto, ws: WState, h: History)
    requires Represents(c, ws, h)
    ensures Datas(ws.dir) == FilesOf(c, h)
  {
    hide LogPayloads, SegPayloads, StateOf;
    DataOfDir(FilesOf(c, h));
  }

  lemma WrittenReadable(c: Crypto, h: History)
    requires Written(c, h)
    ensures Readable(c, h)
  {
    hide LogWf, LogShort, LogTsOk;
  }

  /** Over disks that grow into the log a run leaves, whatever crashes the run
      had, a fresh iterator yields a prefix of the records of that log, and
      with enough calls all of them. */
  lemma ReaderFollowsRun(c: Crypto, cfg: WriterConfig, session: SessionId, events: seq<Event>, disks: seq<Disk>, n: nat)
    requires EventsOk(c, cfg, session, [[]], events)
    requires Run(c, cfg, Start(c, session), events).Some?
    requires Growing(disks, Datas(Run(c, cfg, Start(c, session), events).value.ws.dir))
    requires n >= |Appended(c, RunHistory(c, cfg, session, [[]], events))|
    ensures var full, h := Datas(Run(c, cfg, Start(c, session), events).value.ws.dir),
        RunHistory(c, cfg, session, [[]], events);
      && (forall j :: 0 <= j < |disks| - 1 ==> |disks[j]| <= |disks[j + 1]|)
      && Yielded(c, disks, START) <= Appended(c, h)
      && (forall j ::
        0 <= j < |disks + Repeat(full, n)| - 1 ==> |(disks + Repeat(full, n))[j]| <= |(disks + Repeat(full, n))[j + 1]|)
      && Yielded(c, disks + Repeat(full, n), START) == Appended(c, h)
  {
    hide RunHistory, Run, EventsOk, Inv, Written, Readable, Datas, Appended, Yielded, Growing, Represents, FilesOf;
    var m, h := Start(c, session), RunHistory(c, cfg, session, [[]], events);
    StartRepresents(c, session);
    StartInv(c);
    RunKeeps(c, cfg, m, [[]], events);
    InvWritten(c, h);
    WrittenReadable(c, h);
    DiskOfState(c, Run(c, cfg, m, events).value.ws, h);
    ReaderNeverSkips(c, h, disks);
    ReaderYieldsAll(c, h, disks, n);
  }

  lemma StartRepresents(c: Crypto, session: SessionId)
    ensures Represents(c, Start(c, session).ws, [[]]) && Start(c, session).ws.dir != []
  {
    hide Represents;
    FreshRepresents(c);
  }
}
