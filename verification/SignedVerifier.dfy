/** The verifier of format 0x0002, stopping at the first bad record or
    header: the walk over segments and records, without checkpoint or witness
    files. */
module SignedVerifier {
  import opened Bytes
  import opened Cbor
  import opened Segment
  import opened SignedFormat
  import opened Trust
  import opened Revocation
  import opened Acceptance

  datatype SignedKind =
    | TransitionEquivocation | SegmentDiscontinuity | HeaderCorrupt | UnknownVersion | FormatDowngrade
    | UnsupportedAlgorithm | SignatureInvalid | KeyIdMismatch | LogIdMismatch | UntrustedSigner | RecordCorrupt
    | AlgorithmMismatch | ChainBreak | Rejected(why: Rejection) | CheckpointMismatch | CheckpointTruncated
    | SealedLogExtended | TimestampRegression

  datatype Position = Position(segment: nat, id: nat)

  datatype Place = AtKey(kid: KeyId) | AtSegment(segment: nat) | AtRecord(pos: Position)

  datatype SignedViolation = SignedViolation(kind: SignedKind, place: Place)

  datatype Warning = TornTailAfterHead | UnsignedLastSegment | RolledOverWithoutSuccessor

  /** The head a release names. */
  datatype Attested = Attested(keyId: bytes, logId: bytes, segment: nat, recordId: nat, recordHash: bytes,
      recordCount: nat)

  datatype Context = Context(c: Scheme, ev: Evaluation, attested: Option<Attested>, expectLogId: Option<LogId>)

  /** What a segment's header says. */
  datatype Signer = Signer(index: nat, logId: LogId, keyId: Digest, publicKey: Digest)

  datatype Found = Found(hash: Digest, count: nat)

  datatype LastRecord = LastRecord(pos: Position, event: Value)

  datatype SignedWalk = SignedWalk(
    violations: seq<SignedViolation>, warnings: seq<Warning>, stop: bool, raised: bool, trusted: bool,
    genesis: Option<Signer>, sealed: bool, last: Option<LastRecord>, positions: map<Position, Found>, count: nat,
    lastMs: Option<int>, elided: seq<Position>, afterHead: nat, rolledNoSuccessor: bool)
  {
    function Violate(vs: seq<SignedViolation>): SignedWalk
    {
      this.(violations := violations + vs, stop := stop || vs != [])
    }
    function Warn(warning: Warning): SignedWalk { this.(warnings := warnings + [warning]) }
    predicate Halted() { stop || raised }
  }

  /** Inside a segment: the chain link, the next record id, and the finalize
      record, if one was the last. */
  datatype InSegment = InSegment(walk: SignedWalk, prev: Digest, id: nat, finalized: Option<nat>)

  function Finalize(): Value { Text(Ascii("segment.finalized")) }
  function Seal(): Value { Text(Ascii("log.sealed")) }
  function Continue(): Value { Text(Ascii("log.continued")) }

  /** `is_structural`: such a record is never elided. */
  predicate Structural(event: Value) { event == Finalize() || event == Seal() || event == Continue() }

  // ---- decoded maps, as dictionaries that compare `true` equal to 1 ----

  function PyKey(v: Value): Option<int> {
    match v
    case Uint(n) => Some(n)
    case Nint(arg) => Some(-1 - arg)
    case Bool(b) => Some(if b then 1 else 0)
    case _ => None
  }

  function PyField(es: seq<Entry>, k: int): Option<Value> {
    if es == [] then None
    else if PyKey(es[|es| - 1].key) == Some(k) then Some(es[|es| - 1].value)
    else PyField(es[..|es| - 1], k)
  }

  function FieldOf(es: seq<Entry>, k: int): Value { if PyField(es, k).Some? then PyField(es, k).value else Bool(false) }

  function TextField(es: seq<Entry>, k: bytes): Option<Value> {
    if es == [] then None
    else if es[|es| - 1].key == Text(k) then Some(es[|es| - 1].value)
    else TextField(es[..|es| - 1], k)
  }

  predicate PyEq(v: Value, n: nat) { PyKey(v) == Some(n) }

  predicate EnvelopeKey(k: int) { 1 <= k <= 13 && k != 6 && k != 8 }

  /** The keys below 100 are exactly the envelope's; above, anything goes. */
  predicate EnvelopeKeys(es: seq<Entry>) {
    && (forall i ::
      0 <= i < |es|
      ==> PyKey(es[i].key).Some? && (PyKey(es[i].key).value < 100 ==> EnvelopeKey(PyKey(es[i].key).value)))
    && (forall k :: 1 <= k <= 13 && EnvelopeKey(k) ==> PyField(es, k).Some?)
  }

  predicate Printable(b: byte) { 0x21 <= b <= 0x7e }

  predicate PrintableItem(v: Value) {
    (v.Text? && |v.utf8| == 1 && Printable(v.utf8[0])) || (v.Bytes? && |v.b| == 1 && Printable(v.b[0]))
  }

  /** 1 to 128 printable ASCII characters; a list of such characters passes
      too. */
  predicate EventOk(v: Value) {
    match v
    case Text(s) => 1 <= |s| <= 128 && forall i :: 0 <= i < |s| ==> Printable(s[i])
    case Array(items) => 1 <= |items| <= 128 && forall i :: 0 <= i < |items| ==> PrintableItem(items[i])
    case _ => false
  }

  /** The envelope's entries, if it decodes. */
  function EnvelopeOf(env: bytes): Option<seq<Entry>> {
    match Decode(ORACLE_LIMITS, env)
    case Err(_) => None
    case Ok(v) =>
      if v.Map? && EnvelopeKeys(v.entries) && EventOk(FieldOf(v.entries, 7)) then Some(v.entries) else None
  }

  datatype BodyRead = NoBody | BodyFields(es: seq<Entry>) | BodyBad(kind: SignedKind) | BodyRaises

  predicate BodyKey(k: Option<int>) { k == Some(6) || k == Some(8) || k == Some(14) }

  predicate BodyKeys(es: seq<Entry>) {
    && (forall i :: 0 <= i < |es| ==> BodyKey(PyKey(es[i].key)))
    && PyField(es, 6).Some? && PyField(es, 8).Some? && PyField(es, 14).Some?
  }

  function ReadBody(c: Scheme, body: Option<bytes>, hash: Value): BodyRead {
    if body.None? then NoBody
    else if hash != Bytes(BodyHash(c, body.value)) then BodyBad(SignatureInvalid)
    else
      match Decode(ORACLE_LIMITS, body.value)
      case Err(e) => if e.InvalidUtf8? then BodyRaises else BodyBad(RecordCorrupt)
      case Ok(Map(es)) => if BodyKeys(es) then BodyFields(es) else BodyBad(RecordCorrupt)
      case Ok(Bytes(b)) => if |b| < 2 then BodyRaises else BodyBad(RecordCorrupt)
      case Ok(Text(_)) => BodyRaises
      case Ok(Array(_)) => BodyRaises
      case Ok(_) => BodyBad(RecordCorrupt)
  }

  datatype Rollover = RolloverGood | RolloverBad | RolloverRaises

  predicate Hashable(v: Value) { !v.Array? && !v.Map? }

  /** The payload of a finalize record names the number of records before it
      and the hash it links to. */
  function CheckRollover(body: BodyRead, id: nat, prev: Value): Rollover {
    if !body.BodyFields? then RolloverGood
    else
      var payload := FieldOf(body.es, 8);
      if !payload.Map? || exists i ::
        0 <= i < |payload.entries| && !Hashable(payload.entries[i].key) then RolloverRaises
      else
        var records, final := TextField(payload.entries, Ascii("records")),
            TextField(payload.entries, Ascii("final_hash"));
        if records.Some? && PyEq(records.value, id) && final == Some(prev) then RolloverGood else RolloverBad
  }

  // ---- one record ----

  function When(b: bool, kind: SignedKind, place: Place): seq<SignedViolation>
  {
    if b then [SignedViolation(kind, place)] else []
  }

  predicate AfterHead(x: Context, pos: Position) {
    x.attested.Some? && !AtOrBefore(pos.segment, pos.id, x.attested.value.segment, x.attested.value.recordId)
  }

  predicate ChainOk(es: seq<Entry>, s: Signer, id: nat, prev: Digest) {
    PyEq(FieldOf(es, 11), s.index) && PyEq(FieldOf(es, 1), id) && FieldOf(es, 2) == Bytes(prev)
  }

  /** What the walk finds wrong with the fields, before asking for trust. */
  function FieldViolations(s: Signer, es: seq<Entry>, body: BodyRead, id: nat, prev: Digest): seq<SignedViolation> {
    var here := AtRecord(Position(s.index, id));
    (if body.BodyBad? then [SignedViolation(body.kind, here)] else [])
    + When(FieldOf(es, 9) != Bytes(s.keyId), KeyIdMismatch, here)
    + When(!PyEq(FieldOf(es, 12), ALG_ED25519), AlgorithmMismatch, here)
    + When(!ChainOk(es, s, id, prev), ChainBreak, here)
  }

  function TrustOf(x: Context, s: Signer, id: nat, hash: Digest): Option<Rejection> {
    Accept(x.ev, s.keyId, NsRecord, SignedRecord(s.logId, s.index, id, hash))
  }

  function RejectionKind(r: Rejection): SignedKind { if r == HeadMismatch then CheckpointMismatch else Rejected(r) }

  /** The signing time, if it can be read. */
  function MsOf(c: Scheme, es: seq<Entry>): Option<int> {
    var ts := FieldOf(es, 3);
    if ts.Text? then c.toMs(ts.utf8) else None
  }

  const DRIFT_MS := 60_000

  /** A record whose signature and envelope are good. */
  function StepFields(x: Context, s: Signer, raw: Raw, es: seq<Entry>, t: InSegment): InSegment {
    var here, pos, hash := AtRecord(Position(s.index, t.id)), Position(s.index, t.id), RecordHash(x.c, raw.envelope);
    var w, event := t.walk, FieldOf(es, 7);
    var body := ReadBody(x.c, raw.body, FieldOf(es, 13));
    var rollover := if event == Finalize() then CheckRollover(body, t.id, FieldOf(es, 2)) else RolloverGood;
    var ms := MsOf(x.c, es);
    if body.BodyRaises? || rollover.RolloverRaises? || ms.None? then t.(walk := w.(raised := true))
    else
      var vs := FieldViolations(s, es, body, t.id, t.prev);
      var asked := x.ev.hasPins && vs == [];
      var rejected := if asked then TrustOf(x, s, t.id, hash) else None;
      var all := vs
        + (if rejected.Some? then [SignedViolation(RejectionKind(rejected.value), here)] else [])
        + When(Structural(event) && raw.body.None?, RecordCorrupt, here)
        + When(rollover.RolloverBad?, RecordCorrupt, here)
        + When(w.sealed, SealedLogExtended, here)
        + When(w.lastMs.Some? && ms.value - w.lastMs.value < -DRIFT_MS, TimestampRegression, here);
      var w' := w.(trusted := w.trusted || (asked && rejected.None?),
                   sealed := w.sealed || event == Seal(),
                   lastMs := ms,
                   positions := w.positions[pos := Found(hash, w.count)],
                   last := Some(LastRecord(pos, event)),
                   elided := if raw.body.None? then w.elided + [pos] else w.elided);
      InSegment(w'.Violate(all), hash, t.id + 1, if event == Finalize() then Some(t.id) else None)
  }

  /** One more record seen. */
  function Seen(x: Context, s: Signer, t: InSegment): SignedWalk {
    t.walk.(count := t.walk.count + 1, afterHead := t.walk.afterHead + if AfterHead(x, Position(s.index, t.id)) then 1
        else 0)
  }

  /** One framed record. */
  function StepRecord(x: Context, s: Signer, raw: Raw, t: InSegment): InSegment {
    var pos, w := Position(s.index, t.id), Seen(x, s, t);
    if t.finalized.Some? then
      t.(walk := w.Violate([SignedViolation(RecordCorrupt, AtRecord(Position(s.index, t.finalized.value)))]),
          finalized := None)
    else if x.c.verify(s.publicKey, raw.envelope, raw.signature).Some? then
      t.(walk := w.Violate([SignedViolation(SignatureInvalid, AtRecord(pos))]), prev := RecordHash(x.c, raw.envelope),
          id := t.id + 1)
    else
      match EnvelopeOf(raw.envelope)
      case None =>
        t.(walk := w.Violate([SignedViolation(RecordCorrupt, AtRecord(pos))]), prev := RecordHash(x.c, raw.envelope),
            id := t.id + 1)
      case Some(es) => StepFields(x, s, raw, es, t.(walk := w))
  }

  /** An unreadable rest of a file: tolerated after the attested head. */
  function StepTorn(x: Context, s: Signer, t: InSegment): InSegment {
    var pos := Position(s.index, t.id);
    t.(walk := if AfterHead(x, pos) then t.walk.Warn(TornTailAfterHead)
               else t.walk.Violate([SignedViolation(RecordCorrupt, AtRecord(pos))]))
  }

  function WalkFrames(x: Context, s: Signer, data: bytes, offset: nat, t: InSegment): InSegment
    decreases |data| - offset
  {
    if t.walk.Halted() then t
    else
      match ReadSigned(data, offset)
      case End => t
      case Record(raw, end) => WalkFrames(x, s, data, end, StepRecord(x, s, raw, t))
      case _ => StepTorn(x, s, t)
  }

  /** A last segment without records. */
  function UnsignedTail(w: SignedWalk, n: nat): SignedWalk {
    var u := w.Warn(UnsignedLastSegment);
    if w.sealed then u.Violate([SignedViolation(SealedLogExtended, AtSegment(n))])
    else if w.last.Some? && w.last.value.event == Finalize() then
      NoSuccessor(u)
    else u
  }

  function NoSuccessor(w: SignedWalk): SignedWalk {
    w.Warn(RolledOverWithoutSuccessor).(rolledNoSuccessor := true)
  }

  /** After the records of a segment. */
  function CloseSegment(t: InSegment, n: nat, isLast: bool): SignedWalk {
    var w := t.walk;
    if w.raised then w
    else
      var w1 := if t.id == 0 && n > 0 && isLast then UnsignedTail(w, n) else w;
      if t.finalized.Some? && isLast then NoSuccessor(w1) else w1
  }

  // ---- one header ----

  /** What is wrong with the header of segment `n`, or its signer. */
  function CheckSignedHeader(x: Context, w: SignedWalk, n: nat, b: bytes, prevFinal: Digest)
      : (r: Result<Signer, SignedKind>)
    ensures r.Ok? ==> |b| >= SIGNED_HEADER_LEN && r.value.index == n
  {
    if |b| < 12 || b[..4] != Magic() then Err(HeaderCorrupt)
    else if FromLe(b[4..6]) != SIGNED_VERSION then Err(if FromLe(b[4..6]) == 1 && n > 0 then FormatDowngrade
        else UnknownVersion)
    else if FromLe(b[8..10]) != ALG_ED25519 then Err(UnsupportedAlgorithm)
    else if |b| < SIGNED_HEADER_LEN || FromLe(b[124..128]) != x.c.crc32(b[..HASHED_LEN]) then Err(HeaderCorrupt)
    else
      var h := SignedFields(b);
      var s := Signer(n, h.logId, h.keyId, h.publicKey);
      if h.reserved != 0 then Err(HeaderCorrupt)
      else if !x.c.strong(h.publicKey) then Err(SignatureInvalid)
      else if KeyIdOf(x.c, h.publicKey) != h.keyId then Err(KeyIdMismatch)
      else if w.genesis.Some? && n > 0 && h.logId != w.genesis.value.logId then Err(LogIdMismatch)
      else if w.genesis.Some? && n > 0 && h.keyId != w.genesis.value.keyId then Err(KeyIdMismatch)
      else if h.index != n then Err(SegmentDiscontinuity)
      else if n == 0 && h.prevFinal != ZERO_DIGEST then Err(HeaderCorrupt)
      else if n > 0 && h.prevFinal != prevFinal then Err(SegmentDiscontinuity)
      else Ok(s)
  }

  /** Segment 0 names the log and its signer; a pinned set must know it. */
  function EnterLog(x: Context, s: Signer, w: SignedWalk): SignedWalk {
    if s.index != 0 then w
    else
      var w' := w.(genesis := Some(s));
      if x.expectLogId.Some? && x.expectLogId.value != s.logId
          then w'.Violate([SignedViolation(LogIdMismatch, AtSegment(0))])
      else if x.ev.hasPins && !InScope(x.ev.entries, s.keyId, NsRecord) then
        w'.Violate([SignedViolation(UntrustedSigner, AtSegment(0))])
      else w'
  }

  // ---- the whole directory ----

  /** Segments `i` and later; `had` says whether the one before held any
      record. */
  function WalkSegments(x: Context, dir: seq<SegFile>, i: nat, prevFinal: Digest, had: bool, w: SignedWalk): SignedWalk
    requires i <= |dir|
    decreases |dir| - i
  {
    if i == |dir| || w.Halted() then w
    else
      var n, b := dir[i].index, dir[i].data;
      if n != i then w.Violate([SignedViolation(SegmentDiscontinuity, AtSegment(i))])
      else if n > 0 && !had then w.Violate([SignedViolation(SegmentDiscontinuity, AtSegment(n))])
      else
        match CheckSignedHeader(x, w, n, b, prevFinal)
        case Err(kind) => w.Violate([SignedViolation(kind, AtSegment(n))])
        case Ok(s) =>
          var entered := EnterLog(x, s, w);
          if entered.stop then entered
          else
            var t := WalkFrames(x, s, b, SIGNED_HEADER_LEN,
                InSegment(entered, HeaderHash(x.c, b[..HASHED_LEN]), 0, None));
            WalkSegments(x, dir, i + 1, t.prev, t.id > 0, CloseSegment(t, n, i == |dir| - 1))
  }

  predicate Least(k: KeyId, s: set<KeyId>) { k in s && forall j :: j in s && j != k ==> LexLess(k, j) }

  lemma LeastWith(s: set<KeyId>, k: KeyId, m: KeyId)
    requires k in s && Least(m, s - {k})
    ensures Least(if LexLess(k, m) then k else m, s)
  {
    hide LexLess;
    LexStrict(k, m);
    if LexLess(k, m) {
      forall j | j in s && j != k ensures LexLess(k, j) {
        if j != m {
          LexTransitive(k, m, j);
        }
      }
    }
  }

  lemma LeastKey(s: set<KeyId>)
    requires s != {}
    ensures exists k :: Least(k, s)
  {
    hide LexLess;
    var k :| k in s;
    if s - {k} == {} {
      forall j | j in s ensures j == k {
        assert j != k ==> j in s - {k};
      }
      assert Least(k, s);
    } else {
      LeastKey(s - {k});
      var m :| Least(m, s - {k});
      LeastWith(s, k, m);
    }
  }

  lemma OneLeast(s: set<KeyId>)
    ensures forall k, m :: Least(k, s) && Least(m, s) ==> k == m
  {
    hide LexLess;
    forall k, m | Least(k, s) && Least(m, s) ensures k == m {
      LexStrict(k, m);
    }
  }

  /** The keys of a set, sorted. */
  function SortedKeys(s: set<KeyId>): (ks: seq<KeyId>)
    ensures |ks| == |s|
  {
    if s == {} then []
    else
      LeastKey(s);
      OneLeast(s);
      var k :| Least(k, s);
      [k] + SortedKeys(s - {k})
  }

  function EquivocationsOf(ks: seq<KeyId>): (vs: seq<SignedViolation>)
    ensures |vs| == |ks|
  {
    if ks == [] then [] else [SignedViolation(TransitionEquivocation, AtKey(ks[0]))] + EquivocationsOf(ks[1..])
  }

  function Equivocations(ev: Evaluation): (vs: seq<SignedViolation>)
    ensures vs == [] <==> ev.equivocal == {}
  {
    EquivocationsOf(SortedKeys(ev.equivocal))
  }

  /** The walk's start: equivocations are violations that do not stop it. */
  function StartWalk(x: Context): SignedWalk {
    SignedWalk(Equivocations(x.ev), [], false, false, false, None, false, None, map[], 0, None, [], 0, false)
  }

  /** Heads named by a retirement or revocation of the signer must be in the
      log. */
  function MissingHeads(heads: seq<NamedHead>, logId: bytes, positions: map<Position, Found>): seq<SignedViolation> {
    if heads == [] then []
    else
      var h := heads[0];
      var pos := Position(h.segment, h.recordId);
      var got := if pos in positions then Some(positions[pos]) else None;
      var fine := h.logId != logId || (got.Some? && (got.value.hash != h.recordHash
          || got.value.count == h.recordCount));
      When(!fine, CheckpointMismatch, AtRecord(pos)) + MissingHeads(heads[1..], logId, positions)
  }

  function NamedHeads(ev: Evaluation, kid: KeyId): seq<NamedHead> {
    (if kid in ev.retired then ev.retired[kid].heads else []) + (if kid in ev.cuts then ev.cuts[kid].heads else [])
  }

  function CheckAttested(a: Attested, g: Signer, positions: map<Position, Found>): seq<SignedViolation> {
    var pos := Position(a.segment, a.recordId);
    if a.keyId != g.keyId || a.logId != g.logId then [SignedViolation(CheckpointMismatch, AtSegment(0))]
    else if pos !in positions then [SignedViolation(CheckpointTruncated, AtRecord(pos))]
    else When(positions[pos].hash != a.recordHash || positions[pos].count != a.recordCount, CheckpointMismatch,
        AtRecord(pos))
  }

  datatype SignedVerdict = Violated | Verified | SelfConsistent

  datatype SignedReport = SignedReport(
    verdict: SignedVerdict, violations: seq<SignedViolation>, warnings: seq<Warning>, headAnchored: bool,
    elided: seq<Position>, afterHead: nat, count: nat)

  function Conclude(x: Context, w: SignedWalk): SignedReport {
    var named :=
      if x.ev.hasPins && w.genesis.Some? && (!w.stop || w.violations == [])
      then MissingHeads(NamedHeads(x.ev, w.genesis.value.keyId), w.genesis.value.logId, w.positions) else [];
    var attested := if x.attested.Some? && w.genesis.Some?
        then CheckAttested(x.attested.value, w.genesis.value, w.positions) else [];
    var sealed := w.last.Some? && w.last.value.event == Seal();
    var anchored := sealed || (x.attested.Some? && w.genesis.Some? && attested == []);
    var all := w.violations + named + attested;
    SignedReport(
      if all != [] then Violated else if w.trusted then Verified else SelfConsistent,
      all, w.warnings, anchored && !(w.rolledNoSuccessor && x.attested.None?), w.elided, w.afterHead, w.count)
  }

  /** A head of this log with no record in its place, or one of the same hash
      but another count. */
  predicate Unmatched(h: NamedHead, logId: bytes, positions: map<Position, Found>) {
    var pos := Position(h.segment, h.recordId);
    && h.logId == logId
    && (pos in positions ==> positions[pos].hash == h.recordHash && positions[pos].count != h.recordCount)
  }

  function MismatchAt(h: NamedHead): SignedViolation {
    SignedViolation(CheckpointMismatch, AtRecord(Position(h.segment, h.recordId)))
  }

  lemma FirstMissing(heads: seq<NamedHead>, logId: bytes, positions: map<Position, Found>)
    requires heads != []
    ensures MissingHeads(heads, logId, positions)
         == (if Unmatched(heads[0], logId, positions) then [MismatchAt(heads[0])] else [])
            + MissingHeads(heads[1..], logId, positions)
  {
  }

  lemma {:induction false} MissingHeadsAre(heads: seq<NamedHead>, logId: bytes, positions: map<Position, Found>,
      v: SignedViolation)
    ensures v in MissingHeads(heads, logId, positions) <==> exists h ::
      h in heads && Unmatched(h, logId, positions) && v == MismatchAt(h)
  {
    hide Unmatched, MismatchAt;
    if heads != [] {
      MissingHeadsAre(heads[1..], logId, positions, v);
      FirstMissing(heads, logId, positions);
      assert forall h :: h in heads <==> h == heads[0] || h in heads[1..];
    }
  }

  /** After a walk that was not stopped, exactly the named heads that are
      missing or miscounted are reported; one whose place holds another record
      is not. */
  lemma NamedHeadsReported(x: Context, w: SignedWalk, v: SignedViolation)
    requires x.ev.hasPins && w.genesis.Some? && (!w.stop || w.violations == [])
    ensures var g := w.genesis.value;
      v in Conclude(x, w).violations <==>
      || v in w.violations
      || (exists h :: h in NamedHeads(x.ev, g.keyId) && Unmatched(h, g.logId, w.positions) && v == MismatchAt(h))
      || (x.attested.Some? && v in CheckAttested(x.attested.value, g, w.positions))
  {
    hide CheckAttested, NamedHeads, MissingHeads, Unmatched, MismatchAt, Seal;
    var g := w.genesis.value;
    var heads := NamedHeads(x.ev, g.keyId);
    var named := MissingHeads(heads, g.logId, w.positions);
    var attested := if x.attested.Some? then CheckAttested(x.attested.value, g, w.positions) else [];
    MissingHeadsAre(heads, g.logId, w.positions, v);
    AllViolations(x, w);
    InThree(w.violations, named, attested, v);
  }

  lemma AllViolations(x: Context, w: SignedWalk)
    requires x.ev.hasPins && w.genesis.Some? && (!w.stop || w.violations == [])
    ensures var g := w.genesis.value;
      Conclude(x, w).violations == w.violations + MissingHeads(NamedHeads(x.ev, g.keyId), g.logId, w.positions)
        + if x.attested.Some? then CheckAttested(x.attested.value, g, w.positions) else []
  {
    hide CheckAttested, NamedHeads, MissingHeads, Seal;
  }

  lemma InThree<T>(a: seq<T>, b: seq<T>, d: seq<T>, x: T)
    ensures x in a + b + d <==> x in a || x in b || x in d
  {
  }

  datatype OracleResult = Done(report: SignedReport) | NoSegments | IsHmacLog | IsNewerFormat | Raises

  /** `oracle_log`. */
  function OracleLog(x: Context, dir: seq<SegFile>): OracleResult {
    if dir == [] then NoSegments
    else
      var first := if dir[0].index == 0 then dir[0].data else [];
      var version := if |first| >= 6 && first[..4] == Magic() then FromLe(first[4..6]) else SIGNED_VERSION;
      if version == 1 then IsHmacLog
      else if version > SIGNED_VERSION then IsNewerFormat
      else
        var w := WalkSegments(x, dir, 0, ZERO_DIGEST, true, StartWalk(x));
        if w.raised then Raises else Done(Conclude(x, w))
  }

  predicate NoViolation(x: Context, dir: seq<SegFile>)
  {
    OracleLog(x, dir).Done? && OracleLog(x, dir).report.violations == []
  }

  // ---- the loops ----

  method VerifyFrames(x: Context, s: Signer, data: bytes, start: InSegment) returns (t: InSegment)
    ensures t == WalkFrames(x, s, data, SIGNED_HEADER_LEN, start)
  {
    hide ReadSigned, StepRecord, StepTorn;
    var offset: nat := SIGNED_HEADER_LEN;
    t := start;
    while offset < |data| && !t.walk.Halted()
      invariant WalkFrames(x, s, data, SIGNED_HEADER_LEN, start) == WalkFrames(x, s, data, offset, t)
      decreases |data| - offset
    {
      var read := ReadSigned(data, offset);
      if !read.Record? {
        return StepTorn(x, s, t);
      }
      t := StepRecord(x, s, read.raw, t);
      offset := read.end;
    }
  }

  method VerifySegments(x: Context, dir: seq<SegFile>) returns (w: SignedWalk)
    ensures w == WalkSegments(x, dir, 0, ZERO_DIGEST, true, StartWalk(x))
  {
    hide CheckSignedHeader, EnterLog, WalkFrames, CloseSegment, StartWalk;
    w := StartWalk(x);
    var prevFinal, hadRecords := ZERO_DIGEST, true;
    var i := 0;
    while i < |dir| && !w.Halted()
      invariant 0 <= i <= |dir|
      invariant WalkSegments(x, dir, 0, ZERO_DIGEST, true, StartWalk(x))
          == WalkSegments(x, dir, i, prevFinal, hadRecords, w)
      decreases |dir| - i
    {
      var n, b := dir[i].index, dir[i].data;
      if n != i {
        return w.Violate([SignedViolation(SegmentDiscontinuity, AtSegment(i))]);
      }
      if n > 0 && !hadRecords {
        return w.Violate([SignedViolation(SegmentDiscontinuity, AtSegment(n))]);
      }
      var header := CheckSignedHeader(x, w, n, b, prevFinal);
      if header.Err? {
        return w.Violate([SignedViolation(header.error, AtSegment(n))]);
      }
      w := EnterLog(x, header.value, w);
      if w.stop {
        return w;
      }
      var t := VerifyFrames(x, header.value, b, InSegment(w, HeaderHash(x.c, b[..HASHED_LEN]), 0, None));
      prevFinal, hadRecords := t.prev, t.id > 0;
      w := CloseSegment(t, n, i == |dir| - 1);
      i := i + 1;
    }
  }

  method VerifySignedLog(x: Context, dir: seq<SegFile>) returns (r: OracleResult)
    requires Ascending(dir)
    ensures r == OracleLog(x, dir)
  {
    hide Conclude, WalkSegments, StartWalk;
    if dir == [] {
      return NoSegments;
    }
    var first := if dir[0].index == 0 then dir[0].data else [];
    if |first| >= 6 && first[..4] == Magic() {
      var version := FromLe(first[4..6]);
      if version == 1 {
        return IsHmacLog;
      }
      if version > SIGNED_VERSION {
        return IsNewerFormat;
      }
    }
    var w := VerifySegments(x, dir);
    return if w.raised then Raises else Done(Conclude(x, w));
  }
}
