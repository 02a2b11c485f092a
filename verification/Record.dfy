/** The v0.1 record: a ten-entry map with keys 1 to 10. One encoder, and the
    three decoders that read it: the strict reader, the lenient verifier, and
    crash recovery. */
module Record {
  import opened Bytes
  import opened Sorting
  import opened Cbor
  import opened CborMaps
  import opened Payload

  datatype RecordInput = RecordInput(
    tsWall: bytes, tsMonoDelta: nat, actor: bytes, event: bytes, payload: seq<Member>, schemaVersion: byte)

  const TS_LEN := 24

  /** What the source's types say of an input, and payload nesting within the
      decoder's limit, which `append` does not check. */
  predicate WfInput(input: RecordInput) {
    && IsText(input.tsWall) && IsText(input.actor) && IsText(input.event)
    && input.tsMonoDelta < U64_END
    && PWf(PMap(input.payload), 1)
  }

  predicate IsText(s: bytes) { |s| < U64_END && ValidUtf8(s) }

  /** `validate_input`. */
  predicate Accepted(input: RecordInput) {
    |input.tsWall| == TS_LEN && input.tsWall[TS_LEN - 1] == 0x5a
  }

  // ---- encode_record_payload ----

  function RecordItems(keyId: Digest, input: RecordInput, session: SessionId, prev: Digest, recordId: nat)
      : (items: seq<IntItem>)
    ensures |items| == 10
  {
    [ IntItem(1, Head(0, recordId)),
      IntItem(2, Head(2, |prev|) + prev),
      IntItem(3, Tstr(input.tsWall)),
      IntItem(4, Head(0, input.tsMonoDelta)),
      IntItem(5, Head(2, |session|) + session),
      IntItem(6, Tstr(input.actor)),
      IntItem(7, Tstr(input.event)),
      IntItem(8, EncodePayload(PMap(input.payload))),
      IntItem(9, Head(2, |keyId|) + keyId),
      IntItem(10, Head(0, input.schemaVersion)) ]
  }

  /** The bytes that are tagged and written. */
  function RecordBytes(keyId: Digest, input: RecordInput, session: SessionId, prev: Digest, recordId: nat): bytes {
    SortedMap(MapSeq(IntPair, RecordItems(keyId, input, session, prev, recordId)))
  }

  // ---- the value it stands for ----

  function RecordValues(keyId: Digest, input: RecordInput, session: SessionId, prev: Digest, recordId: nat)
      : (vs: seq<Value>)
    ensures |vs| == 10
  {
    [ Uint(recordId), Bytes(prev), Text(input.tsWall), Uint(input.tsMonoDelta), Bytes(session),
      Text(input.actor), Text(input.event), ToValue(PMap(input.payload)), Bytes(keyId), Uint(input.schemaVersion) ]
  }

  /** Values under the keys 1, 2, 3, ... */
  function Numbered(vs: seq<Value>): (es: seq<Entry>)
    ensures |es| == |vs|
  {
    seq(|vs|, i requires 0 <= i < |vs| => Entry(Uint(i + 1), vs[i]))
  }

  function RecordValue(keyId: Digest, input: RecordInput, session: SessionId, prev: Digest, recordId: nat): Value {
    Map(Numbered(RecordValues(keyId, input, session, prev, recordId)))
  }

  lemma NumberedSorted(vs: seq<Value>)
    requires |vs| < 24
    ensures Sorted(KeyLess, EntryKey, Numbered(vs))
  {
    forall i, j | 0 <= i < j < |vs| ensures KeyLess(EntryKey(Numbered(vs)[i]), EntryKey(Numbered(vs)[j])) {
      IntKeyOrders(i + 1, j + 1);
    }
  }

  /** The bytes written are the encoding of that value: the ten keys are
      already in canonical order. */
  lemma RecordBytesIsEncoding(keyId: Digest, input: RecordInput, session: SessionId, prev: Digest, recordId: nat)
    ensures RecordBytes(keyId, input, session, prev, recordId)
        == Encode(RecordValue(keyId, input, session, prev, recordId))
  {
    hide Encode, EncodePayload, ToValue, Head, Sort;
    var vs := RecordValues(keyId, input, session, prev, recordId);
    var items := RecordItems(keyId, input, session, prev, recordId);
    RecordItemsAreValues(keyId, input, session, prev, recordId);
    var es := Numbered(vs);
    assert MapSeq(IntPair, items) == MapSeq(EntryPair, es) by {
      forall i | 0 <= i < 10 ensures IntPair(items[i]) == EntryPair(es[i]) {
        UintEncoding(i + 1);
      }
    }
    SortedMapIsEncoding(es);
    NumberedSorted(vs);
    OrdersAreStrict();
    SortDistinctKeys(es);
    SortSorts(KeyLess, EntryKey, es);
    SortedUnique(KeyLess, EntryKey, Sort(KeyLess, EntryKey, es), es);
  }

  lemma UintEncoding(n: nat)
    ensures Encode(Uint(n)) == Head(0, n)
  {
  }

  lemma SortDistinctKeys(es: seq<Entry>)
    requires Sorted(KeyLess, EntryKey, es)
    ensures DistinctKeys(EntryKey, es)
  {
    OrdersAreStrict();
    forall i, j | 0 <= i < j < |es| ensures EntryKey(es[i]) != EntryKey(es[j]) {
      assert KeyLess(EntryKey(es[i]), EntryKey(es[j]));
    }
  }

  lemma RecordItemsAreValues(keyId: Digest, input: RecordInput, session: SessionId, prev: Digest, recordId: nat)
    ensures forall i :: 0 <= i < 10 ==>
      RecordItems(keyId, input, session, prev, recordId)[i]
      == IntItem(i + 1, Encode(RecordValues(keyId, input, session, prev, recordId)[i]))
  {
    hide EncodePayload, ToValue, Head;
    EncodeIsEncoding(PMap(input.payload));
  }

  /** Within the depth limit, the decoder accepts every record written. */
  lemma RecordDecodes(keyId: Digest, input: RecordInput, session: SessionId, prev: Digest, recordId: nat)
    requires WfInput(input) && recordId < U64_END
    ensures Decode(RUST_LIMITS, RecordBytes(keyId, input, session, prev, recordId))
         == Ok(RecordValue(keyId, input, session, prev, recordId))
  {
    var vs := RecordValues(keyId, input, session, prev, recordId);
    var v := RecordValue(keyId, input, session, prev, recordId);
    RecordBytesIsEncoding(keyId, input, session, prev, recordId);
    assert Wf(RUST_LIMITS, v, 0) by {
      ValuesWf(keyId, input, session, prev, recordId);
      NumberedSorted(vs);
      forall e | e in Numbered(vs) ensures WfEntry(RUST_LIMITS, e, 1) {
        var i :| 0 <= i < 10 && Numbered(vs)[i] == e;
        assert Wf(RUST_LIMITS, vs[i], 1);
      }
      SortedEntriesWf(RUST_LIMITS, None, Numbered(vs), 1);
    }
    DecodeIffEncode(RUST_LIMITS, RecordBytes(keyId, input, session, prev, recordId), v);
  }

  lemma ValuesWf(keyId: Digest, input: RecordInput, session: SessionId, prev: Digest, recordId: nat)
    requires WfInput(input) && recordId < U64_END
    ensures forall i :: 0 <= i < 10 ==> Wf(RUST_LIMITS, RecordValues(keyId, input, session, prev, recordId)[i], 1)
  {
    hide ToValue, PWf;
    ToValueWf(PMap(input.payload), 1);
  }

  /** A record payload starts with the head of a ten-entry map. */
  lemma RecordStart(v: Value)
    requires v.Map? && |v.entries| == 10
    ensures Encode(v) != [] && Encode(v)[0] == 0xaa
  {
  }

  // ---- field access ----

  /** The value under key `k`. A decoded map has each key at most once. */
  function Field(es: seq<Entry>, k: nat): Option<Value> {
    if es == [] then None
    else if es[|es| - 1].key == Uint(k) then Some(es[|es| - 1].value)
    else Field(es[..|es| - 1], k)
  }

  lemma {:induction false} FieldOfNumbered(vs: seq<Value>, k: nat)
    requires 1 <= k <= |vs|
    ensures Field(Numbered(vs), k) == Some(vs[k - 1])
  {
    if k < |vs| {
      FieldOfNumbered(vs[..|vs| - 1], k);
      assert Numbered(vs)[..|vs| - 1] == Numbered(vs[..|vs| - 1]);
    }
  }

  function UintOr(v: Option<Value>, default: nat): nat {
    if v.Some? && v.value.Uint? then v.value.n else default
  }

  function TextOr(v: Option<Value>, default: bytes): bytes {
    if v.Some? && v.value.Text? then v.value.utf8 else default
  }

  function DigestOr(v: Option<Value>, default: Digest): Digest {
    if v.Some? && v.value.Bytes? && |v.value.b| == 32 then v.value.b else default
  }

  function SessionOr(v: Option<Value>, default: SessionId): SessionId {
    if v.Some? && v.value.Bytes? && |v.value.b| == 16 then v.value.b else default
  }

  predicate UintKeys(es: seq<Entry>) {
    forall i :: 0 <= i < |es| ==> es[i].key.Uint?
  }

  // ---- the verifier's lenient decoder ----

  datatype LooseRecord = LooseRecord(recordId: nat, prevHash: Digest, tsWall: bytes, session: SessionId, keyId: Digest)

  /** A field that is missing or mistyped takes its default; only the shape
      of the map is an error. */
  function ReaderDecodeRecordMap(v: Value): Option<LooseRecord> {
    if !v.Map? || |v.entries| != 10 || !UintKeys(v.entries) then None
    else
      var es := v.entries;
      Some(LooseRecord(
        UintOr(Field(es, 1), 0), DigestOr(Field(es, 2), ZERO_DIGEST), TextOr(Field(es, 3), []),
        SessionOr(Field(es, 5), NO_SESSION), DigestOr(Field(es, 9), ZERO_DIGEST)))
  }

  // ---- crash recovery's decoder ----

  datatype RecoveredRecord = RecoveredRecord(recordId: nat, prevHash: Digest, tsWall: bytes, tsMonoDelta: nat,
      event: bytes)

  function ParseRecoveredRecord(v: Value): Option<RecoveredRecord> {
    if !v.Map? || !UintKeys(v.entries) then None
    else
      var id, prev := Field(v.entries, 1), Field(v.entries, 2);
      var ts, mono, event := Field(v.entries, 3), Field(v.entries, 4), Field(v.entries, 7);
      if !(id.Some? && id.value.Uint?) then None
      else if !(prev.Some? && prev.value.Bytes? && |prev.value.b| == 32) then None
      else if !(ts.Some? && ts.value.Text? && mono.Some? && mono.value.Uint?) then None
      else if !(event.Some? && event.value.Text?) then None
      else Some(RecoveredRecord(id.value.n, prev.value.b, ts.value.utf8, mono.value.n, event.value.utf8))
  }

  // ---- the reader's strict decoder ----

  datatype RecordFields = RecordFields(
    recordId: nat, prevHash: Digest, tsWall: bytes, tsMonoDelta: nat, session: SessionId, actor: bytes,
    event: bytes, payload: seq<Member>, keyId: Digest, schemaVersion: byte)

  /** The value has the type key `k` requires; no other key exists. */
  predicate FieldOk(k: nat, v: Value) {
    if k == 1 || k == 4 then v.Uint?
    else if k == 2 || k == 9 then v.Bytes? && |v.b| == 32
    else if k == 5 then v.Bytes? && |v.b| == 16
    else if k == 3 || k == 6 || k == 7 then v.Text?
    else if k == 8 then v.Map? && FromValue(v).Some?
    else k == 10 && v.Uint? && v.n < 256
  }

  predicate EntryOk(e: Entry) { e.key.Uint? && FieldOk(e.key.n, e.value) }

  predicate AllOk(es: seq<Entry>) { forall i :: 0 <= i < |es| ==> EntryOk(es[i]) }

  predicate AllPresent(es: seq<Entry>) { forall k :: 1 <= k <= 10 ==> Field(es, k).Some? }

  /** Ten entries, each of a known key and its type, none missing. */
  function DecodeRecordMap(v: Value): Option<RecordFields> {
    if !v.Map? || |v.entries| != 10 then None
    else if !AllOk(v.entries) || !AllPresent(v.entries) then None
    else
      var es := v.entries;
      Some(RecordFields(
        UintOr(Field(es, 1), 0), DigestOr(Field(es, 2), ZERO_DIGEST), TextOr(Field(es, 3), []),
        UintOr(Field(es, 4), 0), SessionOr(Field(es, 5), NO_SESSION), TextOr(Field(es, 6), []),
        TextOr(Field(es, 7), []), PayloadOr(Field(es, 8)), DigestOr(Field(es, 9), ZERO_DIGEST),
        UintOr(Field(es, 10), 0) % 256))
  }

  function PayloadOr(v: Option<Value>): seq<Member> {
    if v.Some? && v.value.Map? && FromValue(v.value).Some? && FromValue(v.value).value.PMap?
    then FromValue(v.value).value.members
    else []
  }

  /** Every decoder reads back what was written. */
  lemma RecordReadsBack(keyId: Digest, input: RecordInput, session: SessionId, prev: Digest, recordId: nat)
    requires WfInput(input)
    ensures var v := RecordValue(keyId, input, session, prev, recordId);
      && ReaderDecodeRecordMap(v) == Some(LooseRecord(recordId, prev, input.tsWall, session, keyId))
      && ParseRecoveredRecord(v) == Some(RecoveredRecord(recordId, prev, input.tsWall, input.tsMonoDelta, input.event))
      && DecodeRecordMap(v) == Some(RecordFields(recordId, prev, input.tsWall, input.tsMonoDelta, session, input.actor,
                                                 input.event, input.payload, keyId, input.schemaVersion))
  {
    hide ToValue, FromValue, Field;
    var vs := RecordValues(keyId, input, session, prev, recordId);
    forall k | 1 <= k <= 10 ensures Field(Numbered(vs), k) == Some(vs[k - 1]) {
      FieldOfNumbered(vs, k);
    }
    FromToValue(PMap(input.payload), 1);
    PayloadIsMap(input.payload);
    forall i | 0 <= i < 10 ensures EntryOk(Numbered(vs)[i]) {
      assert FieldOk(i + 1, vs[i]);
    }
  }

  lemma PayloadIsMap(ms: seq<Member>)
    ensures ToValue(PMap(ms)).Map?
  {
  }
}
