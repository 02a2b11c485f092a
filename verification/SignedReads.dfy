/** The verifier reads back what the signed writer wrote, field by field. */
module SignedReads {
  import opened Bytes
  import opened Sorting
  import opened Cbor
  import opened CborMaps
  import opened Payload
  import opened Record
  import opened RecordSize
  import opened HmacWriter
  import opened IntMaps
  import opened SignedFormat
  import opened SignedVerifier
  import opened SignedWriter

  lemma {:induction false} KeyedPyField(ks: seq<nat>, vs: seq<Value>, i: nat)
    requires |ks| == |vs| && Increasing(ks) && i < |ks|
    ensures PyField(KeyedEntries(ks, vs), ks[i]) == Some(vs[i]) && FieldOf(KeyedEntries(ks, vs), ks[i]) == vs[i]
  {
    var n := |ks| - 1;
    if i < n {
      KeyedPyField(ks[..n], vs[..n], i);
      assert KeyedEntries(ks, vs)[..n] == KeyedEntries(ks[..n], vs[..n]);
    }
  }

  // ---- envelopes ----

  function EnvelopeValues(w: Identity, id: nat, prev: Digest, ts: bytes, mono: nat, event: bytes, schema: nat,
      seg: nat, bodyHash: Digest): (vs: seq<Value>)
    ensures |vs| == 11
  {
    [ Uint(id), Bytes(prev), Text(ts), Uint(mono), Bytes(w.session), Text(event), Bytes(w.KeyId()), Uint(schema),
        Uint(seg),
      Uint(ALG_ED25519), Bytes(bodyHash) ]
  }

  function EnvelopeEntries(w: Identity, id: nat, prev: Digest, ts: bytes, mono: nat, event: bytes, schema: nat,
      seg: nat, bodyHash: Digest): seq<Entry>
  {
    KeyedEntries(EnvelopeKeyList(), EnvelopeValues(w, id, prev, ts, mono, event, schema, seg, bodyHash))
  }

  /** What the fields of an envelope must satisfy. */
  predicate EnvelopeFit(id: nat, ts: bytes, mono: nat, event: bytes, schema: nat, seg: nat) {
    && id < U64_END && mono < U64_END && schema < U64_END && seg < INDEX_END
    && IsText(ts) && |ts| <= 64 && 1 <= |event| <= 128 && forall i :: 0 <= i < |event| ==> Printable(event[i])
  }

  lemma EnvelopeItemsAre(w: Identity, id: nat, prev: Digest, ts: bytes, mono: nat, event: bytes, schema: nat, seg: nat,
      bodyHash: Digest)
    ensures EnvelopeItems(w, id, prev, ts, mono, event, schema, seg, bodyHash)
         == KeyedItems(EnvelopeKeyList(), EnvelopeValues(w, id, prev, ts, mono, event, schema, seg, bodyHash))
  {
    hide Head;
  }

  lemma PrintableText(event: bytes)
    requires |event| <= 128 && forall i :: 0 <= i < |event| ==> Printable(event[i])
    ensures IsText(event)
  {
    AsciiIsUtf8(event);
  }

  lemma EnvelopeValuesWf(w: Identity, id: nat, prev: Digest, ts: bytes, mono: nat, event: bytes, schema: nat, seg: nat,
      bodyHash: Digest)
    requires EnvelopeFit(id, ts, mono, event, schema, seg)
    ensures forall i ::
      0 <= i < 11 ==> Wf(ORACLE_LIMITS, EnvelopeValues(w, id, prev, ts, mono, event, schema, seg, bodyHash)[i], 1)
  {
    hide ValidUtf8;
    PrintableText(event);
  }

  lemma EnvelopeDecodes(w: Identity, id: nat, prev: Digest, ts: bytes, mono: nat, event: bytes, schema: nat, seg: nat,
      bodyHash: Digest)
    requires EnvelopeFit(id, ts, mono, event, schema, seg)
    ensures Decode(ORACLE_LIMITS, EnvelopeBytes(w, id, prev, ts, mono, event, schema, seg, bodyHash))
         == Ok(Map(EnvelopeEntries(w, id, prev, ts, mono, event, schema, seg, bodyHash)))
  {
    hide Decode, SortedMap, MapSeq, IntPair, EnvelopeItems, EnvelopeValues, KeyedItems, KeyedEntries, EnvelopeKeyList;
    EnvelopeItemsAre(w, id, prev, ts, mono, event, schema, seg, bodyHash);
    EnvelopeValuesWf(w, id, prev, ts, mono, event, schema, seg, bodyHash);
    KeyedMapDecodes(ORACLE_LIMITS, EnvelopeKeyList(),
        EnvelopeValues(w, id, prev, ts, mono, event, schema, seg, bodyHash));
  }

  /** Each key of the envelope, in its place. */
  lemma EnvelopeFields(w: Identity, id: nat, prev: Digest, ts: bytes, mono: nat, event: bytes, schema: nat, seg: nat,
      bodyHash: Digest)
    ensures var es := EnvelopeEntries(w, id, prev, ts, mono, event, schema, seg, bodyHash);
      && FieldOf(es, 1) == Uint(id) && FieldOf(es, 2) == Bytes(prev) && FieldOf(es, 3) == Text(ts)
          && FieldOf(es, 7) == Text(event)
      && FieldOf(es, 9) == Bytes(w.KeyId()) && FieldOf(es, 11) == Uint(seg) && FieldOf(es, 12) == Uint(ALG_ED25519)
      && FieldOf(es, 13) == Bytes(bodyHash) && EnvelopeKeys(es)
  {
    hide PyField, FieldOf, KeyedEntries;
    var ks, vs := EnvelopeKeyList(), EnvelopeValues(w, id, prev, ts, mono, event, schema, seg, bodyHash);
    forall i | 0 <= i < 11
      ensures FieldOf(KeyedEntries(ks, vs), ks[i]) == vs[i] && PyField(KeyedEntries(ks, vs), ks[i]) == Some(vs[i]) {
      KeyedPyField(ks, vs, i);
    }
    assert ks[0] == 1 && ks[1] == 2 && ks[2] == 3 && ks[5] == 7 && ks[6] == 9 && ks[8] == 11 && ks[9] == 12
        && ks[10] == 13;
    EnvelopeKeysOk(ks, vs);
  }

  lemma EnvelopeKeysOk(ks: seq<nat>, vs: seq<Value>)
    requires ks == EnvelopeKeyList() && |vs| == 11
    requires forall i :: 0 <= i < 11 ==> PyField(KeyedEntries(ks, vs), ks[i]) == Some(vs[i])
    ensures EnvelopeKeys(KeyedEntries(ks, vs))
  {
    hide PyField;
    var es := KeyedEntries(ks, vs);
    forall k | 1 <= k <= 13 && EnvelopeKey(k) ensures PyField(es, k).Some? {
      var i := if k <= 5 then k - 1 else if k == 7 then 5 else k - 3;
      assert ks[i] == k;
    }
  }

  lemma EnvelopeReads(w: Identity, id: nat, prev: Digest, ts: bytes, mono: nat, event: bytes, schema: nat, seg: nat,
      bodyHash: Digest)
    requires EnvelopeFit(id, ts, mono, event, schema, seg)
    ensures EnvelopeOf(EnvelopeBytes(w, id, prev, ts, mono, event, schema, seg, bodyHash))
         == Some(EnvelopeEntries(w, id, prev, ts, mono, event, schema, seg, bodyHash))
  {
    hide Decode, EnvelopeBytes, EnvelopeEntries, FieldOf, EnvelopeKeys, IsText;
    EnvelopeDecodes(w, id, prev, ts, mono, event, schema, seg, bodyHash);
    EnvelopeFields(w, id, prev, ts, mono, event, schema, seg, bodyHash);
  }

  /** An envelope is far below the framing limit. */
  lemma EnvelopeIsShort(w: Identity, id: nat, prev: Digest, ts: bytes, mono: nat, event: bytes, schema: nat, seg: nat,
      bodyHash: Digest)
    requires EnvelopeFit(id, ts, mono, event, schema, seg)
    ensures |EnvelopeBytes(w, id, prev, ts, mono, event, schema, seg, bodyHash)| <= MAX_ENVELOPE
  {
    hide Head, Sort, SortedMap, IsText;
    var items := EnvelopeItems(w, id, prev, ts, mono, event, schema, seg, bodyHash);
    forall i | 0 <= i < 11 ensures PairLen(MapSeq(IntPair, items)[i]) <= 150 {
      assert PairLen(IntPair(items[i])) <= 150;
    }
    PairsLenBound(MapSeq(IntPair, items), 150);
    SortedMapLen(MapSeq(IntPair, items));
  }

  // ---- bodies ----

  function BodyKeyList(): (ks: seq<nat>)
    ensures |ks| == 3 && Increasing(ks)
  {
    [6, 8, 14]
  }

  function BodyValues(actor: bytes, payload: seq<Member>, nonce: Digest): (vs: seq<Value>)
    ensures |vs| == 3
  {
    [Text(actor), ToValue(PMap(payload)), Bytes(nonce)]
  }

  function BodyEntries(actor: bytes, payload: seq<Member>, nonce: Digest): seq<Entry>
  {
    KeyedEntries(BodyKeyList(), BodyValues(actor, payload, nonce))
  }

  lemma BodyDecodes(actor: bytes, payload: seq<Member>, nonce: Digest)
    requires IsText(actor) && PWf(PMap(payload), 1)
    ensures Decode(ORACLE_LIMITS, BodyBytesOf(actor, payload, nonce)) == Ok(Map(BodyEntries(actor, payload, nonce)))
  {
    hide Decode, SortedMap, MapSeq, IntPair, KeyedEntries, ToValue, PWf;
    var vs := BodyValues(actor, payload, nonce);
    BodyItemsAre(actor, payload, nonce);
    BodyValuesWf(actor, payload, nonce);
    KeyedMapDecodes(ORACLE_LIMITS, BodyKeyList(), vs);
  }

  lemma BodyItemsAre(actor: bytes, payload: seq<Member>, nonce: Digest)
    ensures [IntItem(6, Tstr(actor)), IntItem(8, EncodePayload(PMap(payload))), IntItem(14, Head(2, |nonce|) + nonce)]
         == KeyedItems(BodyKeyList(), BodyValues(actor, payload, nonce))
  {
    hide Head, ToValue, EncodePayload;
    EncodeIsEncoding(PMap(payload));
  }

  lemma BodyValuesWf(actor: bytes, payload: seq<Member>, nonce: Digest)
    requires IsText(actor) && PWf(PMap(payload), 1)
    ensures forall i :: 0 <= i < 3 ==> Wf(ORACLE_LIMITS, BodyValues(actor, payload, nonce)[i], 1)
  {
    hide ToValue, PWf, ValidUtf8;
    ToValueWf(PMap(payload), 1);
    WfWider(RUST_LIMITS, ORACLE_LIMITS, ToValue(PMap(payload)), 1);
  }

  lemma BodyReads(c: Scheme, actor: bytes, payload: seq<Member>, nonce: Digest)
    requires IsText(actor) && PWf(PMap(payload), 1)
    ensures var body := BodyBytesOf(actor, payload, nonce);
      ReadBody(c, Some(body), Bytes(BodyHash(c, body))) == BodyFields(BodyEntries(actor, payload, nonce))
    ensures FieldOf(BodyEntries(actor, payload, nonce), 8) == ToValue(PMap(payload))
  {
    hide Decode, BodyBytesOf, PyField, KeyedEntries, ToValue, PWf, BodyHash, IsText;
    var ks, vs := BodyKeyList(), BodyValues(actor, payload, nonce);
    BodyDecodes(actor, payload, nonce);
    KeyedPyField(ks, vs, 0);
    KeyedPyField(ks, vs, 1);
    KeyedPyField(ks, vs, 2);
  }

  // ---- the finalize payload ----

  lemma {:induction false} TextFieldOf(es: seq<Entry>, k: bytes, v: Value)
    requires Entry(Text(k), v) in es && forall i, j :: 0 <= i < j < |es| ==> es[i].key != es[j].key
    ensures TextField(es, k) == Some(v)
  {
    var n := |es| - 1;
    var i :| 0 <= i < |es| && es[i] == Entry(Text(k), v);
    if i < n {
      assert es[..n][i] == es[i];
      TextFieldOf(es[..n], k, v);
    }
  }

  function FinalizeMembers(prev: Digest, id: nat): seq<Member>
  {
    [Member(FinalHashKey(), PBytes(prev)), Member(RecordsKey(), PUint(id))]
  }

  lemma FinalizeEntries(prev: Digest, id: nat)
    ensures var es := ToEntries(FinalizeMembers(prev, id));
      es == [Entry(Text(FinalHashKey()), Bytes(prev)), Entry(Text(RecordsKey()), Uint(id))]
  {
    hide FinalHashKey, RecordsKey;
    var ms := FinalizeMembers(prev, id);
    var m := ms[1];
    assert ms[1..] == [m] && [m][1..] == [];
    assert ToEntries([]) == [] && ToEntries([m]) == [ToEntry(m)] + ToEntries([]);
    assert ToEntries(ms) == [ToEntry(ms[0])] + ToEntries([m]);
    assert ToEntry(ms[0]) == Entry(Text(FinalHashKey()), Bytes(prev))
        && ToEntry(m) == Entry(Text(RecordsKey()), Uint(id));
  }

  /** Sorted or not, the two fields are found. */
  lemma FinalizePayloadFields(prev: Digest, id: nat)
    ensures var p := ToValue(PMap(FinalizeMembers(prev, id)));
      && p.Map? && TextField(p.entries, RecordsKey()) == Some(Uint(id))
          && TextField(p.entries, FinalHashKey()) == Some(Bytes(prev))
      && forall i :: 0 <= i < |p.entries| ==> Hashable(p.entries[i].key)
  {
    hide FinalHashKey, RecordsKey, Sort, KeyLess, ToEntries;
    var es := ToEntries(FinalizeMembers(prev, id));
    FinalizeEntries(prev, id);
    var s := Sort(KeyLess, EntryKey, es);
    SameElements(s, es);
    assert forall e :: e in s ==> e.key.Text?;
    TwoKeys(s, es);
    TextFieldOf(s, RecordsKey(), Uint(id));
    TextFieldOf(s, FinalHashKey(), Bytes(prev));
    forall i | 0 <= i < |s| ensures Hashable(s[i].key) {
      assert s[i] in s;
    }
  }

  lemma TwoKeys(s: seq<Entry>, es: seq<Entry>)
    requires multiset(s) == multiset(es) && |es| == 2 == |s| && es[0].key != es[1].key
    ensures s[0].key != s[1].key
  {
    var a, b := es[0], es[1];
    assert es == [a, b] && s == [s[0], s[1]];
    assert a != b && multiset(es) == multiset{a, b} && multiset(s) == multiset{s[0], s[1]};
    assert multiset{s[0], s[1]}[a] == 1 && multiset{s[0], s[1]}[b] == 1;
  }

  lemma FinalizeChecks(c: Scheme, actor: bytes, nonce: Digest, prev: Digest, id: nat)
    ensures CheckRollover(BodyFields(BodyEntries(actor, FinalizeMembers(prev, id), nonce)), id, Bytes(prev))
        == RolloverGood
  {
    hide PyField, KeyedEntries, ToValue, FinalizeMembers, TextField;
    KeyedPyField(BodyKeyList(), BodyValues(actor, FinalizeMembers(prev, id), nonce), 1);
    FinalizePayloadFields(prev, id);
  }
}
