/** How long encoded records are: the estimates the writer rolls over by
    dominate what it then writes. */
module RecordSize {
  import opened Bytes
  import opened Sorting
  import opened Cbor
  import opened CborMaps
  import opened Payload
  import opened Record
  import opened Segment
  import opened Calendar
  import opened HmacWriter

  function PairLen(p: Pair): nat { |p.key| + |p.value| }

  function PairsLen(ps: seq<Pair>): nat {
    if ps == [] then 0 else PairLen(ps[0]) + PairsLen(ps[1..])
  }

  lemma {:induction false} ConcatLen(ps: seq<Pair>)
    ensures |ConcatPairs(ps)| == PairsLen(ps)
  {
    if ps != [] {
      ConcatLen(ps[1..]);
    }
  }

  lemma {:induction false} InsertLen(p: Pair, ps: seq<Pair>)
    ensures PairsLen(Insert(KeyLess, PairKey, p, ps)) == PairLen(p) + PairsLen(ps)
  {
    hide KeyLess, PairLen;
    if ps != [] && KeyLess(PairKey(ps[0]), PairKey(p)) {
      InsertLen(p, ps[1..]);
      var r := Insert(KeyLess, PairKey, p, ps);
      assert r[1..] == Insert(KeyLess, PairKey, p, ps[1..]);
    } else {
      assert ([p] + ps)[1..] == ps;
    }
  }

  lemma {:induction false} SortLen(ps: seq<Pair>)
    ensures PairsLen(Sort(KeyLess, PairKey, ps)) == PairsLen(ps)
  {
    if ps != [] {
      SortLen(ps[1..]);
      InsertLen(ps[0], Sort(KeyLess, PairKey, ps[1..]));
    }
  }

  /** Sorting does not change the length of an encoded map. */
  lemma SortedMapLen(ps: seq<Pair>)
    ensures |SortedMap(ps)| == |Head(5, |ps|)| + PairsLen(ps)
  {
    SortLen(ps);
    ConcatLen(Sort(KeyLess, PairKey, ps));
  }

  lemma {:induction false} PairsLenMonotone(ps: seq<Pair>, qs: seq<Pair>)
    requires |ps| == |qs| && forall i :: 0 <= i < |ps| ==> PairLen(ps[i]) <= PairLen(qs[i])
    ensures PairsLen(ps) <= PairsLen(qs)
  {
    if ps != [] {
      PairsLenMonotone(ps[1..], qs[1..]);
    }
  }

  lemma {:induction false} PairsLenBound(ps: seq<Pair>, bound: nat)
    requires forall i :: 0 <= i < |ps| ==> PairLen(ps[i]) <= bound
    ensures PairsLen(ps) <= |ps| * bound
  {
    if ps != [] {
      PairsLenBound(ps[1..], bound);
      assert |ps| * bound == bound + (|ps| - 1) * bound;
    }
  }

  lemma RecordLen(keyId: Digest, input: RecordInput, session: SessionId, prev: Digest, id: nat)
    ensures |RecordBytes(keyId, input, session, prev, id)|
         == 1 + PairsLen(MapSeq(IntPair, RecordItems(keyId, input, session, prev, id)))
  {
    hide RecordItems;
    SortedMapLen(MapSeq(IntPair, RecordItems(keyId, input, session, prev, id)));
  }

  lemma HeadLenMonotone(major: nat, v: nat, w: nat)
    requires major < 8 && v <= w < U64_END
    ensures |Head(major, v)| <= |Head(major, w)|
  {
  }

  /** Inputs that take no more room field by field. */
  predicate NoLonger(a: RecordInput, b: RecordInput) {
    && |a.tsWall| == |b.tsWall| && a.tsMonoDelta == b.tsMonoDelta && a.actor == b.actor && a.event == b.event
    && |EncodePayload(PMap(a.payload))| <= |EncodePayload(PMap(b.payload))| && a.schemaVersion == b.schemaVersion
  }

  /** A record is no longer than another whose input is no shorter and whose
      id is no smaller; sessions and links do not matter. */
  lemma RecordNoLonger(c: Crypto, a: RecordInput, b: RecordInput, session: SessionId, session': SessionId,
      prev: Digest, prev': Digest, id: nat, id': nat)
    requires NoLonger(a, b) && id <= id' < U64_END
    ensures |RecordBytes(c.keyId, a, session, prev, id)| <= |RecordBytes(c.keyId, b, session', prev', id')|
  {
    hide EncodePayload, Head;
    var xs := RecordItems(c.keyId, a, session, prev, id);
    var ys := RecordItems(c.keyId, b, session', prev', id');
    var ps, qs := MapSeq(IntPair, xs), MapSeq(IntPair, ys);
    forall i | 0 <= i < 10 ensures PairLen(ps[i]) <= PairLen(qs[i]) {
      ItemNoLonger(c.keyId, a, b, session, session', prev, prev', id, id', i);
    }
    PairsLenMonotone(ps, qs);
    RecordLen(c.keyId, a, session, prev, id);
    RecordLen(c.keyId, b, session', prev', id');
  }

  lemma ItemNoLonger(keyId: Digest, a: RecordInput, b: RecordInput, session: SessionId, session': SessionId,
      prev: Digest, prev': Digest, id: nat, id': nat, i: nat)
    requires NoLonger(a, b) && id <= id' < U64_END && i < 10
    ensures PairLen(IntPair(RecordItems(keyId, a, session, prev, id)[i]))
         <= PairLen(IntPair(RecordItems(keyId, b, session', prev', id')[i]))
  {
    hide EncodePayload, Head;
    HeadLenMonotone(0, id, id');
  }

  /** The estimate dominates: any input that is no longer, under any head and
      with any record id. */
  lemma EstimateDominates(c: Crypto, a: RecordInput, b: RecordInput, session: SessionId, session': SessionId,
      prev: Digest, id: nat)
    requires NoLonger(a, b) && id < U64_END
    ensures |RecordBytes(c.keyId, a, session, prev, id)| + FRAMING <= EstimateRecord(c, session', b)
  {
    hide RecordBytes, NoLonger;
    RecordNoLonger(c, a, b, session, session', prev, ZERO_DIGEST, id, U64_MAX);
  }

  // ---- finalize records ----

  lemma FinalizePayloadLen(lastTs: bytes, mono: nat, records: nat, hmac: Digest)
    ensures |EncodePayload(PMap(FinalizeInput(lastTs, mono, records, hmac).payload))| == 54 + |Head(0, records)|
  {
    hide BumpTsMs;
    var ms := FinalizeInput(lastTs, mono, records, hmac).payload;
    var ps := MemberPairs(ms);
    FinalizePairs(lastTs, mono, records, hmac);
    SortedMapLen(ps);
    hide MemberPairs, SortedMap;
    assert ps[1..][1..] == [];
    assert PairsLen(ps) == PairLen(ps[0]) + PairsLen(ps[1..]);
    assert PairsLen(ps[1..]) == PairLen(ps[1]) + PairsLen(ps[1..][1..]);
  }

  lemma FinalizePairs(lastTs: bytes, mono: nat, records: nat, hmac: Digest)
    ensures var ms := FinalizeInput(lastTs, mono, records, hmac).payload;
      && |MemberPairs(ms)| == 2
      && PairLen(MemberPairs(ms)[0]) == 45 && PairLen(MemberPairs(ms)[1]) == 8 + |Head(0, records)|
  {
    hide BumpTsMs, FinalHashKey, RecordsKey;
    var ms := FinalizeInput(lastTs, mono, records, hmac).payload;
    assert ms[1..][1..] == [];
    assert MemberPairs(ms) == [MemberPair(ms[0])] + MemberPairs(ms[1..]);
    assert MemberPairs(ms[1..]) == [MemberPair(ms[1])] + MemberPairs([]);
  }

  lemma BumpLen(ts: bytes)
    ensures |BumpTsMs(ts)| == |ts|
  {
  }

  /** The finalize record written after a record is no longer than the one
      estimated when that record was appended. */
  lemma FinalizeNoLonger(ts: bytes, mono: nat, records: nat, hmac: Digest)
    requires records < U64_END
    ensures NoLonger(FinalizeInput(ts, mono, records, hmac), FinalizeInput(ts, mono, U64_MAX, ZERO_DIGEST))
  {
    hide BumpTsMs, EncodePayload, Head;
    FinalizePayloadLen(ts, mono, records, hmac);
    FinalizePayloadLen(ts, mono, U64_MAX, ZERO_DIGEST);
    HeadLenMonotone(0, records, U64_MAX);
  }

  /** A finalize record is far below every limit. */
  lemma FinalizeIsShort(c: Crypto, ts: bytes, mono: nat, records: nat, hmac: Digest, session: SessionId, prev: Digest,
      id: nat)
    requires |ts| == TS_LEN
    ensures |RecordBytes(c.keyId, FinalizeInput(ts, mono, records, hmac), session, prev, id)| <= 1_000
  {
    hide BumpTsMs, EncodePayload, Head;
    var input := FinalizeInput(ts, mono, records, hmac);
    var items := RecordItems(c.keyId, input, session, prev, id);
    FinalizePayloadLen(ts, mono, records, hmac);
    BumpLen(ts);
    forall i | 0 <= i < 10 ensures PairLen(MapSeq(IntPair, items)[i]) <= 90 {
      assert PairLen(IntPair(items[i])) <= 90;
    }
    PairsLenBound(MapSeq(IntPair, items), 90);
    RecordLen(c.keyId, input, session, prev, id);
  }
}
