/** Maps with increasing integer keys, as the record formats use them. */
module IntMaps {
  import opened Bytes
  import opened Sorting
  import opened Cbor
  import opened CborMaps

  predicate Increasing(ks: seq<nat>) {
    (forall i :: 0 <= i < |ks| ==> ks[i] < U64_END) && forall i, j :: 0 <= i < j < |ks| ==> ks[i] < ks[j]
  }

  function KeyedItems(ks: seq<nat>, vs: seq<Value>): (items: seq<IntItem>)
    requires |ks| == |vs|
    ensures |items| == |ks|
  {
    seq(|ks|, i requires 0 <= i < |ks| => IntItem(ks[i], Encode(vs[i])))
  }

  function KeyedEntries(ks: seq<nat>, vs: seq<Value>): (es: seq<Entry>)
    requires |ks| == |vs|
    ensures |es| == |ks| && forall i :: 0 <= i < |es| ==> es[i] == Entry(Uint(ks[i]), vs[i])
  {
    seq(|ks|, i requires 0 <= i < |ks| => Entry(Uint(ks[i]), vs[i]))
  }

  lemma KeyedSorted(ks: seq<nat>, vs: seq<Value>)
    requires |ks| == |vs| && Increasing(ks)
    ensures Sorted(KeyLess, EntryKey, KeyedEntries(ks, vs)) && DistinctKeys(EntryKey, KeyedEntries(ks, vs))
  {
    hide Head, KeyLess;
    var es := KeyedEntries(ks, vs);
    forall i, j | 0 <= i < j < |ks|
      ensures KeyLess(EntryKey(es[i]), EntryKey(es[j])) && EntryKey(es[i]) != EntryKey(es[j]) {
      IntKeyOrders(ks[i], ks[j]);
      KeyStrict(EntryKey(es[i]), EntryKey(es[j]));
    }
  }

  /** Keys in increasing order are in canonical order, so the encoder's bytes
      are the encoding of the map as listed. */
  lemma KeyedMapIsEncoding(ks: seq<nat>, vs: seq<Value>)
    requires |ks| == |vs| && Increasing(ks)
    ensures SortedMap(MapSeq(IntPair, KeyedItems(ks, vs))) == Encode(Map(KeyedEntries(ks, vs)))
  {
    hide Encode, Sort, SortedMap, Sorted, DistinctKeys;
    var es, items := KeyedEntries(ks, vs), KeyedItems(ks, vs);
    KeyedPairs(ks, vs);
    SortedMapIsEncoding(es);
    KeyedSorted(ks, vs);
    OrdersAreStrict();
    SortSorts(KeyLess, EntryKey, es);
    SortedUnique(KeyLess, EntryKey, Sort(KeyLess, EntryKey, es), es);
  }

  lemma KeyedPairs(ks: seq<nat>, vs: seq<Value>)
    requires |ks| == |vs|
    ensures MapSeq(IntPair, KeyedItems(ks, vs)) == MapSeq(EntryPair, KeyedEntries(ks, vs))
  {
    hide Head;
    var es, items := KeyedEntries(ks, vs), KeyedItems(ks, vs);
    forall i | 0 <= i < |ks| ensures IntPair(items[i]) == EntryPair(es[i]) {
      KeyEncoding(ks[i]);
    }
  }

  lemma KeyEncoding(n: nat)
    ensures Encode(Uint(n)) == Head(0, n)
  {
  }

  /** The decoder reads back what the encoder wrote. */
  lemma KeyedMapDecodes(lim: Limits, ks: seq<nat>, vs: seq<Value>)
    requires |ks| == |vs| < U64_END && Increasing(ks) && lim.maxDepth > 1
    requires forall i :: 0 <= i < |vs| ==> Wf(lim, vs[i], 1)
    ensures Decode(lim, SortedMap(MapSeq(IntPair, KeyedItems(ks, vs)))) == Ok(Map(KeyedEntries(ks, vs)))
  {
    hide Encode, SortedMap, MapSeq, IntPair, KeyedItems, Decode, Sorted;
    var es := KeyedEntries(ks, vs);
    KeyedMapIsEncoding(ks, vs);
    KeyedSorted(ks, vs);
    forall e | e in es ensures WfEntry(lim, e, 1) {
      var i :| 0 <= i < |es| && es[i] == e;
      assert Wf(lim, vs[i], 1);
      UintWf(lim, ks[i]);
    }
    SortedEntriesWf(lim, None, es, 1);
    MapWf(lim, es);
    DecodeIffEncode(lim, Encode(Map(es)), Map(es));
  }

  lemma UintWf(lim: Limits, n: nat)
    requires n < U64_END && lim.maxDepth > 1
    ensures Wf(lim, Uint(n), 1)
  {
  }

  lemma MapWf(lim: Limits, es: seq<Entry>)
    requires |es| < U64_END && lim.maxDepth > 0 && WfEntries(lim, None, es, 1)
    ensures Wf(lim, Map(es), 0)
  {
  }

  // ---- a decoder's acceptance grows with its limits ----

  predicate Wider(a: Limits, b: Limits) { a.maxDepth <= b.maxDepth && a.negEnd <= b.negEnd }

  lemma {:induction false} WfWider(a: Limits, b: Limits, v: Value, depth: nat)
    requires Wider(a, b) && Wf(a, v, depth)
    ensures Wf(b, v, depth)
    decreases v, 1
  {
    match v
    case Array(items) => WfItemsWider(a, b, items, depth + 1);
    case Map(es) => WfEntriesWider(a, b, None, es, depth + 1);
    case _ =>
  }

  lemma {:induction false} WfItemsWider(a: Limits, b: Limits, items: seq<Value>, depth: nat)
    requires Wider(a, b) && WfItems(a, items, depth)
    ensures WfItems(b, items, depth)
    decreases items, 0
  {
    if items != [] {
      WfWider(a, b, items[0], depth);
      WfItemsWider(a, b, items[1..], depth);
    }
  }

  lemma {:induction false} WfEntryWider(a: Limits, b: Limits, e: Entry, depth: nat)
    requires Wider(a, b) && WfEntry(a, e, depth)
    ensures WfEntry(b, e, depth)
    decreases e, 0
  {
    WfWider(a, b, e.key, depth);
    WfWider(a, b, e.value, depth);
  }

  lemma {:induction false} WfEntriesWider(a: Limits, b: Limits, prev: Option<bytes>, es: seq<Entry>, depth: nat)
    requires Wider(a, b) && WfEntries(a, prev, es, depth)
    ensures WfEntries(b, prev, es, depth)
    decreases es, 0
  {
    if es != [] {
      WfEntryWider(a, b, es[0], depth);
      WfEntriesWider(a, b, Some(Encode(es[0].key)), es[1..], depth);
    }
  }
}
