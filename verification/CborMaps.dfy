/** The map and array encoders: entries arrive already encoded and in any
    order, are sorted by encoded key, and are appended to a buffer. */
module CborMaps {
  import opened Bytes
  import opened Sorting
  import opened Cbor

  datatype Pair = Pair(key: bytes, value: bytes)

  function PairKey(p: Pair): bytes { p.key }

  function ConcatPairs(ps: seq<Pair>): bytes {
    if ps == [] then [] else ps[0].key + ps[0].value + ConcatPairs(ps[1..])
  }

  function ConcatAll(items: seq<bytes>): bytes {
    if items == [] then [] else items[0] + ConcatAll(items[1..])
  }

  /** A map head and the pairs in canonical key order. */
  function SortedMap(ps: seq<Pair>): bytes {
    Head(5, |ps|) + ConcatPairs(Sort(KeyLess, PairKey, ps))
  }

  function Tstr(s: bytes): bytes { Head(3, |s|) + s }

  // ---- the encoders' loops ----

  method ExtendPairs(head: bytes, ps: seq<Pair>) returns (out: bytes)
    ensures out == head + ConcatPairs(ps)
  {
    out := head;
    for i := 0 to |ps|
      invariant head + ConcatPairs(ps) == out + ConcatPairs(ps[i..])
    {
      assert ps[i..][1..] == ps[i + 1..];
      out := out + ps[i].key + ps[i].value;
    }
  }

  datatype IntItem = IntItem(key: nat, value: bytes)
  datatype TextItem = TextItem(key: bytes, value: bytes)

  function IntPair(item: IntItem): Pair { Pair(Head(0, item.key), item.value) }
  function TextPair(item: TextItem): Pair { Pair(Tstr(item.key), item.value) }

  method MapIntKeys(items: seq<IntItem>) returns (out: bytes)
    ensures out == SortedMap(MapSeq(IntPair, items))
  {
    var encoded := [];
    for i := 0 to |items|
      invariant encoded == MapSeq(IntPair, items)[..i]
    {
      encoded := encoded + [Pair(Head(0, items[i].key), items[i].value)];
    }
    assert encoded == MapSeq(IntPair, items);
    out := ExtendPairs(Head(5, |encoded|), Sort(KeyLess, PairKey, encoded));
  }

  method MapTextKeys(items: seq<TextItem>) returns (out: bytes)
    ensures out == SortedMap(MapSeq(TextPair, items))
  {
    var encoded := [];
    for i := 0 to |items|
      invariant encoded == MapSeq(TextPair, items)[..i]
    {
      encoded := encoded + [Pair(Tstr(items[i].key), items[i].value)];
    }
    assert encoded == MapSeq(TextPair, items);
    out := ExtendPairs(Head(5, |encoded|), Sort(KeyLess, PairKey, encoded));
  }

  method EncodeArray(items: seq<bytes>) returns (out: bytes)
    ensures out == Head(4, |items|) + ConcatAll(items)
  {
    out := Head(4, |items|);
    for i := 0 to |items|
      invariant Head(4, |items|) + ConcatAll(items) == out + ConcatAll(items[i..])
    {
      assert items[i..][1..] == items[i + 1..];
      out := out + items[i];
    }
  }

  // ---- what they produce is the canonical encoding ----

  function EntryKey(e: Entry): bytes { Encode(e.key) }
  function EntryPair(e: Entry): Pair { Pair(Encode(e.key), Encode(e.value)) }

  lemma {:induction false} ConcatEntryPairs(es: seq<Entry>)
    ensures ConcatPairs(MapSeq(EntryPair, es)) == EncodeEntries(es)
  {
    if es != [] {
      ConcatEntryPairs(es[1..]);
      assert MapSeq(EntryPair, es)[1..] == MapSeq(EntryPair, es[1..]);
    }
  }

  /** Whatever order the entries arrive in, the bytes are the encoding of the
      map with its entries in canonical order. */
  lemma SortedMapIsEncoding(es: seq<Entry>)
    ensures SortedMap(MapSeq(EntryPair, es)) == Encode(Map(Sort(KeyLess, EntryKey, es)))
  {
    hide Sort, Head, MapSeq;
    SortCommutes(KeyLess, EntryKey, PairKey, EntryPair, es);
    ConcatEntryPairs(Sort(KeyLess, EntryKey, es));
  }

  lemma {:induction false} SortedEntriesWf(lim: Limits, prev: Option<bytes>, es: seq<Entry>, depth: nat)
    requires Sorted(KeyLess, EntryKey, es)
    requires forall e :: e in es ==> WfEntry(lim, e, depth)
    requires prev.Some? && es != [] ==> KeyLess(prev.value, Encode(es[0].key))
    ensures WfEntries(lim, prev, es, depth)
    decreases es
  {
    if es != [] {
      assert es[0] in es;
      forall e | e in es[1..] ensures WfEntry(lim, e, depth) { assert e in es; }
      if |es| > 1 {
        assert KeyLess(EntryKey(es[0]), EntryKey(es[1]));
      }
      SortedEntriesWf(lim, Some(Encode(es[0].key)), es[1..], depth);
    }
  }

  /** With distinct keys, sorting always passes the decoder's order check. */
  lemma SortPassesOrderCheck(lim: Limits, es: seq<Entry>, depth: nat)
    requires DistinctKeys(EntryKey, es) && forall e :: e in es ==> WfEntry(lim, e, depth)
    ensures WfEntries(lim, None, Sort(KeyLess, EntryKey, es), depth)
  {
    var s := Sort(KeyLess, EntryKey, es);
    OrdersAreStrict();
    SortSorts(KeyLess, EntryKey, es);
    forall e | e in s ensures WfEntry(lim, e, depth) {
      assert e in multiset(s);
      assert e in multiset(es);
    }
    SortedEntriesWf(lim, None, s, depth);
  }

  // ---- the two canonical orders agree ----

  /** For unsigned integer keys, the length-first order of RFC 8949 section
      4.2.3, the bytewise order of section 4.2.1 and numeric order are one. */
  lemma IntKeyOrders(v: nat, w: nat)
    requires v < U64_END && w < U64_END
    ensures KeyLess(Head(0, v), Head(0, w)) <==> v < w
    ensures LexLess(Head(0, v), Head(0, w)) <==> v < w
  {
    if v < w {
      HeadOrder(0, v, w, [], []);
    } else if w < v {
      HeadOrder(0, w, v, [], []);
    }
    assert Head(0, v) + [] == Head(0, v) && Head(0, w) + [] == Head(0, w);
    KeyStrict(Head(0, v), Head(0, w));
    LexStrict(Head(0, v), Head(0, w));
  }

  /** For text keys the two canonical orders are one. */
  lemma TextKeyOrders(s: bytes, t: bytes)
    requires |s| < U64_END && |t| < U64_END
    ensures KeyLess(Tstr(s), Tstr(t)) <==> LexLess(Tstr(s), Tstr(t))
    ensures KeyLess(Tstr(s), Tstr(t)) <==> KeyLess(s, t)
  {
    if |s| < |t| {
      HeadOrder(3, |s|, |t|, s, t);
      LexStrict(Tstr(s), Tstr(t));
    } else if |t| < |s| {
      HeadOrder(3, |t|, |s|, t, s);
      LexStrict(Tstr(s), Tstr(t));
    } else {
      LexConcat(Head(3, |s|), Head(3, |t|), s, t);
      LexStrict(Head(3, |s|), Head(3, |s|));
    }
  }
}
