/** Event payload values: what a caller hands to the writer, the bytes the
    writer produces, and what the reader makes of them. */
module Payload {
  import opened Bytes
  import opened Sorting
  import opened Cbor
  import opened CborMaps

  /** `PayloadValue`. A `BTreeMap<String, _>` is the list of its members in
      key order. */
  datatype PayloadValue =
    | PUint(n: nat)
    | PNint(i: int)
    | PText(s: bytes)
    | PBytes(b: bytes)
    | PBool(flag: bool)
    | PMap(members: seq<Member>)
    | PList(items: seq<PayloadValue>)

  datatype Member = Member(key: bytes, value: PayloadValue)

  function MemberKey(m: Member): bytes { m.key }

  predicate IsBTree(ms: seq<Member>) { Sorted(LexLess, MemberKey, ms) }

  /** What the source's types say of a payload value, and nesting the decoder
      accepts at `depth`. */
  predicate PWf(p: PayloadValue, depth: nat)
    decreases p, 1
  {
    depth < RUST_LIMITS.maxDepth &&
    match p
    case PUint(n) => n < U64_END
    case PNint(i) => -0x8000_0000_0000_0000 <= i < 0
    case PText(s) => |s| < U64_END && ValidUtf8(s)
    case PBytes(b) => |b| < U64_END
    case PBool(_) => true
    case PMap(ms) => |ms| < U64_END && IsBTree(ms) && PWfMembers(ms, depth + 1)
    case PList(items) => |items| < U64_END && PWfItems(items, depth + 1)
  }

  predicate PWfMember(m: Member, depth: nat)
    decreases m, 2
  {
    |m.key| < U64_END && ValidUtf8(m.key) && PWf(m.value, depth)
  }

  predicate PWfMembers(ms: seq<Member>, depth: nat)
    decreases ms, 0
  {
    ms == [] || (PWfMember(ms[0], depth) && PWfMembers(ms[1..], depth))
  }

  predicate PWfItems(items: seq<PayloadValue>, depth: nat)
    decreases items, 0
  {
    items == [] || (PWf(items[0], depth) && PWfItems(items[1..], depth))
  }

  // ---- writing: PayloadValue::encode ----

  function EncodePayload(p: PayloadValue): bytes
    decreases p, 1
  {
    match p
    case PUint(n) => Head(0, n)
    case PNint(i) => Head(1, if i < 0 then -(i + 1) else 0)
    case PText(s) => Tstr(s)
    case PBytes(b) => Head(2, |b|) + b
    case PBool(f) => [if f then 0xf5 else 0xf4]
    case PMap(ms) => SortedMap(MemberPairs(ms))
    case PList(items) => Head(4, |items|) + ConcatAll(ItemBytes(items))
  }

  function MemberPair(m: Member): Pair
    decreases m, 2
  {
    Pair(Tstr(m.key), EncodePayload(m.value))
  }

  function MemberPairs(ms: seq<Member>): seq<Pair>
    decreases ms, 0
  {
    if ms == [] then [] else [MemberPair(ms[0])] + MemberPairs(ms[1..])
  }

  function ItemBytes(items: seq<PayloadValue>): seq<bytes>
    decreases items, 0
  {
    if items == [] then [] else [EncodePayload(items[0])] + ItemBytes(items[1..])
  }

  // ---- the CBOR value a payload stands for ----

  function ToValue(p: PayloadValue): Value
    decreases p, 1
  {
    match p
    case PUint(n) => Uint(n)
    case PNint(i) => Nint(if i < 0 then -(i + 1) else 0)
    case PText(s) => Text(s)
    case PBytes(b) => Bytes(b)
    case PBool(f) => Bool(f)
    case PMap(ms) => Map(Sort(KeyLess, EntryKey, ToEntries(ms)))
    case PList(items) => Array(ToItems(items))
  }

  function ToEntry(m: Member): Entry
    decreases m, 2
  {
    Entry(Text(m.key), ToValue(m.value))
  }

  function ToEntries(ms: seq<Member>): (es: seq<Entry>)
    ensures |es| == |ms|
    decreases ms, 0
  {
    if ms == [] then [] else [ToEntry(ms[0])] + ToEntries(ms[1..])
  }

  function ToItems(items: seq<PayloadValue>): (vs: seq<Value>)
    ensures |vs| == |items|
    decreases items, 0
  {
    if items == [] then [] else [ToValue(items[0])] + ToItems(items[1..])
  }

  // ---- reading: cbor_value_to_payload ----

  /** `BTreeMap::insert`: replaces the value of an equal key. */
  function BTreeInsert(ms: seq<Member>, m: Member): seq<Member> {
    if ms == [] then [m]
    else if LexLess(ms[0].key, m.key) then [ms[0]] + BTreeInsert(ms[1..], m)
    else if ms[0].key == m.key then [m] + ms[1..]
    else [m] + ms
  }

  /** `None` when a map key is not text. */
  function FromValue(v: Value): Option<PayloadValue>
    decreases v, 1
  {
    match v
    case Uint(n) => Some(PUint(n))
    case Nint(arg) => Some(PNint(-1 - arg))
    case Bytes(b) => Some(PBytes(b))
    case Text(s) => Some(PText(s))
    case Bool(f) => Some(PBool(f))
    case Array(items) =>
      (match FromItems(items)
       case None => None
       case Some(ps) => Some(PList(ps)))
    case Map(es) =>
      match FromEntries(es, [])
      case None => None
      case Some(ms) => Some(PMap(ms))
  }

  function FromItems(items: seq<Value>): Option<seq<PayloadValue>>
    decreases items, 0
  {
    if items == [] then Some([])
    else
      match FromValue(items[0])
      case None => None
      case Some(p) =>
        match FromItems(items[1..])
        case None => None
        case Some(rest) => Some([p] + rest)
  }

  function FromEntry(e: Entry): Option<Member>
    decreases e, 2
  {
    match FromValue(e.value)
    case None => None
    case Some(p) => if e.key.Text? then Some(Member(e.key.utf8, p)) else None
  }

  /** Entries inserted in wire order into a map that already holds `acc`. */
  function FromEntries(es: seq<Entry>, acc: seq<Member>): Option<seq<Member>>
    decreases es, 0
  {
    if es == [] then Some(acc)
    else
      match FromEntry(es[0])
      case None => None
      case Some(m) => FromEntries(es[1..], BTreeInsert(acc, m))
  }

  // ---- the writer's bytes are the encoding of that value ----

  lemma {:induction false} MemberPairsOfEntries(ms: seq<Member>)
    ensures MemberPairs(ms) == MapSeq(EntryPair, ToEntries(ms))
    decreases ms, 0
  {
    if ms != [] {
      EncodeIsEncoding(ms[0].value);
      MemberPairsOfEntries(ms[1..]);
    }
  }

  lemma {:induction false} ItemBytesOfItems(items: seq<PayloadValue>)
    ensures ConcatAll(ItemBytes(items)) == EncodeItems(ToItems(items))
    decreases items, 0
  {
    if items != [] {
      EncodeIsEncoding(items[0]);
      ItemBytesOfItems(items[1..]);
      assert ItemBytes(items)[1..] == ItemBytes(items[1..]);
    }
  }

  lemma {:induction false} EncodeIsEncoding(p: PayloadValue)
    ensures EncodePayload(p) == Encode(ToValue(p))
    decreases p, 1
  {
    match p
    case PMap(ms) =>
      MemberPairsOfEntries(ms);
      SortedMapIsEncoding(ToEntries(ms));
    case PList(items) => ItemBytesOfItems(items);
    case _ =>
  }

  // ---- that value is well formed ----

  function TextKey(m: Member): bytes { Tstr(m.key) }

  lemma {:induction false} ToEntriesIsMap(ms: seq<Member>)
    ensures ToEntries(ms) == MapSeq(ToEntry, ms)
  {
    if ms != [] {
      ToEntriesIsMap(ms[1..]);
    }
  }

  lemma EntryKeyIsTextKey()
    ensures forall m :: EntryKey(ToEntry(m)) == TextKey(m)
  {
    hide Head;
  }

  lemma SortEntriesOfMembers(ms: seq<Member>)
    ensures Sort(KeyLess, EntryKey, ToEntries(ms)) == ToEntries(Sort(KeyLess, TextKey, ms))
  {
    EntryKeyIsTextKey();
    hide EntryKey, ToEntry, TextKey, Sort, KeyLess, ToEntries, MapSeq;
    ToEntriesIsMap(ms);
    ToEntriesIsMap(Sort(KeyLess, TextKey, ms));
    SortCommutes(KeyLess, TextKey, EntryKey, ToEntry, ms);
  }

  lemma TstrInjective(s: bytes, t: bytes)
    requires |s| < U64_END && |t| < U64_END && Tstr(s) == Tstr(t)
    ensures s == t
  {
    TextKeyOrders(s, t);
    KeyStrict(s, t);
    KeyStrict(Tstr(s), Tstr(t));
    TextKeyOrders(t, s);
  }

  predicate MembersWf(ms: seq<Member>, depth: nat) {
    forall m :: m in ms ==> PWfMember(m, depth)
  }

  lemma {:induction false} MembersWfAll(ms: seq<Member>, depth: nat)
    requires PWfMembers(ms, depth)
    ensures MembersWf(ms, depth)
  {
    if ms != [] {
      MembersWfAll(ms[1..], depth);
    }
  }

  lemma BTreeKeysDistinct(ms: seq<Member>, depth: nat)
    requires IsBTree(ms) && MembersWf(ms, depth)
    ensures DistinctKeys(TextKey, ms)
  {
    OrdersAreStrict();
    forall i, j | 0 <= i < j < |ms| ensures TextKey(ms[i]) != TextKey(ms[j]) {
      assert LexLess(MemberKey(ms[i]), MemberKey(ms[j]));
      assert ms[i] in ms && ms[j] in ms;
      if TextKey(ms[i]) == TextKey(ms[j]) {
        TstrInjective(ms[i].key, ms[j].key);
      }
    }
  }

  lemma {:induction false} ToValueWf(p: PayloadValue, depth: nat)
    requires PWf(p, depth)
    ensures Wf(RUST_LIMITS, ToValue(p), depth)
    decreases p, 1
  {
    match p
    case PMap(ms) => ToEntriesWf(ms, depth + 1);
    case PList(items) => ToItemsWf(items, depth + 1);
    case _ =>
  }

  lemma {:induction false} ToItemsWf(items: seq<PayloadValue>, depth: nat)
    requires PWfItems(items, depth)
    ensures WfItems(RUST_LIMITS, ToItems(items), depth)
    decreases items, 0
  {
    if items != [] {
      ToValueWf(items[0], depth);
      ToItemsWf(items[1..], depth);
    }
  }

  lemma {:induction false} ToEntryWf(m: Member, depth: nat)
    requires PWfMember(m, depth)
    ensures WfEntry(RUST_LIMITS, ToEntry(m), depth)
    decreases m, 2
  {
    ToValueWf(m.value, depth);
  }

  lemma {:induction false} EachEntryWf(ms: seq<Member>, depth: nat)
    requires PWfMembers(ms, depth)
    ensures forall e :: e in ToEntries(ms) ==> WfEntry(RUST_LIMITS, e, depth)
    decreases ms, 0
  {
    if ms != [] {
      ToEntryWf(ms[0], depth);
      EachEntryWf(ms[1..], depth);
    }
  }

  lemma {:induction false} ToEntriesWf(ms: seq<Member>, depth: nat)
    requires IsBTree(ms) && PWfMembers(ms, depth)
    ensures WfEntries(RUST_LIMITS, None, Sort(KeyLess, EntryKey, ToEntries(ms)), depth)
    decreases ms, 1
  {
    hide PWfMembers, ToEntries, Sort, WfEntries, WfEntry;
    EachEntryWf(ms, depth);
    MembersWfAll(ms, depth);
    BTreeKeysDistinct(ms, depth);
    ToEntriesIsMap(ms);
    SortPassesOrderCheck(RUST_LIMITS, ToEntries(ms), depth);
  }

  // ---- reading it back ----

  lemma {:induction false} BTreeInsertFresh(ms: seq<Member>, m: Member)
    requires forall x :: x in ms ==> x.key != m.key
    ensures BTreeInsert(ms, m) == Insert(LexLess, MemberKey, m, ms)
  {
    if ms != [] {
      BTreeInsertFresh(ms[1..], m);
    }
  }

  /** Members with distinct keys, inserted in any order, end up as the one
      sorted list of those members. */
  lemma {:induction false} InsertAll(ms: seq<Member>, acc: seq<Member>, r: seq<Member>)
    requires IsBTree(acc) && IsBTree(r) && DistinctKeys(MemberKey, acc + ms)
    requires multiset(r) == multiset(acc) + multiset(ms)
    requires forall m :: m in ms ==> FromEntry(ToEntry(m)) == Some(m)
    ensures FromEntries(ToEntries(ms), acc) == Some(r)
  {
    OrdersAreStrict();
    if ms == [] {
      SortedUnique(LexLess, MemberKey, acc, r);
    } else {
      var m := ms[0];
      assert ms == [m] + ms[1..];
      forall x | x in acc ensures x.key != m.key {
        var i :| 0 <= i < |acc| && acc[i] == x;
        assert MemberKey((acc + ms)[i]) != MemberKey((acc + ms)[|acc|]);
      }
      BTreeInsertFresh(acc, m);
      InsertSorted(LexLess, MemberKey, m, acc);
      var acc' := Insert(LexLess, MemberKey, m, acc);
      StillDistinct(acc, m, ms[1..], acc');
      InsertAll(ms[1..], acc', r);
      assert ToEntries(ms)[1..] == ToEntries(ms[1..]);
    }
  }

  lemma StillDistinct(acc: seq<Member>, m: Member, rest: seq<Member>, acc': seq<Member>)
    requires DistinctKeys(MemberKey, acc + ([m] + rest)) && IsBTree(acc')
    requires multiset(acc') == multiset(acc) + multiset{m}
    ensures DistinctKeys(MemberKey, acc' + rest)
  {
    OrdersAreStrict();
    var all, all' := acc + ([m] + rest), acc' + rest;
    forall i, j | 0 <= i < j < |all'| ensures MemberKey(all'[i]) != MemberKey(all'[j]) {
      if i < |acc'| <= j {
        assert acc'[i] in multiset(acc');
        assert all'[j] == all[|acc| + 1 + (j - |acc'|)];
        if acc'[i] == m {
          assert all[|acc|] == m;
        } else {
          assert acc'[i] in multiset(acc);
          var k :| 0 <= k < |acc| && acc[k] == acc'[i];
          assert all[k] == acc[k];
        }
      } else if i < |acc'| {
        assert LexLess(MemberKey(acc'[i]), MemberKey(acc'[j]));
      } else {
        assert all'[i] == all[|acc| + 1 + (i - |acc'|)] && all'[j] == all[|acc| + 1 + (j - |acc'|)];
      }
    }
  }

  /** What the reader makes of the value is the payload that was written. */
  lemma {:induction false} FromToValue(p: PayloadValue, depth: nat)
    requires PWf(p, depth)
    ensures FromValue(ToValue(p)) == Some(p)
    decreases p, 1
  {
    hide Sort, FromEntries, ToEntries, FromItems, ToItems, PWfMembers, PWfItems;
    match p
    case PMap(ms) => FromToEntries(ms, depth + 1);
    case PList(items) => FromToItems(items, depth + 1);
    case _ =>
  }

  lemma {:induction false} FromToItems(items: seq<PayloadValue>, depth: nat)
    requires PWfItems(items, depth)
    ensures FromItems(ToItems(items)) == Some(items)
    decreases items, 0
  {
    if items != [] {
      FromToValue(items[0], depth);
      FromToItems(items[1..], depth);
      assert ToItems(items)[1..] == ToItems(items[1..]);
      assert items == [items[0]] + items[1..];
    }
  }

  lemma {:induction false} FromToEntry(m: Member, depth: nat)
    requires PWfMember(m, depth)
    ensures FromEntry(ToEntry(m)) == Some(m)
    decreases m, 2
  {
    FromToValue(m.value, depth);
  }

  lemma {:induction false} EachFromToEntry(ms: seq<Member>, depth: nat)
    requires PWfMembers(ms, depth)
    ensures forall m :: m in ms ==> FromEntry(ToEntry(m)) == Some(m)
    decreases ms, 0
  {
    if ms != [] {
      FromToEntry(ms[0], depth);
      EachFromToEntry(ms[1..], depth);
      forall m | m in ms ensures FromEntry(ToEntry(m)) == Some(m) {
        assert m == ms[0] || m in ms[1..];
      }
    }
  }

  lemma {:induction false} FromToEntries(ms: seq<Member>, depth: nat)
    requires IsBTree(ms) && PWfMembers(ms, depth)
    ensures FromEntries(Sort(KeyLess, EntryKey, ToEntries(ms)), []) == Some(ms)
    decreases ms, 1
  {
    var s := Sort(KeyLess, TextKey, ms);
    OrdersAreStrict();
    SortEntriesOfMembers(ms);
    EachFromToEntry(ms, depth);
    MembersWfAll(ms, depth);
    BTreeKeysDistinct(ms, depth);
    SortSorts(KeyLess, TextKey, ms);
    forall m | m in s ensures FromEntry(ToEntry(m)) == Some(m) {
      assert m in multiset(s);
      assert m in multiset(ms);
    }
    forall i, j | 0 <= i < j < |[] + s| ensures MemberKey(([] + s)[i]) != MemberKey(([] + s)[j]) {
      assert KeyLess(TextKey(s[i]), TextKey(s[j]));
    }
    InsertAll(s, [], ms);
  }

  /** End to end: the bytes written for a payload are accepted by the
      decoder, and the reader gets the same payload back. */
  lemma PayloadRoundTrip(p: PayloadValue)
    requires PWf(p, 0)
    ensures Decode(RUST_LIMITS, EncodePayload(p)) == Ok(ToValue(p))
    ensures FromValue(ToValue(p)) == Some(p)
  {
    EncodeIsEncoding(p);
    ToValueWf(p, 0);
    DecodeIffEncode(RUST_LIMITS, EncodePayload(p), ToValue(p));
    FromToValue(p, 0);
  }
}
