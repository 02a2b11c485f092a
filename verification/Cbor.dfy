/** Canonical CBOR: the value type, its one encoding, and the strict decoder
    as a function of the input and the cursor. */
module Cbor {
  import opened Bytes

  const U64_END := 0x1_0000_0000_0000_0000

  /** A map is its entries in the order they are written. A text string is
      its UTF-8 bytes. `Nint(arg)` is the integer -1 - arg. */
  datatype Value =
    | Uint(n: nat)
    | Nint(arg: nat)
    | Bytes(b: bytes)
    | Text(utf8: bytes)
    | Array(items: seq<Value>)
    | Map(entries: seq<Entry>)
    | Bool(flag: bool)

  datatype Entry = Entry(key: Value, value: Value)

  datatype CborError =
    | Truncated(offset: nat, needed: nat)
    | NonCanonical(offset: nat)
    | MapKeyOrder(offset: nat)
    | Unsupported(offset: nat)
    | TrailingBytes(offset: nat, extra: nat)
    | InvalidUtf8(offset: nat)

  /** What two decoders of the same format disagree on: how many levels they
      accept, and the end of the negative arguments they can hold. */
  datatype Limits = Limits(maxDepth: nat, negEnd: nat)

  /** `MAX_CBOR_DEPTH`, and nothing below `i64::MIN`. */
  const RUST_LIMITS := Limits(16, 0x8000_0000_0000_0000)

  /** `depth > 16` is an error, and integers are unbounded below. */
  const ORACLE_LIMITS := Limits(17, U64_END)

  // ---- UTF-8 ----

  predicate Cont(b: byte, lo: byte, hi: byte) { lo <= b <= hi }

  /** Length of the well-formed UTF-8 character at the start of `b`, 0 if
      there is none (RFC 3629, section 4). */
  function Utf8CharLen(b: bytes): (n: nat)
    ensures n <= |b|
  {
    if b == [] then 0
    else if b[0] < 0x80 then 1
    else if |b| >= 2 && 0xc2 <= b[0] <= 0xdf && Cont(b[1], 0x80, 0xbf) then 2
    else if |b| >= 3 && 0xe0 <= b[0] <= 0xef && Cont(b[2], 0x80, 0xbf)
         && Cont(b[1], if b[0] == 0xe0 then 0xa0 else 0x80, if b[0] == 0xed then 0x9f else 0xbf) then 3
    else if |b| >= 4 && 0xf0 <= b[0] <= 0xf4 && Cont(b[2], 0x80, 0xbf) && Cont(b[3], 0x80, 0xbf)
         && Cont(b[1], if b[0] == 0xf0 then 0x90 else 0x80, if b[0] == 0xf4 then 0x8f else 0xbf) then 4
    else 0
  }

  predicate ValidUtf8(b: bytes)
    decreases |b|
  {
    b == [] || (Utf8CharLen(b) > 0 && ValidUtf8(b[Utf8CharLen(b)..]))
  }

  lemma {:induction false} AsciiIsUtf8(b: bytes)
    requires forall i :: 0 <= i < |b| ==> b[i] < 0x80
    ensures ValidUtf8(b)
  {
    if b != [] {
      AsciiIsUtf8(b[1..]);
    }
  }

  // ---- encoding ----

  /** The head of an item, shortest form. */
  function Head(major: nat, v: nat): (h: bytes)
    requires major < 8
    ensures 1 <= |h| <= 9 && h[0] / 32 == major
  {
    if v < 24 then [32 * major + v]
    else if v < 0x100 then [32 * major + 24] + Be(v, 1)
    else if v < 0x1_0000 then [32 * major + 25] + Be(v, 2)
    else if v < 0x1_0000_0000 then [32 * major + 26] + Be(v, 4)
    else [32 * major + 27] + Be(v, 8)
  }

  function Encode(v: Value): bytes
    decreases v, 1
  {
    match v
    case Uint(n) => Head(0, n)
    case Nint(arg) => Head(1, arg)
    case Bytes(b) => Head(2, |b|) + b
    case Text(s) => Head(3, |s|) + s
    case Array(items) => Head(4, |items|) + EncodeItems(items)
    case Map(es) => Head(5, |es|) + EncodeEntries(es)
    case Bool(f) => [if f then 0xf5 else 0xf4]
  }

  function EncodeItems(items: seq<Value>): bytes
    decreases items, 0
  {
    if items == [] then [] else Encode(items[0]) + EncodeItems(items[1..])
  }

  function EncodeEntry(e: Entry): bytes
    decreases e, 0
  {
    Encode(e.key) + Encode(e.value)
  }

  function EncodeEntries(es: seq<Entry>): bytes
    decreases es, 0
  {
    if es == [] then [] else EncodeEntry(es[0]) + EncodeEntries(es[1..])
  }

  /** A value the decoder can return at `depth`, at every level: arguments
      and counts in range, text well formed, keys strictly increasing in
      canonical order, nesting within the limit. */
  predicate Wf(lim: Limits, v: Value, depth: nat)
    decreases v, 1
  {
    depth < lim.maxDepth &&
    match v
    case Uint(n) => n < U64_END
    case Nint(arg) => arg < U64_END && arg < lim.negEnd
    case Bytes(b) => |b| < U64_END
    case Text(s) => |s| < U64_END && ValidUtf8(s)
    case Array(items) => |items| < U64_END && WfItems(lim, items, depth + 1)
    case Map(es) => |es| < U64_END && WfEntries(lim, None, es, depth + 1)
    case Bool(_) => true
  }

  predicate WfItems(lim: Limits, items: seq<Value>, depth: nat)
    decreases items, 0
  {
    items == [] || (Wf(lim, items[0], depth) && WfItems(lim, items[1..], depth))
  }

  predicate WfEntry(lim: Limits, e: Entry, depth: nat)
    decreases e, 0
  {
    Wf(lim, e.key, depth) && Wf(lim, e.value, depth)
  }

  /** Well-formed entries whose encoded keys strictly increase in canonical
      order, starting above `prev`. */
  predicate WfEntries(lim: Limits, prev: Option<bytes>, es: seq<Entry>, depth: nat)
    decreases es, 0
  {
    es == [] ||
    ( WfEntry(lim, es[0], depth)
      && (prev.Some? ==> KeyLess(prev.value, Encode(es[0].key)))
      && WfEntries(lim, Some(Encode(es[0].key)), es[1..], depth))
  }

  // ---- decoding ----

  /** What a reading step returns: a value and the cursor after it. */
  datatype Read<+T> = Got(value: T, end: nat) | Fail(error: CborError)

  predicate Fits(b: bytes, cursor: nat, needed: nat) { cursor + needed <= |b| }

  function Short(b: bytes, cursor: nat, needed: nat): CborError
    requires cursor <= |b| && !Fits(b, cursor, needed)
  {
    Truncated(cursor, needed - (|b| - cursor))
  }

  /** An `n`-byte argument, rejected when a shorter form holds it. */
  function LongArgument(b: bytes, pos: nat, n: nat, least: nat): (r: Read<nat>)
    requires pos < |b| && 0 < n
    ensures r.Got? ==> r.end == pos + 1 + n <= |b| && least <= r.value < Pow256(n)
  {
    if !Fits(b, pos + 1, n) then Fail(Short(b, pos + 1, n))
    else
      var v := FromBe(b[pos + 1..pos + 1 + n]);
      BeOfFromBe(b[pos + 1..pos + 1 + n]);
      if v < least then Fail(NonCanonical(pos)) else Got(v, pos + 1 + n)
  }

  /** The head argument at `pos`. */
  function Argument(b: bytes, pos: nat): (r: Read<nat>)
    requires pos < |b|
    ensures r.Got? ==> pos < r.end <= |b| && r.value < U64_END
  {
    Pow256Values();
    var additional := b[pos] % 32;
    if additional < 24 then Got(additional, pos + 1)
    else if additional == 24 then LongArgument(b, pos, 1, 24)
    else if additional == 25 then LongArgument(b, pos, 2, 0x100)
    else if additional == 26 then LongArgument(b, pos, 4, 0x1_0000)
    else if additional == 27 then LongArgument(b, pos, 8, 0x1_0000_0000)
    else Fail(Unsupported(pos))
  }

  /** One item at `pos`, nested `depth` levels deep. */
  function DecodeItem(lim: Limits, b: bytes, pos: nat, depth: nat): (r: Read<Value>)
    requires pos <= |b|
    ensures r.Got? ==> pos < r.end <= |b|
    decreases lim.maxDepth - depth, 1
  {
    if depth >= lim.maxDepth then Fail(Unsupported(pos))
    else if pos >= |b| then Fail(Truncated(pos, 1))
    else if b[pos] / 32 == 7 then
      if b[pos] % 32 == 20 then Got(Bool(false), pos + 1)
      else if b[pos] % 32 == 21 then Got(Bool(true), pos + 1)
      else Fail(Unsupported(pos))
    else if b[pos] / 32 == 6 then Fail(Unsupported(pos))
    else
      match Argument(b, pos)
      case Fail(e) => Fail(e)
      case Got(arg, cur) => DecodeContent(lim, b, pos, cur, depth, arg)
  }

  /** What follows the head of the item that starts at `start`. */
  function DecodeContent(lim: Limits, b: bytes, start: nat, cur: nat, depth: nat, arg: nat): (r: Read<Value>)
    requires start < cur <= |b| && depth < lim.maxDepth
    ensures r.Got? ==> cur <= r.end <= |b|
    decreases lim.maxDepth - depth, 0
  {
    var major := b[start] / 32;
    if major == 0 then Got(Uint(arg), cur)
    else if major == 1 then
      if arg >= lim.negEnd then Fail(Unsupported(start)) else Got(Nint(arg), cur)
    else if major == 2 then
      if !Fits(b, cur, arg) then Fail(Short(b, cur, arg))
      else Got(Bytes(b[cur..cur + arg]), cur + arg)
    else if major == 3 then
      if !Fits(b, cur, arg) then Fail(Short(b, cur, arg))
      else if !ValidUtf8(b[cur..cur + arg]) then Fail(InvalidUtf8(cur))
      else Got(Text(b[cur..cur + arg]), cur + arg)
    else if major == 4 then
      match DecodeItems(lim, b, cur, depth + 1, arg, [])
      case Fail(e) => Fail(e)
      case Got(items, end) => Got(Array(items), end)
    else
      match DecodeEntries(lim, b, cur, depth + 1, arg, None, [])
      case Fail(e) => Fail(e)
      case Got(es, end) => Got(Map(es), end)
  }

  /** `n` more items, appended to `acc`. */
  function DecodeItems(lim: Limits, b: bytes, pos: nat, depth: nat, n: nat, acc: seq<Value>): (r: Read<seq<Value>>)
    requires pos <= |b| && depth <= lim.maxDepth
    ensures r.Got? ==> pos <= r.end <= |b|
    decreases lim.maxDepth - depth, n + 2
  {
    if n == 0 then Got(acc, pos)
    else
      match DecodeItem(lim, b, pos, depth)
      case Fail(e) => Fail(e)
      case Got(v, cur) => DecodeItems(lim, b, cur, depth, n - 1, acc + [v])
  }

  /** `n` more map entries, appended to `acc`; `prev` is the encoded key
      before them. */
  function DecodeEntries(lim: Limits, b: bytes, pos: nat, depth: nat, n: nat, prev: Option<bytes>, acc: seq<Entry>)
    : (r: Read<seq<Entry>>)
    requires pos <= |b| && depth <= lim.maxDepth
    ensures r.Got? ==> pos <= r.end <= |b|
    decreases lim.maxDepth - depth, n + 2
  {
    if n == 0 then Got(acc, pos)
    else
      match DecodeItem(lim, b, pos, depth)
      case Fail(e) => Fail(e)
      case Got(k, mid) =>
        if prev.Some? && !KeyLess(prev.value, b[pos..mid]) then Fail(MapKeyOrder(pos))
        else
          match DecodeItem(lim, b, mid, depth)
          case Fail(e) => Fail(e)
          case Got(v, cur) => DecodeEntries(lim, b, cur, depth, n - 1, Some(b[pos..mid]), acc + [Entry(k, v)])
  }

  /** A whole input: one item and nothing after it. */
  function Decode(lim: Limits, b: bytes): Result<Value, CborError> {
    match DecodeItem(lim, b, 0, 0)
    case Fail(e) => Err(e)
    case Got(v, end) => if end != |b| then Err(TrailingBytes(end, |b| - end)) else Ok(v)
  }

  // ---- heads ----

  lemma ArgumentOfHead(b: bytes, pos: nat, major: nat, v: nat)
    requires major < 8 && v < U64_END && At(b, pos, Head(major, v))
    ensures b[pos] / 32 == major && Argument(b, pos) == Got(v, pos + |Head(major, v)|)
  {
    Pow256Values();
    var h := Head(major, v);
    assert b[pos] == b[pos..pos + |h|][0] == h[0];
    var n := |h| - 1;
    if n > 0 {
      assert b[pos + 1..pos + 1 + n] == b[pos..pos + |h|][1..] == h[1..];
      FromBeOfBe(v, n);
    }
  }

  lemma HeadOfArgument(b: bytes, pos: nat)
    requires pos < |b| && Argument(b, pos).Got?
    ensures var Got(v, end) := Argument(b, pos); b[pos..end] == Head(b[pos] / 32, v)
  {
    hide FromBe, Be;
    Pow256Values();
    var Got(v, end) := Argument(b, pos);
    var n := end - pos - 1;
    assert b[pos..end] == [b[pos]] + b[pos + 1..end];
    if n > 0 {
      BeOfFromBe(b[pos + 1..pos + 1 + n]);
    }
  }

  /** Heads of one major type are ordered by their argument, in both orders;
      different heads differ before either ends. */
  lemma HeadOrder(major: nat, v: nat, w: nat, p: bytes, q: bytes)
    requires major < 8 && v < w < U64_END
    ensures |Head(major, v)| <= |Head(major, w)|
    ensures LexLess(Head(major, v) + p, Head(major, w) + q)
    ensures |Head(major, v)| == |Head(major, w)| ==> LexLess(Head(major, v), Head(major, w))
  {
    Pow256Values();
    var h, g := Head(major, v), Head(major, w);
    if h[0] == g[0] {
      var n := |h| - 1;
      LexBe(v, w, n);
      LexConcat([h[0]], [g[0]], Be(v, n), Be(w, n));
      LexConcat(h, g, p, q);
    } else {
      assert (h + p)[0] == h[0] && (g + q)[0] == g[0];
    }
  }

  // ---- round trips ----

  /** Decoding the encoding of any well-formed value returns it and stops
      exactly after it, whatever surrounds it. */
  lemma {:induction false} DecodeOfEncode(lim: Limits, v: Value, b: bytes, pos: nat, depth: nat)
    requires Wf(lim, v, depth) && At(b, pos, Encode(v))
    ensures DecodeItem(lim, b, pos, depth) == Got(v, pos + |Encode(v)|)
    decreases v, 2
  {
    match v
    case Array(items) => DecodeOfEncodeArray(lim, v, b, pos, depth);
    case Map(es) => DecodeOfEncodeMap(lim, v, b, pos, depth);
    case _ => DecodeOfEncodeLeaf(lim, v, b, pos, depth);
  }

  lemma DecodeOfEncodeLeaf(lim: Limits, v: Value, b: bytes, pos: nat, depth: nat)
    requires !v.Array? && !v.Map? && Wf(lim, v, depth) && At(b, pos, Encode(v))
    ensures DecodeItem(lim, b, pos, depth) == Got(v, pos + |Encode(v)|)
  {
    hide DecodeItem, DecodeContent, Encode, Head, Wf, At, Major, LeafArgument, LeafContent;
    if v.Bool? {
      DecodeOfBool(lim, v, b, pos, depth);
    } else {
      EncodeOfLeaf(lim, v, depth);
      ContentAfterHead(lim, b, pos, depth, Major(v), LeafArgument(v), LeafContent(v));
      LeafIsContent(lim, v, b, pos, pos + |Head(Major(v), LeafArgument(v))|, depth);
    }
  }

  lemma DecodeOfBool(lim: Limits, v: Value, b: bytes, pos: nat, depth: nat)
    requires v.Bool? && Wf(lim, v, depth) && At(b, pos, Encode(v))
    ensures DecodeItem(lim, b, pos, depth) == Got(v, pos + |Encode(v)|)
  {
    hide Argument, DecodeContent;
    assert b[pos] == b[pos..pos + 1][0];
  }

  lemma EncodeOfLeaf(lim: Limits, v: Value, depth: nat)
    requires (v.Uint? || v.Nint? || v.Bytes? || v.Text?) && Wf(lim, v, depth)
    ensures Encode(v) == Head(Major(v), LeafArgument(v)) + LeafContent(v)
    ensures Major(v) < 6 && LeafArgument(v) < U64_END && depth < lim.maxDepth
  {
    hide Head, ValidUtf8;
  }

  /** The head and the content of a leaf. */
  function Major(v: Value): nat {
    match v
    case Uint(_) => 0
    case Nint(_) => 1
    case Bytes(_) => 2
    case _ => 3
  }

  function LeafArgument(v: Value): nat
    requires v.Uint? || v.Nint? || v.Bytes? || v.Text?
  {
    match v
    case Uint(n) => n
    case Nint(arg) => arg
    case Bytes(s) => |s|
    case Text(s) => |s|
  }

  function LeafContent(v: Value): bytes {
    match v
    case Bytes(s) => s
    case Text(s) => s
    case _ => []
  }

  lemma LeafIsContent(lim: Limits, v: Value, b: bytes, pos: nat, cur: nat, depth: nat)
    requires (v.Uint? || v.Nint? || v.Bytes? || v.Text?) && Wf(lim, v, depth)
    requires pos < cur && At(b, cur, LeafContent(v)) && b[pos] / 32 == Major(v) && depth < lim.maxDepth
    ensures DecodeContent(lim, b, pos, cur, depth, LeafArgument(v)) == Got(v, cur + |LeafContent(v)|)
  {
    hide DecodeItems, DecodeEntries, ValidUtf8;
  }

  lemma {:induction false} DecodeOfEncodeArray(lim: Limits, v: Value, b: bytes, pos: nat, depth: nat)
    requires v.Array? && Wf(lim, v, depth) && At(b, pos, Encode(v))
    ensures DecodeItem(lim, b, pos, depth) == Got(v, pos + |Encode(v)|)
    decreases v, 1
  {
    hide Head, EncodeItems, WfItems, DecodeItems, DecodeEntries;
    var n, e := |v.items|, EncodeItems(v.items);
    ContentAfterHead(lim, b, pos, depth, 4, n, e);
    DecodeOfEncodeItems(lim, v.items, b, pos + |Head(4, n)|, depth + 1, []);
    assert [] + v.items == v.items;
  }

  lemma {:induction false} DecodeOfEncodeMap(lim: Limits, v: Value, b: bytes, pos: nat, depth: nat)
    requires v.Map? && Wf(lim, v, depth) && At(b, pos, Encode(v))
    ensures DecodeItem(lim, b, pos, depth) == Got(v, pos + |Encode(v)|)
    decreases v, 1
  {
    hide Head, EncodeEntries, WfEntries, DecodeItems, DecodeEntries;
    var n, e := |v.entries|, EncodeEntries(v.entries);
    ContentAfterHead(lim, b, pos, depth, 5, n, e);
    DecodeOfEncodeEntries(lim, v.entries, b, pos + |Head(5, n)|, depth + 1, None, []);
    assert [] + v.entries == v.entries;
  }

  /** A head followed by its content: the decoder reads the head and goes on
      to the content. */
  lemma ContentAfterHead(lim: Limits, b: bytes, pos: nat, depth: nat, major: nat, v: nat, s: bytes)
    requires major < 6 && v < U64_END && depth < lim.maxDepth && At(b, pos, Head(major, v) + s)
    ensures var cur := pos + |Head(major, v)|;
      && b[pos] / 32 == major && At(b, cur, s)
      && DecodeItem(lim, b, pos, depth) == DecodeContent(lim, b, pos, cur, depth, v)
  {
    hide Head, Argument, DecodeContent;
    AtSplit(b, pos, Head(major, v), s);
    ArgumentOfHead(b, pos, major, v);
  }

  lemma {:induction false} DecodeOfEncodeItems(lim: Limits, items: seq<Value>, b: bytes, pos: nat, depth: nat,
      acc: seq<Value>)
    requires depth <= lim.maxDepth
    requires WfItems(lim, items, depth) && At(b, pos, EncodeItems(items))
    ensures DecodeItems(lim, b, pos, depth, |items|, acc) == Got(acc + items, pos + |EncodeItems(items)|)
    decreases items, 0
  {
    hide DecodeItem, Encode, Wf;
    if items == [] {
      assert acc + items == acc;
    } else {
      var e := Encode(items[0]);
      AtSplit(b, pos, e, EncodeItems(items[1..]));
      DecodeOfEncode(lim, items[0], b, pos, depth);
      DecodeOfEncodeItems(lim, items[1..], b, pos + |e|, depth, acc + [items[0]]);
      assert acc + [items[0]] + items[1..] == acc + items;
    }
  }

  lemma {:induction false} DecodeOfEncodeEntry(lim: Limits, e: Entry, b: bytes, pos: nat, depth: nat)
    requires WfEntry(lim, e, depth) && At(b, pos, EncodeEntry(e))
    ensures DecodeItem(lim, b, pos, depth) == Got(e.key, pos + |Encode(e.key)|)
    ensures At(b, pos, Encode(e.key))
    ensures DecodeItem(lim, b, pos + |Encode(e.key)|, depth) == Got(e.value, pos + |EncodeEntry(e)|)
    decreases e, 0
  {
    AtSplit(b, pos, Encode(e.key), Encode(e.value));
    DecodeOfEncode(lim, e.key, b, pos, depth);
    DecodeOfEncode(lim, e.value, b, pos + |Encode(e.key)|, depth);
  }

  lemma {:induction false} DecodeOfEncodeEntries(lim: Limits, es: seq<Entry>, b: bytes, pos: nat, depth: nat,
      prev: Option<bytes>, acc: seq<Entry>)
    requires depth <= lim.maxDepth
    requires WfEntries(lim, prev, es, depth) && At(b, pos, EncodeEntries(es))
    ensures DecodeEntries(lim, b, pos, depth, |es|, prev, acc) == Got(acc + es, pos + |EncodeEntries(es)|)
    decreases es, 0
  {
    hide DecodeItem, Encode, Wf;
    if es == [] {
      assert acc + es == acc;
    } else {
      var e, rest := es[0], es[1..];
      var cur := pos + |EncodeEntry(e)|;
      AtSplit(b, pos, EncodeEntry(e), EncodeEntries(rest));
      DecodeOfEncodeEntry(lim, e, b, pos, depth);
      DecodeOfEncodeEntries(lim, rest, b, cur, depth, Some(Encode(e.key)), acc + [e]);
      assert acc + [e] + rest == acc + es;
    }
  }

  /** Anything the decoder accepts is well formed, and the bytes it consumed
      are the encoding of what it returned. */
  lemma {:induction false} EncodeOfDecode(lim: Limits, b: bytes, pos: nat, depth: nat)
    requires pos <= |b| && DecodeItem(lim, b, pos, depth).Got?
    ensures var Got(v, end) := DecodeItem(lim, b, pos, depth);
      Wf(lim, v, depth) && b[pos..end] == Encode(v)
    decreases lim.maxDepth - depth, 1
  {
    if b[pos] / 32 == 7 {
      assert b[pos..pos + 1] == [b[pos]];
    } else {
      var Got(arg, cur) := Argument(b, pos);
      HeadOfArgument(b, pos);
      EncodeOfContent(lim, b, pos, cur, depth, arg);
    }
  }

  lemma {:induction false} EncodeOfContent(lim: Limits, b: bytes, start: nat, cur: nat, depth: nat, arg: nat)
    requires start < cur <= |b| && depth < lim.maxDepth && arg < U64_END && b[start] / 32 < 6
    requires b[start..cur] == Head(b[start] / 32, arg)
    requires DecodeContent(lim, b, start, cur, depth, arg).Got?
    ensures var Got(v, end) := DecodeContent(lim, b, start, cur, depth, arg);
      Wf(lim, v, depth) && b[start..end] == Encode(v)
    decreases lim.maxDepth - depth, 0
  {
    hide Head, DecodeItem, DecodeItems, DecodeEntries, WfItems, WfEntries, EncodeItems, EncodeEntries;
    var Got(v, end) := DecodeContent(lim, b, start, cur, depth, arg);
    SliceSplit(b, start, cur, end);
    if b[start] / 32 == 4 {
      EncodeOfDecodeItems(lim, b, cur, depth + 1, arg, []);
      assert v.items[0..] == v.items;
    } else if b[start] / 32 == 5 {
      EncodeOfDecodeEntries(lim, b, cur, depth + 1, arg, None, []);
      assert v.entries[0..] == v.entries;
    }
  }

  lemma {:induction false} EncodeOfDecodeItems(lim: Limits, b: bytes, pos: nat, depth: nat, n: nat, acc: seq<Value>)
    requires pos <= |b| && depth <= lim.maxDepth && DecodeItems(lim, b, pos, depth, n, acc).Got?
    ensures var Got(items, end) := DecodeItems(lim, b, pos, depth, n, acc);
      && |items| == |acc| + n && items[..|acc|] == acc
      && WfItems(lim, items[|acc|..], depth)
      && b[pos..end] == EncodeItems(items[|acc|..])
    decreases lim.maxDepth - depth, n + 2
  {
    hide DecodeItem, Encode, Wf;
    if n > 0 {
      var Got(v, cur) := DecodeItem(lim, b, pos, depth);
      var Got(items, end) := DecodeItems(lim, b, pos, depth, n, acc);
      EncodeOfDecode(lim, b, pos, depth);
      EncodeOfDecodeItems(lim, b, cur, depth, n - 1, acc + [v]);
      PrefixSplit(items, acc, v);
      SliceSplit(b, pos, cur, end);
    }
  }

  /** A sequence that starts with `acc` and `x`. */
  lemma PrefixSplit<T>(xs: seq<T>, acc: seq<T>, x: T)
    requires |acc| < |xs| && xs[..|acc| + 1] == acc + [x]
    ensures xs[|acc|] == x && xs[..|acc|] == acc
    ensures xs[|acc|..][0] == x && xs[|acc|..][1..] == xs[|acc| + 1..]
  {
    var k := |acc|;
    assert xs[k] == xs[..k + 1][k];
    assert xs[..k] == xs[..k + 1][..k];
  }

  lemma SliceSplit(b: bytes, i: nat, j: nat, k: nat)
    requires i <= j <= k <= |b|
    ensures b[i..k] == b[i..j] + b[j..k]
  {
  }

  lemma {:induction false} EncodeOfDecodeEntries(lim: Limits, b: bytes, pos: nat, depth: nat, n: nat,
      prev: Option<bytes>, acc: seq<Entry>)
    requires pos <= |b| && depth <= lim.maxDepth && DecodeEntries(lim, b, pos, depth, n, prev, acc).Got?
    ensures var Got(es, end) := DecodeEntries(lim, b, pos, depth, n, prev, acc);
      && |es| == |acc| + n && es[..|acc|] == acc
      && WfEntries(lim, prev, es[|acc|..], depth)
      && b[pos..end] == EncodeEntries(es[|acc|..])
    decreases lim.maxDepth - depth, n + 2
  {
    hide DecodeItem, Encode, EncodeEntry, WfEntry;
    if n > 0 {
      var Got(k, mid) := DecodeItem(lim, b, pos, depth);
      var Got(v, cur) := DecodeItem(lim, b, mid, depth);
      var Got(es, end) := DecodeEntries(lim, b, pos, depth, n, prev, acc);
      EncodeOfEntry(lim, b, pos, mid, cur, depth, k, v);
      EncodeOfDecodeEntries(lim, b, cur, depth, n - 1, Some(b[pos..mid]), acc + [Entry(k, v)]);
      PrefixSplit(es, acc, Entry(k, v));
      SliceSplit(b, pos, cur, end);
    }
  }

  lemma {:induction false} EncodeOfEntry(lim: Limits, b: bytes, pos: nat, mid: nat, cur: nat, depth: nat, k: Value,
      v: Value)
    requires pos <= mid <= |b|
    requires DecodeItem(lim, b, pos, depth) == Got(k, mid) && DecodeItem(lim, b, mid, depth) == Got(v, cur)
    ensures WfEntry(lim, Entry(k, v), depth) && b[pos..mid] == Encode(k) && b[pos..cur] == EncodeEntry(Entry(k, v))
    decreases lim.maxDepth - depth, 2
  {
    EncodeOfDecode(lim, b, pos, depth);
    EncodeOfDecode(lim, b, mid, depth);
    assert b[pos..cur] == b[pos..mid] + b[mid..cur];
  }

  /** The codec is a bijection: a whole input is accepted with value `v`
      exactly when it is `v`'s encoding and `v` is well formed. */
  lemma DecodeIffEncode(lim: Limits, b: bytes, v: Value)
    ensures Decode(lim, b) == Ok(v) <==> Wf(lim, v, 0) && b == Encode(v)
  {
    if Wf(lim, v, 0) && b == Encode(v) {
      assert b[0..|b|] == b;
      DecodeOfEncode(lim, v, b, 0, 0);
    }
    if Decode(lim, b) == Ok(v) {
      EncodeOfDecode(lim, b, 0, 0);
      assert b[0..|b|] == b;
    }
  }

  /** No encoding is a proper prefix of another, so encoded items can be
      read back from a stream without lengths. */
  lemma EncodePrefixFree(lim: Limits, v: Value, w: Value, p: bytes, q: bytes)
    requires Wf(lim, v, 0) && Wf(lim, w, 0) && Encode(v) + p == Encode(w) + q
    ensures v == w && p == q
  {
    var b := Encode(v) + p;
    assert b[0..|Encode(v)|] == Encode(v) && b[0..|Encode(w)|] == Encode(w);
    DecodeOfEncode(lim, v, b, 0, 0);
    DecodeOfEncode(lim, w, b, 0, 0);
    assert p == b[|Encode(v)|..] && q == b[|Encode(w)|..];
  }
}
