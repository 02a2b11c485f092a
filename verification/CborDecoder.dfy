/** The decoder in the form the source has: a cursor that advances, and loops
    that push children into a vector. Each method is the decoding function. */
module CborDecoder {
  import opened Bytes
  import opened Cbor

  method DecodeArgument(b: bytes, cursor: nat) returns (r: Read<nat>)
    requires cursor < |b|
    ensures r == Argument(b, cursor)
  {
    var additional := b[cursor] % 32;
    if additional < 24 {
      return Got(additional, cursor + 1);
    }
    if additional > 27 {
      return Fail(Unsupported(cursor));
    }
    var width, least := 1, 24;
    if additional == 25 {
      width, least := 2, 0x100;
    } else if additional == 26 {
      width, least := 4, 0x1_0000;
    } else if additional == 27 {
      width, least := 8, 0x1_0000_0000;
    }
    if cursor + 1 + width > |b| {
      return Fail(Truncated(cursor + 1, width - (|b| - (cursor + 1))));
    }
    var v := FromBe(b[cursor + 1..cursor + 1 + width]);
    if v < least {
      return Fail(NonCanonical(cursor));
    }
    return Got(v, cursor + 1 + width);
  }

  method DecodeValueInner(lim: Limits, b: bytes, start: nat, depth: nat) returns (r: Read<Value>)
    requires start <= |b|
    ensures r == DecodeItem(lim, b, start, depth)
    decreases lim.maxDepth - depth, 1
  {
    if depth >= lim.maxDepth {
      return Fail(Unsupported(start));
    }
    if start >= |b| {
      return Fail(Truncated(start, 1));
    }
    var major := b[start] / 32;
    if major == 6 {
      return Fail(Unsupported(start));
    }
    if major == 7 {
      var additional := b[start] % 32;
      if additional == 20 || additional == 21 {
        return Got(Bool(additional == 21), start + 1);
      }
      return Fail(Unsupported(start));
    }
    var head := DecodeArgument(b, start);
    if head.Fail? {
      return Fail(head.error);
    }
    var arg, cursor := head.value, head.end;
    if major == 4 {
      var items := DecodeArrayItems(lim, b, cursor, depth + 1, arg);
      return if items.Fail? then Fail(items.error) else Got(Array(items.value), items.end);
    }
    if major == 5 {
      var entries := DecodeMapEntries(lim, b, cursor, depth + 1, arg);
      return if entries.Fail? then Fail(entries.error) else Got(Map(entries.value), entries.end);
    }
    if major == 0 {
      return Got(Uint(arg), cursor);
    }
    if major == 1 {
      return if arg >= lim.negEnd then Fail(Unsupported(start)) else Got(Nint(arg), cursor);
    }
    if cursor + arg > |b| {
      return Fail(Truncated(cursor, arg - (|b| - cursor)));
    }
    var content := b[cursor..cursor + arg];
    if major == 2 {
      return Got(Bytes(content), cursor + arg);
    }
    return if ValidUtf8(content) then Got(Text(content), cursor + arg) else Fail(InvalidUtf8(cursor));
  }

  method DecodeArrayItems(lim: Limits, b: bytes, start: nat, depth: nat, len: nat) returns (r: Read<seq<Value>>)
    requires start <= |b| && depth <= lim.maxDepth
    ensures r == DecodeItems(lim, b, start, depth, len, [])
    decreases lim.maxDepth - depth, 2
  {
    var items: seq<Value>, cursor: nat := [], start;
    for i := 0 to len
      invariant cursor <= |b|
      invariant DecodeItems(lim, b, start, depth, len, []) == DecodeItems(lim, b, cursor, depth, len - i, items)
    {
      hide DecodeItem;
      var item := DecodeValueInner(lim, b, cursor, depth);
      if item.Fail? {
        return Fail(item.error);
      }
      items, cursor := items + [item.value], item.end;
    }
    return Got(items, cursor);
  }

  method DecodeMapEntries(lim: Limits, b: bytes, start: nat, depth: nat, len: nat) returns (r: Read<seq<Entry>>)
    requires start <= |b| && depth <= lim.maxDepth
    ensures r == DecodeEntries(lim, b, start, depth, len, None, [])
    decreases lim.maxDepth - depth, 2
  {
    var entries: seq<Entry>, cursor: nat := [], start;
    var prevKeyEncoded := None;
    for i := 0 to len
      invariant cursor <= |b|
      invariant DecodeEntries(lim, b, start, depth, len, None, [])
             == DecodeEntries(lim, b, cursor, depth, len - i, prevKeyEncoded, entries)
    {
      hide DecodeItem;
      var key := DecodeValueInner(lim, b, cursor, depth);
      if key.Fail? {
        return Fail(key.error);
      }
      var keyEncoded := b[cursor..key.end];
      if prevKeyEncoded.Some? && !KeyLess(prevKeyEncoded.value, keyEncoded) {
        return Fail(MapKeyOrder(cursor));
      }
      prevKeyEncoded := Some(keyEncoded);
      var value := DecodeValueInner(lim, b, key.end, depth);
      if value.Fail? {
        return Fail(value.error);
      }
      entries, cursor := entries + [Entry(key.value, value.value)], value.end;
    }
    return Got(entries, cursor);
  }

  /** Accepts exactly the canonical encodings: the value returned is the one
      whose encoding the input is, and there is none when it returns an
      error. */
  method DecodeAll(lim: Limits, b: bytes) returns (r: Result<Value, CborError>)
    ensures r == Decode(lim, b)
    ensures r.Ok? ==> Wf(lim, r.value, 0) && b == Encode(r.value)
    ensures r.Err? ==> forall v :: Wf(lim, v, 0) ==> b != Encode(v)
  {
    var item := DecodeValueInner(lim, b, 0, 0);
    if item.Fail? {
      r := Err(item.error);
    } else if item.end != |b| {
      r := Err(TrailingBytes(item.end, |b| - item.end));
    } else {
      r := Ok(item.value);
    }
    forall v ensures Decode(lim, b) == Ok(v) <==> Wf(lim, v, 0) && b == Encode(v) {
      DecodeIffEncode(lim, b, v);
    }
  }
}
