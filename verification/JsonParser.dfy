/** The writer and the parser of canonical JSON in the form the source has:
    text pushed onto a buffer, and a parser whose position advances. */
module JsonParser {
  import opened Bytes
  import opened Sorting
  import opened Json

  method WriteString(out: string, s: string) returns (r: string)
    ensures r == out + PrintString(s)
  {
    hide Escape;
    r := out + ['"'];
    for i := 0 to |s|
      invariant r + Escaped(s[i..]) == out + ['"'] + Escaped(s)
    {
      assert s[i..][0] == s[i] && s[i..][1..] == s[i + 1..];
      assert r + (Escape(s[i]) + Escaped(s[i + 1..])) == r + Escape(s[i]) + Escaped(s[i + 1..]);
      r := r + Escape(s[i]);
    }
    assert r + [] == r;
    r := r + ['"'];
    assert r == out + PrintString(s);
  }

  /** What is still to be written at item `i`. */
  function ItemsLeft(items: seq<Json>, i: nat): string
    requires i <= |items|
  {
    if i == 0 then PrintItems(items) else MoreItems(items[i..])
  }

  function FieldsLeft(fs: seq<Field>, i: nat): string
    requires i <= |fs|
  {
    if i == 0 then PrintFields(fs) else MoreFields(fs[i..])
  }

  lemma NextItem(items: seq<Json>, i: nat)
    requires i < |items|
    ensures ItemsLeft(items, i) == (if i > 0 then [','] else []) + (Print(items[i]) + ItemsLeft(items, i + 1))
  {
    hide Print;
    assert items[i..][0] == items[i] && items[i..][1..] == items[i + 1..];
  }

  lemma NextField(fs: seq<Field>, i: nat)
    requires i < |fs|
    ensures FieldsLeft(fs, i) == (if i > 0 then [','] else []) + (PrintField(fs[i]) + FieldsLeft(fs, i + 1))
  {
    hide PrintField;
    assert fs[i..][0] == fs[i] && fs[i..][1..] == fs[i + 1..];
  }

  lemma NothingLeft(items: seq<Json>, fs: seq<Field>)
    ensures ItemsLeft(items, |items|) == [] && FieldsLeft(fs, |fs|) == []
  {
  }

  /** `write_value` without indentation. */
  method WriteValue(out: string, v: Json) returns (r: string)
    ensures r == out + Print(v)
    decreases v, 1
  {
    hide PrintString, PrintItems, PrintFields, Digits;
    match v
    case JNull => r := out + "null";
    case JBool(b) => r := out + if b then "true" else "false";
    case JInt(n) => r := out + Digits(n);
    case JString(s) => r := WriteString(out, s);
    case JArray(items) => r := WriteItems(out, items);
    case JObject(members) => r := WriteFields(out, members);
  }

  method WriteItems(out: string, items: seq<Json>) returns (r: string)
    ensures r == out + (['['] + PrintItems(items) + [']'])
    decreases items, 0
  {
    hide Print, ItemsLeft;
    r := out + ['['];
    ghost var goal := out + ['['] + PrintItems(items);
    assert ItemsLeft(items, 0) == PrintItems(items) by { AllLeft(items, []); }
    for i := 0 to |items|
      invariant r + ItemsLeft(items, i) == goal
    {
      NextItem(items, i);
      ghost var before := r;
      if i > 0 {
        r := r + [','];
      }
      r := WriteValue(r, items[i]);
      Written(before, if i > 0 then [','] else [], Print(items[i]), ItemsLeft(items, i + 1));
    }
    NothingLeft(items, []);
    assert r + [] == r;
    r := r + [']'];
  }

  lemma AllLeft(items: seq<Json>, fs: seq<Field>)
    ensures ItemsLeft(items, 0) == PrintItems(items) && FieldsLeft(fs, 0) == PrintFields(fs)
  {
  }

  lemma Written(out: string, comma: string, text: string, rest: string)
    ensures out + (comma + (text + rest)) == out + comma + text + rest
    ensures out + [] == out
  {
  }

  method WriteFields(out: string, fs: seq<Field>) returns (r: string)
    ensures r == out + (['{'] + PrintFields(fs) + ['}'])
    decreases fs, 0
  {
    hide Print, FieldsLeft, PrintString;
    r := out + ['{'];
    ghost var goal := out + ['{'] + PrintFields(fs);
    assert FieldsLeft(fs, 0) == PrintFields(fs) by { AllLeft([], fs); }
    for i := 0 to |fs|
      invariant r + FieldsLeft(fs, i) == goal
    {
      NextField(fs, i);
      ghost var before := r;
      if i > 0 {
        r := r + [','];
      }
      ghost var start := r;
      r := WriteString(r, fs[i].key);
      r := r + [':'];
      r := WriteValue(r, fs[i].value);
      assert r == start + PrintField(fs[i]);
      Written(before, if i > 0 then [','] else [], PrintField(fs[i]), FieldsLeft(fs, i + 1));
    }
    NothingLeft([], fs);
    assert r + [] == r;
    r := r + ['}'];
  }

  /** The outcome of a parser method: the value at the new position, or the
      error. */
  predicate Yields<T(==)>(spec: Parse<T>, r: Result<T, JsonError>, pos: nat) {
    match spec
    case Parsed(v, end) => r == Ok(v) && pos == end
    case Bad(e) => r == Err(e)
  }

  /** `ParseFields`, from a key, from behind it, and from behind its value. */
  function AfterKey(t: string, pos: nat, depth: nat, max: nat, m: seq<Field>, key: string): Parse<Json>
    requires pos <= |t|
  {
    var p := SkipWs(t, pos);
    if !IsAscii(key) || !Next(t, p, ':') then Bad(Syntax)
    else
      match ParseValue(t, p + 1, depth + 1, max)
      case Bad(e) => Bad(e)
      case Parsed(v, end) => AfterField(t, end, depth, max, m, key, v)
  }

  function AfterField(t: string, pos: nat, depth: nat, max: nat, m: seq<Field>, key: string, v: Json): Parse<Json>
    requires pos <= |t|
  {
    if HasKey(m, key) then Bad(DuplicateKey(key))
    else
      var m' := Insert(StringLess, FieldKey, Field(key, v), m);
      if Next(t, pos, ',') then ParseFields(t, pos + 1, depth, max, m')
      else if Next(t, pos, '}') then Parsed(JObject(m'), pos + 1)
      else Bad(Syntax)
  }

  function AtKey(t: string, pos: nat, depth: nat, max: nat, m: seq<Field>): Parse<Json>
    requires pos <= |t|
  {
    var p := SkipWs(t, pos);
    if !Next(t, p, '"') then Bad(Syntax)
    else
      match ParseString(t, p + 1, [])
      case Bad(e) => Bad(e)
      case Parsed(key, end) => AfterKey(t, end, depth, max, m, key)
  }

  lemma FieldsInParts(t: string, pos: nat, depth: nat, max: nat, m: seq<Field>)
    requires pos <= |t|
    ensures ParseFields(t, pos, depth, max, m) == AtKey(t, pos, depth, max, m)
  {
    hide ParseString, ParseValue, SkipWs, HasKey, Insert, IsAscii, FieldKey, StringLess;
  }

  class Parser {
    const text: string
    const maxDepth: nat
    var pos: nat

    constructor (text: string, maxDepth: nat)
      ensures this.text == text && this.maxDepth == maxDepth && pos == 0
    {
      this.text, this.maxDepth, pos := text, maxDepth, 0;
    }

    method SkipSpace()
      requires pos <= |text|
      modifies this`pos
      ensures pos == SkipWs(text, old(pos))
    {
      while pos < |text| && IsWs(text[pos])
        invariant pos <= |text| && SkipWs(text, pos) == SkipWs(text, old(pos))
        decreases |text| - pos
      {
        pos := pos + 1;
      }
    }

    method ReadValue(depth: nat) returns (r: Result<Json, JsonError>)
      requires pos <= |text|
      modifies this`pos
      ensures pos <= |text| && Yields(ParseValue(text, old(pos), depth, maxDepth), r, pos)
      decreases |text| - pos, 2
    {
      hide ParseObject, ParseArray, ParseString, ParseNumber, SkipWs;
      SkipSpace();
      if pos == |text| {
        return Err(Syntax);
      }
      var c := text[pos];
      if (c == '{' || c == '[') && depth > maxDepth {
        return Err(TooDeep);
      }
      if c == '{' {
        r := ReadObject(depth);
      } else if c == '[' {
        r := ReadArray(depth);
      } else if c == '"' {
        var s := ReadString();
        r := if s.Ok? then Ok(JString(s.value)) else Err(s.error);
      } else if IsDigit(c) {
        r := ReadNumber();
      } else {
        return Err(Syntax);
      }
      if r.Ok? {
        SkipSpace();
      }
    }

    method ReadObject(depth: nat) returns (r: Result<Json, JsonError>)
      requires pos < |text|
      modifies this`pos
      ensures pos <= |text| && Yields(ParseObject(text, old(pos) + 1, depth, maxDepth), r, pos)
      decreases |text| - pos, 1
    {
      hide ParseString, ParseValue, ParseFields, SkipWs, HasKey, Insert, IsAscii, FieldKey, StringLess;
      ghost var spec := ParseObject(text, pos + 1, depth, maxDepth);
      ghost var start := pos;
      var m: seq<Field> := [];
      pos := pos + 1;
      SkipSpace();
      if Next(text, pos, '}') {
        pos := pos + 1;
        return Ok(JObject(m));
      }
      while true
        invariant start < pos <= |text| && spec == ParseFields(text, pos, depth, maxDepth, m)
        decreases |text| - pos
      {
        FieldsInParts(text, pos, depth, maxDepth, m);
        SkipSpace();
        if !Next(text, pos, '"') {
          return Err(Syntax);
        }
        var key := ReadString();
        if key.Err? {
          return Err(key.error);
        }
        if !IsAscii(key.value) {
          return Err(Syntax);
        }
        SkipSpace();
        if !Next(text, pos, ':') {
          return Err(Syntax);
        }
        pos := pos + 1;
        var v := ReadValue(depth + 1);
        if v.Err? {
          return Err(v.error);
        }
        if HasKey(m, key.value) {
          return Err(DuplicateKey(key.value));
        }
        m := Insert(StringLess, FieldKey, Field(key.value, v.value), m);
        if Next(text, pos, ',') {
          pos := pos + 1;
        } else if Next(text, pos, '}') {
          pos := pos + 1;
          return Ok(JObject(m));
        } else {
          return Err(Syntax);
        }
      }
    }

    method ReadArray(depth: nat) returns (r: Result<Json, JsonError>)
      requires pos < |text|
      modifies this`pos
      ensures pos <= |text| && Yields(ParseArray(text, old(pos) + 1, depth, maxDepth), r, pos)
      decreases |text| - pos, 1
    {
      hide ParseValue, SkipWs;
      ghost var spec := ParseArray(text, pos + 1, depth, maxDepth);
      ghost var start := pos;
      var items: seq<Json> := [];
      pos := pos + 1;
      SkipSpace();
      if Next(text, pos, ']') {
        pos := pos + 1;
        return Ok(JArray(items));
      }
      while true
        invariant start < pos <= |text| && spec == ParseItems(text, pos, depth, maxDepth, items)
        decreases |text| - pos
      {
        var v := ReadValue(depth + 1);
        if v.Err? {
          return Err(v.error);
        }
        items := items + [v.value];
        if Next(text, pos, ',') {
          pos := pos + 1;
        } else if Next(text, pos, ']') {
          pos := pos + 1;
          return Ok(JArray(items));
        } else {
          return Err(Syntax);
        }
      }
    }

    method ReadNumber() returns (r: Result<Json, JsonError>)
      requires pos < |text| && IsDigit(text[pos])
      modifies this`pos
      ensures pos <= |text| && Yields(ParseNumber(text, old(pos)), r, pos)
    {
      var start := pos;
      DigitsEndDigits(text, pos);
      while pos < |text| && IsDigit(text[pos])
        invariant start <= pos <= |text| && DigitsEnd(text, pos) == DigitsEnd(text, start)
        decreases |text| - pos
      {
        pos := pos + 1;
      }
      if Next(text, pos, '.') || Next(text, pos, 'e') || Next(text, pos, 'E') {
        return Err(Syntax);
      }
      var digits := text[start..pos];
      if |digits| > 1 && digits[0] == '0' {
        return Err(Syntax);
      }
      var n := DecimalValue(digits);
      return if n > MAX_SAFE_INT then Err(Syntax) else Ok(JInt(n));
    }

    method ReadString() returns (r: Result<string, JsonError>)
      requires pos < |text|
      modifies this`pos
      ensures pos <= |text| && Yields(ParseString(text, old(pos) + 1, []), r, pos)
    {
      hide ParseUnicode;
      ghost var spec := ParseString(text, pos + 1, []);
      pos := pos + 1;
      var out := "";
      while true
        invariant pos <= |text| && spec == ParseString(text, pos, out)
        decreases |text| - pos
      {
        if pos == |text| {
          return Err(Syntax);
        }
        var c := text[pos];
        if c == '"' {
          pos := pos + 1;
          return Ok(out);
        } else if c == '\\' {
          if pos + 1 == |text| {
            return Err(Syntax);
          }
          var e := text[pos + 1];
          if e == 'u' {
            match ParseUnicode(text, pos + 2)
            case Bad(err) => return Err(err);
            case Parsed(u, end) => out, pos := out + [u], end;
          } else if ShortEscape(e).Some? {
            out, pos := out + [ShortEscape(e).value], pos + 2;
          } else {
            return Err(Syntax);
          }
        } else if c < 32 as char {
          return Err(Syntax);
        } else {
          out, pos := out + [c], pos + 1;
        }
      }
    }
  }

  /** `parse_canonical`, on valid UTF-8. */
  method ParseDocument(text: string, maxDepth: nat) returns (r: Result<Json, JsonError>)
    ensures r == ParseCanonical(text, maxDepth)
  {
    hide ParseValue, Print;
    var p := new Parser(text, maxDepth);
    var v := p.ReadValue(1);
    if v.Err? {
      return Err(v.error);
    }
    if p.pos != |text| {
      return Err(Syntax);
    }
    var printed := WriteValue("", v.value);
    assert [] + Print(v.value) == Print(v.value);
    return if printed != text then Err(NotCanonical) else Ok(v.value);
  }
}
