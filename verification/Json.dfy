/** Canonical JSON: printing, and the parser that accepts nothing but what it
    would print. Text is a sequence of Unicode scalar values. */
module Json {
  import opened Bytes
  import opened Sorting

  /** The members of an object are a `BTreeMap`: in key order. */
  datatype Json = JObject(members: seq<Field>) | JArray(items: seq<Json>) | JString(s: string) | JInt(n: nat)
      | JBool(flag: bool) | JNull

  datatype Field = Field(key: string, value: Json)

  function FieldKey(f: Field): string { f.key }

  const MAX_SAFE_INT := 0x1F_FFFF_FFFF_FFFF

  predicate StringLess(a: string, b: string) {
    b != [] && (a == [] || a[0] < b[0] || (a[0] == b[0] && StringLess(a[1..], b[1..])))
  }

  // ---- printing ----

  function HexDigit(n: nat): char
    requires n < 16
  {
    if n < 10 then '0' + n as char else 'a' + (n - 10) as char
  }

  /** The canonical form of one character inside a string. */
  function Escape(c: char): string {
    if c == '"' then ['\\', '"']
    else if c == '\\' then ['\\', '\\']
    else if c == 8 as char then ['\\', 'b']
    else if c == 12 as char then ['\\', 'f']
    else if c == 10 as char then ['\\', 'n']
    else if c == 13 as char then ['\\', 'r']
    else if c == 9 as char then ['\\', 't']
    else if c < 32 as char then ['\\', 'u', '0', '0', HexDigit(c as nat / 16), HexDigit(c as nat % 16)]
    else [c]
  }

  function Escaped(s: string): string { if s == [] then [] else Escape(s[0]) + Escaped(s[1..]) }

  function PrintString(s: string): string { ['"'] + Escaped(s) + ['"'] }

  function Digits(n: nat): (d: string)
    ensures d != []
  {
    if n < 10 then ['0' + n as char] else Digits(n / 10) + ['0' + (n % 10) as char]
  }

  /** `to_canonical`. */
  function Print(v: Json): string
    decreases v, 2
  {
    match v
    case JNull => "null"
    case JBool(b) => if b then "true" else "false"
    case JInt(n) => Digits(n)
    case JString(s) => PrintString(s)
    case JArray(items) => ['['] + PrintItems(items) + [']']
    case JObject(members) => ['{'] + PrintFields(members) + ['}']
  }

  function PrintItems(items: seq<Json>): string
    decreases items, 1
  {
    if items == [] then [] else Print(items[0]) + MoreItems(items[1..])
  }

  /** The items after the first, each after a comma. */
  function MoreItems(items: seq<Json>): string
    decreases items, 0
  {
    if items == [] then [] else [','] + Print(items[0]) + MoreItems(items[1..])
  }

  function PrintField(f: Field): string
    decreases f, 3
  {
    PrintString(f.key) + [':'] + Print(f.value)
  }

  function PrintFields(fs: seq<Field>): string
    decreases fs, 1
  {
    if fs == [] then [] else PrintField(fs[0]) + MoreFields(fs[1..])
  }

  function MoreFields(fs: seq<Field>): string
    decreases fs, 0
  {
    if fs == [] then [] else [','] + PrintField(fs[0]) + MoreFields(fs[1..])
  }

  // ---- parsing ----

  datatype JsonError = Syntax | DuplicateKey(key: string) | TooDeep | NotCanonical

  datatype Parse<+T> = Parsed(value: T, end: nat) | Bad(error: JsonError)

  predicate IsWs(c: char) { c == ' ' || c == 9 as char || c == 10 as char || c == 13 as char }

  predicate IsDigit(c: char) { '0' <= c <= '9' }

  predicate Next(t: string, pos: nat, c: char) { pos < |t| && t[pos] == c }

  function SkipWs(t: string, pos: nat): (end: nat)
    requires pos <= |t|
    ensures pos <= end <= |t|
    decreases |t| - pos
  {
    if pos < |t| && IsWs(t[pos]) then SkipWs(t, pos + 1) else pos
  }

  function DigitsEnd(t: string, pos: nat): (end: nat)
    requires pos <= |t|
    ensures pos <= end <= |t|
    decreases |t| - pos
  {
    if pos < |t| && IsDigit(t[pos]) then DigitsEnd(t, pos + 1) else pos
  }

  predicate AllDigits(d: string) { forall i :: 0 <= i < |d| ==> IsDigit(d[i]) }

  function DecimalValue(d: string): nat
    requires AllDigits(d)
  {
    if d == [] then 0 else DecimalValue(d[..|d| - 1]) * 10 + (d[|d| - 1] as int - 48)
  }

  lemma {:induction false} DigitsEndDigits(t: string, pos: nat)
    requires pos <= |t|
    ensures AllDigits(t[pos..DigitsEnd(t, pos)])
    decreases |t| - pos
  {
    if pos < |t| && IsDigit(t[pos]) {
      DigitsEndDigits(t, pos + 1);
      var end := DigitsEnd(t, pos + 1);
      assert DigitsEnd(t, pos) == end;
      assert t[pos..end] == [t[pos]] + t[pos + 1..end];
    }
  }

  function ParseNumber(t: string, pos: nat): (r: Parse<Json>)
    requires pos < |t| && IsDigit(t[pos])
    ensures r.Parsed? ==> pos < r.end <= |t|
  {
    var end := DigitsEnd(t, pos);
    var d := t[pos..end];
    DigitsEndDigits(t, pos);
    if Next(t, end, '.') || Next(t, end, 'e') || Next(t, end, 'E') then Bad(Syntax)
    else if |d| > 1 && d[0] == '0' then Bad(Syntax)
    else if DecimalValue(d) > MAX_SAFE_INT then Bad(Syntax)
    else Parsed(JInt(DecimalValue(d)), end)
  }

  function HexValue(c: char): Option<nat> {
    if '0' <= c <= '9' then Some((c - '0') as nat)
    else if 'a' <= c <= 'f' then Some((c - 'a') as nat + 10)
    else if 'A' <= c <= 'F' then Some((c - 'A') as nat + 10)
    else None
  }

  function FromHex(h: string): Option<nat> {
    if h == [] then Some(0)
    else
      var hi, lo := FromHex(h[..|h| - 1]), HexValue(h[|h| - 1]);
      if hi.Some? && lo.Some? then Some(hi.value * 16 + lo.value) else None
  }

  /** `u32::from_str_radix(_, 16)` on four characters: a leading plus sign is
      accepted. */
  function Hex4(t: string, pos: nat): Option<nat> {
    if pos + 4 > |t| then None
    else if t[pos] == '+' then FromHex(t[pos + 1..pos + 4])
    else FromHex(t[pos..pos + 4])
  }

  /** `char::from_u32`. */
  function FromScalar(n: nat): Option<char> {
    if n < 0xD800 || 0xE000 <= n < 0x11_0000 then Some(n as char) else None
  }

  /** The character a `\u` escape stands for; `pos` is after the `u`. */
  function ParseUnicode(t: string, pos: nat): (r: Parse<char>)
    ensures r.Parsed? ==> pos < r.end <= |t|
  {
    var hi := Hex4(t, pos);
    if hi.None? then Bad(Syntax)
    else if 0xD800 <= hi.value < 0xDC00 then
      if !(Next(t, pos + 4, '\\') && Next(t, pos + 5, 'u')) then Bad(Syntax)
      else
        var lo := Hex4(t, pos + 6);
        if lo.None? || !(0xDC00 <= lo.value < 0xE000) then Bad(Syntax)
        else
          var c := FromScalar(0x1_0000 + (hi.value - 0xD800) * 0x400 + (lo.value - 0xDC00));
          if c.None? then Bad(Syntax) else Parsed(c.value, pos + 10)
    else
      var c := FromScalar(hi.value);
      if c.None? then Bad(Syntax) else Parsed(c.value, pos + 4)
  }

  function ShortEscape(e: char): Option<char> {
    if e == '"' || e == '\\' || e == '/' then Some(e)
    else if e == 'b' then Some(8 as char)
    else if e == 'f' then Some(12 as char)
    else if e == 'n' then Some(10 as char)
    else if e == 'r' then Some(13 as char)
    else if e == 't' then Some(9 as char)
    else None
  }

  /** One character of a string, at other than the closing quote. */
  function ParseChar(t: string, pos: nat): (r: Parse<char>)
    ensures r.Parsed? ==> pos < r.end <= |t|
  {
    if pos >= |t| then Bad(Syntax)
    else if t[pos] == '\\' then
      if pos + 1 >= |t| then Bad(Syntax)
      else if t[pos + 1] == 'u' then ParseUnicode(t, pos + 2)
      else if ShortEscape(t[pos + 1]).Some? then Parsed(ShortEscape(t[pos + 1]).value, pos + 2)
      else Bad(Syntax)
    else if t[pos] < 32 as char then Bad(Syntax)
    else Parsed(t[pos], pos + 1)
  }

  /** The rest of a string whose start is read as `out`. */
  function ParseString(t: string, pos: nat, out: string): (r: Parse<string>)
    ensures r.Parsed? ==> pos < r.end <= |t|
    decreases |t| - pos
  {
    if Next(t, pos, '"') then Parsed(out, pos + 1)
    else
      match ParseChar(t, pos)
      case Bad(e) => Bad(e)
      case Parsed(c, end) => ParseString(t, end, out + [c])
  }

  predicate IsAscii(s: string) { forall i :: 0 <= i < |s| ==> s[i] < 128 as char }

  predicate HasKey(m: seq<Field>, key: string) { exists i :: 0 <= i < |m| && m[i].key == key }

  function ParseValue(t: string, pos: nat, depth: nat, max: nat): (r: Parse<Json>)
    requires pos <= |t|
    ensures r.Parsed? ==> pos < r.end <= |t|
    decreases |t| - pos, 2
  {
    var p := SkipWs(t, pos);
    if p == |t| then Bad(Syntax)
    else if (t[p] == '{' || t[p] == '[') && depth > max then Bad(TooDeep)
    else
      var r :=
        if t[p] == '{' then ParseObject(t, p + 1, depth, max)
        else if t[p] == '[' then ParseArray(t, p + 1, depth, max)
        else if t[p] == '"' then StringValue(ParseString(t, p + 1, []))
        else if IsDigit(t[p]) then ParseNumber(t, p)
        else Bad(Syntax);
      match r
      case Bad(e) => Bad(e)
      case Parsed(v, end) => Parsed(v, SkipWs(t, end))
  }

  function StringValue(r: Parse<string>): Parse<Json> {
    match r
    case Bad(e) => Bad(e)
    case Parsed(s, end) => Parsed(JString(s), end)
  }

  function ParseObject(t: string, pos: nat, depth: nat, max: nat): (r: Parse<Json>)
    requires pos <= |t|
    ensures r.Parsed? ==> pos < r.end <= |t|
    decreases |t| - pos, 1
  {
    var p := SkipWs(t, pos);
    if Next(t, p, '}') then Parsed(JObject([]), p + 1) else ParseFields(t, p, depth, max, [])
  }

  function ParseFields(t: string, pos: nat, depth: nat, max: nat, m: seq<Field>): (r: Parse<Json>)
    requires pos <= |t|
    ensures r.Parsed? ==> pos < r.end <= |t|
    decreases |t| - pos, 0
  {
    var p := SkipWs(t, pos);
    if !Next(t, p, '"') then Bad(Syntax)
    else
      match ParseString(t, p + 1, [])
      case Bad(e) => Bad(e)
      case Parsed(key, end) =>
        if !IsAscii(key) then Bad(Syntax)
        else
          var q := SkipWs(t, end);
          if !Next(t, q, ':') then Bad(Syntax)
          else
            match ParseValue(t, q + 1, depth + 1, max)
            case Bad(e) => Bad(e)
            case Parsed(v, end2) =>
              if HasKey(m, key) then Bad(DuplicateKey(key))
              else
                var m' := Insert(StringLess, FieldKey, Field(key, v), m);
                if Next(t, end2, ',') then ParseFields(t, end2 + 1, depth, max, m')
                else if Next(t, end2, '}') then Parsed(JObject(m'), end2 + 1)
                else Bad(Syntax)
  }

  function ParseArray(t: string, pos: nat, depth: nat, max: nat): (r: Parse<Json>)
    requires pos <= |t|
    ensures r.Parsed? ==> pos < r.end <= |t|
    decreases |t| - pos, 4
  {
    var p := SkipWs(t, pos);
    if Next(t, p, ']') then Parsed(JArray([]), p + 1) else ParseItems(t, p, depth, max, [])
  }

  function ParseItems(t: string, pos: nat, depth: nat, max: nat, items: seq<Json>): (r: Parse<Json>)
    requires pos <= |t|
    ensures r.Parsed? ==> pos < r.end <= |t|
    decreases |t| - pos, 3
  {
    match ParseValue(t, pos, depth + 1, max)
    case Bad(e) => Bad(e)
    case Parsed(v, end) =>
      if Next(t, end, ',') then ParseItems(t, end + 1, depth, max, items + [v])
      else if Next(t, end, ']') then Parsed(JArray(items + [v]), end + 1)
      else Bad(Syntax)
  }

  /** `parse_canonical`. */
  function ParseCanonical(t: string, max: nat): Result<Json, JsonError> {
    match ParseValue(t, 0, 1, max)
    case Bad(e) => Err(e)
    case Parsed(v, end) =>
      if end != |t| then Err(Syntax)
      else if Print(v) != t then Err(NotCanonical)
      else Ok(v)
  }
}
