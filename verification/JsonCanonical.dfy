/** Printing and parsing canonical JSON are exact inverses. */
module JsonCanonical {
  import opened Bytes
  import opened Sorting
  import opened Json

  /** The subset of canonical documents; `depth` counts containers from 1. */
  predicate Subset(v: Json, depth: nat, max: nat) {
    match v
    case JInt(n) => n <= MAX_SAFE_INT
    case JString(_) => true
    case JArray(items) => depth <= max && forall i :: 0 <= i < |items| ==> Subset(items[i], depth + 1, max)
    case JObject(ms) =>
      && depth <= max && Sorted(StringLess, FieldKey, ms)
      && forall i :: 0 <= i < |ms| ==> IsAscii(ms[i].key) && Subset(ms[i].value, depth + 1, max)
    case _ => false
  }

  // ---- the key order ----

  lemma {:induction false} StringStrict(a: string, b: string)
    ensures StringLess(a, b) ==> !StringLess(b, a)
    ensures a != b ==> StringLess(a, b) || StringLess(b, a)
  {
    if a != [] && b != [] && a[0] == b[0] {
      StringStrict(a[1..], b[1..]);
      assert a == [a[0]] + a[1..] && b == [b[0]] + b[1..];
    }
  }

  lemma {:induction false} StringTransitive(a: string, b: string, c: string)
    requires StringLess(a, b) && StringLess(b, c)
    ensures StringLess(a, c)
  {
    if a != [] && a[0] == b[0] && b[0] == c[0] {
      StringTransitive(a[1..], b[1..], c[1..]);
    }
  }

  lemma StringOrderIsStrict()
    ensures StrictOrder(StringLess)
  {
    forall a, b ensures StringLess(a, b) ==> !StringLess(b, a)
      ensures a != b ==> StringLess(a, b) || StringLess(b, a)
    {
      StringStrict(a, b);
    }
    forall a, b, c | StringLess(a, b) && StringLess(b, c) ensures StringLess(a, c) { StringTransitive(a, b, c); }
  }

  // ---- strings ----

  lemma HexDigitValue(n: nat)
    requires n < 16
    ensures HexValue(HexDigit(n)) == Some(n) && HexDigit(n) != '+'
  {
  }

  lemma FromHex4(a: nat, b: nat)
    requires a < 16 && b < 16
    ensures FromHex(['0', '0', HexDigit(a), HexDigit(b)]) == Some(a * 16 + b)
  {
    hide HexDigit, HexValue;
    HexDigitValue(0);
    HexDigitValue(a);
    HexDigitValue(b);
    ZeroDigit();
    var h := ['0', '0', HexDigit(a), HexDigit(b)];
    assert h[..3][..2] == ['0', '0'] && ['0', '0'][..1] == ['0'] && ['0'][..0] == [];
    assert FromHex(['0']) == Some(0) && FromHex(['0', '0']) == Some(0);
    assert h[..3] == ['0', '0', HexDigit(a)];
    assert FromHex(h[..3]) == Some(a);
  }

  lemma ZeroDigit()
    ensures HexValue('0') == Some(0)
  {
  }

  lemma UnicodeParses(t: string, pos: nat, c: char)
    requires c < 32 as char && At(t, pos, ['0', '0', HexDigit(c as nat / 16), HexDigit(c as nat % 16)])
    ensures ParseUnicode(t, pos) == Parsed(c, pos + 4)
  {
    hide FromHex, HexDigit;
    var h := ['0', '0', HexDigit(c as nat / 16), HexDigit(c as nat % 16)];
    FromHex4(c as nat / 16, c as nat % 16);
    assert t[pos] == t[pos..pos + 4][0] == h[0];
    assert Hex4(t, pos) == Some(c as nat);
  }

  lemma LongEscape(c: char)
    ensures |Escape(c)| == 6 ==>
      c < 32 as char && Escape(c) == ['\\', 'u'] + ['0', '0', HexDigit(c as nat / 16), HexDigit(c as nat % 16)]
  {
    hide HexDigit;
  }

  /** Whatever surrounds it, an escaped character is read back. */
  lemma EscapeParses(t: string, pos: nat, c: char)
    requires At(t, pos, Escape(c))
    ensures t[pos] != '"' && ParseChar(t, pos) == Parsed(c, pos + |Escape(c)|)
  {
    hide ParseUnicode, HexDigit;
    var e := Escape(c);
    assert forall i :: 0 <= i < |e| ==> t[pos + i] == t[pos..pos + |e|][i] == e[i];
    if |e| == 6 {
      LongEscape(c);
      AtSplit(t, pos, ['\\', 'u'], ['0', '0', HexDigit(c as nat / 16), HexDigit(c as nat % 16)]);
      UnicodeParses(t, pos + 2, c);
      assert t[pos] == e[0] == '\\' && t[pos + 1] == e[1] == 'u';
    } else if |e| == 2 {
      assert t[pos] == e[0] && t[pos + 1] == e[1];
    } else {
      assert t[pos] == e[0];
    }
  }

  lemma {:induction false} StringParses(t: string, pos: nat, s: string, out: string)
    requires At(t, pos, Escaped(s) + ['"'])
    ensures ParseString(t, pos, out) == Parsed(out + s, pos + |Escaped(s)| + 1)
    decreases |s|
  {
    hide Escape, ParseChar;
    AtSplit(t, pos, Escaped(s), ['"']);
    if s == [] {
      assert t[pos] == t[pos..pos + 1][0];
      assert out + s == out;
    } else {
      var rest := Escaped(s[1..]);
      assert Escaped(s) + ['"'] == Escape(s[0]) + (rest + ['"']);
      AtSplit(t, pos, Escape(s[0]), rest + ['"']);
      EscapeParses(t, pos, s[0]);
      StringParses(t, pos + |Escape(s[0])|, s[1..], out + [s[0]]);
      assert out + [s[0]] + s[1..] == out + s;
    }
  }

  // ---- numbers ----

  lemma {:induction false} DigitsValue(n: nat)
    ensures AllDigits(Digits(n)) && DecimalValue(Digits(n)) == n
    ensures |Digits(n)| > 1 ==> Digits(n)[0] != '0'
  {
    var d := Digits(n);
    if n < 10 {
      assert d[..0] == [];
    } else {
      DigitsValue(n / 10);
      var last := ['0' + (n % 10) as char];
      assert d[..|d| - 1] == Digits(n / 10);
      LeadingDigit(n / 10);
    }
  }

  lemma {:induction false} LeadingDigit(n: nat)
    ensures n > 0 ==> Digits(n)[0] != '0'
  {
    if n >= 10 {
      LeadingDigit(n / 10);
    }
  }

  lemma {:induction false} DigitsEndAt(t: string, pos: nat, d: string)
    requires At(t, pos, d) && AllDigits(d) && (pos + |d| < |t| ==> !IsDigit(t[pos + |d|]))
    ensures DigitsEnd(t, pos) == pos + |d|
    decreases |d|
  {
    if d != [] {
      assert t[pos] == t[pos..pos + |d|][0] == d[0];
      assert t[pos + 1..pos + |d|] == t[pos..pos + |d|][1..] == d[1..];
      DigitsEndAt(t, pos + 1, d[1..]);
    }
  }

  /** What can follow a value. */
  predicate Boundary(t: string, pos: nat) { pos < |t| ==> t[pos] == ',' || t[pos] == ']' || t[pos] == '}' }

  lemma NumberParses(t: string, pos: nat, n: nat)
    requires n <= MAX_SAFE_INT && At(t, pos, Digits(n)) && Boundary(t, pos + |Digits(n)|)
    ensures pos < |t| && IsDigit(t[pos]) && ParseNumber(t, pos) == Parsed(JInt(n), pos + |Digits(n)|)
  {
    hide DecimalValue, DigitsEnd, Digits;
    var d := Digits(n);
    DigitsValue(n);
    DigitsEndAt(t, pos, d);
    assert t[pos] == t[pos..pos + |d|][0] == d[0];
  }

  // ---- parsing what was printed ----

  lemma NoWs(t: string, pos: nat)
    requires pos <= |t| && (pos < |t| ==> !IsWs(t[pos]))
    ensures SkipWs(t, pos) == pos
  {
  }

  lemma CharAt(t: string, pos: nat, c: char, rest: string)
    requires At(t, pos, [c] + rest)
    ensures pos < |t| && t[pos] == c && Next(t, pos, c) && At(t, pos + 1, rest)
  {
    AtSplit(t, pos, [c], rest);
    assert t[pos] == t[pos..pos + 1][0];
  }

  /** The text before position `pos + |s|` ends where the next part starts. */
  lemma TwoParts(t: string, pos: nat, a: string, c: char, rest: string)
    requires At(t, pos, a + ([c] + rest))
    ensures At(t, pos, a) && pos + |a| < |t| && t[pos + |a|] == c && At(t, pos + |a| + 1, rest)
  {
    AtSplit(t, pos, a, [c] + rest);
    CharAt(t, pos + |a|, c, rest);
  }

  lemma MoreItemsIs(items: seq<Json>)
    ensures items != [] ==> MoreItems(items) == [','] + PrintItems(items)
  {
    if items != [] {
      assert [','] + (Print(items[0]) + MoreItems(items[1..])) == [','] + Print(items[0]) + MoreItems(items[1..]);
    }
  }

  lemma MoreFieldsIs(fs: seq<Field>)
    ensures fs != [] ==> MoreFields(fs) == [','] + PrintFields(fs)
  {
    if fs != [] {
      assert [','] + (PrintField(fs[0]) + MoreFields(fs[1..])) == [','] + PrintField(fs[0]) + MoreFields(fs[1..]);
    }
  }

  lemma FirstChar(v: Json, depth: nat, max: nat)
    requires Subset(v, depth, max)
    ensures Print(v) != [] && !IsWs(Print(v)[0])
    ensures match v
      case JObject(_) => Print(v)[0] == '{'
      case JArray(_) => Print(v)[0] == '['
      case JString(_) => Print(v)[0] == '"'
      case _ => IsDigit(Print(v)[0])
  {
    if v.JInt? {
      DigitsValue(v.n);
    }
  }

  /** A printed value is parsed back, whatever surrounds it. */
  lemma {:induction false} ValueParses(t: string, pos: nat, v: Json, depth: nat, max: nat)
    requires Subset(v, depth, max) && At(t, pos, Print(v)) && Boundary(t, pos + |Print(v)|)
    ensures ParseValue(t, pos, depth, max) == Parsed(v, pos + |Print(v)|)
    decreases v, 2
  {
    hide ParseString, ParseNumber, ParseObject, ParseArray, SkipWs, Print, Subset;
    var end := pos + |Print(v)|;
    FirstChar(v, depth, max);
    assert t[pos] == t[pos..end][0] == Print(v)[0];
    NoWs(t, pos);
    NoWs(t, end);
    match v {
      case JInt(n) =>
        PrintInt(n);
        NumberParses(t, pos, n) by { assert n <= MAX_SAFE_INT by { SubsetInt(n, depth, max); } }
      case JString(s) =>
        PrintStr(s);
        CharAt(t, pos, '"', Escaped(s) + ['"']);
        StringParses(t, pos + 1, s, []);
        assert [] + s == s;
      case JArray(items) => ArrayParses(t, pos, v, depth, max);
      case JObject(ms) => ObjectParses(t, pos, v, depth, max);
      case _ =>
        assert false by { NotSubset(v, depth, max); }
    }
  }

  lemma PrintInt(n: nat)
    ensures Print(JInt(n)) == Digits(n)
  {
  }

  lemma PrintStr(s: string)
    ensures Print(JString(s)) == ['"'] + (Escaped(s) + ['"']) && |Print(JString(s))| == |Escaped(s)| + 2
  {
    assert ['"'] + Escaped(s) + ['"'] == ['"'] + (Escaped(s) + ['"']);
  }

  lemma SubsetInt(n: nat, depth: nat, max: nat)
    requires Subset(JInt(n), depth, max)
    ensures n <= MAX_SAFE_INT
  {
  }

  lemma NotSubset(v: Json, depth: nat, max: nat)
    requires v.JBool? || v.JNull?
    ensures !Subset(v, depth, max)
  {
  }

  lemma {:induction false} ArrayParses(t: string, pos: nat, v: Json, depth: nat, max: nat)
    requires v.JArray? && Subset(v, depth, max) && At(t, pos, Print(v))
    ensures pos < |t| && t[pos] == '[' && depth <= max
    ensures ParseArray(t, pos + 1, depth, max) == Parsed(v, pos + |Print(v)|)
    decreases v, 1
  {
    hide ParseItems, SkipWs, PrintItems;
    var items := v.items;
    assert Print(v) == ['['] + (PrintItems(items) + [']']) by {
      assert ['['] + PrintItems(items) + [']'] == ['['] + (PrintItems(items) + [']']);
    }
    CharAt(t, pos, '[', PrintItems(items) + [']']);
    if items == [] {
      assert PrintItems(items) == [] by { NoItems(); }
      assert [] + [']'] == [']'] + [];
      CharAt(t, pos + 1, ']', []);
      NoWs(t, pos + 1);
    } else {
      ItemsStart(t, pos + 1, items, depth, max);
      NoWs(t, pos + 1);
      ItemsParse(t, pos + 1, items, depth, max, []);
      assert [] + items == items;
    }
  }

  lemma NoItems()
    ensures PrintItems([]) == [] && PrintFields([]) == []
  {
  }

  lemma ItemsStart(t: string, pos: nat, items: seq<Json>, depth: nat, max: nat)
    requires items != [] && Subset(items[0], depth + 1, max) && At(t, pos, PrintItems(items) + [']'])
    ensures pos < |t| && !IsWs(t[pos]) && t[pos] != ']'
  {
    hide Print, Subset;
    FirstChar(items[0], depth + 1, max);
    assert t[pos] == t[pos..pos + |PrintItems(items) + [']']|][0] == Print(items[0])[0];
  }

  lemma {:induction false} ItemsParse(t: string, pos: nat, items: seq<Json>, depth: nat, max: nat, acc: seq<Json>)
    requires items != [] && forall i :: 0 <= i < |items| ==> Subset(items[i], depth + 1, max)
    requires At(t, pos, PrintItems(items) + [']'])
    ensures ParseItems(t, pos, depth, max, acc) == Parsed(JArray(acc + items), pos + |PrintItems(items)| + 1)
    decreases items, 3
  {
    hide ParseValue, Print, Subset, MoreItems;
    var v, rest := items[0], items[1..];
    var p := Print(v);
    MoreItemsIs(rest);
    if rest == [] {
      assert MoreItems(rest) == [] by { NoMore(); }
      assert PrintItems(items) + [']'] == p + ([']'] + []);
      TwoParts(t, pos, p, ']', []);
      ValueParses(t, pos, v, depth + 1, max);
      assert acc + [v] == acc + items;
    } else {
      assert PrintItems(items) + [']'] == p + ([','] + (PrintItems(rest) + [']']));
      TwoParts(t, pos, p, ',', PrintItems(rest) + [']']);
      ValueParses(t, pos, v, depth + 1, max);
      ItemsParse(t, pos + |p| + 1, rest, depth, max, acc + [v]);
      assert acc + [v] + rest == acc + items;
    }
  }

  lemma NoMore()
    ensures MoreItems([]) == [] && MoreFields([]) == []
  {
  }

  lemma {:induction false} ObjectParses(t: string, pos: nat, v: Json, depth: nat, max: nat)
    requires v.JObject? && Subset(v, depth, max) && At(t, pos, Print(v))
    ensures pos < |t| && t[pos] == '{' && depth <= max
    ensures ParseObject(t, pos + 1, depth, max) == Parsed(v, pos + |Print(v)|)
    decreases v, 1
  {
    hide ParseFields, SkipWs, PrintFields;
    var ms := v.members;
    assert Print(v) == ['{'] + (PrintFields(ms) + ['}']) by {
      assert ['{'] + PrintFields(ms) + ['}'] == ['{'] + (PrintFields(ms) + ['}']);
    }
    CharAt(t, pos, '{', PrintFields(ms) + ['}']);
    if ms == [] {
      assert PrintFields(ms) == [] by { NoItems(); }
      assert [] + ['}'] == ['}'] + [];
      CharAt(t, pos + 1, '}', []);
      NoWs(t, pos + 1);
    } else {
      FieldsStart(t, pos + 1, ms);
      NoWs(t, pos + 1);
      FieldsParse(t, pos + 1, ms, depth, max, []);
      assert [] + ms == ms;
    }
  }

  lemma FieldsStart(t: string, pos: nat, fs: seq<Field>)
    requires fs != [] && At(t, pos, PrintFields(fs) + ['}'])
    ensures pos < |t| && t[pos] == '"'
  {
    hide Print;
    assert t[pos] == t[pos..pos + |PrintFields(fs) + ['}']|][0] == '"';
  }

  lemma FieldText(k: string, p: string, after: string)
    ensures ['"'] + k + ['"'] + [':'] + p + after == ['"'] + ((k + ['"']) + ([':'] + (p + after)))
  {
  }

  /** The parts of a member, before whatever may follow a value. */
  lemma FieldAt(t: string, pos: nat, f: Field, c: char, rest: string)
    requires At(t, pos, PrintField(f) + ([c] + rest))
    ensures var k := |Escaped(f.key)|;
      && Next(t, pos, '"') && At(t, pos + 1, Escaped(f.key) + ['"']) && Next(t, pos + k + 2, ':')
      && At(t, pos + k + 3, Print(f.value) + ([c] + rest)) && k + 3 + |Print(f.value)| == |PrintField(f)|
  {
    hide Print, Escaped;
    var k, p, after := Escaped(f.key), Print(f.value), [c] + rest;
    assert PrintField(f) == ['"'] + k + ['"'] + [':'] + p;
    FieldText(k, p, after);
    CharAt(t, pos, '"', (k + ['"']) + ([':'] + (p + after)));
    AtSplit(t, pos + 1, k + ['"'], [':'] + (p + after));
    CharAt(t, pos + |k| + 2, ':', p + after);
  }

  /** A key and its value, as the parser reads them. */
  lemma FieldParts(t: string, pos: nat, f: Field, c: char, rest: string)
    requires At(t, pos, PrintField(f) + ([c] + rest))
    ensures Next(t, pos, '"')
    ensures ParseString(t, pos + 1, []) == Parsed(f.key, pos + |Escaped(f.key)| + 2)
    ensures Next(t, pos + |Escaped(f.key)| + 2, ':')
    ensures var at := pos + |Escaped(f.key)| + 3;
      At(t, at, Print(f.value)) && at + |Print(f.value)| == pos + |PrintField(f)| < |t|
      && t[pos + |PrintField(f)|] == c && At(t, pos + |PrintField(f)| + 1, rest)
  {
    hide Print, Escaped, ParseString, PrintField, At;
    FieldAt(t, pos, f, c, rest);
    StringParses(t, pos + 1, f.key, []);
    assert [] + f.key == f.key;
    TwoParts(t, pos + |Escaped(f.key)| + 3, Print(f.value), c, rest);
  }

  /** Inserting after everything smaller appends. */
  lemma {:induction false} InsertLast(f: Field, m: seq<Field>)
    requires forall i :: 0 <= i < |m| ==> StringLess(m[i].key, f.key)
    ensures Insert(StringLess, FieldKey, f, m) == m + [f]
  {
    hide StringLess;
    if m != [] {
      InsertLast(f, m[1..]);
      assert m + [f] == [m[0]] + (m[1..] + [f]);
    }
  }

  lemma SmallerKeys(f: Field, m: seq<Field>)
    requires forall i :: 0 <= i < |m| ==> StringLess(m[i].key, f.key)
    ensures !HasKey(m, f.key)
  {
    forall i | 0 <= i < |m| ensures m[i].key != f.key { StringStrict(m[i].key, f.key); }
  }

  /** One member read, with `c` after it. */
  lemma FieldStep(t: string, pos: nat, f: Field, c: char, rest: string, depth: nat, max: nat, m: seq<Field>)
    requires At(t, pos, PrintField(f) + ([c] + rest)) && (c == ',' || c == '}')
    requires ParseValue(t, pos + |Escaped(f.key)| + 3, depth + 1, max) == Parsed(f.value, pos + |PrintField(f)|)
    requires IsAscii(f.key) && !HasKey(m, f.key) && Insert(StringLess, FieldKey, f, m) == m + [f]
    ensures var end := pos + |PrintField(f)| + 1;
      && pos < end <= |t| && At(t, end, rest)
      && ParseFields(t, pos, depth, max, m)
         == if c == ',' then ParseFields(t, end, depth, max, m + [f]) else Parsed(JObject(m + [f]), end)
  {
    hide ParseValue, ParseString, SkipWs, Print, PrintField, Insert, HasKey, IsAscii, Escaped, At;
    FieldParts(t, pos, f, c, rest);
    NoWs(t, pos);
    NoWs(t, pos + |Escaped(f.key)| + 2);
  }

  lemma {:induction false} FieldsParse(t: string, pos: nat, fs: seq<Field>, depth: nat, max: nat, m: seq<Field>)
    requires fs != [] && forall i :: 0 <= i < |fs| ==> IsAscii(fs[i].key) && Subset(fs[i].value, depth + 1, max)
    requires Sorted(StringLess, FieldKey, m + fs)
    requires At(t, pos, PrintFields(fs) + ['}'])
    ensures ParseFields(t, pos, depth, max, m) == Parsed(JObject(m + fs), pos + |PrintFields(fs)| + 1)
    decreases fs, 3
  {
    hide ParseFields, ParseValue, ParseString, Print, PrintField, PrintFields, Subset, MoreFields, Sorted, StringLess,
        HasKey, IsAscii, Insert, At, Escaped, Next;
    var f, rest := fs[0], fs[1..];
    var last := rest == [];
    var c, tail := if last then '}' else ',', if last then [] else PrintFields(rest) + ['}'];
    FieldsText(fs);
    SortedSplit(m, fs);
    InsertLast(f, m);
    SmallerKeys(f, m);
    FieldParts(t, pos, f, c, tail);
    ValueParses(t, pos + |Escaped(f.key)| + 3, f.value, depth + 1, max);
    FieldStep(t, pos, f, c, tail, depth, max, m);
    assert m + [f] + rest == m + fs;
    if last {
      assert m + [f] == m + fs;
    } else {
      FieldsParse(t, pos + |PrintField(f)| + 1, rest, depth, max, m + [f]);
    }
  }

  lemma FieldsText(fs: seq<Field>)
    requires fs != []
    ensures var rest := fs[1..];
      if rest == [] then PrintFields(fs) + ['}'] == PrintField(fs[0]) + (['}'] + [])
          && |PrintFields(fs)| == |PrintField(fs[0])|
      else PrintFields(fs) + ['}'] == PrintField(fs[0]) + ([','] + (PrintFields(rest) + ['}']))
           && |PrintFields(fs)| == |PrintField(fs[0])| + 1 + |PrintFields(rest)|
  {
    hide PrintField;
    var p, rest := PrintField(fs[0]), fs[1..];
    MoreFieldsIs(rest);
    NoMore();
    assert PrintFields(fs) == p + MoreFields(rest);
    if rest == [] {
      assert MoreFields(rest) == [] && p + [] == p;
      assert p + [] + ['}'] == p + (['}'] + []);
    } else {
      assert p + ([','] + PrintFields(rest)) + ['}'] == p + ([','] + (PrintFields(rest) + ['}']));
    }
  }

  lemma SortedSplit(m: seq<Field>, fs: seq<Field>)
    requires fs != [] && Sorted(StringLess, FieldKey, m + fs)
    ensures forall i :: 0 <= i < |m| ==> StringLess(m[i].key, fs[0].key)
  {
    forall i | 0 <= i < |m| ensures StringLess(m[i].key, fs[0].key) {
      assert (m + fs)[i] == m[i] && (m + fs)[|m|] == fs[0];
    }
  }

  // ---- what is parsed is in the subset ----

  lemma {:induction false} ParsedInSubset(t: string, pos: nat, depth: nat, max: nat)
    requires pos <= |t| && ParseValue(t, pos, depth, max).Parsed?
    ensures Subset(ParseValue(t, pos, depth, max).value, depth, max)
    decreases |t| - pos, 2
  {
    hide ParseString, ParseObject, ParseArray, Subset;
    var p := SkipWs(t, pos);
    if t[p] == '{' {
      ObjectInSubset(t, p + 1, depth, max);
    } else if t[p] == '[' {
      ArrayInSubset(t, p + 1, depth, max);
    } else {
      ScalarInSubset(ParseValue(t, pos, depth, max).value, depth, max);
    }
  }

  lemma ScalarInSubset(v: Json, depth: nat, max: nat)
    requires v.JString? || (v.JInt? && v.n <= MAX_SAFE_INT)
    ensures Subset(v, depth, max)
  {
  }

  lemma ArrayInSubset(t: string, pos: nat, depth: nat, max: nat)
    requires pos <= |t| && depth <= max && ParseArray(t, pos, depth, max).Parsed?
    ensures Subset(ParseArray(t, pos, depth, max).value, depth, max)
    decreases |t| - pos, 4
  {
    hide ParseItems;
    var p := SkipWs(t, pos);
    if !Next(t, p, ']') {
      ItemsInSubset(t, p, depth, max, []);
    }
  }

  lemma {:induction false} ItemsInSubset(t: string, pos: nat, depth: nat, max: nat, items: seq<Json>)
    requires pos <= |t| && depth <= max && ParseItems(t, pos, depth, max, items).Parsed?
    requires forall i :: 0 <= i < |items| ==> Subset(items[i], depth + 1, max)
    ensures Subset(ParseItems(t, pos, depth, max, items).value, depth, max)
    decreases |t| - pos, 3
  {
    hide ParseValue;
    ParsedInSubset(t, pos, depth + 1, max);
    var r := ParseValue(t, pos, depth + 1, max);
    if Next(t, r.end, ',') {
      ItemsInSubset(t, r.end + 1, depth, max, items + [r.value]);
    }
  }

  lemma ObjectInSubset(t: string, pos: nat, depth: nat, max: nat)
    requires pos <= |t| && depth <= max && ParseObject(t, pos, depth, max).Parsed?
    ensures Subset(ParseObject(t, pos, depth, max).value, depth, max)
    decreases |t| - pos, 4
  {
    hide ParseFields;
    var p := SkipWs(t, pos);
    if !Next(t, p, '}') {
      FieldsInSubset(t, p, depth, max, []);
    }
  }

  lemma {:induction false} FieldsInSubset(t: string, pos: nat, depth: nat, max: nat, m: seq<Field>)
    requires pos <= |t| && depth <= max && ParseFields(t, pos, depth, max, m).Parsed?
    requires Subset(JObject(m), depth, max)
    ensures Subset(ParseFields(t, pos, depth, max, m).value, depth, max)
    decreases |t| - pos, 0
  {
    hide ParseValue, ParseString, Insert, Subset, SkipWs;
    var p := SkipWs(t, pos);
    var key := ParseString(t, p + 1, []);
    var q := SkipWs(t, key.end);
    ParsedInSubset(t, q + 1, depth + 1, max);
    var r := ParseValue(t, q + 1, depth + 1, max);
    var m' := Insert(StringLess, FieldKey, Field(key.value, r.value), m);
    MemberInserted(m, Field(key.value, r.value), depth, max);
    if Next(t, r.end, ',') {
      FieldsInSubset(t, r.end + 1, depth, max, m');
    }
  }

  lemma MemberInserted(m: seq<Field>, f: Field, depth: nat, max: nat)
    requires Subset(JObject(m), depth, max) && IsAscii(f.key) && Subset(f.value, depth + 1, max) && !HasKey(m, f.key)
    ensures Subset(JObject(Insert(StringLess, FieldKey, f, m)), depth, max)
  {
    hide IsAscii;
    var m' := Insert(StringLess, FieldKey, f, m);
    StringOrderIsStrict();
    InsertSorted(StringLess, FieldKey, f, m);
    forall i | 0 <= i < |m'| ensures IsAscii(m'[i].key) && Subset(m'[i].value, depth + 1, max) {
      assert m'[i] in multiset(m');
      if m'[i] != f {
        assert m'[i] in multiset(m);
        var j :| 0 <= j < |m| && m[j] == m'[i];
      }
    }
  }

  // ---- the theorem ----

  /** The parser accepts exactly the printings of the subset: printing and
      parsing are mutual inverses, and no value has two accepted documents. */
  lemma ParseIffPrint(t: string, v: Json, max: nat)
    ensures ParseCanonical(t, max) == Ok(v) <==> Subset(v, 1, max) && t == Print(v)
  {
    hide ParseValue, Subset, Print;
    if Subset(v, 1, max) && t == Print(v) {
      assert t[0..0 + |t|] == t;
      ValueParses(t, 0, v, 1, max);
    }
    if ParseCanonical(t, max) == Ok(v) {
      ParsedInSubset(t, 0, 1, max);
    }
  }

  /** Different values of the subset print differently. */
  lemma PrintInjective(v: Json, w: Json, max: nat)
    requires Subset(v, 1, max) && Subset(w, 1, max) && Print(v) == Print(w)
    ensures v == w
  {
    hide Subset, Print, ParseCanonical;
    ParseIffPrint(Print(v), v, max);
    ParseIffPrint(Print(v), w, max);
  }
}
