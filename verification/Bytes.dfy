/** Bytes, fixed-width integers in both byte orders, and the two orders the
    formats sort by. */
module Bytes {
  type byte = x: int | 0 <= x < 256
  type bytes = seq<byte>

  /** A 32-byte value: an HMAC, a hash, a key id. */
  type Digest = b: bytes | |b| == 32 witness seq(32, _ => 0)

  function Zeros(n: nat): (b: bytes)
    ensures |b| == n && forall i :: 0 <= i < n ==> b[i] == 0
  {
    seq(n, _ => 0)
  }

  const ZERO_DIGEST: Digest := Zeros(32)

  /** A 16-byte value: a session id or a log id. */
  type SessionId = b: bytes | |b| == 16 witness seq(16, _ => 0)

  const NO_SESSION: SessionId := Zeros(16)

  datatype Option<+T> = None | Some(value: T)

  datatype Result<+T, +E> = Ok(value: T) | Err(error: E) {
    predicate IsFailure() { Err? }
    function PropagateFailure<U>(): Result<U, E>
      requires Err?
    {
      Err(error)
    }
    function Extract(): T
      requires Ok?
    {
      value
    }
  }

  /** The bytes of an ASCII literal. */
  function Ascii(s: string): (b: bytes)
    requires forall i :: 0 <= i < |s| ==> s[i] < 128 as char
    ensures |b| == |s|
  {
    seq(|s|, i requires 0 <= i < |s| => s[i] as int)
  }

  /** `needle` occupies `hay` at `pos`. */
  predicate At<T(==)>(hay: seq<T>, pos: nat, needle: seq<T>) {
    pos + |needle| <= |hay| && hay[pos..pos + |needle|] == needle
  }

  lemma AtSplit<T>(hay: seq<T>, pos: nat, a: seq<T>, b: seq<T>)
    requires At(hay, pos, a + b)
    ensures At(hay, pos, a) && At(hay, pos + |a|, b)
  {
    var ab := hay[pos..pos + |a + b|];
    assert ab[..|a|] == a && ab[|a|..] == b;
  }

  lemma AtJoin<T>(hay: seq<T>, pos: nat, a: seq<T>, b: seq<T>)
    requires At(hay, pos, a) && At(hay, pos + |a|, b)
    ensures At(hay, pos, a + b)
  {
    assert hay[pos..pos + |a + b|] == hay[pos..pos + |a|] + hay[pos + |a|..pos + |a| + |b|];
  }

  lemma SubSlice<T>(hay: seq<T>, pos: nat, needle: seq<T>, i: nat, j: nat)
    requires At(hay, pos, needle) && i <= j <= |needle|
    ensures hay[pos + i..pos + j] == needle[i..j]
  {
    var a, b := hay[pos + i..pos + j], needle[i..j];
    forall k | 0 <= k < |a| ensures a[k] == b[k] {
      assert hay[pos..pos + |needle|][i + k] == hay[pos + i + k];
    }
  }

  /** A suffix that starts with `needle`. */
  lemma SuffixStarts<T>(hay: seq<T>, pos: nat, needle: seq<T>, rest: seq<T>)
    requires pos <= |hay| && hay[pos..] == needle + rest
    ensures At(hay, pos, needle) && hay[pos + |needle|..] == rest
  {
    assert hay[pos..pos + |needle|] == hay[pos..][..|needle|];
    assert hay[pos + |needle|..] == hay[pos..][|needle|..];
  }

  // ---- fixed-width integers ----

  function Pow256(n: nat): (p: nat)
    ensures p > 0
  {
    if n == 0 then 1 else 256 * Pow256(n - 1)
  }

  lemma Pow256Values()
    ensures Pow256(1) == 0x100 && Pow256(2) == 0x1_0000
    ensures Pow256(4) == 0x1_0000_0000 && Pow256(8) == 0x1_0000_0000_0000_0000
  {
    assert Pow256(3) == 0x100_0000;
    assert Pow256(5) == 0x100_0000_0000;
    assert Pow256(6) == 0x1_0000_0000_0000;
    assert Pow256(7) == 0x100_0000_0000_0000;
  }

  /** The low `n` bytes of `v`, most significant first. */
  function Be(v: nat, n: nat): (b: bytes)
    ensures |b| == n
  {
    if n == 0 then [] else Be(v / 256, n - 1) + [v % 256]
  }

  function FromBe(b: bytes): nat {
    if b == [] then 0 else 256 * FromBe(b[..|b| - 1]) + b[|b| - 1]
  }

  /** The low `n` bytes of `v`, least significant first. A longer value is
      truncated, as the source's `as u32` is. */
  function Le(v: nat, n: nat): (b: bytes)
    ensures |b| == n
  {
    if n == 0 then [] else [v % 256] + Le(v / 256, n - 1)
  }

  function FromLe(b: bytes): nat {
    if b == [] then 0 else b[0] + 256 * FromLe(b[1..])
  }

  lemma {:induction false} FromBeOfBe(v: nat, n: nat)
    requires v < Pow256(n)
    ensures FromBe(Be(v, n)) == v
  {
    if n > 0 {
      FromBeOfBe(v / 256, n - 1);
      assert Be(v, n)[..n - 1] == Be(v / 256, n - 1);
    }
  }

  lemma {:induction false} BeOfFromBe(b: bytes)
    ensures FromBe(b) < Pow256(|b|) && Be(FromBe(b), |b|) == b
  {
    if b != [] {
      BeOfFromBe(b[..|b| - 1]);
    }
  }

  lemma {:induction false} FromLeOfLe(v: nat, n: nat)
    requires v < Pow256(n)
    ensures FromLe(Le(v, n)) == v
  {
    if n > 0 {
      FromLeOfLe(v / 256, n - 1);
      assert Le(v, n)[1..] == Le(v / 256, n - 1);
    }
  }

  lemma {:induction false} LeOfFromLe(b: bytes)
    ensures FromLe(b) < Pow256(|b|) && Le(FromLe(b), |b|) == b
  {
    if b != [] {
      LeOfFromLe(b[1..]);
    }
  }

  // ---- byte-string orders ----

  /** Lexicographic order of byte strings: the order of Rust's `Vec<u8>`,
      `String` and `BTreeMap<String, _>` keys. */
  predicate LexLess(a: bytes, b: bytes) {
    b != [] && (a == [] || a[0] < b[0] || (a[0] == b[0] && LexLess(a[1..], b[1..])))
  }

  /** Canonical key order: shorter first, ties in lexicographic order. */
  predicate KeyLess(a: bytes, b: bytes) {
    |a| < |b| || (|a| == |b| && LexLess(a, b))
  }

  lemma {:induction false} LexStrict(a: bytes, b: bytes)
    ensures !(LexLess(a, b) && LexLess(b, a))
    ensures LexLess(a, b) ==> a != b
    ensures a != b ==> LexLess(a, b) || LexLess(b, a)
  {
    if a != [] && b != [] && a[0] == b[0] {
      LexStrict(a[1..], b[1..]);
      assert a == [a[0]] + a[1..] && b == [b[0]] + b[1..];
    }
  }

  lemma {:induction false} LexTransitive(a: bytes, b: bytes, c: bytes)
    requires LexLess(a, b) && LexLess(b, c)
    ensures LexLess(a, c)
  {
    if a != [] && a[0] == b[0] == c[0] {
      LexTransitive(a[1..], b[1..], c[1..]);
    }
  }

  lemma KeyStrict(a: bytes, b: bytes)
    ensures !(KeyLess(a, b) && KeyLess(b, a))
    ensures KeyLess(a, b) ==> a != b
    ensures a != b ==> KeyLess(a, b) || KeyLess(b, a)
  {
    LexStrict(a, b);
  }

  lemma KeyTransitive(a: bytes, b: bytes, c: bytes)
    requires KeyLess(a, b) && KeyLess(b, c)
    ensures KeyLess(a, c)
  {
    if |a| == |b| == |c| {
      LexTransitive(a, b, c);
    }
  }

  lemma {:induction false} LexConcat(a: bytes, b: bytes, p: bytes, q: bytes)
    requires |a| == |b|
    ensures LexLess(a + p, b + q) <==> LexLess(a, b) || (a == b && LexLess(p, q))
  {
    if a == [] {
      assert a + p == p && b + q == q;
    } else {
      LexConcat(a[1..], b[1..], p, q);
      assert (a + p)[1..] == a[1..] + p && (b + q)[1..] == b[1..] + q;
      assert a == [a[0]] + a[1..] && b == [b[0]] + b[1..];
    }
  }

  lemma {:induction false} LexBe(v: nat, w: nat, n: nat)
    requires v < Pow256(n) && w < Pow256(n)
    ensures LexLess(Be(v, n), Be(w, n)) <==> v < w
  {
    if n > 0 {
      LexBe(v / 256, w / 256, n - 1);
      LexConcat(Be(v / 256, n - 1), Be(w / 256, n - 1), [v % 256], [w % 256]);
      if v / 256 == w / 256 {
      } else {
        FromBeOfBe(v / 256, n - 1);
        FromBeOfBe(w / 256, n - 1);
      }
    }
  }
}
