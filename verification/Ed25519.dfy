/** Strict Ed25519: how a signature is classified, and why adding the group
    order to its scalar is always recognised. The curve is abstract. */
module Ed25519 {
  import opened Bytes

  /** The order L of the base point's group, RFC 8032 section 5.1. */
  const ORDER: nat := 0x1000_0000_0000_0000_0000_0000_0000_0000_14de_f9de_a2f7_9cd6_5812_631a_5cf5_d3ed

  function OrderBytes(): (l: bytes)
    ensures |l| == 32
  {
    [ 0xed, 0xd3, 0xf5, 0x5c, 0x1a, 0x63, 0x12, 0x58, 0xd6, 0x9c, 0xf7, 0xa2, 0xde, 0xf9, 0xde,
      0x14, 0, 0, 0, 0, 0, 0, 0, 0, 0, 0, 0, 0, 0, 0, 0, 0x10 ]
  }

  type Signature = b: bytes | |b| == 64 witness Zeros(64)

  function ScalarOf(sig: Signature): nat { FromLe(sig[32..]) }

  // ---- little-endian numbers, byte by byte ----

  lemma {:induction false} FromLeSnoc(b: bytes, x: byte)
    ensures FromLe(b + [x]) == FromLe(b) + x * Pow256(|b|)
  {
    if b == [] {
      assert [x][1..] == [];
    } else {
      FromLeSnoc(b[1..], x);
      assert (b + [x])[1..] == b[1..] + [x];
      assert Pow256(|b|) == 256 * Pow256(|b| - 1);
      assert 256 * (x * Pow256(|b| - 1)) == x * Pow256(|b|);
    }
  }

  lemma {:induction false} FromLeConcat(a: bytes, b: bytes)
    ensures FromLe(a + b) == FromLe(a) + Pow256(|a|) * FromLe(b)
  {
    if a == [] {
      assert a + b == b && Pow256(0) == 1;
    } else {
      var p, q := Pow256(|a| - 1), FromLe(b);
      FromLeConcat(a[1..], b);
      assert (a + b)[1..] == a[1..] + b && (a + b)[0] == a[0];
      assert FromLe(a + b) == a[0] + 256 * (FromLe(a[1..]) + p * q);
      assert Pow256(|a|) == 256 * p;
      Times256(p, q);
    }
  }

  lemma Times256(p: nat, q: nat)
    ensures (256 * p) * q == 256 * (p * q)
  {
  }

  lemma Word(a: byte, b: byte, c: byte, d: byte)
    ensures FromLe([a, b, c, d]) == a + 0x100 * b + 0x1_0000 * c + 0x100_0000 * d
  {
    var w: bytes, x: bytes, y: bytes, z: bytes := [a, b, c, d], [b, c, d], [c, d], [d];
    assert w[1..] == x && x[1..] == y && y[1..] == z && z[1..] == [];
    assert FromLe(z) == d && FromLe(y) == c + 256 * FromLe(z) && FromLe(x) == b + 256 * FromLe(y);
  }

  lemma WordConcat(w: bytes, rest: bytes)
    requires |w| == 4
    ensures FromLe(w + rest) == FromLe(w) + 0x1_0000_0000 * FromLe(rest)
  {
    Pow256Values();
    FromLeConcat(w, rest);
  }

  /** The constant in the source is the order, least significant byte first. */
  lemma OrderIs()
    ensures FromLe(OrderBytes()) == ORDER
  {
    hide FromLe;
    var w0: bytes, w1: bytes, w2: bytes, w3: bytes := [0xed, 0xd3, 0xf5, 0x5c], [0x1a, 0x63, 0x12, 0x58],
        [0xd6, 0x9c, 0xf7, 0xa2], [0xde, 0xf9, 0xde, 0x14];
    var z: bytes, top: bytes := [0, 0, 0, 0], [0, 0, 0, 0x10];
    Word(0xed, 0xd3, 0xf5, 0x5c);
    Word(0x1a, 0x63, 0x12, 0x58);
    Word(0xd6, 0x9c, 0xf7, 0xa2);
    Word(0xde, 0xf9, 0xde, 0x14);
    Word(0, 0, 0, 0);
    Word(0, 0, 0, 0x10);
    var t6 := z + top;
    var t5 := z + t6;
    var t4 := z + t5;
    var t3 := w3 + t4;
    var t2 := w2 + t3;
    var t1 := w1 + t2;
    WordConcat(z, top);
    WordConcat(z, t6);
    WordConcat(z, t5);
    WordConcat(w3, t4);
    WordConcat(w2, t3);
    WordConcat(w1, t2);
    WordConcat(w0, t1);
    assert OrderBytes() == w0 + t1;
  }

  // ---- the carry loop ----

  /** The signature with L added to its scalar, a carry out of the top byte
      lost. */
  function PlusOrder(sig: Signature): (r: Signature) {
    sig[..32] + Le(ScalarOf(sig) + ORDER, 32)
  }

  lemma Pow32()
    ensures Pow256(32) == 0x1_0000_0000_0000_0000_0000_0000_0000_0000_0000_0000_0000_0000_0000_0000_0000_0000
  {
    Pow256Values();
    Pow256Sum(8, 8);
    Pow256Sum(16, 16);
  }

  lemma {:induction false} Pow256Sum(m: nat, n: nat)
    ensures Pow256(m + n) == Pow256(m) * Pow256(n)
  {
    if m > 0 {
      Pow256Sum(m - 1, n);
      assert 256 * (Pow256(m - 1) * Pow256(n)) == (256 * Pow256(m - 1)) * Pow256(n);
    }
  }

  lemma {:induction false} LeOfSum(b: bytes, carry: nat, v: nat)
    requires FromLe(b) + carry * Pow256(|b|) == v
    ensures b == Le(v, |b|)
  {
    if b != [] {
      var n := |b| - 1;
      assert carry * Pow256(n + 1) == 256 * (carry * Pow256(n));
      assert v == b[0] + 256 * (FromLe(b[1..]) + carry * Pow256(n));
      LeOfSum(b[1..], carry, v / 256);
    }
  }

  /** One byte of the addition. */
  lemma CarryStep(s: bytes, l: bytes, o: bytes, i: nat, carry: nat)
    requires |s| == |l| == 32 && |o| == i < 32
    requires FromLe(o) + carry * Pow256(i) == FromLe(s[..i]) + FromLe(l[..i]) && carry <= 1
    ensures var sum := s[i] + l[i] + carry;
      && sum / 256 <= 1
      && FromLe(o + [sum % 256]) + (sum / 256) * Pow256(i + 1) == FromLe(s[..i + 1]) + FromLe(l[..i + 1])
  {
    hide FromLe;
    var p, sum := Pow256(i), s[i] + l[i] + carry;
    FromLeSnoc(o, sum % 256);
    FromLeSnoc(s[..i], s[i]);
    FromLeSnoc(l[..i], l[i]);
    assert s[..i + 1] == s[..i] + [s[i]] && l[..i + 1] == l[..i] + [l[i]];
    assert Pow256(i + 1) == 256 * p;
    hide Pow256;
    Carry(FromLe(o), FromLe(s[..i]) + FromLe(l[..i]), p, carry, s[i], l[i]);
  }

  lemma Carry(done: nat, sums: nat, p: nat, carry: nat, x: nat, y: nat)
    requires done + carry * p == sums
    ensures var sum := x + y + carry;
      done + (sum % 256) * p + (sum / 256) * (256 * p) == sums + x * p + y * p
  {
    var sum := x + y + carry;
    var q, r := sum / 256, sum % 256;
    assert sum == r + 256 * q;
    assert (r + 256 * q) * p == r * p + q * (256 * p);
    assert (x + y + carry) * p == x * p + y * p + carry * p;
  }

  method ReencodeSPlusL(signature: Signature) returns (out: array<byte>)
    ensures fresh(out) && out[..] == PlusOrder(signature)
  {
    hide FromLe, Le, Pow256;
    var order := OrderBytes();
    out := new byte[64](i requires 0 <= i < 64 => signature[i]);
    ghost var s := signature[32..];
    var carry := 0;
    ZeroSum();
    assert out[32..32 + 0] == [] && s[..0] == [] && order[..0] == [];
    for i := 0 to 32
      invariant forall k :: 0 <= k < 32 ==> out[k] == signature[k]
      invariant 0 <= carry <= 1
      invariant FromLe(out[32..32 + i]) + carry * Pow256(i) == FromLe(s[..i]) + FromLe(order[..i])
    {
      CarryStep(s, order, out[32..32 + i], i, carry);
      var sum := signature[32 + i] + order[i] + carry;
      ghost var done := out[32..32 + i];
      out[32 + i] := sum % 256;
      carry := sum / 256;
      assert out[32..32 + (i + 1)] == done + [sum % 256];
    }
    assert s[..32] == s && order[..32] == order;
    OrderIs();
    LeOfSum(out[32..64], carry, FromLe(s) + ORDER);
    assert out[..] == out[..32] + out[32..64] && out[..32] == signature[..32];
  }

  lemma ZeroSum()
    ensures FromLe([]) == 0 && Pow256(0) == 1
  {
  }

  /** No carry is lost exactly when the sum fits 32 bytes; for every scalar
      below the order it does. */
  lemma NoLostCarry(sig: Signature)
    ensures ScalarOf(PlusOrder(sig)) == ScalarOf(sig) + ORDER <==> ScalarOf(sig) + ORDER < Pow256(32)
    ensures ScalarOf(sig) < ORDER ==> ScalarOf(PlusOrder(sig)) == ScalarOf(sig) + ORDER
    ensures PlusOrder(sig)[..32] == sig[..32]
  {
    hide FromLe, Le;
    var v := ScalarOf(sig) + ORDER;
    Pow32();
    hide Pow256;
    assert PlusOrder(sig)[32..] == Le(v, 32);
    LeOfFromLe(Le(v, 32));
    if v < Pow256(32) {
      FromLeOfLe(v, 32);
    }
  }

  // ---- verification ----

  datatype Failure = WeakKey | Reencoded | Mismatch

  /** The group, abstractly: rules 1 to 3 for a key, rules 1 and 2 for R, the
      cofactorless equation for a scalar, and the library's own strict
      check. */
  datatype Group = Group(
    strong: bytes -> bool, rOk: bytes -> bool, equation: (bytes, bytes, bytes, nat) -> bool,
    library: (bytes, bytes, bytes) -> bool)

  /** `verify`: nothing, or why the signature fails. */
  function Verify(g: Group, key: bytes, message: bytes, sig: Signature): Option<Failure> {
    var r, s := sig[..32], ScalarOf(sig);
    if !g.strong(key) then Some(WeakKey)
    else if s < ORDER then
      if g.rOk(r) && g.equation(key, r, message, s) && g.library(key, message, sig) then None else Some(Mismatch)
    else if g.rOk(r) && g.equation(key, r, message, s % ORDER) then Some(Reencoded)
    else Some(Mismatch)
  }

  /** Re-encoding is always recognised: an accepted signature, its scalar
      plus L, is Reencoded, never accepted and never a mismatch; and only a
      signature that satisfies the equation becomes Reencoded that way. */
  lemma ReencodingIsRecognised(g: Group, key: bytes, message: bytes, sig: Signature)
    ensures Verify(g, key, message, sig) == None ==> Verify(g, key, message, PlusOrder(sig)) == Some(Reencoded)
    ensures ScalarOf(sig) < ORDER ==>
      (Verify(g, key, message, PlusOrder(sig)) == Some(Reencoded)
       <==> g.strong(key) && g.rOk(sig[..32]) && g.equation(key, sig[..32], message, ScalarOf(sig)))
  {
    hide PlusOrder, FromLe;
    NoLostCarry(sig);
    if ScalarOf(sig) < ORDER {
      assert (ScalarOf(sig) + ORDER) % ORDER == ScalarOf(sig);
    }
  }

  /** The one accepted encoding: two accepted signatures with one R and one
      scalar modulo L are one signature. */
  lemma AcceptedEncodingIsUnique(g: Group, key: bytes, message: bytes, a: Signature, b: Signature)
    requires Verify(g, key, message, a) == None && Verify(g, key, message, b) == None
    requires a[..32] == b[..32] && ScalarOf(a) % ORDER == ScalarOf(b) % ORDER
    ensures a == b
  {
    hide FromLe;
    assert ScalarOf(a) == ScalarOf(b);
    LeOfFromLe(a[32..]);
    LeOfFromLe(b[32..]);
    assert a == a[..32] + a[32..] && b == b[..32] + b[32..];
  }
}
