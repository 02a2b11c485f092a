/** Byte layouts of format 0x0002: the 128-byte header and record framing. */
module SignedFormat {
  import opened Bytes
  import opened Segment
  import Ed25519

  type LogId = SessionId
  type Signature = Ed25519.Signature

  /** The primitives, as uninterpreted functions. `verify` is the strict
      Ed25519 check of a record's signed data: a key, an envelope and a
      signature to the reason it fails, if any. */
  datatype Scheme = Scheme(
    sha256: bytes -> Digest, crc32: bytes -> u32, strong: Digest -> bool,
    verify: (Digest, bytes, bytes) -> Option<Ed25519.Failure>, toMs: bytes -> Option<int>)

  /** Two inputs with one hash. */
  predicate Collides(c: Scheme, x: bytes, y: bytes) { x != y && c.sha256(x) == c.sha256(y) }

  function Tagged(tag: string, data: bytes): bytes
    requires forall i :: 0 <= i < |tag| ==> tag[i] < 128 as char
  {
    Ascii(tag) + [0] + data
  }

  /** `th`: the tagged hash. */
  function HeaderHash(c: Scheme, hashed: bytes): Digest { c.sha256(Tagged("ogentic-audit/v0.2/header", hashed)) }
  function RecordHash(c: Scheme, envelope: bytes): Digest { c.sha256(Tagged("ogentic-audit/v0.2/record", envelope)) }
  function BodyHash(c: Scheme, body: bytes): Digest { c.sha256(Tagged("ogentic-audit/v0.2/body", body)) }

  function SshString(b: bytes): bytes { Be(|b|, 4) + b }

  /** The fingerprint of a public key. */
  function KeyIdOf(c: Scheme, pk: Digest): Digest { c.sha256(SshString(Ascii("ssh-ed25519")) + SshString(pk)) }

  // ---- the segment header ----

  const SIGNED_VERSION := 2
  const ALG_ED25519 := 1
  const HASHED_LEN := 124
  const SIGNED_HEADER_LEN := 128
  const SIG_LEN := 64
  const MAX_ENVELOPE := 4096

  datatype SignedHeader = SignedHeader(version: nat, index: nat, alg: nat, reserved: nat, logId: LogId, keyId: Digest,
      prevFinal: Digest, publicKey: Digest) {
    predicate Valid() { version < 0x1_0000 && index < 0x1_0000 && alg < 0x1_0000 && reserved < 0x1_0000 }

    /** The bytes hashed into the chain start and covered by the checksum. */
    function Hashed(): (b: bytes)
      ensures |b| == HASHED_LEN
    {
      Magic() + Le(version, 2) + Le(index, 2) + Le(alg, 2) + Le(reserved, 2) + logId + keyId + prevFinal + publicKey
    }

    function ToBytes(c: Scheme): (b: bytes)
      ensures |b| == SIGNED_HEADER_LEN && b[..HASHED_LEN] == Hashed()
    {
      Hashed() + Le(c.crc32(Hashed()), 4)
    }
  }

  function SignedFields(b: bytes): SignedHeader
    requires |b| >= HASHED_LEN
  {
    SignedHeader(FromLe(b[4..6]), FromLe(b[6..8]), FromLe(b[8..10]), FromLe(b[10..12]), b[12..28], b[28..60],
        b[60..92], b[92..124])
  }

  lemma HashedParts(h: SignedHeader, rest: bytes)
    ensures var b := h.Hashed() + rest;
      && b[..4] == Magic() && b[4..6] == Le(h.version, 2) && b[6..8] == Le(h.index, 2)
      && b[8..10] == Le(h.alg, 2) && b[10..12] == Le(h.reserved, 2)
  {
    hide Le;
    var x := Magic() + Le(h.version, 2) + Le(h.index, 2) + Le(h.alg, 2) + Le(h.reserved, 2);
    var b := h.Hashed() + rest;
    assert b[..12] == x;
    assert b[..4] == x[..4] && b[4..6] == x[4..6] && b[6..8] == x[6..8] && b[8..10] == x[8..10]
        && b[10..12] == x[10..12];
  }

  lemma HashedKeys(h: SignedHeader, rest: bytes)
    ensures var b := h.Hashed() + rest;
      b[12..28] == h.logId && b[28..60] == h.keyId && b[60..92] == h.prevFinal && b[92..124] == h.publicKey
  {
    hide Le;
    var x := Magic() + Le(h.version, 2) + Le(h.index, 2) + Le(h.alg, 2) + Le(h.reserved, 2);
    var b := h.Hashed() + rest;
    assert |x| == 12 && b[12..] == h.logId + h.keyId + h.prevFinal + h.publicKey + rest;
    var y := h.logId + h.keyId + h.prevFinal + h.publicKey + rest;
    assert b[12..28] == y[..16] && b[28..60] == y[16..48] && b[60..92] == y[48..80] && b[92..124] == y[80..112];
  }

  /** Decoding the fields undoes encoding, whatever follows. */
  lemma SignedHeaderRoundTrip(c: Scheme, h: SignedHeader, rest: bytes)
    requires h.Valid()
    ensures SignedFields(h.ToBytes(c) + rest) == h
    ensures (h.ToBytes(c) + rest)[..HASHED_LEN] == h.Hashed() && (h.ToBytes(c) + rest)[..4] == Magic()
    ensures FromLe((h.ToBytes(c) + rest)[124..128]) == c.crc32(h.Hashed())
  {
    hide Le, FromLe;
    var tail := Le(c.crc32(h.Hashed()), 4) + rest;
    assert h.ToBytes(c) + rest == h.Hashed() + tail;
    HashedParts(h, tail);
    HashedKeys(h, tail);
    Pow256Values();
    FromLeOfLe(h.version, 2);
    FromLeOfLe(h.index, 2);
    FromLeOfLe(h.alg, 2);
    FromLeOfLe(h.reserved, 2);
    FromLeOfLe(c.crc32(h.Hashed()), 4);
    assert (h.Hashed() + tail)[124..128] == Le(c.crc32(h.Hashed()), 4);
  }

  // ---- framing ----

  /** One record as stored; an absent body is an elided one. */
  datatype Raw = Raw(envelope: bytes, signature: Signature, body: Option<bytes>) {
    /** What a frame can carry and be read back. */
    predicate Framable() {
      |envelope| <= MAX_ENVELOPE && (body.Some? ==> 0 < |body.value| < U32_END)
    }
    function BodyBytes(): bytes { if body.Some? then body.value else [] }
    function Size(): nat { |envelope| + |BodyBytes()| + 76 }
  }

  /** `frame`. */
  function SignedFrame(r: Raw): (f: bytes)
    ensures |f| == r.Size()
  {
    Le(|r.envelope|, 4) + r.envelope + r.signature + Le(|r.BodyBytes()|, 4) + r.BodyBytes() + Le(|r.envelope|, 4)
  }

  datatype SignedRead = Record(raw: Raw, end: nat) | End | TooLarge | TornFrame

  /** `read_frame`. */
  function ReadSigned(data: bytes, offset: nat): (r: SignedRead)
    ensures r.Record? ==> offset + 76 <= r.end == offset + r.raw.Size() <= |data| && r.raw.Framable()
    ensures r.End? <==> offset >= |data|
  {
    if offset >= |data| then End
    else if |data| - offset < 4 then TornFrame
    else
      var len := FromLe(data[offset..offset + 4]);
      var fixed := 4 + len + SIG_LEN + 4;
      if len > MAX_ENVELOPE then TooLarge
      else if |data| - offset < fixed + 4 then TornFrame
      else
        var bodyLen := FromLe(data[offset + fixed - 4..offset + fixed]);
        if |data| - offset < fixed + bodyLen + 4 then TornFrame
        else
          var end := offset + fixed + bodyLen + 4;
          var body := data[offset + fixed..end - 4];
          FromLeBound(data[offset + fixed - 4..offset + fixed]);
          if FromLe(data[end - 4..end]) != len then TornFrame
          else Record(Raw(data[offset + 4..offset + 4 + len], data[offset + 4 + len..offset + fixed - 4],
              if bodyLen > 0 then Some(body) else None), end)
  }

  lemma FromLeBound(b: bytes)
    requires |b| == 4
    ensures FromLe(b) < U32_END
  {
    Pow256Values();
    LeOfFromLe(b);
  }

  /** The parts of a frame, at their offsets. */
  lemma FramePartsAt(r: Raw)
    ensures var f, n := SignedFrame(r), |r.envelope|;
      && f[..4] == Le(n, 4) && f[4..4 + n] == r.envelope && f[4 + n..68 + n] == r.signature
      && f[68 + n..72 + n] == Le(|r.BodyBytes()|, 4) && f[72 + n..72 + n + |r.BodyBytes()|] == r.BodyBytes()
      && f[72 + n + |r.BodyBytes()|..] == Le(n, 4)
  {
    hide Le;
  }

  /** The parts of a frame, where it stands in a file. */
  lemma FramePartsIn(data: bytes, offset: nat, r: Raw)
    requires At(data, offset, SignedFrame(r))
    ensures var n, m := |r.envelope|, |r.BodyBytes()|;
      && offset + 76 + n + m <= |data|
      && data[offset..offset + 4] == Le(n, 4) && data[offset + 4..offset + 4 + n] == r.envelope
      && data[offset + 4 + n..offset + 68 + n] == r.signature && data[offset + 68 + n..offset + 72 + n] == Le(m, 4)
      && data[offset + 72 + n..offset + 72 + n + m] == r.BodyBytes()
          && data[offset + 72 + n + m..offset + 76 + n + m] == Le(n, 4)
  {
    hide Le, SignedFrame;
    var f, n, m := SignedFrame(r), |r.envelope|, |r.BodyBytes()|;
    FramePartsAt(r);
    SubSlice(data, offset, f, 0, 4);
    SubSlice(data, offset, f, 4, 4 + n);
    SubSlice(data, offset, f, 4 + n, 68 + n);
    SubSlice(data, offset, f, 68 + n, 72 + n);
    SubSlice(data, offset, f, 72 + n, 72 + n + m);
    SubSlice(data, offset, f, 72 + n + m, 76 + n + m);
  }

  /** A framed record is recovered, whatever surrounds it. */
  lemma SignedReadOfFrame(data: bytes, offset: nat, r: Raw)
    requires r.Framable() && At(data, offset, SignedFrame(r))
    ensures ReadSigned(data, offset) == Record(r, offset + r.Size())
  {
    hide Le, FromLe, SignedFrame, At, Pow256;
    FramePartsIn(data, offset, r);
    Pow256Values();
    FromLeOfLe(|r.envelope|, 4);
    FromLeOfLe(|r.BodyBytes()|, 4);
  }

  /** Every non-empty strict prefix of a frame, at the end of the file, is
      torn. */
  lemma SignedReadOfPartial(data: bytes, offset: nat, r: Raw, k: nat)
    requires r.Framable() && 0 < k < r.Size() && offset + k == |data| && data[offset..] == SignedFrame(r)[..k]
    ensures ReadSigned(data, offset) == TornFrame
  {
    hide Le, FromLe, SignedFrame;
    var f, n, m := SignedFrame(r), |r.envelope|, |r.BodyBytes()|;
    FramePartsAt(r);
    Pow256Values();
    FromLeOfLe(n, 4);
    FromLeOfLe(m, 4);
    if k >= 4 {
      assert data[offset..offset + 4] == data[offset..][..4] == f[..4];
    }
    if k >= 76 + n {
      assert data[offset + 68 + n..offset + 72 + n] == data[offset..][68 + n..72 + n] == f[68 + n..72 + n];
    }
  }

  /** Whatever is read is the frame of what was read. */
  lemma SignedFrameOfRead(data: bytes, offset: nat)
    requires ReadSigned(data, offset).Record?
    ensures At(data, offset, SignedFrame(ReadSigned(data, offset).raw))
  {
    hide Le, FromLe;
    var r := ReadSigned(data, offset);
    var n, m := |r.raw.envelope|, |r.raw.BodyBytes()|;
    var o := offset;
    LeOfFromLe(data[o..o + 4]);
    LeOfFromLe(data[o + 68 + n..o + 72 + n]);
    LeOfFromLe(data[o + 72 + n + m..o + 76 + n + m]);
    JoinParts(data, o, r.raw);
  }

  lemma JoinParts(data: bytes, o: nat, r: Raw)
    requires var n, m := |r.envelope|, |r.BodyBytes()|;
      && At(data, o, Le(n, 4)) && At(data, o + 4, r.envelope) && At(data, o + 4 + n, r.signature)
      && At(data, o + 68 + n, Le(m, 4)) && At(data, o + 72 + n, r.BodyBytes()) && At(data, o + 72 + n + m, Le(n, 4))
    ensures At(data, o, SignedFrame(r))
  {
    hide Le, At;
    var n, m := |r.envelope|, |r.BodyBytes()|;
    var a := Le(n, 4) + r.envelope;
    AtJoin(data, o, Le(n, 4), r.envelope);
    AtJoin(data, o, a, r.signature);
    AtJoin(data, o, a + r.signature, Le(m, 4));
    AtJoin(data, o, a + r.signature + Le(m, 4), r.BodyBytes());
    AtJoin(data, o, a + r.signature + Le(m, 4) + r.BodyBytes(), Le(n, 4));
  }

  // ---- read_frame, consuming a reader ----

  class ByteReader {
    const data: bytes
    var pos: nat

    constructor (data: bytes, pos: nat)
      ensures this.data == data && this.pos == pos
    {
      this.data, this.pos := data, pos;
    }

    method Exact(n: nat) returns (b: bytes)
      requires pos + n <= |data|
      modifies this`pos
      ensures pos == old(pos) + n && b == data[old(pos)..pos]
    {
      b := data[pos..pos + n];
      pos := pos + n;
    }
  }

  /** Every length is checked against the file before it is used; a record
      read leaves the reader at its end. */
  method ReadFrame(r: ByteReader) returns (f: SignedRead)
    modifies r`pos
    ensures f == ReadSigned(r.data, old(r.pos)) && (f.Record? ==> r.pos == f.end)
  {
    var offset := r.pos;
    var remaining := |r.data| - offset;
    if remaining <= 0 {
      return End;
    }
    if remaining < 4 {
      return TornFrame;
    }
    var b4 := r.Exact(4);
    var len := FromLe(b4);
    if len > MAX_ENVELOPE {
      return TooLarge;
    }
    var fixed := 4 + len + SIG_LEN + 4;
    if remaining < fixed + 4 {
      return TornFrame;
    }
    var envelope := r.Exact(len);
    var signature := r.Exact(SIG_LEN);
    b4 := r.Exact(4);
    var bodyLen := FromLe(b4);
    if remaining < fixed + bodyLen + 4 {
      return TornFrame;
    }
    var body := r.Exact(bodyLen);
    b4 := r.Exact(4);
    if FromLe(b4) != len {
      return TornFrame;
    }
    return Record(Raw(envelope, signature, if bodyLen > 0 then Some(body) else None), offset + fixed + bodyLen + 4);
  }
}
