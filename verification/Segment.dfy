/** Segment files of format 0x0001: the 80-byte header and record framing. */
module Segment {
  import opened Bytes

  type u32 = x: int | 0 <= x < 0x1_0000_0000

  /** The key handle and the checksum, as uninterpreted functions. Nothing is
      assumed of `sign` but that it is a function. */
  datatype Crypto = Crypto(keyId: Digest, sign: bytes -> Digest, crc32: bytes -> u32)

  /** One `audit-NNNN.cbor` file; a directory is its files in index order. */
  datatype SegFile = SegFile(index: nat, data: bytes)

  predicate Ascending(dir: seq<SegFile>) {
    forall i, j :: 0 <= i < j < |dir| ==> dir[i].index < dir[j].index
  }

  const FORMAT_VERSION := 1
  const HEADER_BODY_LEN := 72
  const HEADER_LEN := 80
  const FRAMING := 40
  const U32_END := 0x1_0000_0000

  /** Longest payload crash recovery believes. */
  const RECOVERY_CAP := 32 * 1024 * 1024
  const NO_CAP := 0xffff_ffff

  function Magic(): (m: bytes)
    ensures m == [0x4f, 0x47, 0x41, 0x55]
  {
    [0x4f, 0x47, 0x41, 0x55]
  }

  datatype SegmentHeader = SegmentHeader(version: nat, segmentIndex: nat, keyId: Digest, prevFinal: Digest) {
    predicate Valid() { version < 0x1_0000 && segmentIndex < 0x1_0000 }

    /** The CRC-covered bytes. */
    function Body(): (b: bytes)
      ensures |b| == HEADER_BODY_LEN && b[..4] == Magic()
    {
      Magic() + Le(version, 2) + Le(segmentIndex, 2) + keyId + prevFinal
    }

    function ToBytes(c: Crypto): (b: bytes)
      ensures |b| == HEADER_LEN && b[..HEADER_BODY_LEN] == Body()
    {
      Body() + Le(c.crc32(Body()), 4) + [0, 0, 0, 0]
    }
  }

  function NewHeader(index: nat, keyId: Digest, prevFinal: Digest): SegmentHeader {
    SegmentHeader(FORMAT_VERSION, index, keyId, prevFinal)
  }

  datatype HeaderParseError = TooShort(got: nat) | BadMagic | UnsupportedVersion(version: nat) | CrcMismatch

  /** The fields at their offsets, unvalidated. */
  function Fields(b: bytes): SegmentHeader
    requires |b| >= HEADER_LEN
  {
    SegmentHeader(FromLe(b[4..6]), FromLe(b[6..8]), b[8..40], b[40..72])
  }

  function ParseHeader(c: Crypto, b: bytes): Result<SegmentHeader, HeaderParseError> {
    if |b| < HEADER_LEN then Err(TooShort(|b|))
    else if b[..4] != Magic() then Err(BadMagic)
    else if FromLe(b[4..6]) != FORMAT_VERSION then Err(UnsupportedVersion(FromLe(b[4..6])))
    else if FromLe(b[72..76]) != c.crc32(b[..HEADER_BODY_LEN]) then Err(CrcMismatch)
    else Ok(Fields(b))
  }

  lemma FieldsOfBytes(c: Crypto, h: SegmentHeader, rest: bytes)
    requires h.Valid()
    ensures Fields(h.ToBytes(c) + rest) == h
    ensures FromLe((h.ToBytes(c) + rest)[72..76]) == c.crc32(h.Body())
    ensures (h.ToBytes(c) + rest)[76..80] == [0, 0, 0, 0]
  {
    Pow256Values();
    var b := h.ToBytes(c) + rest;
    FromLeOfLe(h.version, 2);
    FromLeOfLe(h.segmentIndex, 2);
    FromLeOfLe(c.crc32(h.Body()), 4);
    assert b[4..6] == Le(h.version, 2);
    assert b[6..8] == Le(h.segmentIndex, 2);
    assert b[8..40] == h.keyId && b[40..72] == h.prevFinal;
    assert b[72..76] == Le(c.crc32(h.Body()), 4);
  }

  /** The CRC-covered bytes of any parsed header are the body of its fields. */
  lemma BodyOfFields(b: bytes)
    requires |b| >= HEADER_LEN && b[..4] == Magic()
    ensures Fields(b).Valid() && Fields(b).Body() == b[..HEADER_BODY_LEN]
  {
    Pow256Values();
    LeOfFromLe(b[4..6]);
    LeOfFromLe(b[6..8]);
    assert b[..72] == b[..4] + b[4..6] + b[6..8] + b[8..40] + b[40..72];
  }

  /** Parsing undoes writing, with anything after the header; and a parsed
      80-byte header with zero reserved bytes is the writing of its fields. */
  lemma HeaderRoundTrip(c: Crypto, h: SegmentHeader, b: bytes, rest: bytes)
    ensures h.Valid() && h.version == FORMAT_VERSION ==> ParseHeader(c, h.ToBytes(c) + rest) == Ok(h)
    ensures |b| == HEADER_LEN && b[76..] == [0, 0, 0, 0] && ParseHeader(c, b) == Ok(h) ==> h.ToBytes(c) == b
  {
    if h.Valid() && h.version == FORMAT_VERSION {
      FieldsOfBytes(c, h, rest);
      var w := h.ToBytes(c) + rest;
      assert w[..HEADER_BODY_LEN] == h.Body();
      assert w[..4] == h.Body()[..4];
    }
    if |b| == HEADER_LEN && b[76..] == [0, 0, 0, 0] && ParseHeader(c, b) == Ok(h) {
      BodyOfFields(b);
      LeOfFromLe(b[72..76]);
      assert b == b[..72] + b[72..76] + b[76..];
    }
  }

  // ---- framing ----

  function Frame(payload: bytes, hmac: Digest): (f: bytes)
    ensures |f| == |payload| + FRAMING
  {
    Le(|payload|, 4) + payload + hmac + Le(|payload|, 4)
  }

  datatype FrameRead = Framed(payload: bytes, hmac: Digest, end: nat) | Torn

  /** The frame at `offset`; `Torn` for anything incomplete, mismatched, or
      declaring more than `cap` payload bytes. */
  function ReadFrame(data: bytes, offset: nat, cap: nat): (r: FrameRead)
    requires offset < |data|
    ensures r.Framed? ==> offset + FRAMING <= r.end == offset + |r.payload| + FRAMING <= |data|
  {
    if |data| - offset < 4 then Torn
    else
      var len := FromLe(data[offset..offset + 4]);
      if |data| - offset < len + FRAMING || len > cap then Torn
      else
        var body := offset + 4;
        if FromLe(data[body + len + 32..body + len + 36]) != len then Torn
        else Framed(data[body..body + len], data[body + len..body + len + 32], offset + len + FRAMING)
  }

  /** A complete frame is read back, whatever surrounds it. */
  lemma ReadOfFrame(data: bytes, offset: nat, cap: nat, payload: bytes, hmac: Digest)
    requires At(data, offset, Frame(payload, hmac)) && |payload| <= cap && |payload| < U32_END
    ensures ReadFrame(data, offset, cap) == Framed(payload, hmac, offset + |payload| + FRAMING)
  {
    hide FromLe, Le, Pow256;
    var n, f := |payload|, Frame(payload, hmac);
    Pow256Values();
    FromLeOfLe(n, 4);
    assert f[..4] == Le(n, 4) && f[4..4 + n] == payload && f[4 + n..36 + n] == hmac && f[36 + n..40 + n] == Le(n, 4);
    hide Frame;
    SubSlice(data, offset, f, 0, 4);
    SubSlice(data, offset, f, 4, 4 + n);
    SubSlice(data, offset, f, 4 + n, 36 + n);
    SubSlice(data, offset, f, 36 + n, 40 + n);
  }

  /** Every non-empty strict prefix of a frame, at the end of the file, is
      torn. */
  lemma ReadOfPartialFrame(data: bytes, offset: nat, cap: nat, payload: bytes, hmac: Digest, k: nat)
    requires 0 < k < |Frame(payload, hmac)| && offset + k == |data| && |payload| < U32_END
    requires data[offset..] == Frame(payload, hmac)[..k]
    ensures ReadFrame(data, offset, cap) == Torn
  {
    var n := |payload|;
    if k >= 4 {
      Pow256Values();
      FromLeOfLe(n, 4);
      assert data[offset..offset + 4] == data[offset..][..4] == Frame(payload, hmac)[..4] == Le(n, 4);
    }
  }

  /** Whatever is read is a frame of its payload and tag. */
  lemma FrameOfRead(data: bytes, offset: nat, cap: nat)
    requires offset < |data| && ReadFrame(data, offset, cap).Framed?
    ensures var r := ReadFrame(data, offset, cap);
      At(data, offset, Frame(r.payload, r.hmac)) && |r.payload| < U32_END
  {
    hide FromLe, Le, Pow256;
    var r := ReadFrame(data, offset, cap);
    var n := |r.payload|;
    var body := offset + 4;
    Pow256Values();
    LeOfFromLe(data[offset..offset + 4]);
    LeOfFromLe(data[body + n + 32..body + n + 36]);
    assert data[offset..offset + n + FRAMING]
        == data[offset..body] + data[body..body + n] + data[body + n..body + n + 32]
            + data[body + n + 32..body + n + 36];
  }
}
