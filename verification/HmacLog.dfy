/** A log of format 0x0001 as a mathematical object: the payloads of each
    segment, the chain through them, and the files they are written to. */
module HmacLog {
  import opened Bytes
  import opened Segment

  /** Payload byte strings, segment by segment. */
  type PLog = seq<seq<bytes>>

  /** What the first record of segment 0 links to. */
  function GenesisStart(c: Crypto): Digest {
    c.sign(NewHeader(0, c.keyId, ZERO_DIGEST).Body())
  }

  /** The digest the record after `ps` links to. */
  function HeadAfter(c: Crypto, start: Digest, ps: seq<bytes>): Digest {
    if ps == [] then start else c.sign(ps[|ps| - 1])
  }

  /** The chain head after a whole log. */
  function Final(c: Crypto, pl: PLog): Digest {
    if pl == [] then GenesisStart(c)
    else HeadAfter(c, Final(c, pl[..|pl| - 1]), pl[|pl| - 1])
  }

  function HeaderAfter(c: Crypto, before: PLog): SegmentHeader {
    NewHeader(|before|, c.keyId, if before == [] then ZERO_DIGEST else Final(c, before))
  }

  function Frames(c: Crypto, ps: seq<bytes>): bytes {
    if ps == [] then [] else Frame(ps[0], c.sign(ps[0])) + Frames(c, ps[1..])
  }

  function SegmentFile(c: Crypto, before: PLog, ps: seq<bytes>): (f: bytes)
    ensures |f| >= HEADER_LEN
  {
    HeaderAfter(c, before).ToBytes(c) + Frames(c, ps)
  }

  /** The file of every segment, in order. */
  function Files(c: Crypto, pl: PLog): (fs: seq<bytes>)
    ensures |fs| == |pl|
  {
    if pl == [] then []
    else Files(c, pl[..|pl| - 1]) + [SegmentFile(c, pl[..|pl| - 1], pl[|pl| - 1])]
  }

  lemma {:induction false} FileAt(c: Crypto, pl: PLog, i: nat)
    requires i < |pl|
    ensures Files(c, pl)[i] == SegmentFile(c, pl[..i], pl[i])
  {
    if i < |pl| - 1 {
      FileAt(c, pl[..|pl| - 1], i);
      assert pl[..|pl| - 1][..i] == pl[..i];
    }
  }

  lemma {:induction false} FramesAppend(c: Crypto, ps: seq<bytes>, qs: seq<bytes>)
    ensures Frames(c, ps + qs) == Frames(c, ps) + Frames(c, qs)
  {
    hide Frame;
    if ps == [] {
      assert ps + qs == qs;
    } else {
      FramesAppend(c, ps[1..], qs);
      assert (ps + qs)[1..] == ps[1..] + qs;
    }
  }

  /** Writing one more frame appends it to the file. */
  lemma FrameAppended(c: Crypto, before: PLog, ps: seq<bytes>, p: bytes)
    ensures SegmentFile(c, before, ps + [p]) == SegmentFile(c, before, ps) + Frame(p, c.sign(p))
  {
    FramesAppend(c, ps, [p]);
    assert Frames(c, [p]) == Frame(p, c.sign(p)) + Frames(c, []);
  }

  lemma FinalOfSegment(c: Crypto, pl: PLog, ps: seq<bytes>)
    ensures Final(c, pl + [ps]) == HeadAfter(c, Final(c, pl), ps)
    ensures Files(c, pl + [ps]) == Files(c, pl) + [SegmentFile(c, pl, ps)]
  {
    assert (pl + [ps])[..|pl|] == pl;
  }

  /** Each payload is short enough for its 32-bit length prefix. */
  predicate AllShort(ps: seq<bytes>, cap: nat) { forall i :: 0 <= i < |ps| ==> |ps[i]| <= cap }
}
