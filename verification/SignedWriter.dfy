/** The writer of format 0x0002: signed records with separable bodies,
    rollover, and the seal. */
module SignedWriter {
  import opened Bytes
  import opened Sorting
  import opened Cbor
  import opened CborMaps
  import opened Payload
  import opened HmacWriter
  import opened IntMaps
  import opened SignedFormat

  datatype SignedInput = SignedInput(ts: bytes, mono: nat, actor: bytes, event: bytes, schema: nat,
      payload: seq<Member>)

  /** The signer: its key, its log, and the session. `sign` makes the
      signature of an envelope; `fromMs` formats a time. */
  datatype Identity = Identity(c: Scheme, publicKey: Digest, logId: LogId, session: SessionId,
      sign: bytes -> Signature, fromMs: int -> bytes) {
    function KeyId(): Digest { KeyIdOf(c, publicKey) }
  }

  function EnvelopeKeyList(): (ks: seq<nat>)
    ensures |ks| == 11 && Increasing(ks)
  {
    [1, 2, 3, 4, 5, 7, 9, 10, 11, 12, 13]
  }

  function EnvelopeItems(w: Identity, id: nat, prev: Digest, ts: bytes, mono: nat, event: bytes, schema: nat, seg: nat,
      bodyHash: Digest): (items: seq<IntItem>)
    ensures |items| == 11
  {
    [ IntItem(1, Head(0, id)), IntItem(2, Head(2, |prev|) + prev), IntItem(3, Tstr(ts)), IntItem(4, Head(0, mono)),
      IntItem(5, Head(2, |w.session|) + w.session), IntItem(7, Tstr(event)),
          IntItem(9, Head(2, |w.KeyId()|) + w.KeyId()),
      IntItem(10, Head(0, schema)), IntItem(11, Head(0, seg)), IntItem(12, Head(0, ALG_ED25519)),
      IntItem(13, Head(2, |bodyHash|) + bodyHash) ]
  }

  /** `envelope`. */
  function EnvelopeBytes(w: Identity, id: nat, prev: Digest, ts: bytes, mono: nat, event: bytes, schema: nat, seg: nat,
      bodyHash: Digest): bytes
  {
    SortedMap(MapSeq(IntPair, EnvelopeItems(w, id, prev, ts, mono, event, schema, seg, bodyHash)))
  }

  /** `body`. */
  function BodyBytesOf(actor: bytes, payload: seq<Member>, nonce: Digest): bytes {
    SortedMap(MapSeq(IntPair, [IntItem(6, Tstr(actor)), IntItem(8, EncodePayload(PMap(payload))),
        IntItem(14, Head(2, |nonce|) + nonce)]))
  }

  /** `test_nonce`: one per record of the log, structural ones included. */
  function Nonce(w: Identity, i: nat): Digest
  {
    w.c.sha256(Tagged("ogentic-audit/v0.2/test-nonce", w.logId + Be(i, 8)))
  }

  datatype LastTime = LastTime(ts: bytes, mono: nat)

  datatype SState = SState(segments: seq<bytes>, prev: Digest, id: nat, seg: nat, nonces: nat, last: Option<LastTime>)

  function HeaderOf(w: Identity, index: nat, prevFinal: Digest): SignedHeader {
    SignedHeader(SIGNED_VERSION, index, ALG_ED25519, 0, w.logId, w.KeyId(), prevFinal, w.publicKey)
  }

  /** `_new_segment`. */
  function Opened(w: Identity, st: SState, index: nat, prevFinal: Digest): (after: SState)
    ensures |after.segments| == |st.segments| + 1
  {
    var h := HeaderOf(w, index, prevFinal);
    SState(st.segments + [h.ToBytes(w.c)], HeaderHash(w.c, h.Hashed()), 0, index, st.nonces, st.last)
  }

  function FreshLog(w: Identity): SState { Opened(w, SState([], ZERO_DIGEST, 0, 0, 0, None), 0, ZERO_DIGEST) }

  /** The record that `_write` writes for `r`. */
  function RawOf(w: Identity, st: SState, r: SignedInput): Raw {
    var body := BodyBytesOf(r.actor, r.payload, Nonce(w, st.nonces));
    var env := EnvelopeBytes(w, st.id, st.prev, r.ts, r.mono, r.event, r.schema, st.seg, BodyHash(w.c, body));
    Raw(env, w.sign(env), Some(body))
  }

  /** `_write`. */
  function Wrote(w: Identity, st: SState, r: SignedInput): (after: SState)
    requires st.segments != []
    ensures |after.segments| == |st.segments|
  {
    var raw, n := RawOf(w, st, r), |st.segments| - 1;
    SState(st.segments[n := st.segments[n] + SignedFrame(raw)], RecordHash(w.c, raw.envelope), st.id + 1, st.seg,
        st.nonces + 1, Some(LastTime(r.ts, r.mono)))
  }

  /** `_bump` needs a record whose time can be read. */
  predicate Bumpable(w: Identity, st: SState) { st.last.Some? && w.c.toMs(st.last.value.ts).Some? }

  /** A record of the writer's own, a millisecond after the last one. */
  function Own(w: Identity, st: SState, event: bytes, payload: seq<Member>): SignedInput
    requires Bumpable(w, st)
  {
    SignedInput(w.fromMs(w.c.toMs(st.last.value.ts).value + 1), st.last.value.mono + 1, SystemActor(), event, 1,
        payload)
  }

  function SealEvent(): (e: bytes)
    ensures |e| == 10
  {
    Ascii("log.sealed")
  }

  function ContinueEvent(): bytes { Ascii("log.continued") }

  function FinalizeOwn(w: Identity, st: SState): SignedInput
    requires Bumpable(w, st)
  {
    Own(w, st, Finalized(), [Member(FinalHashKey(), PBytes(st.prev)), Member(RecordsKey(), PUint(st.id))])
  }

  /** `rollover`. */
  function RolledOver(w: Identity, st: SState): (after: SState)
    requires st.segments != [] && Bumpable(w, st)
    ensures after.segments != []
  {
    var st1 := Wrote(w, st, FinalizeOwn(w, st));
    Opened(w, st1, st1.seg + 1, st1.prev)
  }

  /** `_framed_len`. */
  function FramedLen(w: Identity, st: SState, ts: bytes, mono: nat, event: bytes, schema: nat, bodyLen: nat): nat {
    76 + |EnvelopeBytes(w, U64_MAX, st.prev, ts, mono, event, schema, st.seg, ZERO_DIGEST)| + bodyLen
  }

  const FINALIZE_BODY := 160

  predicate MustRollSigned(w: Identity, st: SState, size: nat, r: SignedInput)
    requires st.segments != []
  {
    && st.id > 0
    && |st.segments[|st.segments| - 1]|
       + FramedLen(w, st, r.ts, r.mono, r.event, r.schema, |BodyBytesOf(r.actor, r.payload, ZERO_DIGEST)|)
       + FramedLen(w, st, r.ts, r.mono, Finalized(), 1, FINALIZE_BODY) > size
  }

  /** `append`. */
  function Appended(w: Identity, st: SState, size: nat, r: SignedInput): (after: SState)
    requires st.segments != [] && (st.id > 0 ==> Bumpable(w, st))
    ensures after.segments != []
  {
    if MustRollSigned(w, st, size, r) then Wrote(w, RolledOver(w, st), r) else Wrote(w, st, r)
  }

  /** `seal`. */
  function Sealed(w: Identity, st: SState): (after: SState)
    requires st.segments != [] && Bumpable(w, st)
    ensures after.segments != []
  {
    Wrote(w, st, Own(w, st, SealEvent(), []))
  }

  class Writer {
    const w: Identity
    const size: nat
    var segments: seq<bytes>
    var prev: Digest
    var rid: nat
    var seg: nat
    var nonceIndex: nat
    var lastTime: Option<LastTime>

    ghost predicate Valid()
      reads this
    {
      segments != [] && (rid > 0 ==> Bumpable(w, State()))
    }

    function State(): SState
      reads this
    {
      SState(segments, prev, rid, seg, nonceIndex, lastTime)
    }

    constructor (w: Identity, size: nat)
      ensures Valid() && State() == FreshLog(w) && this.w == w && this.size == size
    {
      this.w, this.size := w, size;
      var h := HeaderOf(w, 0, ZERO_DIGEST);
      segments, prev, rid, seg := [h.ToBytes(w.c)], HeaderHash(w.c, h.Hashed()), 0, 0;
      nonceIndex, lastTime := 0, None;
    }

    method NewSegment(index: nat, prevFinal: Digest)
      modifies this
      ensures State() == Opened(w, old(State()), index, prevFinal)
    {
      var h := HeaderOf(w, index, prevFinal);
      segments := segments + [h.ToBytes(w.c)];
      prev, rid, seg := HeaderHash(w.c, h.Hashed()), 0, index;
    }

    method Write(r: SignedInput)
      requires segments != []
      modifies this
      ensures State() == Wrote(w, old(State()), r)
    {
      hide EnvelopeBytes, BodyBytesOf, SignedFrame, RecordHash, BodyHash;
      var body := BodyBytesOf(r.actor, r.payload, Nonce(w, nonceIndex));
      nonceIndex := nonceIndex + 1;
      var env := EnvelopeBytes(w, rid, prev, r.ts, r.mono, r.event, r.schema, seg, BodyHash(w.c, body));
      var n := |segments| - 1;
      segments := segments[n := segments[n] + SignedFrame(Raw(env, w.sign(env), Some(body)))];
      prev, rid := RecordHash(w.c, env), rid + 1;
      lastTime := Some(LastTime(r.ts, r.mono));
    }

    method Rollover()
      requires Valid() && Bumpable(w, State())
      modifies this
      ensures Valid() && State() == RolledOver(w, old(State()))
    {
      hide Wrote, Own;
      Write(FinalizeOwn(w, State()));
      NewSegment(seg + 1, prev);
    }

    /** Append one record, rolling over first when it and a finalize record
        would not both fit. */
    method Append(r: SignedInput)
      requires Valid() && w.c.toMs(r.ts).Some?
      modifies this
      ensures Valid() && State() == Appended(w, old(State()), size, r)
    {
      hide EnvelopeBytes, BodyBytesOf, RawOf, RecordHash, RolledOver;
      if rid > 0 {
        var this_ := FramedLen(w, State(), r.ts, r.mono, r.event, r.schema,
            |BodyBytesOf(r.actor, r.payload, ZERO_DIGEST)|);
        var fin := FramedLen(w, State(), r.ts, r.mono, Finalized(), 1, FINALIZE_BODY);
        if |segments[|segments| - 1]| + this_ + fin > size {
          Rollover();
        }
      }
      Write(r);
    }

    method SealLog()
      requires Valid() && Bumpable(w, State())
      modifies this
      ensures State() == Sealed(w, old(State()))
    {
      hide Wrote, Own;
      Write(Own(w, State(), SealEvent(), []));
    }
  }
}
