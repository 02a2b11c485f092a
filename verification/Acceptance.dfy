/** Whether a key may vouch for an object: trust, scope, retirement and
    revocation. */
module Acceptance {
  import opened Bytes
  import opened Trust
  import opened Revocation

  datatype Object =
    | SignedRecord(logId: bytes, segment: nat, recordId: nat, hash: bytes)
    | SignedCheckpoint(logId: bytes, segment: nat, recordId: nat)
    | SignedRelease(digest: bytes)
    | SignedTransition(to: KeyId)
    | SignedWitness

  datatype Rejection = NotTrusted | OutOfScope | HeadMismatch | RetiredKey | RevokedKey

  /** Position order within a log. */
  predicate AtOrBefore(s: nat, p: nat, s': nat, p': nat) { s < s' || (s == s' && p <= p') }

  datatype Covered = Within | Differs | Beyond

  predicate Covers(h: NamedHead, o: Object)
    requires o.SignedRecord? || o.SignedCheckpoint?
  {
    h.logId == o.logId && AtOrBefore(o.segment, o.recordId, h.segment, h.recordId)
  }

  /** The head is in the record's own place, with another hash. */
  predicate Contradicts(h: NamedHead, o: Object) {
    o.SignedRecord? && o.segment == h.segment && o.recordId == h.recordId && h.recordHash != o.hash
  }

  /** Whether some head of the object's log is at or after it; the first such
      head also fixes the hash of a record in its own place. */
  function UnderHeads(heads: seq<NamedHead>, o: Object): Covered
    requires o.SignedRecord? || o.SignedCheckpoint?
  {
    if heads == [] then Beyond
    else if Covers(heads[0], o) then if Contradicts(heads[0], o) then Differs else Within
    else UnderHeads(heads[1..], o)
  }

  function InRetirement(t: Transition, o: Object): Covered {
    match o
    case SignedRelease(d) => if d in t.releases then Within else Beyond
    case SignedTransition(_) => Within
    case SignedWitness => Beyond
    case _ => UnderHeads(t.heads, o)
  }

  function InCut(c: Cut, o: Object): Covered {
    match o
    case SignedRelease(d) => if d in c.releases then Within else Beyond
    case SignedTransition(to) => if to in c.successors then Within else Beyond
    case SignedWitness => Beyond
    case _ => UnderHeads(c.heads, o)
  }

  predicate InScope(ent: Entries, k: KeyId, ns: Namespace) {
    exists i :: 0 <= i < |EntriesOf(ent, k)| && ns in EntriesOf(ent, k)[i].scope
  }

  /** `accept`: nothing, or why not. */
  function Accept(ev: Evaluation, k: KeyId, ns: Namespace, o: Object): Option<Rejection> {
    if EntriesOf(ev.entries, k) == [] then Some(NotTrusted)
    else if !InScope(ev.entries, k, ns) then Some(OutOfScope)
    else
      var retired := if k in ev.retired then InRetirement(ev.retired[k], o) else Within;
      var cut := if k in ev.cuts then InCut(ev.cuts[k], o) else Within;
      if retired.Differs? then Some(HeadMismatch)
      else if retired.Beyond? then Some(RetiredKey)
      else if cut.Differs? then Some(HeadMismatch)
      else if cut.Beyond? then Some(RevokedKey)
      else None
  }

  /** A record below a head stays below it: what a retired or revoked key may
      still vouch for is a prefix of each log. */
  lemma {:induction false} CoveredIsPrefix(heads: seq<NamedHead>, logId: bytes, s: nat, p: nat, s': nat, p': nat)
    requires AtOrBefore(s, p, s', p') && !UnderHeads(heads, SignedCheckpoint(logId, s', p')).Beyond?
    ensures !UnderHeads(heads, SignedCheckpoint(logId, s, p)).Beyond?
  {
    if heads != [] {
      var h := heads[0];
      if !Covers(h, SignedCheckpoint(logId, s', p')) {
        CoveredIsPrefix(heads[1..], logId, s, p, s', p');
      }
    }
  }

  /** A key that is neither retired nor revoked may vouch for everything in
      its scope. */
  lemma AcceptsCurrentKey(ev: Evaluation, k: KeyId, ns: Namespace, o: Object)
    requires k !in ev.retired && k !in ev.cuts
    ensures Accept(ev, k, ns, o).None? <==> InScope(ev.entries, k, ns)
  {
  }

  /** Head `i` is the first that covers the object. */
  predicate FirstCover(heads: seq<NamedHead>, o: Object, i: nat)
    requires o.SignedRecord? || o.SignedCheckpoint?
  {
    i < |heads| && Covers(heads[i], o) && forall j :: 0 <= j < i ==> !Covers(heads[j], o)
  }

  /** Beyond: no head covers the object. Otherwise the first head that does
      decides alone. */
  lemma {:induction false} FirstCoverDecides(heads: seq<NamedHead>, o: Object)
    requires o.SignedRecord? || o.SignedCheckpoint?
    ensures UnderHeads(heads, o).Beyond? <==> forall h :: h in heads ==> !Covers(h, o)
    ensures UnderHeads(heads, o).Differs? <==> exists i: nat :: FirstCover(heads, o, i) && Contradicts(heads[i], o)
    ensures UnderHeads(heads, o).Within? <==> exists i: nat :: FirstCover(heads, o, i) && !Contradicts(heads[i], o)
  {
    hide Covers, Contradicts;
    if heads != [] {
      FirstCoverDecides(heads[1..], o);
      assert forall h :: h in heads <==> h == heads[0] || h in heads[1..];
      if Covers(heads[0], o) {
        assert FirstCover(heads, o, 0);
      } else {
        forall i: nat | i < |heads| ensures FirstCover(heads, o, i) <==> i > 0 && FirstCover(heads[1..], o, i - 1) {
          LaterCover(heads, o, i);
        }
        forall i: nat | FirstCover(heads[1..], o, i)
          ensures FirstCover(heads, o, i + 1) && heads[i + 1] == heads[1..][i] {
          LaterCover(heads, o, i + 1);
        }
      }
    }
  }

  lemma LaterCover(heads: seq<NamedHead>, o: Object, i: nat)
    requires (o.SignedRecord? || o.SignedCheckpoint?) && i < |heads| && !Covers(heads[0], o)
    ensures FirstCover(heads, o, i) <==> i > 0 && FirstCover(heads[1..], o, i - 1)
  {
    hide Covers;
    if i > 0 {
      assert heads[1..][i - 1] == heads[i];
      if FirstCover(heads[1..], o, i - 1) {
        forall j | 0 <= j < i ensures !Covers(heads[j], o) {
          assert j > 0 ==> heads[1..][j - 1] == heads[j];
        }
      }
    }
  }

  /** All heads that cover the object agree on whether they contradict it. */
  predicate Agree(heads: seq<NamedHead>, o: Object)
    requires o.SignedRecord? || o.SignedCheckpoint?
  {
    forall g, h :: g in heads && h in heads && Covers(g, o) && Covers(h, o) ==> Contradicts(g, o) == Contradicts(h, o)
  }

  /** Heads that agree are judged as a set. */
  lemma AgreeingHeads(heads: seq<NamedHead>, o: Object, h: NamedHead)
    requires (o.SignedRecord? || o.SignedCheckpoint?) && Agree(heads, o) && h in heads && Covers(h, o)
    ensures UnderHeads(heads, o) == if Contradicts(h, o) then Differs else Within
  {
    hide Covers, Contradicts, UnderHeads;
    FirstCoverDecides(heads, o);
  }

  lemma SameHeads(heads: seq<NamedHead>, heads': seq<NamedHead>, o: Object)
    requires (o.SignedRecord? || o.SignedCheckpoint?) && SameMembers(heads, heads') && Agree(heads, o)
    ensures UnderHeads(heads, o) == UnderHeads(heads', o)
  {
    hide Covers, Contradicts, UnderHeads;
    if h :| h in heads && Covers(h, o) {
      AgreeingHeads(heads, o, h);
      AgreeingHeads(heads', o, h);
    } else {
      FirstCoverDecides(heads, o);
      FirstCoverDecides(heads', o);
    }
  }

  /** The order of the heads is irrelevant to an object exactly when all heads
      that cover it agree on whether they contradict it. */
  lemma HeadOrderIrrelevantIff(heads: seq<NamedHead>, o: Object)
    requires o.SignedRecord? || o.SignedCheckpoint?
    ensures Agree(heads, o) <==> forall hs | multiset(hs) == multiset(heads) ::
      UnderHeads(hs, o) == UnderHeads(heads, o)
  {
    hide Covers, Contradicts, UnderHeads;
    if Agree(heads, o) {
      forall hs | multiset(hs) == multiset(heads) ensures UnderHeads(hs, o) == UnderHeads(heads, o) {
        assert forall h :: h in heads <==> h in multiset(heads);
        assert forall h :: h in hs <==> h in multiset(hs);
        SameHeads(heads, hs, o);
      }
    } else {
      var g, h :| g in heads && h in heads && Covers(g, o) && Covers(h, o) && Contradicts(g, o) && !Contradicts(h, o);
      var a := Fronted(heads, g, o);
      var b := Fronted(heads, h, o);
      assert UnderHeads(a, o) != UnderHeads(b, o);
    }
  }

  /** The same heads with `h`, which covers the object, first. */
  lemma Fronted(heads: seq<NamedHead>, h: NamedHead, o: Object) returns (hs: seq<NamedHead>)
    requires (o.SignedRecord? || o.SignedCheckpoint?) && h in heads && Covers(h, o)
    ensures multiset(hs) == multiset(heads)
    ensures UnderHeads(hs, o) == if Contradicts(h, o) then Differs else Within
  {
    hide Covers, Contradicts;
    var i :| 0 <= i < |heads| && heads[i] == h;
    hs := [h] + heads[..i] + heads[i + 1..];
    assert heads == heads[..i] + [h] + heads[i + 1..];
  }

  /** The condition can fail: here a later head of the same log, listed first,
      hides the contradiction. */
  lemma HeadOrderMatters()
    ensures exists a, b, o: Object ::
      o.SignedRecord? && UnderHeads([a, b], o) == Within && UnderHeads([b, a], o) == Differs
  {
    var a, b, o := NamedHead([], 0, 5, [], 6), NamedHead([], 0, 3, [2], 4), SignedRecord([], 0, 3, [1]);
    assert [a, b][1..] == [b] && [b, a][1..] == [a];
    assert Covers(a, o) && !Contradicts(a, o) && Covers(b, o) && Contradicts(b, o);
    assert UnderHeads([a, b], o) == Within && UnderHeads([b, a], o) == Differs;
  }
}
