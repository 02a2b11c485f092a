/** Revocations and retirements: which keys stay trusted, and for what. */
module Revocation {
  import opened Bytes
  import opened Dicts
  import opened Trust

  datatype Revocation = Revocation(
    sha: bytes, revoked: KeyId, revoker: KeyId, heads: seq<NamedHead>, releases: seq<bytes>, successors: seq<KeyId>)

  /** What a revoked key remains trusted for. */
  datatype Cut = Cut(heads: seq<NamedHead>, releases: seq<bytes>, successors: seq<KeyId>)

  datatype Evaluation = Evaluation(
    entries: Entries, cuts: map<KeyId, Cut>, retired: map<KeyId, Transition>, equivocal: set<KeyId>, hasPins: bool)

  datatype TrustError = RevocationWithoutAuthority

  function RevocationSha(r: Revocation): bytes { r.sha }

  predicate SelfRevocation(r: Revocation) { r.revoker == r.revoked }

  /** Some pin of the revoker may revoke, for a principal of the revoked key. */
  predicate Authority(pins: seq<Pin>, principals: Entries, r: Revocation) {
    exists i ::
      0 <= i < |pins| && pins[i].kid == r.revoker && NsRevocation in pins[i].scope
      && Has(principals, r.revoked, pins[i].principal)
  }

  /** The authority revocations of key `k`, in order. */
  function AuthorityList(pins: seq<Pin>, principals: Entries, rs: seq<Revocation>, k: KeyId): seq<Revocation> {
    if rs == [] then []
    else
      var n := |rs| - 1;
      AuthorityList(pins, principals, rs[..n], k)
      + Counted(pins, principals, rs[n], k)
  }

  function Counted(pins: seq<Pin>, principals: Entries, r: Revocation, k: KeyId): seq<Revocation> {
    if r.revoked == k && !SelfRevocation(r) && Authority(pins, principals, r) then [r] else []
  }

  predicate Effective(pins: seq<Pin>, principals: Entries, r: Revocation) {
    SelfRevocation(r) || Authority(pins, principals, r)
  }

  /** The elements of `xs` that every list of `yss` has. */
  function InAll<T(==,!new)>(xs: seq<T>, yss: seq<seq<T>>): (zs: seq<T>)
    ensures forall z :: z in zs <==> z in xs && forall j :: 0 <= j < |yss| ==> z in yss[j]
  {
    if xs == [] then []
    else
      var rest := InAll(xs[..|xs| - 1], yss);
      var x := xs[|xs| - 1];
      assert forall z :: z in xs <==> z in xs[..|xs| - 1] || z == x;
      if forall j :: 0 <= j < |yss| ==> x in yss[j] then rest + [x] else rest
  }

  function HeadLists(rs: seq<Revocation>): (l: seq<seq<NamedHead>>)
    ensures |l| == |rs| && forall i :: 0 <= i < |l| ==> l[i] == rs[i].heads
  {
    seq(|rs|, i requires 0 <= i < |rs| => rs[i].heads)
  }

  function ReleaseLists(rs: seq<Revocation>): (l: seq<seq<bytes>>)
    ensures |l| == |rs| && forall i :: 0 <= i < |l| ==> l[i] == rs[i].releases
  {
    seq(|rs|, i requires 0 <= i < |rs| => rs[i].releases)
  }

  function SuccessorLists(rs: seq<Revocation>): (l: seq<seq<KeyId>>)
    ensures |l| == |rs| && forall i :: 0 <= i < |l| ==> l[i] == rs[i].successors
  {
    seq(|rs|, i requires 0 <= i < |rs| => rs[i].successors)
  }

  /** The cut of a key with authority revocations `rs`; a key that only
      revoked itself is trusted for nothing. */
  function CutOf(rs: seq<Revocation>): Cut {
    if rs == [] then Cut([], [], [])
    else Cut(InAll(rs[0].heads, HeadLists(rs)), InAll(rs[0].releases, ReleaseLists(rs)),
        InAll(rs[0].successors, SuccessorLists(rs)))
  }

  /** As a set, a cut is the intersection over the authority revocations. */
  lemma CutIsIntersection(rs: seq<Revocation>)
    ensures var c := CutOf(rs);
      && (forall h :: h in c.heads <==> rs != [] && forall i :: 0 <= i < |rs| ==> h in rs[i].heads)
      && (forall h :: h in c.releases <==> rs != [] && forall i :: 0 <= i < |rs| ==> h in rs[i].releases)
      && (forall h :: h in c.successors <==> rs != [] && forall i :: 0 <= i < |rs| ==> h in rs[i].successors)
  {
  }

  /** Cuts that allow the same. */
  ghost predicate SameCut(a: Cut, b: Cut) {
    && (forall h :: h in a.heads <==> h in b.heads)
    && (forall h :: h in a.releases <==> h in b.releases)
    && (forall h :: h in a.successors <==> h in b.successors)
  }

  ghost predicate SameMembers<T(!new)>(xs: seq<T>, ys: seq<T>) { forall x :: x in xs <==> x in ys }

  /** Neither order nor repetition of the revocations matters. */
  lemma CutIgnoresOrder(rs: seq<Revocation>, rs': seq<Revocation>)
    requires SameMembers(rs, rs')
    ensures SameCut(CutOf(rs), CutOf(rs'))
  {
    CutIsIntersection(rs);
    CutIsIntersection(rs');
    assert rs == [] <==> rs' == [] by {
      if rs != [] { assert rs[0] in rs'; }
      if rs' != [] { assert rs'[0] in rs; }
    }
    forall i | 0 <= i < |rs| ensures exists j :: 0 <= j < |rs'| && rs'[j] == rs[i] {
      assert rs[i] in rs';
    }
    forall i | 0 <= i < |rs'| ensures exists j :: 0 <= j < |rs| && rs[j] == rs'[i] {
      assert rs'[i] in rs;
    }
  }

  ghost predicate WithinCut(a: Cut, b: Cut) {
    && (forall h :: h in a.heads ==> h in b.heads)
    && (forall h :: h in a.releases ==> h in b.releases)
    && (forall h :: h in a.successors ==> h in b.successors)
  }

  /** Once there is an authority revocation, another can only shrink the cut. */
  lemma MoreRevocationsShrink(rs: seq<Revocation>, rs': seq<Revocation>)
    requires rs != [] && forall r :: r in rs ==> r in rs'
    ensures WithinCut(CutOf(rs'), CutOf(rs))
  {
    CutIsIntersection(rs);
    CutIsIntersection(rs');
    assert rs[0] in rs';
    forall i | 0 <= i < |rs| ensures exists j :: 0 <= j < |rs'| && rs'[j] == rs[i] {
      assert rs[i] in rs';
    }
  }

  // ---- evaluation ----

  predicate SourceIsFatal(sources: map<bytes, bool>, sha: bytes) { sha in sources ==> sources[sha] }

  predicate Rejected(pins: seq<Pin>, principals: Entries, sources: map<bytes, bool>, r: Revocation) {
    !Effective(pins, principals, r) && SourceIsFatal(sources, r.sha)
  }

  predicate AnyRejected(pins: seq<Pin>, principals: Entries, sources: map<bytes, bool>, rs: seq<Revocation>) {
    exists i :: 0 <= i < |rs| && Rejected(pins, principals, sources, rs[i])
  }

  /** The keys that were revoked, each with its cut. */
  function CutsOf(pins: seq<Pin>, principals: Entries, rs: seq<Revocation>): map<KeyId, Cut> {
    map i | 0 <= i < |rs| && Effective(pins, principals, rs[i]) ::
      rs[i].revoked := CutOf(AuthorityList(pins, principals, rs, rs[i].revoked))
  }

  function AuthOf(auth: map<KeyId, seq<Revocation>>, k: KeyId): seq<Revocation> { if k in auth then auth[k] else [] }

  /** The two dictionaries of the loop, after `n` revocations. */
  ghost predicate Collected(pins: seq<Pin>, principals: Entries, rs: seq<Revocation>, n: nat, revoked: set<KeyId>,
      auth: map<KeyId, seq<Revocation>>)
    requires n <= |rs|
  {
    && (forall k ::
          k in revoked <==> exists i :: 0 <= i < n && Effective(pins, principals, rs[i]) && rs[i].revoked == k)
    && (forall k :: AuthorityList(pins, principals, rs[..n], k) == AuthOf(auth, k))
  }

  lemma CollectedNext(pins: seq<Pin>, principals: Entries, rs: seq<Revocation>, n: nat, revoked: set<KeyId>,
      auth: map<KeyId, seq<Revocation>>)
    requires n < |rs| && Collected(pins, principals, rs, n, revoked, auth)
    ensures var r := rs[n];
      if SelfRevocation(r) then Collected(pins, principals, rs, n + 1, revoked + {r.revoked}, auth)
      else if Authority(pins, principals, r) then
        Collected(pins, principals, rs, n + 1, revoked + {r.revoked}, auth[r.revoked := AuthOf(auth, r.revoked) + [r]])
      else Collected(pins, principals, rs, n + 1, revoked, auth)
  {
    hide Authority, AuthorityList;
    AuthoritySnoc(pins, principals, rs, n);
    var r := rs[n];
    forall k ensures (exists i :: 0 <= i < n + 1 && Effective(pins, principals, rs[i]) && rs[i].revoked == k)
                 <==> k in revoked || (Effective(pins, principals, r) && r.revoked == k) {
      if k in revoked {
        var i :| 0 <= i < n && Effective(pins, principals, rs[i]) && rs[i].revoked == k;
        assert 0 <= i < n + 1;
      }
    }
    forall k ensures AuthorityList(pins, principals, rs[..n + 1], k)
                  == if Counted(pins, principals, r, k) == [] then AuthOf(auth, k) else AuthOf(auth, k) + [r] {
      assert AuthOf(auth, k) + [] == AuthOf(auth, k);
    }
    assert Effective(pins, principals, r) == (SelfRevocation(r) || Authority(pins, principals, r));
    if !SelfRevocation(r) && Authority(pins, principals, r) {
      var auth' := auth[r.revoked := AuthOf(auth, r.revoked) + [r]];
      forall k ensures AuthorityList(pins, principals, rs[..n + 1], k) == AuthOf(auth', k) {
        assert Counted(pins, principals, r, k) == if k == r.revoked then [r] else [];
      }
      assert Collected(pins, principals, rs, n + 1, revoked + {r.revoked}, auth');
    } else if !SelfRevocation(r) {
      assert Collected(pins, principals, rs, n + 1, revoked, auth);
    } else {
      assert Collected(pins, principals, rs, n + 1, revoked + {r.revoked}, auth);
    }
  }

  lemma CollectedAll(pins: seq<Pin>, principals: Entries, rs: seq<Revocation>, revoked: set<KeyId>, auth: map<KeyId,
      seq<Revocation>>)
    requires Collected(pins, principals, rs, |rs|, revoked, auth)
    ensures (map k | k in revoked :: CutOf(AuthOf(auth, k))) == CutsOf(pins, principals, rs)
  {
    hide Effective, AuthorityList, CutOf;
    assert rs[..|rs|] == rs;
    var made, cuts := map k | k in revoked :: CutOf(AuthOf(auth, k)), CutsOf(pins, principals, rs);
    forall k ensures k in made <==> k in cuts {
      if k in made {
        var i :| 0 <= i < |rs| && Effective(pins, principals, rs[i]) && rs[i].revoked == k;
      }
    }
  }

  method CollectRevocations(pins: seq<Pin>, principals: Entries, rs: seq<Revocation>, sources: map<bytes, bool>)
      returns (r: Result<map<KeyId, Cut>, TrustError>)
    ensures r == if AnyRejected(pins, principals, sources, rs) then Err(RevocationWithoutAuthority)
        else Ok(CutsOf(pins, principals, rs))
  {
    hide Authority, CutOf, Collected, CutsOf, AnyRejected;
    var revoked: set<KeyId> := {};
    var auth: map<KeyId, seq<Revocation>> := map[];
    NothingCollected(pins, principals, sources, rs);
    for n := 0 to |rs|
      invariant !AnyRejected(pins, principals, sources, rs[..n])
      invariant Collected(pins, principals, rs, n, revoked, auth)
    {
      var r := rs[n];
      CollectedNext(pins, principals, rs, n, revoked, auth);
      RejectedSnoc(pins, principals, sources, rs, n);
      if SelfRevocation(r) {
        revoked := revoked + {r.revoked};
      } else if Authority(pins, principals, r) {
        revoked := revoked + {r.revoked};
        auth := auth[r.revoked := AuthOf(auth, r.revoked) + [r]];
      } else if r.sha !in sources || sources[r.sha] {
        RejectedInAll(pins, principals, sources, rs, n);
        return Err(RevocationWithoutAuthority);
      }
    }
    assert rs[..|rs|] == rs;
    CollectedAll(pins, principals, rs, revoked, auth);
    return Ok(map k | k in revoked :: CutOf(AuthOf(auth, k)));
  }

  lemma NothingCollected(pins: seq<Pin>, principals: Entries, sources: map<bytes, bool>, rs: seq<Revocation>)
    ensures Collected(pins, principals, rs, 0, {}, map[]) && !AnyRejected(pins, principals, sources, rs[..0])
  {
  }

  lemma RejectedInAll(pins: seq<Pin>, principals: Entries, sources: map<bytes, bool>, rs: seq<Revocation>, n: nat)
    requires n < |rs| && Rejected(pins, principals, sources, rs[n])
    ensures AnyRejected(pins, principals, sources, rs)
  {
  }

  lemma AuthoritySnoc(pins: seq<Pin>, principals: Entries, rs: seq<Revocation>, n: nat)
    requires n < |rs|
    ensures forall k ::
      AuthorityList(pins, principals, rs[..n + 1], k)
      == AuthorityList(pins, principals, rs[..n], k) + Counted(pins, principals, rs[n], k)
  {
    hide Authority;
    assert rs[..n + 1][..n] == rs[..n];
  }

  lemma RejectedSnoc(pins: seq<Pin>, principals: Entries, sources: map<bytes, bool>, rs: seq<Revocation>, n: nat)
    requires n < |rs|
    ensures AnyRejected(pins, principals, sources, rs[..n + 1])
         == (AnyRejected(pins, principals, sources, rs[..n]) || Rejected(pins, principals, sources, rs[n]))
  {
    hide Rejected;
    var a := rs[..n + 1];
    if AnyRejected(pins, principals, sources, a) && !Rejected(pins, principals, sources, rs[n]) {
      var i :| 0 <= i < |a| && Rejected(pins, principals, sources, a[i]);
      assert rs[..n][i] == a[i];
    }
    if AnyRejected(pins, principals, sources, rs[..n]) {
      var i :| 0 <= i < n && Rejected(pins, principals, sources, rs[..n][i]);
      assert rs[..n][i] == a[i];
    }
    assert a[n] == rs[n];
  }

  /** Keys with two different transitions: neither is followed. */
  function EquivocalKeys(groups: seq<Group>): set<KeyId> {
    set i | 0 <= i < |groups| && |groups[i].ts| > 1 :: groups[i].from
  }

  function FollowUnequivocal(equiv: set<KeyId>): Transition -> bool { (t: Transition) => t.from !in equiv }

  /** A revoked key hands over only to the successors its cut names. */
  function FollowCuts(equiv: set<KeyId>, cuts: map<KeyId, Cut>): Transition -> bool {
    (t: Transition) => if t.from in cuts then t.to in cuts[t.from].successors else t.from !in equiv
  }

  predicate MayHandOver(ent: Entries, k: KeyId) {
    exists i :: 0 <= i < |EntriesOf(ent, k)| && NsTransition in EntriesOf(ent, k)[i].scope
  }

  /** The keys that handed over to another, each by its one transition. */
  function RetiredOf(groups: seq<Group>, ent: Entries, follow: Transition -> bool): map<KeyId, Transition> {
    if groups == [] then map[]
    else
      var g := groups[|groups| - 1];
      var rest := RetiredOf(groups[..|groups| - 1], ent, follow);
      if |g.ts| == 1 && MayHandOver(ent, g.from) && follow(g.ts[0]) then rest[g.from := g.ts[0]] else rest
  }

  /** The entries the transitions give, with the scopes their order gives. */
  ghost predicate Extended(pins: seq<Pin>, groups: seq<Group>, follow: Transition -> bool, ent: Entries) {
    && ent == Settled(pins, AllEdges(groups, follow))
    && (forall k, p :: Has(ent, k, p) <==> Reaches(pins, GroupEdges(groups, follow), k, p))
    && AllOk(pins, GroupEdges(groups, follow), ent) && HasBase(pins, ent)
  }

  /** `r` is an evaluation of the statements, given the entries the
      revocations were judged by. */
  ghost predicate EvaluatedBy(pins: seq<Pin>, ts: seq<Transition>, rs: seq<Revocation>, sources: map<bytes, bool>,
      principals: Entries, r: Result<Evaluation, TrustError>)
  {
    var groups, ds := ByOld(ts), Dict(RevocationSha, rs);
    var equiv, cuts := EquivocalKeys(groups), CutsOf(pins, principals, ds);
    && Extended(pins, groups, FollowUnequivocal(equiv), principals)
    && if AnyRejected(pins, principals, sources, ds) then r == Err(RevocationWithoutAuthority)
       else r.Ok? && Extended(pins, groups, FollowCuts(equiv, cuts), r.value.entries)
            && r.value == Evaluation(r.value.entries, cuts, RetiredOf(groups, r.value.entries, FollowCuts(equiv, cuts)),
                                     (set k | k in equiv && k in r.value.entries), pins != [])
  }

  method Evaluate(pins: seq<Pin>, ts: seq<Transition>, rs: seq<Revocation>, sources: map<bytes, bool>)
      returns (r: Result<Evaluation, TrustError>)
    ensures exists principals :: EvaluatedBy(pins, ts, rs, sources, principals, r)
  {
    hide AllOk, HasBase, Has, Reaches, GroupEdges, Settled, AllEdges, AnyRejected, CutsOf, Dict, ByOld, EquivocalKeys,
        FollowCuts, FollowUnequivocal, MayHandOver;
    var groups := ByOld(ts);
    var equiv := EquivocalKeys(groups);
    var first := Extend(pins, groups, FollowUnequivocal(equiv));
    var collected := CollectRevocations(pins, first, Dict(RevocationSha, rs), sources);
    if collected.Err? {
      assert EvaluatedBy(pins, ts, rs, sources, first, Err(collected.error));
      return Err(collected.error);
    }
    var cuts := collected.value;
    var follow := FollowCuts(equiv, cuts);
    var ent := Extend(pins, groups, follow);
    var retired: map<KeyId, Transition> := map[];
    for i := 0 to |groups|
      invariant retired == RetiredOf(groups[..i], ent, follow)
    {
      assert groups[..i + 1][..i] == groups[..i];
      var g := groups[i];
      if |g.ts| == 1 && MayHandOver(ent, g.from) && follow(g.ts[0]) {
        retired := retired[g.from := g.ts[0]];
      }
    }
    assert groups[..|groups|] == groups;
    r := Ok(Evaluation(ent, cuts, retired, (set k | k in equiv && k in ent), pins != []));
    assert EvaluatedBy(pins, ts, rs, sources, first, r);
  }
}
