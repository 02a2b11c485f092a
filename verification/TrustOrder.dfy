/** Which keys are trusted, for which principals, and which are cut off, retired
    or equivocal does not depend on the order or repetition of the statements,
    as long as no two of them share a hash. With which scope they are trusted
    is the subject of `TrustScopes` and `TrustVerdict`. */
module TrustOrder {
  import opened Bytes
  import opened Dicts
  import opened Trust
  import opened Revocation

  // ---- groups, as sets ----

  predicate DistinctSha(ts: seq<Transition>) { forall i, j :: 0 <= i < j < |ts| ==> ts[i].sha != ts[j].sha }

  ghost predicate GroupOk(ts: seq<Transition>, g: Group) {
    && g.ts != [] && DistinctSha(g.ts)
    && forall t :: t in g.ts <==> t in ts && t.from == g.from
  }

  ghost predicate GroupsOk(ts: seq<Transition>, groups: seq<Group>) {
    && (forall a, b :: 0 <= a < b < |groups| ==> groups[a].from != groups[b].from)
    && (forall a :: 0 <= a < |groups| ==> GroupOk(ts, groups[a]))
    && (forall t :: t in ts ==> exists a :: 0 <= a < |groups| && groups[a].from == t.from)
  }

  lemma {:induction false} UpsertDistinct(ts: seq<Transition>, t: Transition)
    requires DistinctSha(ts)
    ensures DistinctSha(Upsert(TransitionSha, ts, t))
    ensures forall u :: u in Upsert(TransitionSha, ts, t) ==> u in ts || u == t
  {
    if ts != [] && ts[0].sha != t.sha {
      UpsertDistinct(ts[1..], t);
      var r := Upsert(TransitionSha, ts[1..], t);
      forall j | 0 <= j < |r| ensures r[j].sha != ts[0].sha {
        assert r[j] in ts[1..] || r[j] == t;
      }
    }
  }

  predicate PutAt(groups: seq<Group>, t: Transition, a: nat) {
    && a < |groups| && groups[a].from == t.from
    && Put(groups, t) == groups[a := Group(t.from, Upsert(TransitionSha, groups[a].ts, t))]
  }

  lemma {:induction false} PutShape(groups: seq<Group>, t: Transition)
    ensures (exists a: nat :: PutAt(groups, t, a))
         || ((forall a ::
           0 <= a < |groups| ==> groups[a].from != t.from) && Put(groups, t) == groups + [Group(t.from, [t])])
  {
    if groups == [] {
    } else if groups[0].from == t.from {
      assert PutAt(groups, t, 0);
    } else {
      PutShape(groups[1..], t);
      if a: nat :| PutAt(groups[1..], t, a) {
        assert PutAt(groups, t, a + 1);
      }
    }
  }

  lemma GroupMore(ts: seq<Transition>, t: Transition, g: Group)
    requires GroupOk(ts, g) && NoCollision(TransitionSha, ts + [t])
    ensures g.from != t.from ==> GroupOk(ts + [t], g)
    ensures g.from == t.from ==> GroupOk(ts + [t], Group(g.from, Upsert(TransitionSha, g.ts, t)))
  {
    var all := ts + [t];
    assert forall u :: u in all <==> u in ts || u == t;
    if g.from == t.from {
      UpsertDistinct(g.ts, t);
      forall i | 0 <= i < |g.ts| && g.ts[i].sha == t.sha ensures g.ts[i] == t {
        assert g.ts[i] in ts;
        var j :| 0 <= j < |ts| && ts[j] == g.ts[i];
        assert all[j] == ts[j] && all[|ts|] == t;
        assert TransitionSha(all[j]) == TransitionSha(all[|ts|]);
      }
      UpsertMembers(TransitionSha, g.ts, t);
    }
  }

  lemma GroupNew(ts: seq<Transition>, t: Transition, groups: seq<Group>)
    requires GroupsOk(ts, groups) && forall a :: 0 <= a < |groups| ==> groups[a].from != t.from
    ensures GroupOk(ts + [t], Group(t.from, [t]))
  {
    forall u | u in ts ensures u.from != t.from {
      var a :| 0 <= a < |groups| && groups[a].from == u.from;
    }
  }

  lemma PutOk(ts: seq<Transition>, t: Transition, groups: seq<Group>)
    requires GroupsOk(ts, groups) && NoCollision(TransitionSha, ts + [t])
    ensures GroupsOk(ts + [t], Put(groups, t))
  {
    hide GroupOk, NoCollision, Put;
    PutShape(groups, t);
    var r := Put(groups, t);
    forall a | 0 <= a < |groups| {
      GroupMore(ts, t, groups[a]);
    }
    if m: nat :| PutAt(groups, t, m) {
      forall a | 0 <= a < |r| ensures GroupOk(ts + [t], r[a]) {
        assert a != m ==> groups[a].from != t.from;
      }
      assert r[m].from == t.from;
      forall u | u in ts + [t] ensures exists a :: 0 <= a < |r| && r[a].from == u.from {
        if u in ts {
          var a :| 0 <= a < |groups| && groups[a].from == u.from;
          assert r[a].from == u.from;
        }
      }
    } else {
      GroupNew(ts, t, groups);
      forall u | u in ts + [t] ensures exists a :: 0 <= a < |r| && r[a].from == u.from {
        if u in ts {
          var a :| 0 <= a < |groups| && groups[a].from == u.from;
          assert r[a].from == u.from;
        } else {
          assert r[|groups|].from == t.from;
        }
      }
    }
  }

  lemma {:induction false} ByOldOk(ts: seq<Transition>)
    requires NoCollision(TransitionSha, ts)
    ensures GroupsOk(ts, ByOld(ts))
  {
    hide GroupsOk;
    if ts == [] {
      NoGroups();
    } else {
      var n := |ts| - 1;
      ByOldOk(ts[..n]);
      assert ts == ts[..n] + [ts[n]];
      PutOk(ts[..n], ts[n], ByOld(ts[..n]));
    }
  }

  lemma NoGroups()
    ensures GroupsOk([], [])
  {
  }

  lemma {:induction false} EdgesMember(ts: seq<Transition>, follow: Transition -> bool, e: Edge)
    ensures e in EdgeList(ts, follow) <==> exists t :: t in ts && follow(t) && e == Edge(t.from, t.to)
  {
    if ts != [] {
      var n := |ts| - 1;
      EdgesMember(ts[..n], follow, e);
      assert forall t :: t in ts <==> t in ts[..n] || t == ts[n];
    }
  }

  lemma {:induction false} GroupEdgesMember(groups: seq<Group>, follow: Transition -> bool, e: Edge)
    ensures e in GroupEdges(groups, follow)
       <==> exists a :: 0 <= a < |groups| && e in EdgeList(groups[a].ts, follow)
  {
    hide EdgeList;
    if groups != [] {
      var n := |groups| - 1;
      GroupEdgesMember(groups[..n], follow, e);
      if e in GroupEdges(groups[..n], follow) {
        var a :| 0 <= a < n && e in EdgeList(groups[..n][a].ts, follow);
        assert groups[a] == groups[..n][a];
      }
      if a :| 0 <= a < |groups| && e in EdgeList(groups[a].ts, follow) {
        assert a < n ==> groups[..n][a] == groups[a];
      }
    }
  }

  /** The edges walked are those of the transitions followed, no more. */
  lemma EdgesAre(ts: seq<Transition>, follow: Transition -> bool, e: Edge)
    requires NoCollision(TransitionSha, ts)
    ensures e in GroupEdges(ByOld(ts), follow) <==> exists t :: t in ts && follow(t) && e == Edge(t.from, t.to)
  {
    hide GroupEdges, EdgeList, ByOld, DistinctSha, NoCollision;
    var groups := ByOld(ts);
    ByOldOk(ts);
    GroupEdgesMember(groups, follow, e);
    if a :| 0 <= a < |groups| && e in EdgeList(groups[a].ts, follow) {
      EdgesMember(groups[a].ts, follow, e);
      assert GroupOk(ts, groups[a]);
    }
    if t :| t in ts && follow(t) && e == Edge(t.from, t.to) {
      var a :| 0 <= a < |groups| && groups[a].from == t.from;
      assert GroupOk(ts, groups[a]);
      EdgesMember(groups[a].ts, follow, e);
    }
  }

  ghost predicate Equivocates(ts: seq<Transition>, k: KeyId) {
    exists t, u :: t in ts && u in ts && t != u && t.from == k && u.from == k
  }

  /** Two different documents in a list with distinct hashes. */
  lemma TwoOf(ts: seq<Transition>)
    requires DistinctSha(ts) && |ts| > 1
    ensures ts[0] in ts && ts[1] in ts && ts[0] != ts[1]
  {
  }

  lemma EquivocalAre(ts: seq<Transition>, k: KeyId)
    requires NoCollision(TransitionSha, ts)
    ensures k in EquivocalKeys(ByOld(ts)) <==> Equivocates(ts, k)
  {
    hide ByOld, NoCollision, DistinctSha;
    var groups := ByOld(ts);
    ByOldOk(ts);
    if k in EquivocalKeys(groups) {
      var a :| 0 <= a < |groups| && |groups[a].ts| > 1 && groups[a].from == k;
      assert GroupOk(ts, groups[a]);
      TwoOf(groups[a].ts);
    }
    if Equivocates(ts, k) {
      var t, u :| t in ts && u in ts && t != u && t.from == k && u.from == k;
      var a :| 0 <= a < |groups| && groups[a].from == t.from;
      assert GroupOk(ts, groups[a]);
      assert t in groups[a].ts && u in groups[a].ts;
    }
  }

  // ---- two evaluations of the same statements ----

  lemma EdgesSame(ts: seq<Transition>, ts': seq<Transition>, follow: Transition -> bool, follow': Transition -> bool)
    requires NoCollision(TransitionSha, ts) && NoCollision(TransitionSha, ts') && SameMembers(ts, ts')
    requires forall t :: t in ts ==> follow(t) == follow'(t)
    ensures GroupEdges(ByOld(ts), follow) == GroupEdges(ByOld(ts'), follow')
  {
    hide GroupEdges, ByOld, NoCollision;
    forall e ensures e in GroupEdges(ByOld(ts), follow) <==> e in GroupEdges(ByOld(ts'), follow') {
      EdgesAre(ts, follow, e);
      EdgesAre(ts', follow', e);
    }
  }

  lemma EquivocalSame(ts: seq<Transition>, ts': seq<Transition>)
    requires NoCollision(TransitionSha, ts) && NoCollision(TransitionSha, ts') && SameMembers(ts, ts')
    ensures EquivocalKeys(ByOld(ts)) == EquivocalKeys(ByOld(ts'))
  {
    hide EquivocalKeys, ByOld, NoCollision;
    forall k ensures k in EquivocalKeys(ByOld(ts)) <==> k in EquivocalKeys(ByOld(ts')) {
      EquivocalAre(ts, k);
      EquivocalAre(ts', k);
    }
  }

  ghost predicate SameHas(a: Entries, b: Entries) { forall k, p :: Has(a, k, p) <==> Has(b, k, p) }

  lemma AuthoritySame(pins: seq<Pin>, a: Entries, b: Entries, r: Revocation)
    requires SameHas(a, b)
    ensures Authority(pins, a, r) == Authority(pins, b, r)
  {
    hide Has;
    if Authority(pins, a, r) {
      var i :| 0 <= i < |pins| && pins[i].kid == r.revoker && NsRevocation in pins[i].scope
          && Has(a, r.revoked, pins[i].principal);
      assert Has(b, r.revoked, pins[i].principal);
    }
    if Authority(pins, b, r) {
      var i :| 0 <= i < |pins| && pins[i].kid == r.revoker && NsRevocation in pins[i].scope
          && Has(b, r.revoked, pins[i].principal);
      assert Has(a, r.revoked, pins[i].principal);
    }
  }

  lemma {:induction false} AuthorityMembers(pins: seq<Pin>, principals: Entries, rs: seq<Revocation>, k: KeyId,
      r: Revocation)
    ensures r in AuthorityList(pins, principals, rs, k)
       <==> r in rs && r.revoked == k && !SelfRevocation(r) && Authority(pins, principals, r)
  {
    hide Authority;
    if rs != [] {
      AuthorityMembers(pins, principals, rs[..|rs| - 1], k, r);
      assert r in rs <==> r in rs[..|rs| - 1] || r == rs[|rs| - 1];
    }
  }

  lemma RejectedSame(pins: seq<Pin>, a: Entries, b: Entries, sources: map<bytes, bool>, rs: seq<Revocation>,
      rs': seq<Revocation>)
    requires SameHas(a, b) && SameMembers(rs, rs') && AnyRejected(pins, a, sources, rs)
    ensures AnyRejected(pins, b, sources, rs')
  {
    hide Authority, SameHas;
    var i :| 0 <= i < |rs| && Rejected(pins, a, sources, rs[i]);
    assert rs[i] in rs';
    var j :| 0 <= j < |rs'| && rs'[j] == rs[i];
    AuthoritySame(pins, a, b, rs[i]);
    assert Rejected(pins, b, sources, rs'[j]);
  }

  ghost predicate SameCuts(a: map<KeyId, Cut>, b: map<KeyId, Cut>) {
    a.Keys == b.Keys && forall k :: k in a ==> SameCut(a[k], b[k])
  }

  lemma CutKeys(pins: seq<Pin>, a: Entries, rs: seq<Revocation>, k: KeyId)
    ensures k in CutsOf(pins, a, rs) <==> exists r :: r in rs && r.revoked == k && Effective(pins, a, r)
    ensures k in CutsOf(pins, a, rs) ==> CutsOf(pins, a, rs)[k] == CutOf(AuthorityList(pins, a, rs, k))
  {
    hide Effective, CutOf, AuthorityList;
    if r :| r in rs && r.revoked == k && Effective(pins, a, r) {
      var i :| 0 <= i < |rs| && rs[i] == r;
      assert Effective(pins, a, rs[i]);
    }
  }

  lemma CutsSame(pins: seq<Pin>, a: Entries, b: Entries, rs: seq<Revocation>, rs': seq<Revocation>)
    requires SameHas(a, b) && SameMembers(rs, rs')
    ensures SameCuts(CutsOf(pins, a, rs), CutsOf(pins, b, rs'))
  {
    hide SameHas, CutsOf, CutOf, AuthorityList, Authority, SameCut;
    var x, y := CutsOf(pins, a, rs), CutsOf(pins, b, rs');
    forall r ensures Authority(pins, a, r) == Authority(pins, b, r) {
      AuthoritySame(pins, a, b, r);
    }
    forall k ensures (k in x <==> k in y) && (k in x ==> SameCut(x[k], y[k])) {
      CutKeys(pins, a, rs, k);
      CutKeys(pins, b, rs', k);
      forall r ensures r in AuthorityList(pins, a, rs, k) <==> r in AuthorityList(pins, b, rs', k) {
        AuthorityMembers(pins, a, rs, k, r);
        AuthorityMembers(pins, b, rs', k, r);
      }
      CutIgnoresOrder(AuthorityList(pins, a, rs, k), AuthorityList(pins, b, rs', k));
    }
  }

  lemma ExtendedSame(pins: seq<Pin>, ts: seq<Transition>, ts': seq<Transition>, follow: Transition -> bool,
      follow': Transition -> bool, a: Entries, b: Entries)
    requires NoCollision(TransitionSha, ts) && NoCollision(TransitionSha, ts') && SameMembers(ts, ts')
    requires forall t :: t in ts ==> follow(t) == follow'(t)
    requires Extended(pins, ByOld(ts), follow, a) && Extended(pins, ByOld(ts'), follow', b)
    ensures SameHas(a, b) && a.Keys == b.Keys
    ensures forall k :: MayHandOver(a, k) <==> MayHandOver(b, k)
  {
    hide GroupEdges, ByOld, NoCollision, Reaches, AllOk, HasBase, Has;
    EdgesSame(ts, ts', follow, follow');
    var edges := GroupEdges(ByOld(ts), follow);
    KeysHave(pins, edges, a);
    KeysHave(pins, edges, b);
    forall k ensures MayHandOver(a, k) <==> MayHandOver(b, k) {
      HandOverIs(pins, edges, a, k);
      HandOverIs(pins, edges, b, k);
    }
  }

  lemma KeysHave(pins: seq<Pin>, edges: set<Edge>, a: Entries)
    requires AllOk(pins, edges, a)
    ensures forall k :: k in a <==> exists p :: Has(a, k, p)
  {
    forall k | k in a ensures exists p :: Has(a, k, p) {
      var es := EntriesOf(a, k);
      assert es[0].principal == es[0].principal;
      assert Has(a, k, es[0].principal);
    }
  }

  lemma HandOverIs(pins: seq<Pin>, edges: set<Edge>, a: Entries, k: KeyId)
    requires AllOk(pins, edges, a) && HasBase(pins, a)
    ensures MayHandOver(a, k) <==> exists p :: Has(a, k, p) && HandsOver(pins, k, p)
  {
    hide AllOk, HasBase, Has, HandsOver;
    if MayHandOver(a, k) {
      var i :| 0 <= i < |EntriesOf(a, k)| && NsTransition in EntriesOf(a, k)[i].scope;
      var p := EntriesOf(a, k)[i].principal;
      assert LiveIn(a, k, p);
      LiveIffHandsOver(pins, edges, a, k, p);
    }
    if p :| Has(a, k, p) && HandsOver(pins, k, p) {
      LiveIffHandsOver(pins, edges, a, k, p);
      var i :| 0 <= i < |EntriesOf(a, k)| && EntriesOf(a, k)[i].principal == p
          && NsTransition in EntriesOf(a, k)[i].scope;
    }
  }

  ghost predicate Retires(ts: seq<Transition>, ent: Entries, follow: Transition -> bool, t: Transition) {
    t in ts && !Equivocates(ts, t.from) && MayHandOver(ent, t.from) && follow(t)
  }

  ghost predicate GroupRetires(g: Group, ent: Entries, follow: Transition -> bool, t: Transition) {
    g.from == t.from && g.ts == [t] && MayHandOver(ent, g.from) && follow(t)
  }

  lemma {:induction false} RetiredIn(groups: seq<Group>, ent: Entries, follow: Transition -> bool, k: KeyId)
    requires forall a, b :: 0 <= a < b < |groups| ==> groups[a].from != groups[b].from
    requires forall a :: 0 <= a < |groups| ==> forall t :: t in groups[a].ts ==> t.from == groups[a].from
    ensures var r := RetiredOf(groups, ent, follow);
      forall t ::
        (k in r && r[k] == t) <==> (t.from == k && exists a ::
          0 <= a < |groups| && GroupRetires(groups[a], ent, follow, t))
  {
    hide MayHandOver;
    if groups != [] {
      var n := |groups| - 1;
      RetiredIn(groups[..n], ent, follow, k);
      var r, rest, g := RetiredOf(groups, ent, follow), RetiredOf(groups[..n], ent, follow), groups[n];
      forall t
        ensures (k in r && r[k] == t)
          <==> (t.from == k && exists a :: 0 <= a < |groups| && GroupRetires(groups[a], ent, follow, t)) {
        if a :| 0 <= a < |groups| && GroupRetires(groups[a], ent, follow, t) && a < n {
          assert groups[..n][a] == groups[a];
        }
        if a :| 0 <= a < n && GroupRetires(groups[..n][a], ent, follow, t) {
          assert groups[..n][a] == groups[a];
        }
        if |g.ts| == 1 {
          assert g.ts[0] in g.ts && g.ts == [g.ts[0]];
        }
      }
    }
  }

  lemma RetiredAre(ts: seq<Transition>, ent: Entries, follow: Transition -> bool, t: Transition)
    requires NoCollision(TransitionSha, ts)
    ensures var r := RetiredOf(ByOld(ts), ent, follow);
      (t.from in r && r[t.from] == t) <==> Retires(ts, ent, follow, t)
  {
    hide MayHandOver, ByOld, NoCollision, RetiredOf, DistinctSha;
    var groups := ByOld(ts);
    ByOldOk(ts);
    forall a | 0 <= a < |groups| ensures forall u :: u in groups[a].ts ==> u.from == groups[a].from {
      assert GroupOk(ts, groups[a]);
    }
    RetiredIn(groups, ent, follow, t.from);
    if a :| 0 <= a < |groups| && GroupRetires(groups[a], ent, follow, t) {
      SingleGroup(ts, groups[a], t);
    }
    if Retires(ts, ent, follow, t) {
      var a :| 0 <= a < |groups| && groups[a].from == t.from;
      assert GroupOk(ts, groups[a]);
      AloneInGroup(ts, groups[a], t);
      assert GroupRetires(groups[a], ent, follow, t);
    }
  }

  lemma SingleGroup(ts: seq<Transition>, g: Group, t: Transition)
    requires GroupOk(ts, g) && g.ts == [t]
    ensures t in ts && !Equivocates(ts, t.from)
  {
    assert t in g.ts;
  }

  lemma AloneInGroup(ts: seq<Transition>, g: Group, t: Transition)
    requires GroupOk(ts, g) && t in ts && t.from == g.from && !Equivocates(ts, t.from)
    ensures g.ts == [t]
  {
    assert t in g.ts;
    if |g.ts| > 1 {
      TwoOf(g.ts);
      assert Equivocates(ts, t.from);
    }
  }

  lemma EquivocatesSame(ts: seq<Transition>, ts': seq<Transition>)
    requires SameMembers(ts, ts')
    ensures forall k :: Equivocates(ts, k) == Equivocates(ts', k)
  {
  }

  lemma RetiredSame(ts: seq<Transition>, ts': seq<Transition>, a: Entries, b: Entries, follow: Transition -> bool,
      follow': Transition -> bool)
    requires NoCollision(TransitionSha, ts) && NoCollision(TransitionSha, ts') && SameMembers(ts, ts')
    requires forall t :: t in ts ==> follow(t) == follow'(t)
    requires forall k :: MayHandOver(a, k) <==> MayHandOver(b, k)
    ensures RetiredOf(ByOld(ts), a, follow) == RetiredOf(ByOld(ts'), b, follow')
  {
    hide MayHandOver, ByOld, NoCollision, RetiredOf, Equivocates;
    EquivocatesSame(ts, ts');
    var x, y := RetiredOf(ByOld(ts), a, follow), RetiredOf(ByOld(ts'), b, follow');
    forall k | k in x ensures k in y && y[k] == x[k] {
      RetiredKey(ts, a, follow, k);
      RetiredAre(ts, a, follow, x[k]);
      RetiredAre(ts', b, follow', x[k]);
    }
    forall k | k in y ensures k in x {
      RetiredKey(ts', b, follow', k);
      RetiredAre(ts', b, follow', y[k]);
      RetiredAre(ts, a, follow, y[k]);
    }
  }

  lemma RetiredKey(ts: seq<Transition>, ent: Entries, follow: Transition -> bool, k: KeyId)
    requires NoCollision(TransitionSha, ts) && k in RetiredOf(ByOld(ts), ent, follow)
    ensures RetiredOf(ByOld(ts), ent, follow)[k].from == k
  {
    hide MayHandOver, ByOld, NoCollision, RetiredOf, DistinctSha;
    var groups := ByOld(ts);
    ByOldOk(ts);
    forall a | 0 <= a < |groups| ensures forall u :: u in groups[a].ts ==> u.from == groups[a].from {
      assert GroupOk(ts, groups[a]);
    }
    RetiredIn(groups, ent, follow, k);
  }

  /** Evaluations that trust the same keys for the same principals, with cuts
      that allow the same. Scopes and paths may differ. */
  ghost predicate SameTrust(a: Evaluation, b: Evaluation) {
    && SameHas(a.entries, b.entries) && SameCuts(a.cuts, b.cuts)
    && a.retired == b.retired && a.equivocal == b.equivocal && a.hasPins == b.hasPins
  }

  lemma FollowSame(equiv: set<KeyId>, a: map<KeyId, Cut>, b: map<KeyId, Cut>)
    requires SameCuts(a, b)
    ensures forall t :: FollowCuts(equiv, a)(t) == FollowCuts(equiv, b)(t)
  {
    forall t: Transition ensures FollowCuts(equiv, a)(t) == FollowCuts(equiv, b)(t) {
      if t.from in a {
        assert SameCut(a[t.from], b[t.from]);
      }
    }
  }

  /** Order and repetition of the statements are irrelevant to who is trusted:
      the same documents give the same trusted pairs, cuts, retirements and
      equivocations, and the same refusal. */
  lemma StatementOrderIsIrrelevant(pins: seq<Pin>, ts: seq<Transition>, ts': seq<Transition>, rs: seq<Revocation>,
      rs': seq<Revocation>, sources: map<bytes, bool>, p: Entries, p': Entries, r: Result<Evaluation, TrustError>,
      r': Result<Evaluation, TrustError>)
    requires NoCollision(TransitionSha, ts) && NoCollision(TransitionSha, ts') && SameMembers(ts, ts')
    requires NoCollision(RevocationSha, rs) && NoCollision(RevocationSha, rs') && SameMembers(rs, rs')
    requires EvaluatedBy(pins, ts, rs, sources, p, r) && EvaluatedBy(pins, ts', rs', sources, p', r')
    ensures r.Err? <==> r'.Err?
    ensures r.Ok? ==> SameTrust(r.value, r'.value)
  {
    hide NoCollision, ByOld, Dict, EquivocalKeys, Extended, CutsOf, AnyRejected, RetiredOf, SameHas, SameCuts,
        MayHandOver, FollowCuts;
    var ds, ds' := Dict(RevocationSha, rs), Dict(RevocationSha, rs');
    DictMembers(RevocationSha, rs);
    DictMembers(RevocationSha, rs');
    assert SameMembers(ds, ds');
    EquivocalSame(ts, ts');
    var equiv := EquivocalKeys(ByOld(ts));
    ExtendedSame(pins, ts, ts', FollowUnequivocal(equiv), FollowUnequivocal(equiv), p, p');
    HasSymmetric(p, p');
    if AnyRejected(pins, p, sources, ds) {
      RejectedSame(pins, p, p', sources, ds, ds');
    }
    if AnyRejected(pins, p', sources, ds') {
      RejectedSame(pins, p', p, sources, ds', ds);
    }
    if r.Ok? {
      var cuts, cuts' := CutsOf(pins, p, ds), CutsOf(pins, p', ds');
      CutsSame(pins, p, p', ds, ds');
      FollowSame(equiv, cuts, cuts');
      ExtendedSame(pins, ts, ts', FollowCuts(equiv, cuts), FollowCuts(equiv, cuts'), r.value.entries, r'.value.entries);
      RetiredSame(ts, ts', r.value.entries, r'.value.entries, FollowCuts(equiv, cuts), FollowCuts(equiv, cuts'));
    }
  }

  lemma HasSymmetric(a: Entries, b: Entries)
    requires SameHas(a, b)
    ensures SameHas(b, a)
  {
  }

  // ---- one revocation more ----

  /** Of the revocations in `rs'`, those that are not in `rs` concern keys
      that already have an authority revocation in `rs`, or have no effect. */
  ghost predicate OnlyMore(pins: seq<Pin>, principals: Entries, rs: seq<Revocation>, rs': seq<Revocation>) {
    && (forall r :: r in rs ==> r in rs')
    && forall r ::
      r in rs' && r !in rs && Effective(pins, principals, r) ==> AuthorityList(pins, principals, rs, r.revoked) != []
  }

  lemma FirstIn(l: seq<Revocation>)
    ensures l != [] ==> l[0] in l
  {
  }

  lemma CutsShrink(pins: seq<Pin>, principals: Entries, rs: seq<Revocation>, rs': seq<Revocation>, k: KeyId)
    requires OnlyMore(pins, principals, rs, rs')
    ensures k in CutsOf(pins, principals, rs) <==> k in CutsOf(pins, principals, rs')
    ensures AuthorityList(pins, principals, rs, k) != [] ==>
      && k in CutsOf(pins, principals, rs)
      && WithinCut(CutsOf(pins, principals, rs')[k], CutsOf(pins, principals, rs)[k])
    ensures AuthorityList(pins, principals, rs, k) == [] ==> AuthorityList(pins, principals, rs', k) == []
  {
    hide CutsOf, CutOf, AuthorityList, Authority, WithinCut;
    CutKeys(pins, principals, rs, k);
    CutKeys(pins, principals, rs', k);
    var l, l' := AuthorityList(pins, principals, rs, k), AuthorityList(pins, principals, rs', k);
    forall r ensures (r in l <==> r in rs && r.revoked == k && !SelfRevocation(r) && Authority(pins, principals, r))
                  && (r in l' <==> r in rs' && r.revoked == k && !SelfRevocation(r) && Authority(pins, principals, r)) {
      AuthorityMembers(pins, principals, rs, k, r);
      AuthorityMembers(pins, principals, rs', k, r);
    }
    FirstIn(l);
    FirstIn(l');
    if l != [] {
      MoreRevocationsShrink(l, l');
    }
  }

  lemma FewerEdges(ts: seq<Transition>, follow: Transition -> bool, follow': Transition -> bool)
    requires NoCollision(TransitionSha, ts) && forall t :: t in ts && follow'(t) ==> follow(t)
    ensures GroupEdges(ByOld(ts), follow') <= GroupEdges(ByOld(ts), follow)
  {
    hide GroupEdges, ByOld, NoCollision;
    forall e | e in GroupEdges(ByOld(ts), follow') ensures e in GroupEdges(ByOld(ts), follow) {
      EdgesAre(ts, follow, e);
      EdgesAre(ts, follow', e);
    }
  }

  lemma FewerReached(pins: seq<Pin>, edges: set<Edge>, edges': set<Edge>, k: KeyId, p: Principal)
    requires edges' <= edges && Reaches(pins, edges', k, p)
    ensures Reaches(pins, edges, k, p)
  {
    var path :| Walk(pins, edges', path, p) && path[|path| - 1] == k;
    forall i | 0 <= i < |path| - 1 ensures Hop(pins, edges, path, i, p) {
      assert Hop(pins, edges', path, i, p);
    }
    assert Walk(pins, edges, path, p);
  }

  /** Once a key has an authority revocation, further ones only take trust
      away: cuts shrink, and no pair becomes trusted. */
  lemma MoreRevocationsTrustLess(pins: seq<Pin>, ts: seq<Transition>, rs: seq<Revocation>, rs': seq<Revocation>,
      sources: map<bytes, bool>, p: Entries, r: Evaluation, r': Evaluation)
    requires NoCollision(TransitionSha, ts) && NoCollision(RevocationSha, rs')
    requires NoCollision(RevocationSha, rs) && OnlyMore(pins, p, Dict(RevocationSha, rs), Dict(RevocationSha, rs'))
    requires EvaluatedBy(pins, ts, rs, sources, p, Ok(r)) && EvaluatedBy(pins, ts, rs', sources, p, Ok(r'))
    ensures r.cuts.Keys == r'.cuts.Keys
    ensures forall k :: k in r.cuts ==> WithinCut(r'.cuts[k], r.cuts[k])
    ensures forall k, q :: Has(r'.entries, k, q) ==> Has(r.entries, k, q)
  {
    hide NoCollision, ByOld, Dict, EquivocalKeys, CutsOf, AnyRejected, RetiredOf, CutOf, AuthorityList, Authority,
        OnlyMore, Has, Reaches, GroupEdges, AllOk, HasBase, MayHandOver;
    var ds, ds' := Dict(RevocationSha, rs), Dict(RevocationSha, rs');
    var equiv := EquivocalKeys(ByOld(ts));
    forall k ensures (k in r.cuts <==> k in r'.cuts) && (k in r.cuts ==> WithinCut(r'.cuts[k], r.cuts[k])) {
      CutsShrink(pins, p, ds, ds', k);
      CutKeys(pins, p, ds, k);
      CutKeys(pins, p, ds', k);
    }
    var follow, follow' := FollowCuts(equiv, r.cuts), FollowCuts(equiv, r'.cuts);
    FewerEdges(ts, follow, follow');
    forall k, q | Has(r'.entries, k, q) ensures Has(r.entries, k, q) {
      FewerReached(pins, GroupEdges(ByOld(ts), follow), GroupEdges(ByOld(ts), follow'), k, q);
    }
  }
}
