/** What the order of the statements decides about a key, and when it decides
    nothing. */
module TrustVerdict {
  import opened Bytes
  import opened Dicts
  import opened Trust
  import opened Revocation
  import opened TrustOrder
  import opened TrustScopes
  import opened Acceptance

  /** The transitions followed, given the cuts. */
  function FollowedEdges(ts: seq<Transition>, cuts: map<KeyId, Cut>): set<Edge> {
    GroupEdges(ByOld(ts), FollowCuts(EquivocalKeys(ByOld(ts)), cuts))
  }

  /** Every list of statements has an evaluation. */
  lemma EvaluationExists(pins: seq<Pin>, ts: seq<Transition>, rs: seq<Revocation>, sources: map<bytes, bool>)
      returns (p: Entries, r: Result<Evaluation, TrustError>)
    ensures EvaluatedBy(pins, ts, rs, sources, p, r)
  {
    hide Extended, AnyRejected, CutsOf, Dict, ByOld, EquivocalKeys, FollowCuts, FollowUnequivocal, RetiredOf, Settled,
        AllEdges;
    var groups, ds := ByOld(ts), Dict(RevocationSha, rs);
    var equiv := EquivocalKeys(groups);
    p := Settled(pins, AllEdges(groups, FollowUnequivocal(equiv)));
    ExtendedExists(pins, groups, FollowUnequivocal(equiv));
    if AnyRejected(pins, p, sources, ds) {
      r := Err(RevocationWithoutAuthority);
    } else {
      var cuts := CutsOf(pins, p, ds);
      var ent := Settled(pins, AllEdges(groups, FollowCuts(equiv, cuts)));
      ExtendedExists(pins, groups, FollowCuts(equiv, cuts));
      r := Ok(Evaluation(ent, cuts, RetiredOf(groups, ent, FollowCuts(equiv, cuts)), (set k | k in equiv && k in ent),
          pins != []));
    }
  }

  lemma ExtendedExists(pins: seq<Pin>, groups: seq<Group>, follow: Transition -> bool)
    ensures Extended(pins, groups, follow, Settled(pins, AllEdges(groups, follow)))
  {
    hide AllOk, HasBase, Has, Reaches, Settled, AllEdges, SetOf, Universe, PairsOf;
    SettledReaches(pins, AllEdges(groups, follow));
  }

  /** Entries of an evaluation. */
  lemma EntriesSettled(pins: seq<Pin>, ts: seq<Transition>, rs: seq<Revocation>, sources: map<bytes, bool>, p: Entries,
      r: Evaluation)
    requires EvaluatedBy(pins, ts, rs, sources, p, Ok(r))
    ensures var list := AllEdges(ByOld(ts), FollowCuts(EquivocalKeys(ByOld(ts)), r.cuts));
      r.entries == Settled(pins, list) && SetOf(list) == FollowedEdges(ts, r.cuts)
  {
    hide AllOk, HasBase, Has, Reaches, Settled, AllEdges, SetOf, AnyRejected, CutsOf, Dict, ByOld, EquivocalKeys,
        FollowCuts, RetiredOf;
  }

  lemma NoCollisionSame<T(!new)>(key: T -> bytes, xs: seq<T>, ys: seq<T>)
    requires NoCollision(key, xs) && forall x :: x in ys ==> x in xs
    ensures NoCollision(key, ys)
  {
    forall i, j | 0 <= i < |ys| && 0 <= j < |ys| && key(ys[i]) == key(ys[j]) ensures ys[i] == ys[j] {
      assert ys[i] in xs && ys[j] in xs;
      var m :| 0 <= m < |xs| && xs[m] == ys[i];
      var n :| 0 <= n < |xs| && xs[n] == ys[j];
    }
  }

  lemma FollowedSame(ts: seq<Transition>, ts': seq<Transition>, cuts: map<KeyId, Cut>, cuts': map<KeyId, Cut>)
    requires NoCollision(TransitionSha, ts) && NoCollision(TransitionSha, ts') && SameMembers(ts, ts')
        && SameCuts(cuts, cuts')
    ensures FollowedEdges(ts, cuts) == FollowedEdges(ts', cuts')
    ensures forall t :: FollowCuts(EquivocalKeys(ByOld(ts)), cuts)(t) == FollowCuts(EquivocalKeys(ByOld(ts')), cuts')(t)
  {
    hide ByOld, EquivocalKeys, FollowCuts, GroupEdges, NoCollision, SameCuts;
    EquivocalSame(ts, ts');
    var equiv := EquivocalKeys(ByOld(ts));
    FollowSame(equiv, cuts, cuts');
    EdgesSame(ts, ts', FollowCuts(equiv, cuts), FollowCuts(equiv, cuts'));
  }

  // ---- scopes ----

  /** No other order or number of the same statements gives other scopes. */
  ghost predicate ScopesIgnoreOrder(pins: seq<Pin>, ts: seq<Transition>, rs: seq<Revocation>, sources: map<bytes,
      bool>, r: Evaluation)
  {
    forall ts', rs', p', r' | SameMembers(ts, ts') && SameMembers(rs, rs')
        && EvaluatedBy(pins, ts', rs', sources, p', Ok(r')) ::
      SameScopes(r.entries, r'.entries)
  }

  lemma UnambiguousIgnores(pins: seq<Pin>, ts: seq<Transition>, ts': seq<Transition>, rs: seq<Revocation>,
      rs': seq<Revocation>, sources: map<bytes, bool>, p: Entries, p': Entries, r: Evaluation, r': Evaluation)
    requires NoCollision(TransitionSha, ts) && SameMembers(ts, ts') && NoCollision(RevocationSha, rs)
        && SameMembers(rs, rs')
    requires EvaluatedBy(pins, ts, rs, sources, p, Ok(r)) && EvaluatedBy(pins, ts', rs', sources, p', Ok(r'))
    requires Unambiguous(pins, FollowedEdges(ts, r.cuts))
    ensures SameScopes(r.entries, r'.entries)
  {
    hide NoCollision, EvaluatedBy, FollowedEdges, SameScopes, Unambiguous, ByOld, AllEdges, SetOf, Settled,
        EquivocalKeys, FollowCuts, SameCuts, SameHas;
    NoCollisionSame(TransitionSha, ts, ts');
    NoCollisionSame(RevocationSha, rs, rs');
    StatementOrderIsIrrelevant(pins, ts, ts', rs, rs', sources, p, p', Ok(r), Ok(r'));
    FollowedSame(ts, ts', r.cuts, r'.cuts);
    EntriesSettled(pins, ts, rs, sources, p, r);
    EntriesSettled(pins, ts', rs', sources, p', r');
    UnambiguousSame(pins, AllEdges(ByOld(ts), FollowCuts(EquivocalKeys(ByOld(ts)), r.cuts)),
                    AllEdges(ByOld(ts'), FollowCuts(EquivocalKeys(ByOld(ts')), r'.cuts)));
  }

  /** Every scope carried to an unpinned key is the one it gets under some
      order of the same statements. */
  lemma CarriedIsInherited(pins: seq<Pin>, ts: seq<Transition>, rs: seq<Revocation>, sources: map<bytes, bool>,
      p: Entries, r: Evaluation, k: KeyId, q: Principal, s: set<Namespace>)
      returns (ts': seq<Transition>, p': Entries, r': Evaluation)
    requires NoCollision(TransitionSha, ts) && NoCollision(RevocationSha, rs)
        && EvaluatedBy(pins, ts, rs, sources, p, Ok(r))
    requires Carried(pins, FollowedEdges(ts, r.cuts), k, q, s) && !HasPin(pins, k, q)
    ensures SameMembers(ts, ts') && EvaluatedBy(pins, ts', rs, sources, p', Ok(r')) && ScopeIn(r'.entries, k, q, s)
  {
    hide NoCollision, EvaluatedBy, Carries, ByOld, AllEdges, SetOf, Settled, EquivocalKeys, FollowCuts, SameCuts,
        SameHas, ScopeIn, HasPin, GroupEdges;
    var edges, follow := FollowedEdges(ts, r.cuts), FollowCuts(EquivocalKeys(ByOld(ts)), r.cuts);
    var path := CarryingPath(pins, edges, k, q, s);
    var us := PathTransitions(pins, ts, follow, path, q, s);
    ts' := us + ts;
    NoCollisionSame(TransitionSha, ts, ts');
    var result: Result<Evaluation, TrustError>;
    p', result := EvaluationExists(pins, ts', rs, sources);
    StatementOrderIsIrrelevant(pins, ts, ts', rs, rs, sources, p, p', Ok(r), result);
    r' := result.value;
    FollowedSame(ts, ts', r.cuts, r'.cuts);
    EntriesSettled(pins, ts', rs, sources, p', r');
    var follow' := FollowCuts(EquivocalKeys(ByOld(ts')), r'.cuts);
    PathListedFirst(pins, us, ts, follow', path, q, s);
  }

  lemma CarryingPath(pins: seq<Pin>, edges: set<Edge>, k: KeyId, q: Principal, s: set<Namespace>)
      returns (path: seq<KeyId>)
    requires Carried(pins, edges, k, q, s)
    ensures Carries(pins, edges, path, q, s) && path != [] && path[|path| - 1] == k && Distinct(path)
  {
    path :| Carries(pins, edges, path, q, s) && path[|path| - 1] == k;
    path := DirectPath(pins, edges, path, q, s);
  }

  lemma PathTransitions(pins: seq<Pin>, ts: seq<Transition>, follow: Transition -> bool, path: seq<KeyId>,
      q: Principal, s: set<Namespace>)
      returns (us: seq<Transition>)
    requires NoCollision(TransitionSha, ts) && path != []
    requires Carries(pins, GroupEdges(ByOld(ts), follow), path, q, s) && !HasPin(pins, path[|path| - 1], q)
    ensures Leads(us, follow, path) && us != [] && forall u :: u in us ==> u in ts
  {
    hide NoCollision, ByOld, HandedScope, GroupEdges, HasPin;
    HandedIsPin(pins, path[0], q);
    forall i | 0 <= i < |path| - 1 ensures Followed(ts, follow, path[i], path[i + 1]) {
      assert CarryHop(pins, GroupEdges(ByOld(ts), follow), path, i, q);
      EdgesAre(ts, follow, Edge(path[i], path[i + 1]));
    }
    us := TransitionsAlong(ts, follow, path);
  }

  /** Order and number of the statements leave every scope as it is exactly
      when no unpinned key can be reached with two scopes of one principal. */
  lemma ScopesIgnoreOrderIff(pins: seq<Pin>, ts: seq<Transition>, rs: seq<Revocation>, sources: map<bytes, bool>,
      p: Entries, r: Evaluation)
    requires NoCollision(TransitionSha, ts) && NoCollision(RevocationSha, rs)
        && EvaluatedBy(pins, ts, rs, sources, p, Ok(r))
    ensures ScopesIgnoreOrder(pins, ts, rs, sources, r) <==> Unambiguous(pins, FollowedEdges(ts, r.cuts))
  {
    hide NoCollision, EvaluatedBy, SameScopes, FollowedEdges, Carried, HasPin, Settled, AllEdges, SetOf, ByOld,
        EquivocalKeys, FollowCuts, PinIn;
    if Unambiguous(pins, FollowedEdges(ts, r.cuts)) {
      forall ts', rs', p', r' | SameMembers(ts, ts') && SameMembers(rs, rs')
          && EvaluatedBy(pins, ts', rs', sources, p', Ok(r'))
        ensures SameScopes(r.entries, r'.entries) {
        UnambiguousIgnores(pins, ts, ts', rs, rs', sources, p, p', r, r');
      }
    } else {
      var edges := FollowedEdges(ts, r.cuts);
      var k, q, s, s' :| Carried(pins, edges, k, q, s) && Carried(pins, edges, k, q, s') && !HasPin(pins, k, q)
          && s != s';
      var t1, p1, r1 := CarriedIsInherited(pins, ts, rs, sources, p, r, k, q, s);
      var t2, p2, r2 := CarriedIsInherited(pins, ts, rs, sources, p, r, k, q, s');
      EntriesSettled(pins, ts, rs, sources, p, r);
      ScopesAre(pins, AllEdges(ByOld(ts), FollowCuts(EquivocalKeys(ByOld(ts)), r.cuts)), k, q);
      NotBoth(r.entries, r1.entries, r2.entries, k, q, s, s');
    }
  }

  lemma NotBoth(a: Entries, b: Entries, c: Entries, k: KeyId, q: Principal, s: set<Namespace>, s': set<Namespace>)
    requires ScopeIn(b, k, q, s) && ScopeIn(c, k, q, s') && !(ScopeIn(a, k, q, s) && ScopeIn(a, k, q, s'))
    ensures !SameScopes(a, b) || !SameScopes(a, c)
  {
    hide ScopeIn;
  }

  // ---- acceptance ----

  lemma ScopeDecides(a: Entries, b: Entries, k: KeyId, ns: Namespace)
    requires SameScopes(a, b)
    ensures InScope(a, k, ns) ==> InScope(b, k, ns)
    ensures EntriesOf(a, k) != [] ==> EntriesOf(b, k) != []
  {
    if EntriesOf(a, k) != [] {
      var e := EntriesOf(a, k)[0];
      assert ScopeIn(a, k, e.principal, e.scope);
    }
    if InScope(a, k, ns) {
      var i :| 0 <= i < |EntriesOf(a, k)| && ns in EntriesOf(a, k)[i].scope;
      var e := EntriesOf(a, k)[i];
      assert ScopeIn(a, k, e.principal, e.scope);
    }
  }

  /** The heads of the key's cut agree about the object. */
  predicate CutAgrees(ev: Evaluation, k: KeyId, o: Object) {
    (o.SignedRecord? || o.SignedCheckpoint?) && k in ev.cuts ==> Agree(ev.cuts[k].heads, o)
  }

  lemma InSameCut(a: Cut, b: Cut, o: Object)
    requires SameCut(a, b) && (o.SignedRecord? || o.SignedCheckpoint? ==> Agree(a.heads, o))
    ensures InCut(a, o) == InCut(b, o)
  {
    hide UnderHeads, Agree;
    if o.SignedRecord? || o.SignedCheckpoint? {
      SameHeads(a.heads, b.heads, o);
    }
  }

  /** Where scopes are unambiguous and the heads of a cut agree, neither order
      nor number of the statements decides whether an object is accepted, or
      why not. */
  lemma AcceptIgnoresOrder(pins: seq<Pin>, ts: seq<Transition>, ts': seq<Transition>, rs: seq<Revocation>,
      rs': seq<Revocation>, sources: map<bytes, bool>, p: Entries, p': Entries, r: Evaluation, r': Evaluation,
      k: KeyId, ns: Namespace, o: Object)
    requires NoCollision(TransitionSha, ts) && SameMembers(ts, ts') && NoCollision(RevocationSha, rs)
        && SameMembers(rs, rs')
    requires EvaluatedBy(pins, ts, rs, sources, p, Ok(r)) && EvaluatedBy(pins, ts', rs', sources, p', Ok(r'))
    requires Unambiguous(pins, FollowedEdges(ts, r.cuts)) && CutAgrees(r, k, o)
    ensures Accept(r, k, ns, o) == Accept(r', k, ns, o)
  {
    hide NoCollision, EvaluatedBy, SameScopes, Unambiguous, FollowedEdges, SameHas, SameCuts, CutAgrees, Accept;
    NoCollisionSame(TransitionSha, ts, ts');
    NoCollisionSame(RevocationSha, rs, rs');
    StatementOrderIsIrrelevant(pins, ts, ts', rs, rs', sources, p, p', Ok(r), Ok(r'));
    UnambiguousIgnores(pins, ts, ts', rs, rs', sources, p, p', r, r');
    ScopesSymmetric(r.entries, r'.entries);
    AcceptSame(r, r', k, ns, o);
  }

  lemma AcceptSame(r: Evaluation, r': Evaluation, k: KeyId, ns: Namespace, o: Object)
    requires SameScopes(r.entries, r'.entries) && SameScopes(r'.entries, r.entries)
    requires SameCuts(r.cuts, r'.cuts) && r.retired == r'.retired && CutAgrees(r, k, o)
    ensures Accept(r, k, ns, o) == Accept(r', k, ns, o)
  {
    hide SameScopes, InScope, InCut, InRetirement, Agree, SameCut;
    ScopeDecides(r.entries, r'.entries, k, ns);
    ScopeDecides(r'.entries, r.entries, k, ns);
    if k in r.cuts {
      InSameCut(r.cuts[k], r'.cuts[k], o);
    }
  }

  lemma ScopesSymmetric(a: Entries, b: Entries)
    requires SameScopes(a, b)
    ensures SameScopes(b, a)
  {
    hide ScopeIn;
  }

  // ---- where order decides ----

  /** The condition can fail. Keys 1 and 2 of one principal, the first pinned
      for records, the second not, both hand over to key 3: with key 1's
      transition listed first a record of key 3 is accepted, with key 2's it is
      out of scope. */
  lemma ScopeOrderMatters(ts: seq<Transition>, pins: seq<Pin>, o: Object)
      returns (p: Entries, r: Evaluation, p': Entries, r': Evaluation)
    requires ts == [Transition([1], [1], [3], [], []), Transition([2], [2], [3], [], [])]
    requires pins == [Pin([1], "p", {NsTransition, NsRecord}), Pin([2], "p", {NsTransition})]
    ensures EvaluatedBy(pins, ts, [], map[], p, Ok(r)) && EvaluatedBy(pins, [ts[1], ts[0]], [], map[], p', Ok(r'))
    ensures Accept(r, [3], NsRecord, o) == None && Accept(r', [3], NsRecord, o) == Some(OutOfScope)
  {
    hide EvaluatedBy, ScopeIn, InScope;
    p, r := OneOrder(pins, ts[0], ts[1], [3], {NsTransition, NsRecord});
    p', r' := OneOrder(pins, ts[1], ts[0], [3], {NsTransition});
    OnlyScopeDecides(r.entries, [3], {NsTransition, NsRecord});
    OnlyScopeDecides(r'.entries, [3], {NsTransition});
  }

  lemma OnlyScopeDecides(ent: Entries, k: KeyId, s: set<Namespace>)
    requires EntriesOf(ent, k) != [] && forall i :: 0 <= i < |EntriesOf(ent, k)| ==> EntriesOf(ent, k)[i].scope == s
    ensures InScope(ent, k, NsRecord) <==> NsRecord in s
  {
    assert EntriesOf(ent, k)[0].scope == s;
  }

  /** Two pinned keys of one principal that both hand over to key `k`, the
      first of them with scope `s`. */
  predicate Example(pins: seq<Pin>, t: Transition, u: Transition, k: KeyId, s: set<Namespace>) {
    && |pins| == 2 && pins[0].kid != pins[1].kid && NsTransition in s
    && (forall i :: 0 <= i < 2 ==> pins[i].principal == "p" && pins[i].kid != k)
    && t.from != u.from && t.from != k && u.from != k && t.to == k && u.to == k && t.sha != u.sha
    && (pins[0] == Pin(t.from, "p", s) || pins[1] == Pin(t.from, "p", s))
  }

  /** The key has the scope of the transition listed first. */
  lemma OneOrder(pins: seq<Pin>, t: Transition, u: Transition, k: KeyId, s: set<Namespace>)
      returns (p: Entries, r: Evaluation)
    requires Example(pins, t, u, k, s)
    ensures EvaluatedBy(pins, [t, u], [], map[], p, Ok(r)) && k !in r.retired && r.cuts == map[]
    ensures EntriesOf(r.entries, k) != [] && forall i ::
      0 <= i < |EntriesOf(r.entries, k)| ==> EntriesOf(r.entries, k)[i].scope == s
  {
    hide EvaluatedBy, ScopeIn, NoCollision, EquivocalKeys, FollowCuts, Settled, AllEdges, ByOld, SetOf, FollowedEdges;
    var ts := [t, u];
    var result: Result<Evaluation, TrustError>;
    p, result := EvaluationExists(pins, ts, [], map[]);
    NothingRevoked(pins, ts, p, result);
    r := result.value;
    EntriesSettled(pins, ts, [], map[], p, r);
    ExampleRetires(pins, t, u, k, p, r);
    ExampleScope(pins, t, u, k, s, r.cuts);
    OnePrincipal(pins, AllEdges(ByOld(ts), FollowCuts(EquivocalKeys(ByOld(ts)), r.cuts)), k, "p", s);
  }

  lemma NothingRevoked(pins: seq<Pin>, ts: seq<Transition>, p: Entries, r: Result<Evaluation, TrustError>)
    requires EvaluatedBy(pins, ts, [], map[], p, r)
    ensures r.Ok? && r.value.cuts == map[]
  {
    hide Extended, ByOld, EquivocalKeys, RetiredOf;
    assert Dict(RevocationSha, []) == [];
  }

  lemma ExampleDistinct(t: Transition, u: Transition)
    requires t.sha != u.sha && t.from != u.from
    ensures NoCollision(TransitionSha, [t, u]) && EquivocalKeys(ByOld([t, u])) == {}
  {
    hide ByOld;
    var ts := [t, u];
    forall k ensures k !in EquivocalKeys(ByOld(ts)) {
      EquivocalAre(ts, k);
    }
  }

  lemma ExampleRetires(pins: seq<Pin>, t: Transition, u: Transition, k: KeyId, p: Entries, r: Evaluation)
    requires t.sha != u.sha && t.from != u.from && t.from != k && u.from != k
    requires EvaluatedBy(pins, [t, u], [], map[], p, Ok(r))
    ensures k !in r.retired
  {
    hide ByOld, NoCollision, EquivocalKeys, FollowCuts, MayHandOver, Extended, RetiredOf, Equivocates;
    var ts := [t, u];
    ExampleDistinct(t, u);
    if k in r.retired {
      var follow := FollowCuts(EquivocalKeys(ByOld(ts)), r.cuts);
      TrustOrder.RetiredKey(ts, r.entries, follow, k);
      RetiredAre(ts, r.entries, follow, r.retired[k]);
    }
  }

  lemma ExampleScope(pins: seq<Pin>, t: Transition, u: Transition, k: KeyId, s: set<Namespace>, cuts: map<KeyId, Cut>)
    requires Example(pins, t, u, k, s) && cuts == map[]
    ensures var list := AllEdges(ByOld([t, u]), FollowCuts(EquivocalKeys(ByOld([t, u])), cuts));
      ScopeIn(Settled(pins, list), k, "p", s)
  {
    hide ByOld, EquivocalKeys, NoCollision, AllEdges, Settled, ScopeIn, HandedScope, GroupEdges;
    var ts, path := [t] + [u], [t.from, k];
    assert ts == [t, u];
    ExampleDistinct(t, u);
    var follow := FollowCuts(EquivocalKeys(ByOld(ts)), cuts);
    EdgesAre(ts, follow, Edge(t.from, k));
    assert t in ts && follow(t);
    HandedHere(pins, t.from, s);
    assert CarryHop(pins, GroupEdges(ByOld(ts), follow), path, 0, "p");
    PathListedFirst(pins, [t], [u], follow, path, "p", s);
  }

  lemma HandedHere(pins: seq<Pin>, k: KeyId, s: set<Namespace>)
    requires |pins| == 2 && pins[0].kid != pins[1].kid && NsTransition in s
        && (pins[0] == Pin(k, "p", s) || pins[1] == Pin(k, "p", s))
    ensures HandedScope(pins, k, "p") == Some(s)
  {
    assert pins[..1][..0] == [] && HandedScope([], k, "p") == None;
    assert pins[..1][0] == pins[0] && |pins[..1]| == 1;
  }

  /** With one principal, a key that is not pinned has one scope. */
  lemma OnePrincipal(pins: seq<Pin>, list: seq<Edge>, k: KeyId, p: Principal, s: set<Namespace>)
    requires forall i :: 0 <= i < |pins| ==> pins[i].principal == p && pins[i].kid != k
    requires ScopeIn(Settled(pins, list), k, p, s)
    ensures var es := EntriesOf(Settled(pins, list), k); es != [] && forall i :: 0 <= i < |es| ==> es[i].scope == s
  {
    hide Settled, SetOf, Carried, HasPin;
    var es := EntriesOf(Settled(pins, list), k);
    forall i | 0 <= i < |es| ensures es[i].scope == s {
      EntryOfPrincipal(pins, list, k, i, p);
      ScopesAre(pins, list, k, p);
      assert ScopeIn(Settled(pins, list), k, p, es[i].scope);
    }
  }

  lemma EntryOfPrincipal(pins: seq<Pin>, list: seq<Edge>, k: KeyId, i: nat, p: Principal)
    requires forall i :: 0 <= i < |pins| ==> pins[i].principal == p && pins[i].kid != k
    requires i < |EntriesOf(Settled(pins, list), k)|
    ensures EntriesOf(Settled(pins, list), k)[i].principal == p && !HasPin(pins, k, p)
  {
    hide Settled, SetOf, Carried, HasPin, ScopeIn;
    var ent := Settled(pins, list);
    var e := EntriesOf(ent, k)[i];
    NotPinnedThere(pins, k, p);
    NotPinnedThere(pins, k, e.principal);
    IsScope(ent, k, i);
    ScopesAre(pins, list, k, e.principal);
    CarriedByPin(pins, SetOf(list), k, e.principal, e.scope);
  }

  lemma IsScope(ent: Entries, k: KeyId, i: nat)
    requires i < |EntriesOf(ent, k)|
    ensures ScopeIn(ent, k, EntriesOf(ent, k)[i].principal, EntriesOf(ent, k)[i].scope)
  {
  }

  lemma NotPinnedThere(pins: seq<Pin>, k: KeyId, q: Principal)
    requires forall i :: 0 <= i < |pins| ==> pins[i].kid != k
    ensures !HasPin(pins, k, q)
  {
  }

  lemma CarriedByPin(pins: seq<Pin>, edges: set<Edge>, k: KeyId, q: Principal, s: set<Namespace>)
    requires Carried(pins, edges, k, q, s)
    ensures exists i :: 0 <= i < |pins| && pins[i].principal == q
  {
    hide HandedScope, CarryHop;
    var path :| Carries(pins, edges, path, q, s) && path[|path| - 1] == k;
    HandedIsPin(pins, path[0], q);
  }
}
