/** Which scope a key is trusted for. Whether a key is trusted does not depend
    on the order of the statements; the scope it inherits does, when two pins
    of one principal reach it with different scopes. */
module TrustScopes {
  import opened Bytes
  import opened Dicts
  import opened Trust
  import opened TrustOrder

  // ---- the scopes that can arrive ----

  /** The scope `p` hands on from pinned key `k`: that of its first pin there
      that may transition. */
  function HandedScope(pins: seq<Pin>, k: KeyId, p: Principal): Option<set<Namespace>> {
    if pins == [] then None
    else
      var n := |pins| - 1;
      var before := HandedScope(pins[..n], k, p);
      if before.Some? then before
      else if pins[n].kid == k && pins[n].principal == p && NsTransition in pins[n].scope then Some(pins[n].scope)
      else None
  }

  predicate CarryHop(pins: seq<Pin>, edges: set<Edge>, path: seq<KeyId>, i: nat, p: Principal)
    requires i < |path| - 1
  {
    Edge(path[i], path[i + 1]) in edges && !HasPin(pins, path[i + 1], p)
  }

  /** The path carries scope `s` of `p` from a pinned key over unpinned ones. */
  predicate Carries(pins: seq<Pin>, edges: set<Edge>, path: seq<KeyId>, p: Principal, s: set<Namespace>) {
    && path != [] && HandedScope(pins, path[0], p) == Some(s)
    && forall i :: 0 <= i < |path| - 1 ==> CarryHop(pins, edges, path, i, p)
  }

  ghost predicate Carried(pins: seq<Pin>, edges: set<Edge>, k: KeyId, p: Principal, s: set<Namespace>) {
    exists path :: Carries(pins, edges, path, p, s) && path[|path| - 1] == k
  }

  /** For every principal, all scopes carried to one unpinned key are equal. */
  ghost predicate Unambiguous(pins: seq<Pin>, edges: set<Edge>) {
    forall k, p, s, s' ::
      Carried(pins, edges, k, p, s) && Carried(pins, edges, k, p, s') && !HasPin(pins, k, p) ==> s == s'
  }

  // ---- every inherited scope was carried ----

  lemma {:induction false} BaseLive(pins: seq<Pin>, k: KeyId, p: Principal)
    ensures FirstLive(EntriesOf(Base(pins), k), p)
         == match HandedScope(pins, k, p) case None => None case Some(s) => Some(TrustEntry(p, s, [k], true))
  {
    if pins != [] {
      var n := |pins| - 1;
      BaseLive(pins[..n], k, p);
      var was, now := EntriesOf(Base(pins[..n]), k), EntriesOf(Base(pins), k);
      if pins[n].kid == k {
        assert now[..|now| - 1] == was;
      }
    }
  }

  lemma {:induction false} HandedIsPin(pins: seq<Pin>, k: KeyId, p: Principal)
    ensures HandedScope(pins, k, p).Some? <==> MayTransition(pins, k, p)
    ensures HandedScope(pins, k, p).Some? ==> HasPin(pins, k, p)
  {
    if pins != [] {
      var n := |pins| - 1;
      HandedIsPin(pins[..n], k, p);
      if MayTransition(pins, k, p) {
        var i :| 0 <= i < |pins| && pins[i].kid == k && pins[i].principal == p && NsTransition in pins[i].scope;
        assert i < n ==> pins[..n][i] == pins[i];
      }
      if MayTransition(pins[..n], k, p) {
        var i :| 0 <= i < n && pins[..n][i].kid == k && pins[..n][i].principal == p
            && NsTransition in pins[..n][i].scope;
        assert pins[i] == pins[..n][i];
      }
      assert pins[n].kid == k && pins[n].principal == p && NsTransition in pins[n].scope ==> MayTransition(pins, k, p);
    }
  }

  predicate RootedEntry(pins: seq<Pin>, edges: set<Edge>, e: TrustEntry) {
    !e.pinned ==> Carries(pins, edges, e.path, e.principal, e.scope)
  }

  /** The pins' entries come first, in their order; every other entry was
      carried to its key, and is its principal's only one there. */
  ghost predicate Rooted(pins: seq<Pin>, edges: set<Edge>, ent: Entries) {
    && Extends(Base(pins), ent)
    && (forall k, i :: k in ent && 0 <= i < |ent[k]| ==> RootedEntry(pins, edges, ent[k][i]))
    && (forall k: KeyId, i: int, j: int ::
      k in ent && 0 <= i < j < |ent[k]| && !ent[k][j].pinned ==> ent[k][i].principal != ent[k][j].principal)
  }

  lemma BaseRooted(pins: seq<Pin>, edges: set<Edge>)
    ensures Rooted(pins, edges, Base(pins))
  {
    hide Carries, Base;
    BaseShape(pins);
    var ent: Entries := Base(pins);
    forall k: KeyId, i: int | k in ent && 0 <= i < |ent[k]| ensures ent[k][i].pinned {
      assert BaseEntry(pins, k, ent[k][i]);
    }
  }

  /** What a key hands over was carried to it. */
  lemma LiveIsCarried(pins: seq<Pin>, edges: set<Edge>, ent: Entries, k: KeyId, p: Principal)
    requires AllOk(pins, edges, ent) && Rooted(pins, edges, ent) && FirstLive(EntriesOf(ent, k), p).Some?
    ensures var e := FirstLive(EntriesOf(ent, k), p).value;
      e.principal == p && Carries(pins, edges, e.path, p, e.scope) && e.path[|e.path| - 1] == k
  {
    hide HandedScope, FirstLive, PinIn, Walk, Base, CarryHop;
    var es := EntriesOf(ent, k);
    FirstLiveIs(es, p);
    var e := FirstLive(es, p).value;
    var i :| 0 <= i < |es| && es[i] == e;
    assert EntryOk(pins, edges, k, ent[k][i]) && RootedEntry(pins, edges, ent[k][i]);
    EntryPath(pins, edges, k, e);
    if e.pinned {
      PinInHas(pins, k, p, e.scope);
      HandedIsPin(pins, k, p);
      BaseLive(pins, k, p);
      var base := EntriesOf(Base(pins), k);
      assert FirstLive(base, p).Some?;
      FirstLiveNone(k, base, p);
      assert base == es[..|base|];
      FirstLiveKept(es, |base|, p);
    }
  }

  lemma FirstLiveNone(k: KeyId, es: seq<TrustEntry>, p: Principal)
    requires FirstLive(es, p).Some?
    ensures es != []
  {
  }

  lemma EntryPath(pins: seq<Pin>, edges: set<Edge>, k: KeyId, e: TrustEntry)
    requires EntryOk(pins, edges, k, e)
    ensures e.path != [] && e.path[|e.path| - 1] == k
        && (e.pinned ==> e.path == [k] && PinIn(pins, k, e.principal, e.scope))
  {
  }

  lemma CarriesOn(pins: seq<Pin>, edges: set<Edge>, path: seq<KeyId>, p: Principal, s: set<Namespace>, to: KeyId)
    requires Carries(pins, edges, path, p, s) && Edge(path[|path| - 1], to) in edges && !HasPin(pins, to, p)
    ensures Carries(pins, edges, path + [to], p, s)
  {
    hide HandedScope, HasPin;
    forall i | 0 <= i < |path| ensures CarryHop(pins, edges, path + [to], i, p) {
      if i < |path| - 1 {
        assert CarryHop(pins, edges, path, i, p);
      }
    }
  }

  lemma VisitRooted(pins: seq<Pin>, edges: set<Edge>, ent: Entries, t: Edge)
    requires t in edges && AllOk(pins, edges, ent) && HasBase(pins, ent) && Rooted(pins, edges, ent)
    ensures Rooted(pins, edges, AfterEdge(ent, t))
  {
    hide AllOk, HasBase, Carries, HandAll, FirstLive, Base, Has;
    var es := EntriesOf(ent, t.from);
    var r := AfterEdge(ent, t);
    VisitAdds(ent, es, t.to);
    ExtendsTransitive(Base(pins), ent, r);
    var n := |EntriesOf(ent, t.to)|;
    forall k, i | k in r && 0 <= i < |r[k]| ensures RootedEntry(pins, edges, r[k][i]) {
      if k == t.to && i >= n {
        var e := r[k][i];
        assert AddedFirst(ent, es, t.to, e);
        LiveIsCarried(pins, edges, ent, t.from, e.principal);
        NotPinned(pins, ent, t.to, e.principal);
        CarriesOn(pins, edges, FirstLive(es, e.principal).value.path, e.principal, e.scope, t.to);
      } else {
        assert EntriesOf(r, k)[i] == EntriesOf(ent, k)[i];
        assert RootedEntry(pins, edges, ent[k][i]);
      }
    }
    forall k: KeyId, i: int, j: int | k in r && 0 <= i < j < |r[k]| && !r[k][j].pinned
      ensures r[k][i].principal != r[k][j].principal {
      if k != t.to || j < n {
        assert EntriesOf(r, k)[j] == EntriesOf(ent, k)[j] && EntriesOf(r, k)[i] == EntriesOf(ent, k)[i];
      }
    }
  }

  lemma {:induction false} AfterEdgesRooted(pins: seq<Pin>, edges: set<Edge>, ent: Entries, list: seq<Edge>)
    requires SetOf(list) <= edges && Sane(pins, edges, ent) && Rooted(pins, edges, ent)
    ensures Rooted(pins, edges, AfterEdges(ent, list)) && Sane(pins, edges, AfterEdges(ent, list))
  {
    hide AllOk, HasBase, Universe, PairsOf, AfterEdge, Rooted;
    AfterEdgesGrow(pins, edges, ent, list);
    if list != [] {
      var n := |list| - 1;
      AfterEdgesRooted(pins, edges, ent, list[..n]);
      VisitRooted(pins, edges, AfterEdges(ent, list[..n]), list[n]);
    }
  }

  lemma {:induction false} SettleRooted(pins: seq<Pin>, list: seq<Edge>, ent: Entries)
    requires Sane(pins, SetOf(list), ent) && Rooted(pins, SetOf(list), ent)
    ensures Rooted(pins, SetOf(list), Settle(pins, list, ent))
    decreases |Universe(pins, SetOf(list)) - PairsOf(ent)|
  {
    hide AllOk, HasBase, Universe, PairsOf, AfterEdges, Rooted, SetOf;
    var next := AfterEdges(ent, list);
    AfterEdgesGrow(pins, SetOf(list), ent, list);
    AfterEdgesRooted(pins, SetOf(list), ent, list);
    if next != ent {
      SmallerRest(Universe(pins, SetOf(list)), PairsOf(ent), PairsOf(next));
      SettleRooted(pins, list, next);
    }
  }

  lemma SettledRooted(pins: seq<Pin>, list: seq<Edge>)
    ensures Rooted(pins, SetOf(list), Settled(pins, list))
  {
    hide AllOk, HasBase, Universe, PairsOf, Rooted, SetOf, Base;
    BaseOk(pins, SetOf(list));
    BaseRooted(pins, SetOf(list));
    SettleRooted(pins, list, Base(pins));
  }

  /** `p` is trusted with scope `s` at key `k`. */
  predicate ScopeIn(ent: Entries, k: KeyId, p: Principal, s: set<Namespace>) {
    exists i :: 0 <= i < |EntriesOf(ent, k)| && EntriesOf(ent, k)[i].principal == p && EntriesOf(ent, k)[i].scope == s
  }

  ghost predicate SameScopes(a: Entries, b: Entries) { forall k, p, s :: ScopeIn(a, k, p, s) <==> ScopeIn(b, k, p, s) }

  /** A pinned key has exactly its pins' scopes, whatever transitions say; any
      other has one scope for each principal that reaches it, and that scope
      was carried to it. */
  lemma ScopesAre(pins: seq<Pin>, list: seq<Edge>, k: KeyId, p: Principal)
    ensures var ent := Settled(pins, list);
      && (HasPin(pins, k, p) ==> forall s :: ScopeIn(ent, k, p, s) <==> PinIn(pins, k, p, s))
      && (!HasPin(pins, k, p) ==> forall s :: ScopeIn(ent, k, p, s) ==> Carried(pins, SetOf(list), k, p, s))
      && (!HasPin(pins, k, p) ==> forall s, s' :: ScopeIn(ent, k, p, s) && ScopeIn(ent, k, p, s') ==> s == s')
  {
    hide Universe, PairsOf, Settled, SetOf, Base, Carries, HasPin, PinIn, Walk;
    var ent, edges := Settled(pins, list), SetOf(list);
    SettledRooted(pins, list);
    forall s | ScopeIn(ent, k, p, s)
      ensures if HasPin(pins, k, p) then PinIn(pins, k, p, s) else Carried(pins, edges, k, p, s) {
      var i :| 0 <= i < |EntriesOf(ent, k)| && EntriesOf(ent, k)[i].principal == p && EntriesOf(ent, k)[i].scope == s;
      EntryScope(pins, edges, ent, k, i);
    }
    forall s | HasPin(pins, k, p) && PinIn(pins, k, p, s) ensures ScopeIn(ent, k, p, s) {
      PinScope(pins, ent, k, p, s);
    }
    forall s, s' | !HasPin(pins, k, p) && ScopeIn(ent, k, p, s) && ScopeIn(ent, k, p, s') ensures s == s' {
      OneScope(pins, edges, ent, k, p, s, s');
    }
  }

  lemma EntryScope(pins: seq<Pin>, edges: set<Edge>, ent: Entries, k: KeyId, i: nat)
    requires AllOk(pins, edges, ent) && Rooted(pins, edges, ent) && i < |EntriesOf(ent, k)|
    ensures var e := EntriesOf(ent, k)[i];
      && (if HasPin(pins, k, e.principal) then PinIn(pins, k, e.principal, e.scope)
          else Carried(pins, edges, k, e.principal, e.scope))
      && (e.pinned ==> HasPin(pins, k, e.principal))
  {
    hide HasPin, PinIn, Base, Walk, Carries;
    var e := EntriesOf(ent, k)[i];
    assert EntryOk(pins, edges, k, ent[k][i]) && RootedEntry(pins, edges, ent[k][i]);
    EntryPath(pins, edges, k, e);
    if e.pinned {
      PinInHas(pins, k, e.principal, e.scope);
    }
  }

  lemma PinScope(pins: seq<Pin>, ent: Entries, k: KeyId, p: Principal, s: set<Namespace>)
    requires HasBase(pins, ent) && PinIn(pins, k, p, s)
    ensures ScopeIn(ent, k, p, s)
  {
    var j :| 0 <= j < |pins| && pins[j] == Pin(k, p, s);
    var e := TrustEntry(p, s, [k], true);
    assert e in EntriesOf(ent, k);
    var i :| 0 <= i < |EntriesOf(ent, k)| && EntriesOf(ent, k)[i] == e;
  }

  lemma OneScope(pins: seq<Pin>, edges: set<Edge>, ent: Entries, k: KeyId, p: Principal, s: set<Namespace>,
      s': set<Namespace>)
    requires AllOk(pins, edges, ent) && Rooted(pins, edges, ent) && !HasPin(pins, k, p)
    requires ScopeIn(ent, k, p, s) && ScopeIn(ent, k, p, s')
    ensures s == s'
  {
    hide HasPin, AllOk, Base;
    var i :| 0 <= i < |EntriesOf(ent, k)| && EntriesOf(ent, k)[i].principal == p && EntriesOf(ent, k)[i].scope == s;
    var j :| 0 <= j < |EntriesOf(ent, k)| && EntriesOf(ent, k)[j].principal == p && EntriesOf(ent, k)[j].scope == s';
    EntryScope(pins, edges, ent, k, i);
    EntryScope(pins, edges, ent, k, j);
  }

  lemma HasScope(ent: Entries, k: KeyId, p: Principal)
    ensures Has(ent, k, p) <==> exists s :: ScopeIn(ent, k, p, s)
  {
    if Has(ent, k, p) {
      var i :| 0 <= i < |EntriesOf(ent, k)| && EntriesOf(ent, k)[i].principal == p;
      assert ScopeIn(ent, k, p, EntriesOf(ent, k)[i].scope);
    }
  }

  /** Unambiguous scopes do not depend on the order of the transitions. */
  lemma UnambiguousSame(pins: seq<Pin>, list: seq<Edge>, list': seq<Edge>)
    requires SetOf(list) == SetOf(list') && Unambiguous(pins, SetOf(list))
    ensures SameScopes(Settled(pins, list), Settled(pins, list'))
  {
    hide Settled, SetOf, Reaches, Carried, HasPin, PinIn, ScopeIn, Has;
    var a, b := Settled(pins, list), Settled(pins, list');
    SettledReaches(pins, list);
    SettledReaches(pins, list');
    forall k, p, s ensures ScopeIn(a, k, p, s) <==> ScopeIn(b, k, p, s) {
      ScopesAre(pins, list, k, p);
      ScopesAre(pins, list', k, p);
      HasScope(a, k, p);
      HasScope(b, k, p);
    }
  }

  // ---- every carried scope is inherited under some order ----

  predicate Distinct(path: seq<KeyId>) { forall i, j :: 0 <= i < j < |path| ==> path[i] != path[j] }

  lemma CarriesCut(pins: seq<Pin>, edges: set<Edge>, path: seq<KeyId>, p: Principal, s: set<Namespace>, i: nat, j: nat)
    requires Carries(pins, edges, path, p, s) && i < j < |path| && path[i] == path[j]
    ensures Carries(pins, edges, path[..i] + path[j..], p, s)
  {
    hide HandedScope, HasPin;
    var cut := path[..i] + path[j..];
    forall m | 0 <= m < |cut| - 1 ensures CarryHop(pins, edges, cut, m, p) {
      assert CarryHop(pins, edges, path, if m < i then m else m - i + j, p);
    }
  }

  /** A scope that is carried is carried along a path without repetitions. */
  lemma {:induction false} DirectPath(pins: seq<Pin>, edges: set<Edge>, path: seq<KeyId>, p: Principal,
      s: set<Namespace>) returns (q: seq<KeyId>)
    requires Carries(pins, edges, path, p, s)
    ensures Carries(pins, edges, q, p, s) && q[|q| - 1] == path[|path| - 1] && Distinct(q)
    decreases |path|
  {
    hide Carries;
    q := path;
    if i, j :| 0 <= i < j < |path| && path[i] == path[j] {
      CarriesCut(pins, edges, path, p, s, i, j);
      CutShape(path, i, j);
      q := DirectPath(pins, edges, path[..i] + path[j..], p, s);
    }
  }

  lemma CutShape(path: seq<KeyId>, i: nat, j: nat)
    requires i < j < |path|
    ensures var q := path[..i] + path[j..]; q != [] && |q| < |path| && q[|q| - 1] == path[|path| - 1]
  {
  }

  /** The transitions `us` lead along the path, and are followed. */
  predicate Leads(us: seq<Transition>, follow: Transition -> bool, path: seq<KeyId>) {
    |path| == |us| + 1 && forall i ::
      0 <= i < |us| ==> us[i].from == path[i] && us[i].to == path[i + 1] && follow(us[i])
  }

  lemma {:induction false} TransitionsAlong(ts: seq<Transition>, follow: Transition -> bool, path: seq<KeyId>)
      returns (us: seq<Transition>)
    requires path != [] && forall i :: 0 <= i < |path| - 1 ==> Followed(ts, follow, path[i], path[i + 1])
    ensures Leads(us, follow, path) && forall u :: u in us ==> u in ts
  {
    hide Followed;
    if |path| == 1 {
      us := [];
    } else {
      var n := |path| - 1;
      us := TransitionsAlong(ts, follow, path[..n]);
      assert Followed(ts, follow, path[n - 1], path[n]);
      var t := FollowedBy(ts, follow, path[n - 1], path[n]);
      us := us + [t];
    }
  }

  ghost predicate Followed(ts: seq<Transition>, follow: Transition -> bool, from: KeyId, to: KeyId) {
    exists t :: t in ts && follow(t) && Edge(from, to) == Edge(t.from, t.to)
  }

  lemma FollowedBy(ts: seq<Transition>, follow: Transition -> bool, from: KeyId, to: KeyId) returns (t: Transition)
    requires Followed(ts, follow, from, to)
    ensures t in ts && follow(t) && t.from == from && t.to == to
  {
    t :| t in ts && follow(t) && Edge(from, to) == Edge(t.from, t.to);
  }

  // ---- transitions put first are visited first ----

  /** The groups start with those of `us`, each with its transition first. */
  predicate Starts(groups: seq<Group>, us: seq<Transition>) {
    |us| <= |groups| && forall i ::
      0 <= i < |us| ==> groups[i].from == us[i].from && groups[i].ts != [] && groups[i].ts[0] == us[i]
  }

  predicate DistinctFrom(us: seq<Transition>) { forall i, j :: 0 <= i < j < |us| ==> us[i].from != us[j].from }

  lemma {:induction false} ByOldFirst(us: seq<Transition>)
    requires DistinctFrom(us)
    ensures Starts(ByOld(us), us) && |ByOld(us)| == |us|
  {
    hide Put;
    if us != [] {
      var n := |us| - 1;
      ByOldFirst(us[..n]);
      PutShape(ByOld(us[..n]), us[n]);
    }
  }

  lemma PutStarts(groups: seq<Group>, us: seq<Transition>, t: Transition)
    requires Starts(groups, us) && forall u :: u in us && u.sha == t.sha ==> u == t
    ensures Starts(Put(groups, t), us)
  {
    hide Put;
    PutShape(groups, t);
    if a: nat :| PutAt(groups, t, a) {
      if a < |us| {
        assert us[a] in us && groups[a].ts[0] == us[a];
        assert Upsert(TransitionSha, groups[a].ts, t)[0] == us[a];
      }
    }
  }

  lemma {:induction false} ByOldStarts(us: seq<Transition>, rest: seq<Transition>)
    requires DistinctFrom(us) && NoCollision(TransitionSha, us + rest)
    ensures Starts(ByOld(us + rest), us)
  {
    hide Put, Starts;
    if rest == [] {
      assert us + rest == us;
      ByOldFirst(us);
    } else {
      var n := |rest| - 1;
      var all := us + rest;
      assert all[..|all| - 1] == us + rest[..n];
      ByOldStarts(us, rest[..n]);
      forall u | u in us && u.sha == rest[n].sha ensures u == rest[n] {
        var i :| 0 <= i < |us| && us[i] == u;
        assert all[i] == u && all[|us| + n] == rest[n];
        assert TransitionSha(all[i]) == TransitionSha(all[|us| + n]);
      }
      PutStarts(ByOld(us + rest[..n]), us, rest[n]);
    }
  }

  lemma {:induction false} FirstEdge(ts: seq<Transition>, follow: Transition -> bool)
    requires ts != [] && follow(ts[0])
    ensures var l := EdgeList(ts, follow); l != [] && l[0] == Edge(ts[0].from, ts[0].to)
  {
    var n := |ts| - 1;
    if n == 0 {
      assert ts[..0] == [];
      assert EdgeList(ts[..0], follow) == [];
    } else {
      FirstEdge(ts[..n], follow);
    }
  }

  /** Everything `p` is trusted with off its pins has scope `s`. */
  predicate OnlyScope(ent: Entries, p: Principal, s: set<Namespace>) {
    forall k, i ::
      k in ent && 0 <= i < |ent[k]| && ent[k][i].principal == p && !ent[k][i].pinned ==> ent[k][i].scope == s
  }

  /** Key `k` hands `s` on. */
  predicate Gives(ent: Entries, k: KeyId, p: Principal, s: set<Namespace>) {
    var first := FirstLive(EntriesOf(ent, k), p); first.Some? && first.value.scope == s
  }

  lemma GivesKept(ent: Entries, r: Entries, k: KeyId, p: Principal, s: set<Namespace>)
    requires Extends(ent, r) && Gives(ent, k, p, s)
    ensures Gives(r, k, p, s)
  {
    FirstLiveNone(k, EntriesOf(ent, k), p);
    var n := |EntriesOf(ent, k)|;
    assert EntriesOf(r, k)[..n] == EntriesOf(ent, k);
    FirstLiveKept(EntriesOf(r, k), n, p);
  }

  lemma VisitSpreads(ent: Entries, t: Edge, p: Principal, s: set<Namespace>)
    requires OnlyScope(ent, p, s) && Gives(ent, t.from, p, s)
    ensures var r := AfterEdge(ent, t); OnlyScope(r, p, s) && Gives(r, t.from, p, s) && Has(r, t.to, p)
  {
    hide HandAll, FirstLive, Has;
    var r, es := AfterEdge(ent, t), EntriesOf(ent, t.from);
    VisitAdds(ent, es, t.to);
    GivesKept(ent, r, t.from, p, s);
    var n := |EntriesOf(ent, t.to)|;
    forall k: KeyId, i: int | k in r && 0 <= i < |r[k]| && r[k][i].principal == p && !r[k][i].pinned
      ensures r[k][i].scope == s {
      if k == t.to && i >= n {
        assert AddedFirst(ent, es, t.to, r[k][i]);
      } else {
        assert EntriesOf(r, k)[i] == EntriesOf(ent, k)[i];
      }
    }
  }

  lemma {:induction false} ListSpreads(ent: Entries, list: seq<Edge>, from: KeyId, p: Principal, s: set<Namespace>)
    requires OnlyScope(ent, p, s) && Gives(ent, from, p, s) && forall t :: t in list ==> t.from == from
    ensures var r := AfterEdges(ent, list);
      OnlyScope(r, p, s) && Gives(r, from, p, s) && (list != [] ==> Has(r, list[0].to, p))
  {
    hide AfterEdge, Has, OnlyScope, Gives;
    if list != [] {
      var n := |list| - 1;
      ListSpreads(ent, list[..n], from, p, s);
      var mid := AfterEdges(ent, list[..n]);
      VisitSpreads(mid, list[n], p, s);
      AfterExtends(mid, [list[n]]);
      OneEdge(mid, list[n]);
      if n > 0 {
        HasKept(mid, AfterEdges(ent, list), list[0].to, p);
      }
    }
  }

  lemma BaseGives(pins: seq<Pin>, k: KeyId, p: Principal, s: set<Namespace>)
    requires HandedScope(pins, k, p) == Some(s)
    ensures OnlyScope(Base(pins), p, s) && Gives(Base(pins), k, p, s)
  {
    hide Base;
    BaseLive(pins, k, p);
    BaseShape(pins);
    var ent: Entries := Base(pins);
    forall m: KeyId, i: int | m in ent && 0 <= i < |ent[m]| ensures ent[m][i].pinned {
      assert BaseEntry(pins, m, ent[m][i]);
    }
  }

  /** An unpinned key that is trusted hands on the one scope there is. */
  lemma UnpinnedGives(pins: seq<Pin>, edges: set<Edge>, ent: Entries, k: KeyId, p: Principal, s: set<Namespace>)
    requires AllOk(pins, edges, ent) && OnlyScope(ent, p, s) && Has(ent, k, p) && !HasPin(pins, k, p)
    ensures Gives(ent, k, p, s) && ScopeIn(ent, k, p, s)
  {
    hide HasPin, PinIn, Walk, FirstLive;
    var es := EntriesOf(ent, k);
    var i :| 0 <= i < |es| && es[i].principal == p;
    Unpinned(pins, edges, ent, k, i);
    FirstLiveIs(es, p);
    var e := FirstLive(es, p).value;
    var j :| 0 <= j < |es| && es[j] == e;
    Unpinned(pins, edges, ent, k, j);
  }

  lemma Unpinned(pins: seq<Pin>, edges: set<Edge>, ent: Entries, k: KeyId, i: nat)
    requires AllOk(pins, edges, ent) && i < |EntriesOf(ent, k)| && !HasPin(pins, k, EntriesOf(ent, k)[i].principal)
    ensures var e := EntriesOf(ent, k)[i]; !e.pinned && NsTransition in e.scope
  {
    hide HasPin, PinIn, Walk;
    var e := ent[k][i];
    assert EntryOk(pins, edges, k, e);
    EntryPath(pins, edges, k, e);
    if e.pinned {
      PinInHas(pins, k, e.principal, e.scope);
    }
  }

  lemma ListFrom(groups: seq<Group>, i: nat, follow: Transition -> bool)
    requires i < |groups| && groups[i].ts != [] && follow(groups[i].ts[0])
    requires forall t :: t in groups[i].ts ==> t.from == groups[i].from
    ensures var l := EdgeList(groups[i].ts, follow);
      && AllEdges(groups[..i + 1], follow) == AllEdges(groups[..i], follow) + l
      && (forall e :: e in l ==> e.from == groups[i].from)
      && l != [] && l[0] == Edge(groups[i].ts[0].from, groups[i].ts[0].to)
  {
    hide EdgeList;
    assert groups[..i + 1][..i] == groups[..i];
    FirstEdge(groups[i].ts, follow);
    var l := EdgeList(groups[i].ts, follow);
    forall e | e in l ensures e.from == groups[i].from {
      EdgesMember(groups[i].ts, follow, e);
    }
  }

  /** After the groups of the path's first `i` transitions, the scope has
      arrived at the path's key `i`. */
  lemma {:induction false} ArrivesAt(pins: seq<Pin>, edges: set<Edge>, groups: seq<Group>, us: seq<Transition>,
      follow: Transition -> bool, path: seq<KeyId>, p: Principal, s: set<Namespace>, i: nat)
    requires Starts(groups, us) && Leads(us, follow, path) && Carries(pins, edges, path, p, s) && i <= |us|
    requires forall a :: 0 <= a < |groups| ==> forall t :: t in groups[a].ts ==> t.from == groups[a].from
    requires SetOf(AllEdges(groups[..i], follow)) <= edges
    ensures var r := AfterEdges(Base(pins), AllEdges(groups[..i], follow));
      Sane(pins, edges, r) && OnlyScope(r, p, s) && Gives(r, path[i], p, s) && (i > 0 ==> ScopeIn(r, path[i], p, s))
  {
    hide AllOk, HasBase, Universe, PairsOf, OnlyScope, Gives, Has, EdgeList, Base, HandedScope, HasPin, AfterEdges;
    if i == 0 {
      AfterNone(Base(pins));
      BaseOk(pins, edges);
      BaseGives(pins, path[0], p, s);
    } else {
      var g := groups[i - 1];
      assert g.from == us[i - 1].from && g.ts[0] == us[i - 1];
      var l := EdgeList(g.ts, follow);
      var before := AllEdges(groups[..i - 1], follow);
      ListFrom(groups, i - 1, follow);
      assert SetOf(before + l) == SetOf(before) + SetOf(l);
      ArrivesAt(pins, edges, groups, us, follow, path, p, s, i - 1);
      AfterMore(Base(pins), before, l);
      var mid := AfterEdges(Base(pins), before);
      ListSpreads(mid, l, g.from, p, s);
      AfterEdgesGrow(pins, edges, mid, l);
      assert CarryHop(pins, edges, path, i - 1, p);
      UnpinnedGives(pins, edges, AfterEdges(mid, l), path[i], p, s);
    }
  }

  lemma {:induction false} AllEdgesPrefix(groups: seq<Group>, i: nat, follow: Transition -> bool)
      returns (more: seq<Edge>)
    requires i <= |groups|
    ensures AllEdges(groups, follow) == AllEdges(groups[..i], follow) + more
  {
    hide EdgeList;
    if i == |groups| {
      assert groups[..i] == groups;
      more := [];
    } else {
      var n := |groups| - 1;
      assert groups[..n][..i] == groups[..i];
      more := AllEdgesPrefix(groups[..n], i, follow);
      more := more + EdgeList(groups[n].ts, follow);
    }
  }

  lemma ScopeKept(ent: Entries, r: Entries, k: KeyId, p: Principal, s: set<Namespace>)
    requires Extends(ent, r) && ScopeIn(ent, k, p, s)
    ensures ScopeIn(r, k, p, s)
  {
    var i :| 0 <= i < |EntriesOf(ent, k)| && EntriesOf(ent, k)[i].principal == p && EntriesOf(ent, k)[i].scope == s;
    assert EntriesOf(r, k)[i] == EntriesOf(ent, k)[i];
  }

  lemma {:induction false} SettleAfter(pins: seq<Pin>, list: seq<Edge>)
    ensures Extends(AfterEdges(Base(pins), list), Settled(pins, list))
  {
    hide AllOk, HasBase, Universe, PairsOf, SetOf, AfterEdges, Base;
    BaseOk(pins, SetOf(list));
    AfterEdgesGrow(pins, SetOf(list), Base(pins), list);
    SmallerRest(Universe(pins, SetOf(list)), PairsOf(Base(pins)), PairsOf(AfterEdges(Base(pins), list)));
  }

  /** With the transitions of a path listed first, its last key gets the scope
      the path carries. */
  lemma PathListedFirst(pins: seq<Pin>, us: seq<Transition>, rest: seq<Transition>, follow: Transition -> bool,
      path: seq<KeyId>, p: Principal, s: set<Namespace>)
    requires NoCollision(TransitionSha, us + rest) && Leads(us, follow, path) && Distinct(path) && us != []
    requires Carries(pins, GroupEdges(ByOld(us + rest), follow), path, p, s)
    ensures ScopeIn(Settled(pins, AllEdges(ByOld(us + rest), follow)), path[|path| - 1], p, s)
  {
    hide NoCollision, ByOld, GroupOk, AfterEdges, Carries, Settled, Starts, AllEdges;
    var groups, n := ByOld(us + rest), |us|;
    ByOldStarts(us, rest);
    ByOldOk(us + rest);
    forall a | 0 <= a < |groups| ensures forall t :: t in groups[a].ts ==> t.from == groups[a].from {
      FromOf(us + rest, groups[a]);
    }
    StartsLong(groups, us);
    var more := AllEdgesPrefix(groups, n, follow);
    var list, first := AllEdges(groups, follow), AllEdges(groups[..n], follow);
    assert SetOf(first) <= SetOf(list);
    ArrivesAt(pins, SetOf(list), groups, us, follow, path, p, s, n);
    AfterMore(Base(pins), first, more);
    AfterExtends(AfterEdges(Base(pins), first), more);
    SettleAfter(pins, list);
    ScopeKept(AfterEdges(Base(pins), first), AfterEdges(Base(pins), list), path[n], p, s);
    ScopeKept(AfterEdges(Base(pins), list), Settled(pins, list), path[n], p, s);
  }

  lemma FromOf(ts: seq<Transition>, g: Group)
    requires GroupOk(ts, g)
    ensures forall t :: t in g.ts ==> t.from == g.from
  {
  }

  lemma StartsLong(groups: seq<Group>, us: seq<Transition>)
    requires Starts(groups, us)
    ensures |us| <= |groups|
  {
  }
}
