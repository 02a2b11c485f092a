/** Trust in signing keys: pinned keys, and the keys reached from them along
    key transitions. */
module Trust {
  import opened Bytes
  import opened Dicts

  type KeyId = bytes
  type Principal = string

  datatype Namespace = NsRecord | NsCheckpoint | NsWitness | NsRelease | NsTransition | NsAccept | NsRevocation

  datatype Pin = Pin(kid: KeyId, principal: Principal, scope: set<Namespace>)

  datatype NamedHead = NamedHead(logId: bytes, segment: nat, recordId: nat, recordHash: bytes, recordCount: nat)

  datatype Transition = Transition(sha: bytes, from: KeyId, to: KeyId, heads: seq<NamedHead>, releases: seq<bytes>)

  datatype TrustEntry = TrustEntry(principal: Principal, scope: set<Namespace>, path: seq<KeyId>, pinned: bool)

  type Entries = map<KeyId, seq<TrustEntry>>

  /** A transition that is followed. */
  datatype Edge = Edge(from: KeyId, to: KeyId)

  datatype Pair = Pair(kid: KeyId, principal: Principal)

  function EntriesOf(ent: Entries, k: KeyId): seq<TrustEntry> { if k in ent then ent[k] else [] }

  // ---- what trust means ----

  predicate HasPin(pins: seq<Pin>, k: KeyId, p: Principal) {
    exists i :: 0 <= i < |pins| && pins[i].kid == k && pins[i].principal == p
  }

  predicate PinIn(pins: seq<Pin>, k: KeyId, p: Principal, scope: set<Namespace>) {
    exists i :: 0 <= i < |pins| && pins[i] == Pin(k, p, scope)
  }

  predicate MayTransition(pins: seq<Pin>, k: KeyId, p: Principal) {
    exists i :: 0 <= i < |pins| && pins[i].kid == k && pins[i].principal == p && NsTransition in pins[i].scope
  }

  /** A pinned key hands over only if a pin says so; any other key that is
      trusted at all may. */
  predicate HandsOver(pins: seq<Pin>, k: KeyId, p: Principal) {
    HasPin(pins, k, p) ==> MayTransition(pins, k, p)
  }

  /** From a pin of `p`, along followed transitions of keys that may hand
      over. */
  predicate Walk(pins: seq<Pin>, edges: set<Edge>, path: seq<KeyId>, p: Principal) {
    && path != [] && HasPin(pins, path[0], p)
    && forall i :: 0 <= i < |path| - 1 ==> Hop(pins, edges, path, i, p)
  }

  predicate Hop(pins: seq<Pin>, edges: set<Edge>, path: seq<KeyId>, i: nat, p: Principal)
    requires i < |path| - 1
  {
    Edge(path[i], path[i + 1]) in edges && HandsOver(pins, path[i], p)
  }

  ghost predicate Reaches(pins: seq<Pin>, edges: set<Edge>, k: KeyId, p: Principal) {
    exists path :: Walk(pins, edges, path, p) && path[|path| - 1] == k
  }

  predicate Has(ent: Entries, k: KeyId, p: Principal) {
    exists i :: 0 <= i < |EntriesOf(ent, k)| && EntriesOf(ent, k)[i].principal == p
  }

  // ---- what the loop keeps ----

  /** The path of an entry starts at a pin of its principal, every hop is a
      followed transition, and its scope is exactly that pin's. */
  predicate EntryOk(pins: seq<Pin>, edges: set<Edge>, k: KeyId, e: TrustEntry) {
    && Walk(pins, edges, e.path, e.principal) && e.path[|e.path| - 1] == k
    && PinIn(pins, e.path[0], e.principal, e.scope)
    && e.pinned == (|e.path| == 1)
    && (!e.pinned ==> NsTransition in e.scope && !HasPin(pins, k, e.principal))
  }

  predicate AllOk(pins: seq<Pin>, edges: set<Edge>, ent: Entries) {
    && (forall k :: k in ent ==> ent[k] != [])
    && forall k, i :: k in ent && 0 <= i < |ent[k]| ==> EntryOk(pins, edges, k, ent[k][i])
  }

  /** Every pin has its entry. */
  predicate HasBase(pins: seq<Pin>, ent: Entries) {
    forall j ::
      0 <= j < |pins|
      ==> TrustEntry(pins[j].principal, pins[j].scope, [pins[j].kid], true) in EntriesOf(ent, pins[j].kid)
  }

  predicate EdgeClosed(ent: Entries, edge: Edge) {
    forall i :: 0 <= i < |EntriesOf(ent, edge.from)| && NsTransition in EntriesOf(ent, edge.from)[i].scope
      ==> Has(ent, edge.to, EntriesOf(ent, edge.from)[i].principal)
  }

  predicate Closed(ent: Entries, edges: set<Edge>) { forall edge :: edge in edges ==> EdgeClosed(ent, edge) }

  lemma {:induction false} ReachedHas(pins: seq<Pin>, edges: set<Edge>, ent: Entries, path: seq<KeyId>, p: Principal)
    requires AllOk(pins, edges, ent) && HasBase(pins, ent) && Closed(ent, edges)
    requires Walk(pins, edges, path, p)
    ensures Has(ent, path[|path| - 1], p)
    decreases |path|
  {
    hide AllOk, Closed;
    var n := |path| - 1;
    if n == 0 {
      PinHas(pins, ent, path[0], p);
    } else {
      assert forall i :: 0 <= i < n - 1 ==> Hop(pins, edges, path, i, p);
      assert Walk(pins, edges, path[..n], p) by {
        forall i | 0 <= i < n - 1 ensures Hop(pins, edges, path[..n], i, p) {
          assert Hop(pins, edges, path, i, p);
        }
      }
      ReachedHas(pins, edges, ent, path[..n], p);
      assert Hop(pins, edges, path, n - 1, p);
      LiveEntry(pins, edges, ent, path[n - 1], p);
      EdgeHas(ent, edges, Edge(path[n - 1], path[n]), p);
    }
  }

  predicate LiveIn(ent: Entries, k: KeyId, p: Principal) {
    exists i ::
      0 <= i < |EntriesOf(ent, k)| && EntriesOf(ent, k)[i].principal == p && NsTransition in EntriesOf(ent, k)[i].scope
  }

  lemma EdgeHas(ent: Entries, edges: set<Edge>, edge: Edge, p: Principal)
    requires Closed(ent, edges) && edge in edges && LiveIn(ent, edge.from, p)
    ensures Has(ent, edge.to, p)
  {
    assert EdgeClosed(ent, edge);
  }

  lemma PinHas(pins: seq<Pin>, ent: Entries, k: KeyId, p: Principal)
    requires HasBase(pins, ent) && HasPin(pins, k, p)
    ensures Has(ent, k, p)
    ensures MayTransition(pins, k, p) ==> LiveIn(ent, k, p)
  {
    var j :| 0 <= j < |pins| && pins[j].kid == k && pins[j].principal == p;
    assert TrustEntry(p, pins[j].scope, [k], true) in EntriesOf(ent, k);
    if MayTransition(pins, k, p) {
      var m :| 0 <= m < |pins| && pins[m].kid == k && pins[m].principal == p && NsTransition in pins[m].scope;
      assert TrustEntry(p, pins[m].scope, [k], true) in EntriesOf(ent, k);
    }
  }

  lemma PinnedOrLive(pins: seq<Pin>, edges: set<Edge>, k: KeyId, e: TrustEntry)
    requires EntryOk(pins, edges, k, e) && !HasPin(pins, k, e.principal)
    ensures NsTransition in e.scope
  {
    hide Hop;
  }

  /** A key that has an entry and may hand over has an entry that says so. */
  lemma LiveEntry(pins: seq<Pin>, edges: set<Edge>, ent: Entries, k: KeyId, p: Principal)
    requires AllOk(pins, edges, ent) && HasBase(pins, ent) && Has(ent, k, p) && HandsOver(pins, k, p)
    ensures LiveIn(ent, k, p)
  {
    hide EntryOk, HasPin, MayTransition;
    if HasPin(pins, k, p) {
      PinHas(pins, ent, k, p);
    } else {
      var i :| 0 <= i < |EntriesOf(ent, k)| && EntriesOf(ent, k)[i].principal == p;
      assert EntryOk(pins, edges, k, ent[k][i]);
      PinnedOrLive(pins, edges, k, ent[k][i]);
    }
  }

  /** Exactly the trusted keys that may hand over have such an entry. */
  lemma LiveIffHandsOver(pins: seq<Pin>, edges: set<Edge>, ent: Entries, k: KeyId, p: Principal)
    requires AllOk(pins, edges, ent) && HasBase(pins, ent)
    ensures LiveIn(ent, k, p) <==> Has(ent, k, p) && HandsOver(pins, k, p)
  {
    hide HasPin, MayTransition, PinIn, Hop;
    if LiveIn(ent, k, p) {
      var i :| 0 <= i < |EntriesOf(ent, k)| && EntriesOf(ent, k)[i].principal == p
          && NsTransition in EntriesOf(ent, k)[i].scope;
      assert EntryOk(pins, edges, k, ent[k][i]);
      if ent[k][i].pinned {
        PinInHas(pins, k, p, ent[k][i].scope);
      }
    }
    if Has(ent, k, p) && HandsOver(pins, k, p) {
      LiveEntry(pins, edges, ent, k, p);
    }
  }

  lemma PinInHas(pins: seq<Pin>, k: KeyId, p: Principal, scope: set<Namespace>)
    requires PinIn(pins, k, p, scope)
    ensures HasPin(pins, k, p) && (NsTransition in scope ==> MayTransition(pins, k, p))
  {
  }

  /** At the fixpoint, the trusted pairs are exactly the reachable ones. */
  lemma FixpointIsReach(pins: seq<Pin>, edges: set<Edge>, ent: Entries, k: KeyId, p: Principal)
    requires AllOk(pins, edges, ent) && HasBase(pins, ent) && Closed(ent, edges)
    ensures Has(ent, k, p) <==> Reaches(pins, edges, k, p)
  {
    hide HasBase, Closed, Hop;
    if Has(ent, k, p) {
      var i :| 0 <= i < |EntriesOf(ent, k)| && EntriesOf(ent, k)[i].principal == p;
      assert EntryOk(pins, edges, k, ent[k][i]);
    }
    if Reaches(pins, edges, k, p) {
      var path :| Walk(pins, edges, path, p) && path[|path| - 1] == k;
      ReachedHas(pins, edges, ent, path, p);
    }
  }

  // ---- grouping transitions by the key they retire ----

  datatype Group = Group(from: KeyId, ts: seq<Transition>)

  function TransitionSha(t: Transition): bytes { t.sha }

  function Put(groups: seq<Group>, t: Transition): seq<Group> {
    if groups == [] then [Group(t.from, [t])]
    else if groups[0].from == t.from then [Group(t.from, Upsert(TransitionSha, groups[0].ts, t))] + groups[1..]
    else [groups[0]] + Put(groups[1..], t)
  }

  function ByOld(ts: seq<Transition>): seq<Group> {
    if ts == [] then [] else Put(ByOld(ts[..|ts| - 1]), ts[|ts| - 1])
  }

  /** The followed transitions of one key, in order. */
  function EdgeList(ts: seq<Transition>, follow: Transition -> bool): seq<Edge> {
    if ts == [] then []
    else
      var n := |ts| - 1;
      EdgeList(ts[..n], follow) + if follow(ts[n]) then [Edge(ts[n].from, ts[n].to)] else []
  }

  /** All followed transitions, in the order the loop visits them. */
  function AllEdges(groups: seq<Group>, follow: Transition -> bool): seq<Edge> {
    if groups == [] then []
    else
      var n := |groups| - 1;
      AllEdges(groups[..n], follow) + EdgeList(groups[n].ts, follow)
  }

  function SetOf(edges: seq<Edge>): set<Edge> { set e | e in edges }

  function GroupEdges(groups: seq<Group>, follow: Transition -> bool): set<Edge> { SetOf(AllEdges(groups, follow)) }

  // ---- the loop ----

  function Base(pins: seq<Pin>): Entries {
    if pins == [] then map[]
    else
      var rest, pin := Base(pins[..|pins| - 1]), pins[|pins| - 1];
      rest[pin.kid := EntriesOf(rest, pin.kid) + [TrustEntry(pin.principal, pin.scope, [pin.kid], true)]]
  }

  function PairsOf(ent: Entries): set<Pair> {
    set k, i | k in ent && 0 <= i < |ent[k]| :: Pair(k, ent[k][i].principal)
  }

  /** Every pair an extension can add. */
  function Universe(pins: seq<Pin>, edges: set<Edge>): set<Pair> {
    var ps := set i | 0 <= i < |pins| :: pins[i].principal;
    var ks := (set i | 0 <= i < |pins| :: pins[i].kid) + (set e | e in edges :: e.to);
    set k, p | k in ks && p in ps :: Pair(k, p)
  }

  /** What entry `e` of a key hands over to key `to`. */
  function Handed(e: TrustEntry, to: KeyId): TrustEntry { TrustEntry(e.principal, e.scope, e.path + [to], false) }

  function Hand(ent: Entries, e: TrustEntry, to: KeyId): Entries {
    if NsTransition !in e.scope || Has(ent, to, e.principal) then ent
        else ent[to := EntriesOf(ent, to) + [Handed(e, to)]]
  }

  function HandAll(ent: Entries, es: seq<TrustEntry>, to: KeyId): Entries {
    if es == [] then ent
    else
      var n := |es| - 1;
      Hand(HandAll(ent, es[..n], to), es[n], to)
  }

  /** The entries after visiting one transition, and after a list of them. */
  function AfterEdge(ent: Entries, edge: Edge): Entries { HandAll(ent, EntriesOf(ent, edge.from), edge.to) }

  function AfterEdges(ent: Entries, edges: seq<Edge>): Entries {
    if edges == [] then ent
    else
      var n := |edges| - 1;
      AfterEdge(AfterEdges(ent, edges[..n]), edges[n])
  }

  lemma {:induction false} AfterMore(ent: Entries, a: seq<Edge>, b: seq<Edge>)
    ensures AfterEdges(ent, a + b) == AfterEdges(AfterEdges(ent, a), b)
  {
    if b == [] {
      assert a + b == a;
    } else {
      var n := |b| - 1;
      AfterMore(ent, a, b[..n]);
      assert (a + b)[..|a + b| - 1] == a + b[..n];
    }
  }

  /** The first of a list's entries of `p` that may hand over. */
  function FirstLive(es: seq<TrustEntry>, p: Principal): Option<TrustEntry> {
    if es == [] then None
    else
      var n := |es| - 1;
      var before := FirstLive(es[..n], p);
      if before.Some? then before
      else if es[n].principal == p && NsTransition in es[n].scope then Some(es[n])
      else None
  }

  lemma {:induction false} FirstLiveKept(es: seq<TrustEntry>, n: nat, p: Principal)
    requires n <= |es| && FirstLive(es[..n], p).Some?
    ensures FirstLive(es, p) == FirstLive(es[..n], p)
  {
    if n == |es| {
      assert es[..n] == es;
    } else {
      var m := |es| - 1;
      assert es[..m][..n] == es[..n];
      FirstLiveKept(es[..m], n, p);
    }
  }

  lemma {:induction false} FirstLiveIs(es: seq<TrustEntry>, p: Principal)
    ensures FirstLive(es, p).None? <==> forall e :: e in es ==> !(e.principal == p && NsTransition in e.scope)
    ensures FirstLive(es, p).Some? ==>
      var e := FirstLive(es, p).value; e in es && e.principal == p && NsTransition in e.scope
  {
    if es != [] {
      var n := |es| - 1;
      FirstLiveIs(es[..n], p);
      assert forall e :: e in es <==> e in es[..n] || e == es[n];
    }
  }

  /** Entries are only ever appended. */
  predicate Extends(a: Entries, b: Entries) { forall k :: k in a ==> k in b && a[k] <= b[k] }

  lemma ExtendsTransitive(a: Entries, b: Entries, c: Entries)
    requires Extends(a, b) && Extends(b, c)
    ensures Extends(a, c) && (a == c ==> b == c)
  {
    forall k | k in a ensures k in c && a[k] <= c[k] {
      assert a[k] <= b[k] && b[k] <= c[k];
    }
    if a == c {
      forall k | k in b ensures b[k] == c[k] {
        assert b[k] <= c[k] && a[k] <= b[k];
      }
    }
  }

  /** What the visit of a transition adds, and for whom: for each principal the
      new key lacks, one entry, handed over by the first entry of the old key
      that may. */
  ghost predicate AddsFirst(ent: Entries, es: seq<TrustEntry>, to: KeyId, r: Entries) {
    var old', new' := EntriesOf(ent, to), EntriesOf(r, to);
    && Extends(ent, r)
    && (forall k :: k != to ==> EntriesOf(r, k) == EntriesOf(ent, k))
    && (forall i :: |old'| <= i < |new'| ==> AddedFirst(ent, es, to, new'[i]))
    && (forall i, j :: 0 <= i < j < |new'| && |old'| <= j ==> new'[i].principal != new'[j].principal)
    && (forall p :: FirstLive(es, p).Some? ==> Has(r, to, p))
  }

  predicate AddedFirst(ent: Entries, es: seq<TrustEntry>, to: KeyId, e: TrustEntry) {
    var first := FirstLive(es, e.principal);
    first.Some? && e == Handed(first.value, to) && !Has(ent, to, e.principal)
  }

  lemma HandAdds(ent: Entries, es: seq<TrustEntry>, n: nat, to: KeyId, r: Entries)
    requires n < |es| && AddsFirst(ent, es[..n], to, r)
    ensures AddsFirst(ent, es[..n + 1], to, Hand(r, es[n], to))
  {
    hide FirstLive, AddedFirst;
    var e, r' := es[n], Hand(r, es[n], to);
    var old', was, new' := EntriesOf(ent, to), EntriesOf(r, to), EntriesOf(r', to);
    assert es[..n + 1][..n] == es[..n];
    assert Extends(r, r');
    ExtendsTransitive(ent, r, r');
    forall i | |old'| <= i < |new'| ensures AddedFirst(ent, es[..n + 1], to, new'[i]) {
      AddedKept(ent, es, n, to, r, i);
    }
    forall p | FirstLive(es[..n + 1], p).Some? ensures Has(r', to, p) {
      LiveGiven(es, n, to, r, p);
    }
  }

  lemma LiveGiven(es: seq<TrustEntry>, n: nat, to: KeyId, r: Entries, p: Principal)
    requires n < |es| && FirstLive(es[..n + 1], p).Some? && (FirstLive(es[..n], p).Some? ==> Has(r, to, p))
    ensures Has(Hand(r, es[n], to), to, p)
  {
    var e, r' := es[n], Hand(r, es[n], to);
    assert es[..n + 1][..n] == es[..n];
    var k := |EntriesOf(r, to)|;
    if Has(r, to, p) {
      var i :| 0 <= i < k && EntriesOf(r, to)[i].principal == p;
      assert EntriesOf(r', to)[i].principal == p;
    } else {
      assert EntriesOf(r', to)[k] == Handed(e, to);
    }
  }

  lemma AddedKept(ent: Entries, es: seq<TrustEntry>, n: nat, to: KeyId, r: Entries, i: nat)
    requires n < |es| && AddsFirst(ent, es[..n], to, r)
    requires var r' := Hand(r, es[n], to); |EntriesOf(ent, to)| <= i < |EntriesOf(r', to)|
    ensures AddedFirst(ent, es[..n + 1], to, EntriesOf(Hand(r, es[n], to), to)[i])
  {
    var e, was := es[n], EntriesOf(r, to);
    assert es[..n + 1][..n] == es[..n];
    if i < |was| {
      assert AddedFirst(ent, es[..n], to, was[i]);
      FirstLiveKept(es[..n + 1], n, was[i].principal);
    } else {
      HasKept(ent, r, to, e.principal);
      assert FirstLive(es[..n], e.principal).None?;
    }
  }

  lemma HasKept(ent: Entries, r: Entries, to: KeyId, p: Principal)
    requires Extends(ent, r)
    ensures Has(ent, to, p) ==> Has(r, to, p)
  {
    if Has(ent, to, p) {
      var i :| 0 <= i < |EntriesOf(ent, to)| && EntriesOf(ent, to)[i].principal == p;
      assert EntriesOf(r, to)[i].principal == p;
    }
  }

  lemma {:induction false} VisitAdds(ent: Entries, es: seq<TrustEntry>, to: KeyId)
    ensures AddsFirst(ent, es, to, HandAll(ent, es, to))
  {
    hide AddsFirst, Hand;
    if es == [] {
      NothingAdded(ent, to);
    } else {
      var n := |es| - 1;
      VisitAdds(ent, es[..n], to);
      HandAdds(ent, es, n, to, HandAll(ent, es[..n], to));
      assert es[..n + 1] == es;
    }
  }

  lemma NothingAdded(ent: Entries, to: KeyId)
    ensures AddsFirst(ent, [], to, ent)
  {
  }

  lemma {:induction false} AfterExtends(ent: Entries, edges: seq<Edge>)
    ensures Extends(ent, AfterEdges(ent, edges))
  {
    hide HandAll;
    if edges != [] {
      var n := |edges| - 1;
      AfterExtends(ent, edges[..n]);
      var mid := AfterEdges(ent, edges[..n]);
      VisitAdds(mid, EntriesOf(mid, edges[n].from), edges[n].to);
      ExtendsTransitive(ent, mid, AfterEdges(ent, edges));
    }
  }

  // ---- what visiting keeps ----

  ghost predicate Sane(pins: seq<Pin>, edges: set<Edge>, ent: Entries) {
    AllOk(pins, edges, ent) && HasBase(pins, ent) && PairsOf(ent) <= Universe(pins, edges)
  }

  ghost predicate Grows(pins: seq<Pin>, edges: set<Edge>, ent: Entries, ent': Entries) {
    Sane(pins, edges, ent') && (ent == ent' || PairsOf(ent) < PairsOf(ent'))
  }

  lemma HandGrows(pins: seq<Pin>, edges: set<Edge>, ent: Entries, t: Edge, i: nat, r: Entries)
    requires t in edges && AllOk(pins, edges, ent) && Sane(pins, edges, r) && i < |EntriesOf(ent, t.from)|
    ensures var e := EntriesOf(ent, t.from)[i]; Grows(pins, edges, r, Hand(r, e, t.to))
    ensures var e := EntriesOf(ent, t.from)[i];
      Hand(r, e, t.to) == r && NsTransition in e.scope ==> Has(r, t.to, e.principal)
  {
    hide AllOk, HasBase, Universe, PairsOf, Has;
    var e := EntriesOf(ent, t.from)[i];
    if NsTransition in e.scope && !Has(r, t.to, e.principal) {
      AddedOk(pins, edges, ent, t, i, r, Handed(e, t.to));
    }
  }

  lemma {:induction false} VisitGrows(pins: seq<Pin>, edges: set<Edge>, ent: Entries, t: Edge, n: nat)
    requires t in edges && Sane(pins, edges, ent) && n <= |EntriesOf(ent, t.from)|
    ensures var es, r := EntriesOf(ent, t.from)[..n], HandAll(ent, EntriesOf(ent, t.from)[..n], t.to);
      Grows(pins, edges, ent, r)
      && (r == ent ==> forall i :: 0 <= i < n && NsTransition in es[i].scope ==> Has(ent, t.to, es[i].principal))
  {
    hide AllOk, HasBase, Universe, PairsOf, Has, Hand;
    if n > 0 {
      var es := EntriesOf(ent, t.from);
      assert es[..n][..n - 1] == es[..n - 1] && es[..n][n - 1] == es[n - 1];
      VisitGrows(pins, edges, ent, t, n - 1);
      HandGrows(pins, edges, ent, t, n - 1, HandAll(ent, es[..n - 1], t.to));
    }
  }

  /** Visiting transitions keeps what is known of the entries and only adds
      pairs; when it adds none, the entries are closed under them. */
  lemma {:induction false} AfterEdgesGrow(pins: seq<Pin>, edges: set<Edge>, ent: Entries, list: seq<Edge>)
    requires SetOf(list) <= edges && Sane(pins, edges, ent)
    ensures Grows(pins, edges, ent, AfterEdges(ent, list))
    ensures AfterEdges(ent, list) == ent ==> Closed(ent, SetOf(list))
  {
    hide AllOk, HasBase, Universe, PairsOf, Has, HandAll;
    if list != [] {
      var n := |list| - 1;
      var mid, t := AfterEdges(ent, list[..n]), list[n];
      assert list == list[..n] + [t];
      assert SetOf(list) == SetOf(list[..n]) + {t};
      AfterEdgesGrow(pins, edges, ent, list[..n]);
      var es := EntriesOf(mid, t.from);
      assert es[..|es|] == es;
      VisitGrows(pins, edges, mid, t, |es|);
    }
  }

  /** Passes over the transitions until one changes nothing. */
  ghost function Settle(pins: seq<Pin>, edges: seq<Edge>, ent: Entries): (r: Entries)
    requires Sane(pins, SetOf(edges), ent)
    ensures Sane(pins, SetOf(edges), r) && Closed(r, SetOf(edges)) && Extends(ent, r)
    decreases |Universe(pins, SetOf(edges)) - PairsOf(ent)|
  {
    hide AllOk, HasBase, Universe, PairsOf, Has, SetOf, AfterEdges;
    var next := AfterEdges(ent, edges);
    AfterEdgesGrow(pins, SetOf(edges), ent, edges);
    AfterExtends(ent, edges);
    if next == ent then ent
    else
      SmallerRest(Universe(pins, SetOf(edges)), PairsOf(ent), PairsOf(next));
      var r := Settle(pins, edges, next);
      ExtendsTransitive(ent, next, r);
      r
  }

  /** The entries after all passes: which they are, and in what order, and
      with which scope, is determined by the order of the transitions. */
  ghost function Settled(pins: seq<Pin>, edges: seq<Edge>): (r: Entries)
    ensures Sane(pins, SetOf(edges), r) && Closed(r, SetOf(edges)) && Extends(Base(pins), r)
  {
    BaseOk(pins, SetOf(edges));
    Settle(pins, edges, Base(pins))
  }

  // ---- the loops ----

  /** One transition: each entry of the old key that may hand over gives the
      new key an entry of the same principal, unless it has one. */
  method Visit(t: Edge, ent: Entries) returns (r: Entries, changed: bool)
    ensures r == AfterEdge(ent, t) && AddsFirst(ent, EntriesOf(ent, t.from), t.to, r)
    ensures changed <==> r != ent
  {
    hide AddsFirst, HandAll;
    r, changed := ent, false;
    var es := EntriesOf(ent, t.from);
    NoneHanded(ent, t.to, es);
    for i := 0 to |es|
      invariant r == HandAll(ent, es[..i], t.to)
      invariant Extends(ent, r) && (changed <==> r != ent)
    {
      HandedNext(ent, es, i, t.to);
      if NsTransition in es[i].scope {
        var there := EntriesOf(r, t.to);
        if !exists j :: 0 <= j < |there| && there[j].principal == es[i].principal {
          ghost var before := r;
          r, changed := r[t.to := there + [TrustEntry(es[i].principal, es[i].scope, es[i].path + [t.to], false)]], true;
          ExtendsTransitive(ent, before, r);
        }
      }
    }
    assert es[..|es|] == es;
    VisitAdds(ent, es, t.to);
  }

  lemma NoneHanded(ent: Entries, to: KeyId, es: seq<TrustEntry>)
    ensures HandAll(ent, es[..0], to) == ent
  {
  }

  lemma HandedNext(ent: Entries, es: seq<TrustEntry>, i: nat, to: KeyId)
    requires i < |es|
    ensures HandAll(ent, es[..i + 1], to) == Hand(HandAll(ent, es[..i], to), es[i], to)
  {
    assert es[..i + 1][..i] == es[..i];
  }

  /** A pass over one group, and over all of them. */
  method VisitGroup(ts: seq<Transition>, follow: Transition -> bool, ent: Entries) returns (r: Entries, changed: bool)
    ensures r == AfterEdges(ent, EdgeList(ts, follow))
    ensures changed <==> r != ent
  {
    hide AfterEdge;
    r, changed := ent, false;
    for i := 0 to |ts|
      invariant r == AfterEdges(ent, EdgeList(ts[..i], follow))
      invariant changed <==> r != ent
    {
      assert ts[..i + 1][..i] == ts[..i];
      assert EdgeList(ts[..i], follow) + [] == EdgeList(ts[..i], follow);
      if follow(ts[i]) {
        var edge := Edge(ts[i].from, ts[i].to);
        AfterExtends(ent, EdgeList(ts[..i], follow));
        AfterExtends(r, [edge]);
        AfterMore(ent, EdgeList(ts[..i], follow), [edge]);
        OneEdge(r, edge);
        ghost var before := r;
        var visited, more := Visit(edge, r);
        r, changed := visited, changed || more;
        ExtendsTransitive(ent, before, r);
      }
    }
    assert ts[..|ts|] == ts;
  }

  lemma OneEdge(ent: Entries, edge: Edge)
    ensures AfterEdges(ent, [edge]) == AfterEdge(ent, edge)
  {
    assert [edge][..0] == [];
    assert AfterEdges(ent, []) == ent;
  }

  lemma AddedOk(pins: seq<Pin>, edges: set<Edge>, ent: Entries, t: Edge, i: nat, r: Entries, e: TrustEntry)
    requires t in edges && AllOk(pins, edges, ent) && AllOk(pins, edges, r) && HasBase(pins, r)
    requires PairsOf(r) <= Universe(pins, edges)
    requires i < |EntriesOf(ent, t.from)| && NsTransition in EntriesOf(ent, t.from)[i].scope
    requires var f := EntriesOf(ent, t.from)[i]; e == TrustEntry(f.principal, f.scope, f.path + [t.to], false)
    requires !Has(r, t.to, e.principal)
    ensures var r' := r[t.to := EntriesOf(r, t.to) + [e]];
      AllOk(pins, edges, r') && HasBase(pins, r') && PairsOf(r) < PairsOf(r') <= Universe(pins, edges)
  {
    hide EntryOk, HasPin, PinIn;
    var r' := r[t.to := EntriesOf(r, t.to) + [e]];
    var f := EntriesOf(ent, t.from)[i];
    assert EntryOk(pins, edges, t.from, f);
    NotPinned(pins, r, t.to, e.principal);
    ExtendedOk(pins, edges, t, f);
    forall k, j | k in r' && 0 <= j < |r'[k]| ensures EntryOk(pins, edges, k, r'[k][j]) {
      if k in r && j < |r[k]| {
        assert EntryOk(pins, edges, k, r[k][j]);
      }
    }
    BaseKept(pins, r, t.to, e);
    PairsAdded(r, t.to, e);
    InUniverse(pins, edges, t, f);
  }

  lemma NotPinned(pins: seq<Pin>, ent: Entries, k: KeyId, p: Principal)
    requires HasBase(pins, ent) && !Has(ent, k, p)
    ensures !HasPin(pins, k, p)
  {
    if HasPin(pins, k, p) {
      PinHas(pins, ent, k, p);
    }
  }

  lemma ExtendedOk(pins: seq<Pin>, edges: set<Edge>, t: Edge, f: TrustEntry)
    requires EntryOk(pins, edges, t.from, f) && t in edges && NsTransition in f.scope
        && !HasPin(pins, t.to, f.principal)
    ensures EntryOk(pins, edges, t.to, TrustEntry(f.principal, f.scope, f.path + [t.to], false))
  {
    hide HasPin, PinIn, MayTransition;
    var path := f.path + [t.to];
    if f.pinned {
      PinInHas(pins, t.from, f.principal, f.scope);
    }
    forall i | 0 <= i < |path| - 1 ensures Hop(pins, edges, path, i, f.principal) {
      if i < |f.path| - 1 {
        assert Hop(pins, edges, f.path, i, f.principal);
      }
    }
  }

  lemma BaseKept(pins: seq<Pin>, r: Entries, k: KeyId, e: TrustEntry)
    requires HasBase(pins, r)
    ensures HasBase(pins, r[k := EntriesOf(r, k) + [e]])
  {
  }

  lemma PairsAdded(r: Entries, k: KeyId, e: TrustEntry)
    requires !Has(r, k, e.principal)
    ensures PairsOf(r[k := EntriesOf(r, k) + [e]]) == PairsOf(r) + {Pair(k, e.principal)}
    ensures Pair(k, e.principal) !in PairsOf(r)
  {
    var r' := r[k := EntriesOf(r, k) + [e]];
    var n := |EntriesOf(r, k)|;
    assert r'[k][n] == e;
    forall x | x in PairsOf(r) ensures x in PairsOf(r') {
      var i :| x.kid in r && 0 <= i < |r[x.kid]| && r[x.kid][i].principal == x.principal;
      assert r'[x.kid][i] == r[x.kid][i];
    }
    forall x | x in PairsOf(r') ensures x in PairsOf(r) + {Pair(k, e.principal)} {
      var i :| x.kid in r' && 0 <= i < |r'[x.kid]| && r'[x.kid][i].principal == x.principal;
      if x.kid in r && i < |r[x.kid]| {
        assert r'[x.kid][i] == r[x.kid][i];
      }
    }
  }

  lemma InUniverse(pins: seq<Pin>, edges: set<Edge>, t: Edge, f: TrustEntry)
    requires EntryOk(pins, edges, t.from, f) && t in edges
    ensures Pair(t.to, f.principal) in Universe(pins, edges)
  {
    var i :| 0 <= i < |pins| && pins[i].kid == f.path[0] && pins[i].principal == f.principal;
    assert pins[i].principal in set i | 0 <= i < |pins| :: pins[i].principal;
    assert t.to in set e | e in edges :: e.to;
  }

  method Pass(groups: seq<Group>, follow: Transition -> bool, ent: Entries) returns (r: Entries, changed: bool)
    ensures r == AfterEdges(ent, AllEdges(groups, follow))
    ensures changed <==> r != ent
  {
    hide EdgeList, AfterEdges;
    r, changed := ent, false;
    AfterNone(ent);
    for i := 0 to |groups|
      invariant r == AfterEdges(ent, AllEdges(groups[..i], follow))
      invariant changed <==> r != ent
    {
      assert groups[..i + 1][..i] == groups[..i];
      ghost var before, list := r, EdgeList(groups[i].ts, follow);
      AfterExtends(ent, AllEdges(groups[..i], follow));
      AfterExtends(before, list);
      AfterMore(ent, AllEdges(groups[..i], follow), list);
      var visited, more := VisitGroup(groups[i].ts, follow, r);
      r, changed := visited, changed || more;
      ExtendsTransitive(ent, before, r);
    }
    assert groups[..|groups|] == groups;
  }

  lemma AfterNone(ent: Entries)
    ensures AfterEdges(ent, []) == ent
  {
  }

  predicate BaseEntry(pins: seq<Pin>, k: KeyId, e: TrustEntry)
  {
    e == TrustEntry(e.principal, e.scope, [k], true) && PinIn(pins, k, e.principal, e.scope)
  }

  lemma {:induction false} BaseShape(pins: seq<Pin>)
    ensures HasBase(pins, Base(pins))
    ensures forall k :: k in Base(pins) ==> Base(pins)[k] != []
    ensures forall k, i :: k in Base(pins) && 0 <= i < |Base(pins)[k]| ==> BaseEntry(pins, k, Base(pins)[k][i])
  {
    if pins != [] {
      var n := |pins| - 1;
      BaseShape(pins[..n]);
      var rest, ent, pin := Base(pins[..n]), Base(pins), pins[n];
      forall k, i | k in ent && 0 <= i < |ent[k]| ensures BaseEntry(pins, k, ent[k][i]) {
        if k in rest && i < |rest[k]| {
          assert BaseEntry(pins[..n], k, rest[k][i]);
          PinInPrefix(pins, n, k, rest[k][i].principal, rest[k][i].scope);
        } else {
          assert pins[n] == Pin(k, pin.principal, pin.scope);
        }
      }
      BasePrefix(pins[..n], pin, rest);
      assert pins == pins[..n] + [pin];
    }
  }

  lemma PinInPrefix(pins: seq<Pin>, n: nat, k: KeyId, p: Principal, scope: set<Namespace>)
    requires n <= |pins| && PinIn(pins[..n], k, p, scope)
    ensures PinIn(pins, k, p, scope)
  {
    var i :| 0 <= i < n && pins[..n][i] == Pin(k, p, scope);
    assert pins[i] == Pin(k, p, scope);
  }

  lemma BasePrefix(pins: seq<Pin>, pin: Pin, rest: Entries)
    requires HasBase(pins, rest)
    ensures HasBase(pins + [pin], rest[pin.kid := EntriesOf(rest, pin.kid)
        + [TrustEntry(pin.principal, pin.scope, [pin.kid], true)]])
  {
    var ent := rest[pin.kid := EntriesOf(rest, pin.kid) + [TrustEntry(pin.principal, pin.scope, [pin.kid], true)]];
    assert ent[pin.kid][|EntriesOf(rest, pin.kid)|] == TrustEntry(pin.principal, pin.scope, [pin.kid], true);
    forall j | 0 <= j <= |pins|
      ensures TrustEntry((pins + [pin])[j].principal, (pins + [pin])[j].scope, [(pins + [pin])[j].kid],
          true) in EntriesOf(ent, (pins + [pin])[j].kid)
    {
      if j < |pins| {
        var e := TrustEntry(pins[j].principal, pins[j].scope, [pins[j].kid], true);
        assert e in EntriesOf(rest, pins[j].kid);
      }
    }
  }

  lemma BaseEntryOk(pins: seq<Pin>, edges: set<Edge>, k: KeyId, e: TrustEntry)
    requires BaseEntry(pins, k, e)
    ensures EntryOk(pins, edges, k, e) && Pair(k, e.principal) in Universe(pins, edges)
  {
    PinInHas(pins, k, e.principal, e.scope);
    var i :| 0 <= i < |pins| && pins[i] == Pin(k, e.principal, e.scope);
    assert pins[i].principal in set i | 0 <= i < |pins| :: pins[i].principal;
    assert pins[i].kid in set i | 0 <= i < |pins| :: pins[i].kid;
  }

  lemma BaseOk(pins: seq<Pin>, edges: set<Edge>)
    ensures AllOk(pins, edges, Base(pins)) && HasBase(pins, Base(pins)) && PairsOf(Base(pins)) <= Universe(pins, edges)
  {
    hide EntryOk, BaseEntry, Universe, HasBase, Base;
    var ent := Base(pins);
    BaseShape(pins);
    forall k, i | k in ent && 0 <= i < |ent[k]|
      ensures EntryOk(pins, edges, k, ent[k][i]) && Pair(k, ent[k][i].principal) in Universe(pins, edges) {
      assert BaseEntry(pins, k, ent[k][i]);
      BaseEntryOk(pins, edges, k, ent[k][i]);
    }
  }

  /** `extend`: it ends on every input, transition cycles included, with
      exactly the pairs reachable from the pins. */
  method Extend(pins: seq<Pin>, groups: seq<Group>, follow: Transition -> bool) returns (ent: Entries)
    ensures ent == Settled(pins, AllEdges(groups, follow))
    ensures forall k, p :: Has(ent, k, p) <==> Reaches(pins, GroupEdges(groups, follow), k, p)
    ensures AllOk(pins, GroupEdges(groups, follow), ent) && HasBase(pins, ent)
  {
    hide AllOk, HasBase, PairsOf, Universe, Closed, SetOf, Has, Reaches, AllEdges, AfterEdges;
    ghost var list := AllEdges(groups, follow);
    ghost var edges := SetOf(list);
    BaseOk(pins, edges);
    ent := Base(pins);
    var changed := true;
    while changed
      invariant Sane(pins, edges, ent) && Settle(pins, list, ent) == Settled(pins, list)
      invariant !changed ==> Settle(pins, list, ent) == ent
      decreases |Universe(pins, edges) - PairsOf(ent)|, if changed then 1 else 0
    {
      ghost var before := ent;
      AfterEdgesGrow(pins, edges, ent, list);
      ent, changed := Pass(groups, follow, ent);
      SmallerRest(Universe(pins, edges), PairsOf(before), PairsOf(ent));
    }
    SettledReaches(pins, list);
  }

  lemma SettledReaches(pins: seq<Pin>, list: seq<Edge>)
    ensures forall k, p :: Has(Settled(pins, list), k, p) <==> Reaches(pins, SetOf(list), k, p)
  {
    hide AllOk, HasBase, PairsOf, Universe, Closed, SetOf, Has, Reaches, Settled;
    forall k, p ensures Has(Settled(pins, list), k, p) <==> Reaches(pins, SetOf(list), k, p) {
      FixpointIsReach(pins, SetOf(list), Settled(pins, list), k, p);
    }
  }

  lemma SmallerRest(u: set<Pair>, a: set<Pair>, b: set<Pair>)
    requires a <= b <= u
    ensures |u - b| <= |u - a| && (a != b ==> |u - b| < |u - a|)
  {
    var x, y := u - a, u - b;
    assert y <= x && |x| == |y| + |x - y|;
    if a != b {
      assert x - y != {};
    }
  }
}
