/** Creating and loading a signing key in the OS keychain: what one call does,
    and what any interleaving of calls by any number of processes keeps. */
module Keychain {
  import opened Bytes

  type Seed = Digest

  /** The public key of a seed. */
  type Derive = Seed -> Digest

  function ItemTag(): (t: bytes)
    ensures |t| == 16
  {
    Ascii("ed25519-seed:v1:")
  }

  const ITEM_LEN := 80

  function EncodeItem(d: Derive, seed: Seed): (b: bytes)
    ensures |b| == ITEM_LEN
  {
    ItemTag() + seed + d(seed)
  }

  /** The seed of an item: right tag, right length, and a public key that is
      the seed's. */
  function DecodeItem(d: Derive, b: bytes): Option<Seed> {
    if |b| != ITEM_LEN || b[..16] != ItemTag() then None
    else if d(b[16..48]) != b[48..] then None
    else Some(b[16..48])
  }

  /** Items and seeds are one to one; nothing of another length, such as a
      32-byte HMAC key, is an item. */
  lemma DecodeIffEncode(d: Derive, b: bytes, seed: Seed)
    ensures DecodeItem(d, b) == Some(seed) <==> b == EncodeItem(d, seed)
  {
    hide ItemTag;
    if b == EncodeItem(d, seed) {
      assert b[..16] == ItemTag() && b[16..48] == seed && b[48..] == d(seed);
    }
    if DecodeItem(d, b) == Some(seed) {
      assert b == b[..16] + b[16..48] + b[48..];
    }
  }

  datatype Outcome = Signer(seed: Seed) | AlreadyExists | NotFound | Corrupt | Backend | Deleted

  /** `load`, when the backend answers. */
  function LoadOf(d: Derive, store: Option<bytes>): Outcome {
    if store.None? then NotFound
    else if DecodeItem(d, store.value).None? then Corrupt
    else Signer(DecodeItem(d, store.value).value)
  }

  datatype Call = Create | LoadOrGenerate | Delete | Load

  /** What a call leaves in the store when nothing interferes. */
  function StoreAfter(d: Derive, call: Call, store: Option<bytes>, made: Seed): Option<bytes> {
    match call
    case Delete => None
    case Load => store
    case _ => if store.None? then Some(EncodeItem(d, made)) else store
  }

  /** What it returns. */
  function OutcomeOf(d: Derive, call: Call, store: Option<bytes>, made: Seed): Outcome {
    var found := LoadOf(d, store);
    match call
    case Create => if found.NotFound? then Signer(made) else if found.Signer? then AlreadyExists else found
    case LoadOrGenerate => if found.NotFound? then Signer(made) else found
    case Delete => if store.None? then NotFound else Deleted
    case Load => found
  }

  // ---- one process ----

  class Account {
    const d: Derive
    var store: Option<bytes>
    var locked: bool

    constructor (d: Derive, store: Option<bytes>)
      ensures this.d == d && this.store == store && !locked
    {
      this.d, this.store, locked := d, store, false;
    }

    method Load() returns (r: Outcome)
      ensures r == OutcomeOf(d, Call.Load, store, ZERO_DIGEST) == LoadOf(d, store)
    {
      r := LoadOf(d, store);
    }

    /** Under the lock: write only where nothing is, and read it back. */
    method CreateLocked(made: Seed) returns (r: Outcome)
      requires locked
      modifies this`store
      ensures store == if old(store).None? then Some(EncodeItem(d, made)) else old(store)
      ensures r == match LoadOf(d, old(store))
                   case NotFound => Signer(made)
                   case Signer(_) => AlreadyExists
                   case other => other
    {
      var present := Load();
      if present.Signer? {
        return AlreadyExists;
      }
      if !present.NotFound? {
        return present;
      }
      store := Some(EncodeItem(d, made));
      DecodeIffEncode(d, EncodeItem(d, made), made);
      var loaded := Load();
      if loaded.Signer? && d(loaded.seed) != d(made) {
        return Corrupt;
      }
      return loaded;
    }

    method Create(made: Seed) returns (r: Outcome)
      requires !locked
      modifies this
      ensures !locked && store == StoreAfter(d, Call.Create, old(store), made)
      ensures r == OutcomeOf(d, Call.Create, old(store), made)
      ensures r.Signer? ==> old(store).None? && r == LoadOf(d, store)
      ensures LoadOf(d, old(store)).Signer? ==> r == AlreadyExists
    {
      locked := true;
      r := CreateLocked(made);
      locked := false;
      DecodeIffEncode(d, EncodeItem(d, made), made);
    }

    method LoadOrGenerate(made: Seed) returns (r: Outcome)
      requires !locked
      modifies this
      ensures !locked && store == StoreAfter(d, Call.LoadOrGenerate, old(store), made)
      ensures r == OutcomeOf(d, Call.LoadOrGenerate, old(store), made) == LoadOf(d, store)
    {
      locked := true;
      DecodeIffEncode(d, EncodeItem(d, made), made);
      r := Load();
      if r.NotFound? {
        r := CreateLocked(made);
      }
      locked := false;
    }

    method Delete() returns (r: Outcome)
      requires !locked
      modifies this
      ensures !locked && store == StoreAfter(d, Call.Delete, old(store), ZERO_DIGEST)
      ensures r == OutcomeOf(d, Call.Delete, old(store), ZERO_DIGEST)
    {
      locked := true;
      r := if store.None? then NotFound else Deleted;
      store := None;
      locked := false;
    }
  }

  // ---- any number of processes ----

  /** Where a process is in its call. From `Entered` to `Leaving` it holds the
      lock. */
  datatype Process =
    | Waiting(call: Call)
    | Entered(call: Call)
    | Absent
    | Writing(made: Seed)
    | Written(made: Seed)
    | Leaving(outcome: Outcome)
    | Returned(outcome: Outcome, deletes: nat)
    | Dead
  {
    predicate HoldsLock() { Entered? || Absent? || Writing? || Written? || Leaving? }
  }

  /** The stored item, the lock, the processes, and how often the item was
      deleted, and written since. */
  datatype World = World(store: Option<bytes>, holder: Option<nat>, procs: map<nat, Process>, deletes: nat, writes: nat)

  /** A process starts a call, takes the lock, makes its next access to the
      store, returns, or dies; an access may fail, and a failed write may or
      may not have taken effect. */
  datatype Action =
    | Start(p: nat, call: Call)
    | Acquire(p: nat)
    | Access(p: nat, made: Seed)
    | Fault(p: nat, effect: bool)
    | Return(p: nat)
    | Die(p: nat)

  function Put(w: World, p: nat, s: Process): World { w.(procs := w.procs[p := s]) }

  function WriteItem(d: Derive, w: World, p: nat, made: Seed, next: Process): World {
    Put(w, p, next).(store := Some(EncodeItem(d, made)), writes := w.writes + 1)
  }

  function DeleteItem(w: World, p: nat, next: Process): World {
    Put(w, p, next).(store := None, deletes := w.deletes + 1, writes := 0)
  }

  /** The next access of a process to the store. */
  function AccessStore(d: Derive, w: World, p: nat, made: Seed): World
    requires p in w.procs
  {
    var found := LoadOf(d, w.store);
    match w.procs[p]
    case Waiting(Load) => Put(w, p, Returned(found, w.deletes))
    case Entered(LoadOrGenerate) => Put(w, p, if found.NotFound? then Absent else Leaving(found))
    case Entered(Create) =>
      Put(w, p, if found.NotFound? then Writing(made) else if found.Signer? then Leaving(AlreadyExists)
          else Leaving(found))
    case Absent =>
      Put(w, p, if found.NotFound? then Writing(made) else if found.Signer? then Leaving(AlreadyExists)
          else Leaving(found))
    case Writing(seed) => WriteItem(d, w, p, seed, Written(seed))
    case Written(seed) => Put(w, p, Leaving(if found.Signer? && d(found.seed) != d(seed) then Corrupt else found))
    case Entered(Delete) => if w.store.None? then Put(w, p, Leaving(NotFound)) else DeleteItem(w, p, Leaving(Deleted))
    case _ => w
  }

  /** An access that fails with a backend error. */
  function FaultStore(d: Derive, w: World, p: nat, effect: bool): World
    requires p in w.procs
  {
    match w.procs[p]
    case Waiting(Load) => Put(w, p, Returned(Backend, w.deletes))
    case Entered(Delete) =>
      if effect && w.store.Some? then DeleteItem(w, p, Leaving(Backend)) else Put(w, p, Leaving(Backend))
    case Entered(_) => Put(w, p, Leaving(Backend))
    case Absent => Put(w, p, Leaving(Backend))
    case Writing(seed) => if effect then WriteItem(d, w, p, seed, Leaving(Backend)) else Put(w, p, Leaving(Backend))
    case Written(_) => Put(w, p, Leaving(Backend))
    case _ => w
  }

  function Released(w: World, p: nat): World { if w.holder == Some(p) then w.(holder := None) else w }

  /** One step; an action that is not possible changes nothing. */
  function Step(d: Derive, w: World, a: Action): World {
    match a
    case Start(p, call) => if p in w.procs then w else Put(w, p, Waiting(call))
    case Acquire(p) =>
      if p in w.procs && w.procs[p].Waiting? && w.procs[p].call != Load && w.holder.None?
      then Put(w, p, Entered(w.procs[p].call)).(holder := Some(p)) else w
    case Access(p, made) => if p in w.procs then AccessStore(d, w, p, made) else w
    case Fault(p, effect) => if p in w.procs then FaultStore(d, w, p, effect) else w
    case Return(p) =>
      if p in w.procs && w.procs[p].Leaving? then Released(Put(w, p, Returned(w.procs[p].outcome, w.deletes)), p) else w
    case Die(p) => if p in w.procs && !w.procs[p].Returned? then Released(Put(w, p, Dead), p) else w
  }

  function RunAll(d: Derive, w: World, actions: seq<Action>): World
    decreases |actions|
  {
    if actions == [] then w else RunAll(d, Step(d, w, actions[0]), actions[1..])
  }

  // ---- what every step keeps ----

  /** What a process knows of the store at its place. */
  predicate Knows(d: Derive, w: World, s: Process) {
    match s
    case Absent => w.store.None?
    case Writing(_) => w.store.None?
    case Written(seed) => w.store == Some(EncodeItem(d, seed))
    case Leaving(Signer(seed)) => w.store == Some(EncodeItem(d, seed))
    case Returned(Signer(seed), deletes) => deletes <= w.deletes
        && (deletes == w.deletes ==> w.store == Some(EncodeItem(d, seed)))
    case Returned(_, deletes) => deletes <= w.deletes
    case _ => true
  }

  /** The lock has at most one holder, each process knows what it should, and
      the item was written at most once since the last delete. */
  predicate Inv(d: Derive, w: World) {
    && (forall p :: p in w.procs ==> (w.procs[p].HoldsLock() <==> w.holder == Some(p)))
    && (w.holder.Some? ==> w.holder.value in w.procs)
    && (forall p :: p in w.procs ==> Knows(d, w, w.procs[p]))
    && w.writes <= 1 && (w.store.None? ==> w.writes == 0)
  }

  lemma LoadIsStored(d: Derive, store: Option<bytes>)
    ensures LoadOf(d, store).Signer? ==> store == Some(EncodeItem(d, LoadOf(d, store).seed))
  {
    hide DecodeItem, EncodeItem;
    if store.Some? && DecodeItem(d, store.value).Some? {
      DecodeIffEncode(d, store.value, DecodeItem(d, store.value).value);
    }
  }

  lemma PutKeeps(d: Derive, w: World, p: nat, s: Process)
    requires Inv(d, w) && (s.HoldsLock() <==> w.holder == Some(p)) && Knows(d, w, s)
    ensures Inv(d, Put(w, p, s))
  {
    hide EncodeItem, Process.HoldsLock, Knows;
    var w' := Put(w, p, s);
    forall q | q in w'.procs ensures Knows(d, w', w'.procs[q]) {
      KnowsSame(d, w, w', w'.procs[q]);
    }
  }

  lemma KnowsSame(d: Derive, w: World, w': World, s: Process)
    requires Knows(d, w, s) && w.store == w'.store && w.deletes == w'.deletes
    ensures Knows(d, w', s)
  {
    hide EncodeItem;
  }

  /** A change of the store by the holder: nobody else is where it matters. */
  lemma StoreKeeps(d: Derive, w: World, p: nat, w': World)
    requires Inv(d, w) && p in w.procs && w.procs[p].HoldsLock() && p in w'.procs
    requires w'.procs == w.procs[p := w'.procs[p]] && w'.holder == w.holder && w'.procs[p].HoldsLock()
    requires Knows(d, w', w'.procs[p]) && w'.writes <= 1 && (w'.store.None? ==> w'.writes == 0)
    requires (w.store.None? && w'.deletes == w.deletes) || w'.deletes > w.deletes
    ensures Inv(d, w')
  {
    hide EncodeItem;
  }

  lemma AccessKeeps(d: Derive, w: World, p: nat, made: Seed)
    requires Inv(d, w) && p in w.procs
    ensures Inv(d, AccessStore(d, w, p, made))
  {
    hide EncodeItem, LoadOf, Inv;
    var s := w.procs[p];
    LoadIsStored(d, w.store);
    NothingFound(d, w.store);
    AtProcess(d, w, p);
    if s.Writing? {
      StoreKeeps(d, w, p, WriteItem(d, w, p, s.made, Written(s.made)));
    } else if s == Entered(Delete) && w.store.Some? {
      StoreKeeps(d, w, p, DeleteItem(w, p, Leaving(Deleted)));
    } else if AccessStore(d, w, p, made) != w {
      PutKeeps(d, w, p, AccessStore(d, w, p, made).procs[p]);
    }
  }

  lemma NothingFound(d: Derive, store: Option<bytes>)
    ensures LoadOf(d, store).NotFound? <==> store.None?
  {
  }

  lemma AtProcess(d: Derive, w: World, p: nat)
    requires Inv(d, w) && p in w.procs
    ensures (w.procs[p].HoldsLock() <==> w.holder == Some(p)) && Knows(d, w, w.procs[p])
    ensures w.writes <= 1 && (w.store.None? ==> w.writes == 0)
  {
    hide EncodeItem;
  }

  lemma FaultKeeps(d: Derive, w: World, p: nat, effect: bool)
    requires Inv(d, w) && p in w.procs
    ensures Inv(d, FaultStore(d, w, p, effect))
  {
    hide EncodeItem, Inv;
    var s := w.procs[p];
    AtProcess(d, w, p);
    if s.Writing? && effect {
      StoreKeeps(d, w, p, WriteItem(d, w, p, s.made, Leaving(Backend)));
    } else if s == Entered(Delete) && effect && w.store.Some? {
      StoreKeeps(d, w, p, DeleteItem(w, p, Leaving(Backend)));
    } else if FaultStore(d, w, p, effect) != w {
      PutKeeps(d, w, p, FaultStore(d, w, p, effect).procs[p]);
    }
  }

  /** Giving up the lock. */
  lemma ReleaseKeeps(d: Derive, w: World, p: nat, s: Process)
    requires Inv(d, w) && p in w.procs && !s.HoldsLock() && Knows(d, w, s)
    ensures Inv(d, Released(Put(w, p, s), p))
  {
    hide EncodeItem, Process.HoldsLock, Knows;
    var w' := Released(Put(w, p, s), p);
    forall q | q in w'.procs ensures Knows(d, w', w'.procs[q]) {
      KnowsSame(d, w, w', w'.procs[q]);
    }
  }

  lemma StepKeeps(d: Derive, w: World, a: Action)
    requires Inv(d, w)
    ensures Inv(d, Step(d, w, a))
  {
    hide EncodeItem, AccessStore, FaultStore, Inv;
    if a.Start? || a.p in w.procs {
      match a {
        case Start(p, call) =>
          if p !in w.procs { NewProcess(d, w, p); PutKeeps(d, w, p, Waiting(call)); }
        case Acquire(p) =>
          if w.procs[p].Waiting? && w.procs[p].call != Load && w.holder.None? { AcquireKeeps(d, w, p); }
        case Access(p, made) => AccessKeeps(d, w, p, made);
        case Fault(p, effect) => FaultKeeps(d, w, p, effect);
        case Return(p) =>
          AtProcess(d, w, p);
          if w.procs[p].Leaving? { ReleaseKeeps(d, w, p, Returned(w.procs[p].outcome, w.deletes)); }
        case Die(p) =>
          if !w.procs[p].Returned? { ReleaseKeeps(d, w, p, Dead); }
      }
    }
  }

  lemma NewProcess(d: Derive, w: World, p: nat)
    requires Inv(d, w) && p !in w.procs
    ensures w.holder != Some(p)
  {
  }

  lemma AcquireKeeps(d: Derive, w: World, p: nat)
    requires Inv(d, w) && p in w.procs && w.procs[p].Waiting? && w.holder.None?
    ensures Inv(d, Put(w, p, Entered(w.procs[p].call)).(holder := Some(p)))
  {
    hide EncodeItem, Knows;
    var w' := Put(w, p, Entered(w.procs[p].call)).(holder := Some(p));
    forall q | q in w'.procs ensures Knows(d, w', w'.procs[q]) {
      if q == p {
        EnteredKnows(d, w', w.procs[p].call);
      } else {
        KnowsSame(d, w, w', w'.procs[q]);
      }
    }
  }

  lemma EnteredKnows(d: Derive, w: World, call: Call)
    ensures Knows(d, w, Entered(call))
  {
  }

  lemma {:induction false} RunKeeps(d: Derive, w: World, actions: seq<Action>)
    requires Inv(d, w)
    ensures Inv(d, RunAll(d, w, actions))
    decreases |actions|
  {
    hide Inv, Step;
    if actions != [] {
      StepKeeps(d, w, actions[0]);
      RunKeeps(d, Step(d, w, actions[0]), actions[1..]);
    }
  }

  // ---- one call that nothing interrupts ----

  /** A call's steps one after the other; accesses it does not need change
      nothing. */
  function Alone(d: Derive, w: World, p: nat, call: Call, made: Seed): World {
    var entered := Step(d, Step(d, w, Start(p, call)), Acquire(p));
    var a := Access(p, made);
    Step(d, Step(d, Step(d, Step(d, Step(d, entered, a), a), a), a), Return(p))
  }

  lemma AloneIsRun(d: Derive, w: World, p: nat, call: Call, made: Seed)
    ensures var a := Access(p, made);
      Alone(d, w, p, call, made) == RunAll(d, w, [Start(p, call), Acquire(p), a, a, a, a, Return(p)])
  {
    hide Step;
    var a := Access(p, made);
    var w1 := Step(d, Step(d, w, Start(p, call)), Acquire(p));
    var w2 := Step(d, Step(d, w1, a), a);
    var tail := [a, a, Return(p)];
    assert RunAll(d, w2, tail) == Alone(d, w, p, call, made) by { ThreeSteps(d, w2, a, a, Return(p)); }
    assert RunAll(d, w1, [a, a] + tail) == RunAll(d, w2, tail) by { TwoSteps(d, w1, a, a, tail); }
    TwoSteps(d, w, Start(p, call), Acquire(p), [a, a] + tail);
    assert [Start(p, call), Acquire(p), a, a, a, a, Return(p)] == [Start(p, call), Acquire(p)] + ([a, a] + tail);
  }

  lemma TwoSteps(d: Derive, w: World, a: Action, b: Action, rest: seq<Action>)
    ensures RunAll(d, w, [a, b] + rest) == RunAll(d, Step(d, Step(d, w, a), b), rest)
  {
    hide Step;
    assert ([a, b] + rest)[1..] == [b] + rest && ([b] + rest)[1..] == rest;
  }

  lemma ThreeSteps(d: Derive, w: World, a: Action, b: Action, c: Action)
    ensures RunAll(d, w, [a, b, c]) == Step(d, Step(d, Step(d, w, a), b), c)
  {
    hide Step;
    TwoSteps(d, w, a, b, [c]);
    assert [a, b, c] == [a, b] + [c] && [c][1..] == [];
  }

  /** Uninterrupted, a call does to the store, and returns, what the account's
      method does. */
  lemma AloneIsCall(d: Derive, w: World, p: nat, call: Call, made: Seed)
    requires w.holder.None? && p !in w.procs
    ensures var w' := Alone(d, w, p, call, made);
      && w'.store == StoreAfter(d, call, w.store, made) && w'.holder.None?
      && w'.procs == w.procs[p := Returned(OutcomeOf(d, call, w.store, made), w'.deletes)]
  {
    hide EncodeItem, DecodeItem;
    DecodeIffEncode(d, EncodeItem(d, made), made);
    var entered := Step(d, Step(d, w, Start(p, call)), Acquire(p));
    assert entered == Put(w, p, if call == Load then Waiting(call)
        else Entered(call)).(holder := if call == Load then None else Some(p));
    AccessesFour(d, entered, p, call, made);
  }

  function FourAccesses(d: Derive, w: World, p: nat, made: Seed): World {
    var a := Access(p, made); Step(d, Step(d, Step(d, Step(d, w, a), a), a), a)
  }

  lemma AccessesFour(d: Derive, w: World, p: nat, call: Call, made: Seed)
    requires p in w.procs && w.procs[p] == if call == Load then Waiting(call) else Entered(call)
    ensures var w' := FourAccesses(d, w, p, made);
      && w'.store == StoreAfter(d, call, w.store, made) && w'.holder == w.holder
      && w'.procs == w.procs[p := var r := OutcomeOf(d, call, w.store, made); if call == Load
          then Returned(r, w'.deletes) else Leaving(r)]
  {
    hide EncodeItem, DecodeItem;
    DecodeIffEncode(d, EncodeItem(d, made), made);
  }

  // ---- the theorems ----

  /** No processes yet, whatever is stored. */
  function Initial(store: Option<bytes>): World { World(store, None, map[], 0, 0) }

  lemma InitialInv(d: Derive, store: Option<bytes>)
    ensures Inv(d, Initial(store))
  {
  }

  /** In every interleaving, a step that is not a delete leaves what is stored
      as it is. */
  lemma NeverOverwritten(d: Derive, store: Option<bytes>, actions: seq<Action>, a: Action)
    ensures var w := RunAll(d, Initial(store), actions);
      var w' := Step(d, w, a);
      && w'.writes <= 1
      && (w.store.Some? && w'.deletes == w.deletes ==> w'.store == w.store && w'.writes == w.writes)
  {
    hide EncodeItem, RunAll, LoadOf;
    var w := RunAll(d, Initial(store), actions);
    InitialInv(d, store);
    RunKeeps(d, Initial(store), actions);
    StepKeeps(d, w, a);
    if a.p in w.procs {
      AtProcess(d, w, a.p);
    }
  }

  /** While nothing is deleted, every call that returned a signer returned the
      stored key; so all of them hold the same one. */
  lemma SignersHoldTheStoredKey(d: Derive, store: Option<bytes>, actions: seq<Action>, p: nat, q: nat)
    ensures var w := RunAll(d, Initial(store), actions);
      forall s, t ::
        p in w.procs && w.procs[p] == Returned(Signer(s), w.deletes) && q in w.procs
            && w.procs[q] == Returned(Signer(t), w.deletes)
        ==> w.store == Some(EncodeItem(d, s)) && s == t
  {
    hide EncodeItem, RunAll;
    var w := RunAll(d, Initial(store), actions);
    InitialInv(d, store);
    RunKeeps(d, Initial(store), actions);
    forall s, t | p in w.procs && w.procs[p] == Returned(Signer(s), w.deletes) && q in w.procs
        && w.procs[q] == Returned(Signer(t), w.deletes)
      ensures w.store == Some(EncodeItem(d, s)) && s == t
    {
      AtProcess(d, w, p);
      AtProcess(d, w, q);
      DecodeIffEncode(d, EncodeItem(d, s), s);
      DecodeIffEncode(d, EncodeItem(d, t), t);
    }
  }
}
