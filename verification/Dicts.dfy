/** Dictionaries keyed by a document's hash, as insertion-ordered lists. */
module Dicts {
  import opened Bytes

  /** `d[key(x)] = x`: replaces in place, or appends. */
  function Upsert<T>(key: T -> bytes, xs: seq<T>, x: T): (r: seq<T>)
    ensures r != []
  {
    if xs == [] then [x]
    else if key(xs[0]) == key(x) then [x] + xs[1..]
    else [xs[0]] + Upsert(key, xs[1..], x)
  }

  function Dict<T>(key: T -> bytes, xs: seq<T>): seq<T> {
    if xs == [] then [] else Upsert(key, Dict(key, xs[..|xs| - 1]), xs[|xs| - 1])
  }

  /** No two documents of the list share a hash. */
  predicate NoCollision<T(==)>(key: T -> bytes, xs: seq<T>) {
    forall i, j :: 0 <= i < |xs| && 0 <= j < |xs| && key(xs[i]) == key(xs[j]) ==> xs[i] == xs[j]
  }

  lemma {:induction false} UpsertMembers<T>(key: T -> bytes, xs: seq<T>, x: T)
    requires forall i :: 0 <= i < |xs| && key(xs[i]) == key(x) ==> xs[i] == x
    ensures forall y :: y in Upsert(key, xs, x) <==> y in xs || y == x
  {
    if xs != [] && key(xs[0]) != key(x) {
      UpsertMembers(key, xs[1..], x);
      assert forall y :: y in xs <==> y == xs[0] || y in xs[1..];
    }
  }

  /** Without collisions, the dictionary holds exactly the documents of the
      list, whatever their order and number. */
  lemma {:induction false} DictMembers<T(!new)>(key: T -> bytes, xs: seq<T>)
    requires NoCollision(key, xs)
    ensures forall y :: y in Dict(key, xs) <==> y in xs
  {
    if xs != [] {
      var n := |xs| - 1;
      DictMembers(key, xs[..n]);
      var d := Dict(key, xs[..n]);
      assert forall y :: y in d <==> y in xs[..n];
      forall i | 0 <= i < |d| && key(d[i]) == key(xs[n]) ensures d[i] == xs[n] {
        assert d[i] in xs[..n];
        var j :| 0 <= j < n && xs[j] == d[i];
      }
      UpsertMembers(key, Dict(key, xs[..n]), xs[n]);
      assert forall y :: y in xs <==> y in xs[..n] || y == xs[n];
    }
  }
}
