/** Stable sorting by a key, for the canonical order of encoded
    map keys and for the order of a `BTreeMap`. */
module Sorting {
  import opened Bytes

  type Order<!K> = (K, K) -> bool

  ghost predicate StrictOrder<K(!new)>(less: Order<K>) {
    && (forall a, b :: less(a, b) ==> !less(b, a))
    && (forall a, b :: a != b ==> less(a, b) || less(b, a))
    && (forall a, b, c :: less(a, b) && less(b, c) ==> less(a, c))
  }

  lemma OrdersAreStrict()
    ensures StrictOrder(KeyLess) && StrictOrder(LexLess)
  {
    forall a, b ensures KeyLess(a, b) ==> !KeyLess(b, a)
      ensures a != b ==> KeyLess(a, b) || KeyLess(b, a)
      ensures LexLess(a, b) ==> !LexLess(b, a)
      ensures a != b ==> LexLess(a, b) || LexLess(b, a)
    {
      KeyStrict(a, b);
      LexStrict(a, b);
    }
    forall a, b, c | KeyLess(a, b) && KeyLess(b, c) ensures KeyLess(a, c) { KeyTransitive(a, b, c); }
    forall a, b, c | LexLess(a, b) && LexLess(b, c) ensures LexLess(a, c) { LexTransitive(a, b, c); }
  }

  predicate Sorted<T, K>(less: Order<K>, key: T -> K, s: seq<T>) {
    forall i, j :: 0 <= i < j < |s| ==> less(key(s[i]), key(s[j]))
  }

  predicate DistinctKeys<T, K(==)>(key: T -> K, s: seq<T>) {
    forall i, j :: 0 <= i < j < |s| ==> key(s[i]) != key(s[j])
  }

  function Insert<T, K>(less: Order<K>, key: T -> K, x: T, s: seq<T>): (r: seq<T>)
    ensures multiset(r) == multiset(s) + multiset{x} && |r| == |s| + 1
  {
    if s == [] then [x]
    else if less(key(s[0]), key(x)) then
      assert s == [s[0]] + s[1..];
      [s[0]] + Insert(less, key, x, s[1..])
    else [x] + s
  }

  /** `sort_by` on the key: equal keys keep their order. */
  function Sort<T, K>(less: Order<K>, key: T -> K, s: seq<T>): (r: seq<T>)
    ensures multiset(r) == multiset(s) && |r| == |s|
  {
    if s == [] then []
    else
      assert s == [s[0]] + s[1..];
      Insert(less, key, s[0], Sort(less, key, s[1..]))
  }

  lemma SameElements<T>(r: seq<T>, s: seq<T>)
    requires multiset(r) == multiset(s)
    ensures |r| == |s|
    ensures forall x :: x in r <==> x in s
  {
    assert |multiset(r)| == |multiset(s)|;
    forall x ensures x in r <==> x in s {
      assert x in multiset(r) <==> x in multiset(s);
    }
  }

  lemma PrependSorted<T, K>(less: Order<K>, key: T -> K, x: T, s: seq<T>)
    requires Sorted(less, key, s) && forall y :: y in s ==> less(key(x), key(y))
    ensures Sorted(less, key, [x] + s)
  {
    var r := [x] + s;
    forall i, j | 0 <= i < j < |r| ensures less(key(r[i]), key(r[j])) {
      assert r[j] == s[j - 1];
      assert i > 0 ==> r[i] == s[i - 1];
    }
  }

  lemma SortedTail<T, K>(less: Order<K>, key: T -> K, s: seq<T>)
    requires Sorted(less, key, s) && s != []
    ensures Sorted(less, key, s[1..]) && forall y :: y in s[1..] ==> less(key(s[0]), key(y))
  {
  }

  lemma {:induction false} InsertSorted<T, K(!new)>(less: Order<K>, key: T -> K, x: T, s: seq<T>)
    requires StrictOrder(less) && Sorted(less, key, s) && forall y :: y in s ==> key(y) != key(x)
    ensures Sorted(less, key, Insert(less, key, x, s))
  {
    hide Sorted;
    if s == [] {
      PrependSorted(less, key, x, s) by { assert Sorted(less, key, s); }
      assert [x] + s == [x];
    } else if less(key(s[0]), key(x)) {
      SortedTail(less, key, s);
      var rest := Insert(less, key, x, s[1..]);
      InsertSorted(less, key, x, s[1..]);
      forall y | y in rest ensures less(key(s[0]), key(y)) {
        assert y in multiset(rest);
        if y != x {
          assert y in multiset(s[1..]);
        }
      }
      PrependSorted(less, key, s[0], rest);
    } else {
      SortedTail(less, key, s);
      forall y | y in s ensures less(key(x), key(y)) {
        assert less(key(x), key(s[0]));
        assert y == s[0] || y in s[1..];
      }
      PrependSorted(less, key, x, s);
    }
  }

  /** With distinct keys, sorting gives a strictly increasing sequence. */
  lemma {:induction false} SortSorts<T, K(!new)>(less: Order<K>, key: T -> K, s: seq<T>)
    requires StrictOrder(less) && DistinctKeys(key, s)
    ensures Sorted(less, key, Sort(less, key, s))
  {
    if s != [] {
      var rest := Sort(less, key, s[1..]);
      SortSorts(less, key, s[1..]);
      forall y | y in rest ensures key(y) != key(s[0]) {
        assert y in multiset(rest);
        assert y in multiset(s[1..]);
        var i :| 0 <= i < |s[1..]| && s[1..][i] == y;
        assert s[i + 1] == y;
      }
      InsertSorted(less, key, s[0], rest);
    }
  }

  lemma HeadsAgree<T, K(!new)>(less: Order<K>, key: T -> K, a: seq<T>, b: seq<T>)
    requires StrictOrder(less) && Sorted(less, key, a) && Sorted(less, key, b)
    requires a != [] && b != [] && a[0] in b && b[0] in a
    ensures a[0] == b[0]
  {
    var i :| 0 <= i < |b| && b[i] == a[0];
    var j :| 0 <= j < |a| && a[j] == b[0];
    if i > 0 && j > 0 {
      assert false;
    }
  }

  /** A strictly sorted sequence is determined by its elements. */
  lemma {:induction false} SortedUnique<T, K(!new)>(less: Order<K>, key: T -> K, a: seq<T>, b: seq<T>)
    requires StrictOrder(less) && Sorted(less, key, a) && Sorted(less, key, b)
    requires multiset(a) == multiset(b)
    ensures a == b
  {
    hide StrictOrder, Sorted;
    SameElements(a, b);
    if a != [] {
      HeadsAgree(less, key, a, b);
      SortedTail(less, key, a);
      SortedTail(less, key, b);
      SameTails(a, b);
      SortedUnique(less, key, a[1..], b[1..]);
    }
  }

  lemma SameTails<T>(a: seq<T>, b: seq<T>)
    requires a != [] && b != [] && multiset(a) == multiset(b) && a[0] == b[0]
    ensures multiset(a[1..]) == multiset(b[1..])
    ensures a[1..] == b[1..] ==> a == b
  {
    var x := a[0];
    assert a == [x] + a[1..] && b == [x] + b[1..];
    assert multiset(a[1..]) == multiset(a) - multiset{x};
    assert multiset(b[1..]) == multiset(b) - multiset{x};
  }

  function MapSeq<T, U>(f: T -> U, s: seq<T>): (r: seq<U>)
    ensures |r| == |s| && forall i :: 0 <= i < |s| ==> r[i] == f(s[i])
  {
    if s == [] then [] else [f(s[0])] + MapSeq(f, s[1..])
  }

  lemma {:induction false} InsertCommutes<T(!new), U, K>(less: Order<K>, key: T -> K, key': U -> K, f: T -> U, x: T,
      s: seq<T>)
    requires forall y :: key'(f(y)) == key(y)
    ensures Insert(less, key', f(x), MapSeq(f, s)) == MapSeq(f, Insert(less, key, x, s))
  {
    if s != [] && less(key(s[0]), key(x)) {
      InsertCommutes(less, key, key', f, x, s[1..]);
      assert MapSeq(f, s)[1..] == MapSeq(f, s[1..]);
    }
  }

  /** Sorting commutes with any map that keeps keys. */
  lemma {:induction false} SortCommutes<T(!new), U, K>(less: Order<K>, key: T -> K, key': U -> K, f: T -> U, s: seq<T>)
    requires forall y :: key'(f(y)) == key(y)
    ensures Sort(less, key', MapSeq(f, s)) == MapSeq(f, Sort(less, key, s))
  {
    if s != [] {
      SortCommutes(less, key, key', f, s[1..]);
      InsertCommutes(less, key, key', f, s[0], Sort(less, key, s[1..]));
      assert MapSeq(f, s)[1..] == MapSeq(f, s[1..]);
    }
  }
}
