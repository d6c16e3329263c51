/** A stable sort by key, as the source's `sorted(..., key=...)`, on keys of up to three numbers. */
module Sorting {
  import opened Bytes

  type Key = (int, int, int)

  predicate Leq(a: Key, b: Key) {
    a.0 < b.0 || (a.0 == b.0 && (a.1 < b.1 || (a.1 == b.1 && a.2 <= b.2)))
  }

  ghost predicate Ordered<T>(xs: seq<T>, key: T -> Key) {
    forall i, j :: 0 <= i < j < |xs| ==> Leq(key(xs[i]), key(xs[j]))
  }

  function Insert<T>(x: T, xs: seq<T>, key: T -> Key): seq<T> {
    if xs == [] || Leq(key(x), key(xs[0])) then [x] + xs else [xs[0]] + Insert(x, xs[1..], key)
  }

  function Sort<T>(xs: seq<T>, key: T -> Key): seq<T> {
    if xs == [] then [] else Insert(xs[0], Sort(xs[1..], key), key)
  }

  /** The elements with key `k`, in order. */
  ghost function Select<T>(xs: seq<T>, key: T -> Key, k: Key): seq<T> {
    if xs == [] then [] else (if key(xs[0]) == k then [xs[0]] else []) + Select(xs[1..], key, k)
  }

  /** Both lists have the same elements of each key, in the same order. */
  ghost predicate SameSelections<T>(a: seq<T>, b: seq<T>, key: T -> Key) {
    forall k :: Select(a, key, k) == Select(b, key, k)
  }

  lemma {:induction false} InsertProperties<T>(x: T, xs: seq<T>, key: T -> Key)
    requires Ordered(xs, key)
    ensures multiset(Insert(x, xs, key)) == multiset([x]) + multiset(xs)
    ensures |Insert(x, xs, key)| == |xs| + 1
    ensures Ordered(Insert(x, xs, key), key)
    decreases |xs|
  {
    if xs == [] || Leq(key(x), key(xs[0])) {
    } else {
      var rest := Insert(x, xs[1..], key);
      InsertProperties(x, xs[1..], key);
      assert xs == [xs[0]] + xs[1..];
      forall j | 0 <= j < |rest|
        ensures Leq(key(xs[0]), key(rest[j]))
      {
        assert rest[j] in multiset(rest);
        assert rest[j] == x || rest[j] in xs[1..];
      }
    }
  }

  lemma {:induction false} SortProperties<T>(xs: seq<T>, key: T -> Key)
    ensures multiset(Sort(xs, key)) == multiset(xs)
    ensures |Sort(xs, key)| == |xs|
    ensures Ordered(Sort(xs, key), key)
    decreases |xs|
  {
    if xs != [] {
      SortProperties(xs[1..], key);
      InsertProperties(xs[0], Sort(xs[1..], key), key);
      assert xs == [xs[0]] + xs[1..];
    }
  }

  lemma {:induction false} InsertStable<T>(x: T, xs: seq<T>, key: T -> Key, k: Key)
    ensures Select(Insert(x, xs, key), key, k) == Select([x] + xs, key, k)
    decreases |xs|
  {
    if xs == [] || Leq(key(x), key(xs[0])) {
    } else {
      InsertStable(x, xs[1..], key, k);
      assert ([x] + xs)[1..] == xs;
      assert ([x] + xs[1..])[1..] == xs[1..];
      assert ([xs[0]] + Insert(x, xs[1..], key))[1..] == Insert(x, xs[1..], key);
    }
  }

  /** Elements with equal keys keep their order. */
  lemma {:induction false} SortStable<T>(xs: seq<T>, key: T -> Key, k: Key)
    ensures Select(Sort(xs, key), key, k) == Select(xs, key, k)
    decreases |xs|
  {
    if xs != [] {
      SortStable(xs[1..], key, k);
      var rest := Sort(xs[1..], key);
      InsertStable(xs[0], rest, key, k);
      assert ([xs[0]] + rest)[1..] == rest;
    }
  }

  /** An ordered list is determined by the sublists of its keys. */
  lemma {:induction false} OrderedUnique<T>(a: seq<T>, b: seq<T>, key: T -> Key)
    requires Ordered(a, key) && Ordered(b, key)
    requires SameSelections(a, b, key)
    ensures a == b
    decreases |a|
  {
    if a == [] {
      if b != [] {
        SelectNonempty(b, a, key);
      }
    } else {
      SelectNonempty(a, b, key);
      SelectNonempty(b, a, key);
      var least := key(a[0]);
      assert key(b[0]) == least;
      assert Select(a, key, least)[0] == a[0] && Select(b, key, least)[0] == b[0];
      SelectTails(a, b, key);
      OrderedUnique(a[1..], b[1..], key);
      assert a == [a[0]] + a[1..] && b == [b[0]] + b[1..];
    }
  }

  lemma SelectTails<T>(a: seq<T>, b: seq<T>, key: T -> Key)
    requires a != [] && b != [] && a[0] == b[0] && SameSelections(a, b, key)
    ensures SameSelections(a[1..], b[1..], key)
  {
    forall k
      ensures Select(a[1..], key, k) == Select(b[1..], key, k)
    {
      var head := if key(a[0]) == k then [a[0]] else [];
      assert Select(a, key, k) == head + Select(a[1..], key, k);
      assert Select(b, key, k) == head + Select(b[1..], key, k);
      assert Select(a, key, k) == Select(b, key, k);
      assert Select(a[1..], key, k) == Select(a, key, k)[|head|..];
      assert Select(b[1..], key, k) == Select(b, key, k)[|head|..];
    }
  }

  /** The least key of `a` is one of `b`'s, so `b` starts no later. */
  lemma SelectNonempty<T>(a: seq<T>, b: seq<T>, key: T -> Key)
    requires a != [] && Ordered(b, key)
    requires SameSelections(a, b, key)
    ensures b != [] && Leq(key(b[0]), key(a[0]))
  {
    assert Select(b, key, key(a[0])) == Select(a, key, key(a[0])) != [];
    SelectFinds(b, key, key(a[0]));
  }

  lemma {:induction false} SelectFinds<T>(xs: seq<T>, key: T -> Key, k: Key)
    ensures Select(xs, key, k) != [] <==> exists i :: 0 <= i < |xs| && key(xs[i]) == k
    decreases |xs|
  {
    if xs != [] {
      SelectFinds(xs[1..], key, k);
      if i :| 0 <= i < |xs[1..]| && key(xs[1..][i]) == k {
        assert key(xs[i + 1]) == k;
      }
      if i :| 0 <= i < |xs| && key(xs[i]) == k && i > 0 {
        assert key(xs[1..][i - 1]) == k;
      }
    }
  }

  /** Sorting leaves an ordered list alone. */
  lemma SortOrdered<T>(xs: seq<T>, key: T -> Key)
    requires Ordered(xs, key)
    ensures Sort(xs, key) == xs
  {
    SortProperties(xs, key);
    forall k
      ensures Select(Sort(xs, key), key, k) == Select(xs, key, k)
    {
      SortStable(xs, key, k);
    }
    OrderedUnique(Sort(xs, key), xs, key);
  }

  /** Sorting two lists gives the same result exactly when they agree on the order of equal keys. */
  lemma SortEqual<T>(a: seq<T>, b: seq<T>, key: T -> Key)
    ensures Sort(a, key) == Sort(b, key) <==> SameSelections(a, b, key)
  {
    forall k
      ensures Select(Sort(a, key), key, k) == Select(a, key, k)
      ensures Select(Sort(b, key), key, k) == Select(b, key, k)
    {
      SortStable(a, key, k);
      SortStable(b, key, k);
    }
    if SameSelections(a, b, key) {
      SortProperties(a, key);
      SortProperties(b, key);
      assert SameSelections(Sort(a, key), Sort(b, key), key);
      OrderedUnique(Sort(a, key), Sort(b, key), key);
    }
  }

  lemma {:induction false} SelectMultiset<T>(xs: seq<T>, key: T -> Key, k: Key, x: T)
    ensures multiset(Select(xs, key, k))[x] == if key(x) == k then multiset(xs)[x] else 0
    decreases |xs|
  {
    if xs != [] {
      SelectMultiset(xs[1..], key, k, x);
      assert xs == [xs[0]] + xs[1..];
    }
  }

  // ----------------------------------------------------------- sets in ascending order

  ghost predicate Increasing(xs: seq<int>) {
    forall i, j :: 0 <= i < j < |xs| ==> xs[i] < xs[j]
  }

  predicate Least(x: Selector, s: set<Selector>) {
    x in s && forall y :: y in s ==> x <= y
  }

  lemma {:induction false} LeastExists(s: set<Selector>)
    requires s != {}
    ensures exists x :: Least(x, s)
    decreases |s|
  {
    var x: Selector :| x in s;
    if s == {x} {
      assert Least(x, s);
    } else {
      LeastExists(s - {x});
      var y :| Least(y, s - {x});
      assert s == (s - {x}) + {x};
      assert Least(x, s) || Least(y, s);
    }
  }

  /** `sorted(s)`. */
  function Ascending(s: set<Selector>): (xs: seq<Selector>)
    decreases |s|
  {
    if s == {} then [] else
    LeastExists(s);
    var x :| Least(x, s);
    [x] + Ascending(s - {x})
  }

  lemma {:induction false} AscendingProperties(s: set<Selector>)
    ensures Increasing(Ascending(s))
    ensures forall x :: x in Ascending(s) <==> x in s
    ensures |Ascending(s)| == |s|
    decreases |s|
  {
    if s != {} {
      LeastExists(s);
      var x := Ascending(s)[0];
      AscendingProperties(s - {x});
      assert Ascending(s) == [x] + Ascending(s - {x}) && Least(x, s);
      LeastFirst(x, s, Ascending(s - {x}));
    }
  }

  lemma LeastFirst(x: Selector, s: set<Selector>, rest: seq<Selector>)
    requires Least(x, s) && Increasing(rest) && |rest| == |s - {x}|
    requires forall y :: y in rest <==> y in s - {x}
    ensures Increasing([x] + rest) && |[x] + rest| == |s|
    ensures forall y :: y in [x] + rest <==> y in s
  {
    forall j | 0 <= j < |rest|
      ensures x < rest[j]
    {
      assert rest[j] in rest;
    }
  }

  /** An increasing list is determined by its elements. */
  lemma {:induction false} IncreasingUnique(a: seq<int>, b: seq<int>)
    requires Increasing(a) && Increasing(b)
    requires forall x :: x in a <==> x in b
    ensures a == b
    decreases |a|
  {
    assert a != [] ==> a[0] in a;
    assert b != [] ==> b[0] in b;
    if a != [] && b != [] {
      var i :| 0 <= i < |b| && b[i] == a[0];
      var j :| 0 <= j < |a| && a[j] == b[0];
      assert a[0] == b[0];
      forall x
        ensures x in a[1..] <==> x in b[1..]
      {
        IncreasingTail(a, x);
        IncreasingTail(b, x);
      }
      IncreasingUnique(a[1..], b[1..]);
      assert a == [a[0]] + a[1..] && b == [b[0]] + b[1..];
    }
  }

  lemma IncreasingTail(a: seq<int>, x: int)
    requires Increasing(a) && a != []
    ensures x in a[1..] <==> x in a && x != a[0]
  {
    if x in a && x != a[0] {
      var i :| 0 <= i < |a| && a[i] == x;
      assert a[1..][i - 1] == x;
    }
  }

  /** A set of numbers below `n` has at most `n` of them. */
  lemma {:induction false} SubsetSize(s: set<int>, n: nat)
    requires forall x :: x in s ==> 0 <= x < n
    ensures |s| <= n
    decreases n
  {
    if n == 0 {
      assert forall x :: x !in s;
      assert s == {};
    } else {
      SubsetSize(s - {n - 1}, n - 1);
      assert s <= (s - {n - 1}) + {n - 1};
      assert |s| <= |s - {n - 1}| + 1;
    }
  }
}
