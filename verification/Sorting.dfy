/** The library's stable sort by an integer key, as an insertion sort, with what the
    analysers rely on: it orders, keeps every element, leaves ordered input alone,
    and with distinct keys depends only on which elements there are. */
module Sorting {
  import opened MapSums

  ghost predicate Ordered<T>(s: seq<T>, key: T -> int)
  {
    forall i, j :: 0 <= i < j < |s| ==> key(s[i]) <= key(s[j])
  }

  ghost predicate DistinctKeys<T>(s: seq<T>, key: T -> int)
  {
    forall i, j :: 0 <= i < j < |s| ==> key(s[i]) != key(s[j])
  }

  /** Insert x behind the last element whose key is not larger. */
  function Insert<T>(s: seq<T>, x: T, key: T -> int): seq<T>
  {
    if s == [] || key(s[|s| - 1]) <= key(x) then s + [x]
    else Insert(s[..|s| - 1], x, key) + [s[|s| - 1]]
  }

  function SortBy<T>(s: seq<T>, key: T -> int): seq<T>
  {
    if s == [] then [] else Insert(SortBy(s[..|s| - 1], key), s[|s| - 1], key)
  }

  lemma SplitLast<T>(s: seq<T>)
    requires s != []
    ensures multiset(s) == multiset(s[..|s| - 1]) + multiset{s[|s| - 1]}
  {
    assert s == s[..|s| - 1] + [s[|s| - 1]];
  }

  lemma {:induction false} InsertElements<T>(s: seq<T>, x: T, key: T -> int)
    ensures multiset(Insert(s, x, key)) == multiset(s) + multiset{x}
  {
    if s != [] && key(s[|s| - 1]) > key(x) {
      InsertElements(s[..|s| - 1], x, key);
      SplitLast(s);
    }
  }

  lemma {:induction false} InsertOrders<T>(s: seq<T>, x: T, key: T -> int)
    requires Ordered(s, key)
    ensures Ordered(Insert(s, x, key), key)
    ensures forall y :: y in Insert(s, x, key) ==> y in s || y == x
  {
    if s != [] && key(s[|s| - 1]) > key(x) {
      var n := |s| - 1;
      InsertOrders(s[..n], x, key);
      var r := Insert(s[..n], x, key);
      hide Insert;
      forall i | 0 <= i < |r| ensures key(r[i]) <= key(s[n]) {
        assert r[i] in r;
        if r[i] != x {
          var k :| 0 <= k < n && s[..n][k] == r[i];
          assert s[k] == r[i];
        }
      }
    }
  }

  lemma {:induction false} SortOrders<T>(s: seq<T>, key: T -> int)
    ensures Ordered(SortBy(s, key), key)
    ensures multiset(SortBy(s, key)) == multiset(s)
  {
    if s != [] {
      var n := |s| - 1;
      SortOrders(s[..n], key);
      InsertOrders(SortBy(s[..n], key), s[n], key);
      InsertElements(SortBy(s[..n], key), s[n], key);
      assert s == s[..n] + [s[n]];
    }
  }

  lemma {:induction false} InsertCounts<T(!new)>(s: seq<T>, x: T, key: T -> int, p: T -> bool)
    ensures Count(Insert(s, x, key), p) == Count(s, p) + if p(x) then 1 else 0
  {
    if s != [] && key(s[|s| - 1]) > key(x) {
      InsertCounts(s[..|s| - 1], x, key, p);
    }
  }

  lemma {:induction false} SortKeepsCount<T(!new)>(s: seq<T>, key: T -> int, p: T -> bool)
    ensures Count(SortBy(s, key), p) == Count(s, p)
  {
    if s != [] {
      SortKeepsCount(s[..|s| - 1], key, p);
      InsertCounts(SortBy(s[..|s| - 1], key), s[|s| - 1], key, p);
    }
  }

  lemma {:induction false} SortKeepsOrdered<T>(s: seq<T>, key: T -> int)
    requires Ordered(s, key)
    ensures SortBy(s, key) == s
  {
    if s != [] {
      SortKeepsOrdered(s[..|s| - 1], key);
      assert s == s[..|s| - 1] + [s[|s| - 1]];
    }
  }

  lemma LastIsSame<T>(a: seq<T>, b: seq<T>, key: T -> int)
    requires Ordered(a, key) && Ordered(b, key) && DistinctKeys(a, key) && multiset(a) == multiset(b) && a != []
    ensures b != [] && a[|a| - 1] == b[|b| - 1]
  {
    assert a[|a| - 1] in multiset(b);
    var m, n := |b| - 1, |a| - 1;
    assert b[m] in multiset(a);
    var i :| 0 <= i < |a| && a[i] == b[m];
    var j :| 0 <= j < |b| && b[j] == a[n];
    assert key(a[i]) <= key(a[n]) && key(b[j]) <= key(b[m]);
  }

  lemma FrontsAgree<T>(a: seq<T>, b: seq<T>)
    requires a != [] && b != [] && a[|a| - 1] == b[|b| - 1] && multiset(a) == multiset(b)
    ensures multiset(a[..|a| - 1]) == multiset(b[..|b| - 1])
  {
    SplitLast(a);
    SplitLast(b);
    assert multiset(a[..|a| - 1]) == multiset(a) - multiset{a[|a| - 1]};
    assert multiset(b[..|b| - 1]) == multiset(b) - multiset{b[|b| - 1]};
  }

  /** Two ordered sequences of the same elements with distinct keys are equal. */
  lemma {:induction false} OrderedUnique<T>(a: seq<T>, b: seq<T>, key: T -> int)
    requires Ordered(a, key) && Ordered(b, key) && DistinctKeys(a, key) && multiset(a) == multiset(b)
    ensures a == b
  {
    if a == [] {
      assert |multiset(b)| == 0;
    } else {
      LastIsSame(a, b, key);
      FrontsAgree(a, b);
      OrderedUnique(a[..|a| - 1], b[..|b| - 1], key);
      assert a == a[..|a| - 1] + [a[|a| - 1]] && b == b[..|b| - 1] + [b[|b| - 1]];
    }
  }

  lemma SortDependsOnElements<T>(a: seq<T>, b: seq<T>, key: T -> int)
    requires multiset(a) == multiset(b) && DistinctKeys(SortBy(a, key), key)
    ensures SortBy(a, key) == SortBy(b, key)
  {
    SortOrders(a, key);
    SortOrders(b, key);
    OrderedUnique(SortBy(a, key), SortBy(b, key), key);
  }

  /** Any two elements at different places are related. */
  ghost predicate Pairwise<T>(s: seq<T>, rel: (T, T) -> bool)
  {
    forall i, j :: 0 <= i < j < |s| ==> rel(s[i], s[j])
  }

  lemma {:induction false} InsertKeepsPairwise<T>(s: seq<T>, x: T, key: T -> int, rel: (T, T) -> bool)
    requires Pairwise(s, rel) && forall i :: 0 <= i < |s| ==> rel(s[i], x) && rel(x, s[i])
    ensures Pairwise(Insert(s, x, key), rel)
    ensures forall y :: y in Insert(s, x, key) ==> y in s || y == x
  {
    if s != [] && key(s[|s| - 1]) > key(x) {
      var n := |s| - 1;
      InsertKeepsPairwise(s[..n], x, key, rel);
      var r := Insert(s[..n], x, key);
      hide Insert;
      forall i | 0 <= i < |r| ensures rel(r[i], s[n]) {
        assert r[i] in r;
        if r[i] != x {
          var k :| 0 <= k < n && s[..n][k] == r[i];
          assert s[k] == r[i];
        }
      }
    }
  }

  /** Sorting keeps what holds of any two elements, in whatever order. */
  lemma {:induction false} SortKeepsPairwise<T>(s: seq<T>, key: T -> int, rel: (T, T) -> bool)
    requires Pairwise(s, rel) && forall x, y :: x in s && y in s && rel(x, y) ==> rel(y, x)
    ensures Pairwise(SortBy(s, key), rel)
    ensures forall y :: y in SortBy(s, key) ==> y in s
  {
    if s != [] {
      var n := |s| - 1;
      SortKeepsPairwise(s[..n], key, rel);
      var r := SortBy(s[..n], key);
      forall i | 0 <= i < |r| ensures rel(r[i], s[n]) && rel(s[n], r[i]) {
        assert r[i] in r;
        var k :| 0 <= k < n && s[..n][k] == r[i];
        assert s[k] == r[i] && s[k] in s && s[n] in s;
      }
      InsertKeepsPairwise(r, s[n], key, rel);
      forall y | y in SortBy(s, key) ensures y in s {
        if y != s[n] {
          var k :| 0 <= k < n && s[..n][k] == y;
          assert s[k] == y;
        }
      }
    }
  }

  lemma SortKeepsDistinct<T>(s: seq<T>, key: T -> int)
    requires DistinctKeys(s, key)
    ensures DistinctKeys(SortBy(s, key), key)
  {
    var rel := (x: T, y: T) => key(x) != key(y);
    SortKeepsPairwise(s, key, rel);
    assert Pairwise(SortBy(s, key), rel);
    assert forall i, j :: 0 <= i < j < |SortBy(s, key)| ==> rel(SortBy(s, key)[i], SortBy(s, key)[j]);
  }

  // ---- stability -----------------------------------------------------------

  /** The elements with key k, in their order. */
  function WithKey<T>(s: seq<T>, key: T -> int, k: int): seq<T>
  {
    if s == [] then []
    else
      var n := |s| - 1;
      WithKey(s[..n], key, k) + if key(s[n]) == k then [s[n]] else []
  }

  lemma WithKeyAppend<T>(s: seq<T>, x: T, key: T -> int, k: int)
    ensures WithKey(s + [x], key, k) == WithKey(s, key, k) + if key(x) == k then [x] else []
  {
    assert (s + [x])[..|s|] == s;
  }

  lemma {:induction false} InsertIsStable<T>(s: seq<T>, x: T, key: T -> int, k: int)
    ensures WithKey(Insert(s, x, key), key, k) == WithKey(s + [x], key, k)
  {
    hide WithKey;
    if s != [] && key(s[|s| - 1]) > key(x) {
      var n := |s| - 1;
      InsertIsStable(s[..n], x, key, k);
      WithKeyAppend(Insert(s[..n], x, key), s[n], key, k);
      WithKeyAppend(s[..n], x, key, k);
      WithKeyAppend(s[..n], s[n], key, k);
      WithKeyAppend(s, x, key, k);
      assert s == s[..n] + [s[n]];
    }
  }

  /** Elements with equal keys keep their order. */
  lemma {:induction false} SortIsStable<T>(s: seq<T>, key: T -> int, k: int)
    ensures WithKey(SortBy(s, key), key, k) == WithKey(s, key, k)
  {
    if s != [] {
      var n := |s| - 1;
      SortIsStable(s[..n], key, k);
      InsertIsStable(SortBy(s[..n], key), s[n], key, k);
      WithKeyAppend(SortBy(s[..n], key), s[n], key, k);
      hide Insert;
    }
  }

  lemma {:induction false} InWithKey<T>(s: seq<T>, key: T -> int, k: int, x: T)
    ensures x in WithKey(s, key, k) <==> x in s && key(x) == k
  {
    if s != [] {
      var n := |s| - 1;
      InWithKey(s[..n], key, k, x);
      assert s == s[..n] + [s[n]];
    }
  }

  ghost predicate SameByKey<T(!new)>(a: seq<T>, b: seq<T>, key: T -> int)
  {
    forall k :: WithKey(a, key, k) == WithKey(b, key, k)
  }

  lemma LastWithKey<T>(s: seq<T>, key: T -> int)
    requires s != []
    ensures var x := s[|s| - 1];
      var w := WithKey(s, key, key(x));
      w != [] && w[|w| - 1] == x
  {}

  lemma NoLargerKey<T(!new)>(a: seq<T>, b: seq<T>, key: T -> int)
    requires Ordered(a, key) && b != [] && SameByKey(a, b, key)
    ensures a != [] && key(b[|b| - 1]) <= key(a[|a| - 1])
  {
    hide WithKey;
    var y := b[|b| - 1];
    assert WithKey(a, key, key(y)) == WithKey(b, key, key(y));
    InWithKey(a, key, key(y), y);
    InWithKey(b, key, key(y), y);
  }

  lemma LastsAgree<T(!new)>(a: seq<T>, b: seq<T>, key: T -> int)
    requires Ordered(a, key) && Ordered(b, key) && a != [] && SameByKey(a, b, key)
    ensures b != [] && a[|a| - 1] == b[|b| - 1]
  {
    hide WithKey, Ordered;
    NoLargerKey(b, a, key);
    NoLargerKey(a, b, key);
    LastWithKey(a, key);
    LastWithKey(b, key);
    assert WithKey(a, key, key(a[|a| - 1])) == WithKey(b, key, key(a[|a| - 1]));
  }

  lemma Cancel<T>(u: seq<T>, v: seq<T>, t: seq<T>)
    requires u + t == v + t
    ensures u == v
  {
    assert |u + t| == |v + t| && u == (u + t)[..|u|] && v == (v + t)[..|v|];
  }

  lemma FrontsSameByKey<T(!new)>(a: seq<T>, b: seq<T>, key: T -> int)
    requires a != [] && b != [] && a[|a| - 1] == b[|b| - 1] && SameByKey(a, b, key)
    ensures SameByKey(a[..|a| - 1], b[..|b| - 1], key)
  {
    hide WithKey;
    var m, n := |a| - 1, |b| - 1;
    assert a == a[..m] + [a[m]] && b == b[..n] + [b[n]];
    forall k ensures WithKey(a[..m], key, k) == WithKey(b[..n], key, k) {
      assert WithKey(a, key, k) == WithKey(b, key, k);
      WithKeyAppend(a[..m], a[m], key, k);
      WithKeyAppend(b[..n], b[n], key, k);
      Cancel(WithKey(a[..m], key, k), WithKey(b[..n], key, k), if key(a[m]) == k then [a[m]] else []);
    }
  }

  lemma {:induction false} OrderedByKeys<T(!new)>(a: seq<T>, b: seq<T>, key: T -> int)
    requires Ordered(a, key) && Ordered(b, key) && SameByKey(a, b, key)
    ensures a == b
  {
    hide SameByKey, WithKey;
    if a == [] {
      if b != [] {
        NoLargerKey(a, b, key);
      }
    } else {
      LastsAgree(a, b, key);
      FrontsSameByKey(a, b, key);
      OrderedByKeys(a[..|a| - 1], b[..|b| - 1], key);
      assert a == a[..|a| - 1] + [a[|a| - 1]] && b == b[..|b| - 1] + [b[|b| - 1]];
    }
  }

  /** Two sequences sort to the same one if and only if, for every key, their elements with
      that key come in the same order. */
  lemma SortsAlikeIff<T(!new)>(a: seq<T>, b: seq<T>, key: T -> int)
    ensures SortBy(a, key) == SortBy(b, key) <==> SameByKey(a, b, key)
  {
    hide SortBy, WithKey;
    SortOrders(a, key);
    SortOrders(b, key);
    forall k ensures WithKey(SortBy(a, key), key, k) == WithKey(a, key, k) {
      SortIsStable(a, key, k);
    }
    forall k ensures WithKey(SortBy(b, key), key, k) == WithKey(b, key, k) {
      SortIsStable(b, key, k);
    }
    if SameByKey(a, b, key) {
      assert SameByKey(SortBy(a, key), SortBy(b, key), key);
      OrderedByKeys(SortBy(a, key), SortBy(b, key), key);
    }
  }
}
