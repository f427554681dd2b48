/** Sums over the entries of a finite map, independent of any order, and counts over a
    sequence. */
module MapSums {
  /** How many elements of s satisfy p. */
  ghost function Count<T(!new)>(s: seq<T>, p: T -> bool): nat
  {
    if s == [] then 0 else Count(s[..|s| - 1], p) + if p(s[|s| - 1]) then 1 else 0
  }

  /** The sum of f over the elements of s. */
  ghost function Total<T(!new)>(s: seq<T>, f: T -> nat): nat
  {
    if s == [] then 0 else Total(s[..|s| - 1], f) + f(s[|s| - 1])
  }

  /** In a sequence of different elements, changing f at q alone changes the sum by as much. */
  lemma {:induction false} TotalChanges<T(!new)>(s: seq<T>, f: T -> nat, g: T -> nat, q: T, d: nat)
    requires forall i, j :: 0 <= i < j < |s| ==> s[i] != s[j]
    requires forall x :: x in s ==> g(x) == f(x) + if x == q then d else 0
    ensures Total(s, g) == Total(s, f) + if q in s then d else 0
  {
    if s != [] {
      var n := |s| - 1;
      TotalChanges(s[..n], f, g, q, d);
      assert s[n] in s && s == s[..n] + [s[n]];
      assert q in s <==> q in s[..n] || q == s[n];
      assert forall i :: 0 <= i < n ==> s[..n][i] == s[i] != s[n];
    }
  }

  /** Some key of a map that is not empty. */
  ghost function Pick<K(!new), V>(m: map<K, V>): (k: K)
    requires m != map[]
    ensures k in m
  {
    var k :| k in m;
    k
  }

  /** The sum of weight(v) over the values v of m. */
  ghost function Sum<K(!new), V(!new)>(m: map<K, V>, weight: V -> nat): (total: nat)
    decreases |m|
  {
    if m == map[] then 0
    else
      var k := Pick(m);
      weight(m[k]) + Sum(m - {k}, weight)
  }

  /** Which entry is taken out first does not matter. */
  lemma {:induction false} SumWithout<K(!new), V(!new)>(m: map<K, V>, weight: V -> nat, x: K)
    requires x in m
    ensures Sum(m, weight) == weight(m[x]) + Sum(m - {x}, weight)
    decreases |m|
  {
    hide Pick;
    var k := Pick(m);
    if k != x {
      SumWithout(m - {k}, weight, x);
      SumWithout(m - {x}, weight, k);
      assert m - {k} - {x} == m - {x} - {k};
    }
  }

  /** Dict assignment: a new key adds its weight, an old key swaps weights. */
  lemma SumAfterPut<K(!new), V(!new)>(m: map<K, V>, weight: V -> nat, x: K, v: V)
    ensures Sum(m[x := v], weight) + (if x in m then weight(m[x]) else 0) == Sum(m, weight) + weight(v)
  {
    SumWithout(m[x := v], weight, x);
    assert m[x := v] - {x} == m - {x};
    if x in m {
      SumWithout(m, weight, x);
    } else {
      assert m - {x} == m;
    }
  }

  /** The multiset of the images of all entries. */
  ghost function Bag<K(!new), V(!new), R(!new)>(m: map<K, V>, f: V -> R): (b: multiset<R>)
    decreases |m|
  {
    if m == map[] then multiset{}
    else
      var k := Pick(m);
      multiset{f(m[k])} + Bag(m - {k}, f)
  }

  lemma Swap<R>(a: multiset<R>, b: multiset<R>, c: multiset<R>)
    ensures a + (b + c) == b + (a + c)
  {}

  lemma BagUnfold<K(!new), V(!new), R(!new)>(m: map<K, V>, f: V -> R)
    requires m != map[]
    ensures Bag(m, f) == multiset{f(m[Pick(m)])} + Bag(m - {Pick(m)}, f)
  {
    hide Pick;
  }

  lemma {:induction false} BagWithout<K(!new), V(!new), R(!new)>(m: map<K, V>, f: V -> R, x: K)
    requires x in m
    ensures Bag(m, f) == multiset{f(m[x])} + Bag(m - {x}, f)
    decreases |m|
  {
    hide Pick, Bag;
    var k := Pick(m);
    BagUnfold(m, f);
    if k != x {
      BagWithout(m - {k}, f, x);
      BagWithout(m - {x}, f, k);
      assert m - {k} - {x} == m - {x} - {k};
      Swap(multiset{f(m[k])}, multiset{f(m[x])}, Bag(m - {x} - {k}, f));
    }
  }
}
