/**
 * The DataFrame operations the handlers use, over sequences of rows:
 * column sums, boolean-mask filtering and `sort_values` on a composite key.
 */
module Tables {

  /** `df[col].sum()` where `f` reads the column from a row. */
  function Sum<T>(xs: seq<T>, f: T -> real): real
    decreases |xs|
  {
    if |xs| == 0 then 0.0 else f(xs[0]) + Sum(xs[1..], f)
  }

  /** `df[mask]`: the rows the mask keeps, in their original order. */
  function Filter<T(!new)>(xs: seq<T>, p: T -> bool): (ys: seq<T>)
    ensures |ys| <= |xs|
    ensures forall i :: 0 <= i < |ys| ==> p(ys[i])
    ensures forall x {:trigger multiset(ys)[x]} :: multiset(ys)[x] == if p(x) then multiset(xs)[x] else 0
    decreases |xs|
  {
    if |xs| == 0 then []
    else
      var rest := Filter(xs[1..], p);
      assert xs == [xs[0]] + xs[1..];
      if p(xs[0]) then [xs[0]] + rest else rest
  }

  /** The mask's verdict on the first row, then the rest of the table filtered. */
  lemma FilterCons<T(!new)>(xs: seq<T>, p: T -> bool)
    requires |xs| > 0
    ensures Filter(xs, p) == (if p(xs[0]) then [xs[0]] else []) + Filter(xs[1..], p)
  {
  }

  lemma {:induction false} SumAppend<T>(xs: seq<T>, ys: seq<T>, f: T -> real)
    ensures Sum(xs + ys, f) == Sum(xs, f) + Sum(ys, f)
    decreases |xs|
  {
    if |xs| > 0 {
      SumAppend(xs[1..], ys, f);
      assert (xs + ys)[1..] == xs[1..] + ys;
    } else {
      assert xs + ys == ys;
    }
  }

  /** Splitting a table by a mask and its negation keeps the column total. */
  lemma {:induction false} SumPartition<T(!new)>(xs: seq<T>, p: T -> bool, f: T -> real)
    ensures Sum(Filter(xs, p), f) + Sum(Filter(xs, x => !p(x)), f) == Sum(xs, f)
    decreases |xs|
  {
    if |xs| > 0 {
      SumPartition(xs[1..], p, f);
    }
  }

  /** Splitting a table by two complementary masks keeps the column total. */
  lemma {:induction false} SumSplit<T(!new)>(xs: seq<T>, p: T -> bool, q: T -> bool, f: T -> real)
    requires forall i :: 0 <= i < |xs| ==> q(xs[i]) == !p(xs[i])
    ensures Sum(Filter(xs, p), f) + Sum(Filter(xs, q), f) == Sum(xs, f)
    decreases |xs|
  {
    if |xs| > 0 {
      SumSplit(xs[1..], p, q, f);
    }
  }

  /** Rows the mask drops contribute nothing when the column is zero on them. */
  lemma {:induction false} SumFilterZero<T(!new)>(xs: seq<T>, p: T -> bool, f: T -> real)
    requires forall i :: 0 <= i < |xs| && !p(xs[i]) ==> f(xs[i]) == 0.0
    ensures Sum(Filter(xs, p), f) == Sum(xs, f)
    decreases |xs|
  {
    if |xs| > 0 {
      SumFilterZero(xs[1..], p, f);
    }
  }

  lemma {:induction false} SumNonNegative<T>(xs: seq<T>, f: T -> real)
    requires forall i :: 0 <= i < |xs| ==> f(xs[i]) >= 0.0
    ensures Sum(xs, f) >= 0.0
    decreases |xs|
  {
    if |xs| > 0 {
      SumNonNegative(xs[1..], f);
    }
  }

  lemma {:induction false} SumMonotone<T>(xs: seq<T>, f: T -> real, g: T -> real)
    requires forall i :: 0 <= i < |xs| ==> f(xs[i]) <= g(xs[i])
    ensures Sum(xs, f) <= Sum(xs, g)
    decreases |xs|
  {
    if |xs| > 0 {
      SumMonotone(xs[1..], f, g);
    }
  }

  lemma {:induction false} SumPointwise<T>(xs: seq<T>, f: T -> real, g: T -> real)
    requires forall i :: 0 <= i < |xs| ==> f(xs[i]) == g(xs[i])
    ensures Sum(xs, f) == Sum(xs, g)
    decreases |xs|
  {
    if |xs| > 0 {
      SumPointwise(xs[1..], f, g);
    }
  }

  lemma {:induction false} SumAdd<T>(xs: seq<T>, f: T -> real, g: T -> real, h: T -> real)
    requires forall i :: 0 <= i < |xs| ==> h(xs[i]) == f(xs[i]) + g(xs[i])
    ensures Sum(xs, h) == Sum(xs, f) + Sum(xs, g)
    decreases |xs|
  {
    if |xs| > 0 {
      SumAdd(xs[1..], f, g, h);
    }
  }

  lemma {:induction false} SumScale<T>(xs: seq<T>, f: T -> real, c: real, g: T -> real)
    requires forall i :: 0 <= i < |xs| ==> g(xs[i]) == c * f(xs[i])
    ensures Sum(xs, g) == c * Sum(xs, f)
    decreases |xs|
  {
    if |xs| > 0 {
      SumScale(xs[1..], f, c, g);
    }
  }

  /** Taking one row out of a table takes its value out of the column total. */
  lemma SumRemove<T>(ys: seq<T>, i: nat, f: T -> real)
    requires i < |ys|
    ensures Sum(ys, f) == f(ys[i]) + Sum(ys[..i] + ys[i + 1..], f)
  {
    assert ys == ys[..i] + ([ys[i]] + ys[i + 1..]);
    SumAppend(ys[..i], [ys[i]] + ys[i + 1..], f);
    SumAppend(ys[..i], ys[i + 1..], f);
    assert ([ys[i]] + ys[i + 1..])[1..] == ys[i + 1..];
  }

  lemma MultisetRemove<T>(ys: seq<T>, i: nat)
    requires i < |ys|
    ensures multiset(ys[..i] + ys[i + 1..]) == multiset(ys) - multiset{ys[i]}
  {
    assert ys == ys[..i] + [ys[i]] + ys[i + 1..];
  }

  /** Two tables whose rows correspond one to one with equal values have equal totals. */
  lemma {:induction false} SumCorrespond<A, B>(xs: seq<A>, f: A -> real, ys: seq<B>, g: B -> real)
    requires |xs| == |ys|
    requires forall i :: 0 <= i < |xs| ==> f(xs[i]) == g(ys[i])
    ensures Sum(xs, f) == Sum(ys, g)
    decreases |xs|
  {
    if |xs| > 0 {
      SumCorrespond(xs[1..], f, ys[1..], g);
    }
  }

  /** The first row of a table sits somewhere in any reordering, and the rest are a reordering of the others. */
  lemma RemoveFirst<T>(xs: seq<T>, ys: seq<T>) returns (i: nat)
    requires multiset(xs) == multiset(ys) && |xs| > 0
    ensures i < |ys| && ys[i] == xs[0]
    ensures multiset(xs[1..]) == multiset(ys[..i] + ys[i + 1..])
  {
    assert xs[0] in multiset(ys);
    i :| 0 <= i < |ys| && ys[i] == xs[0];
    MultisetRemove(ys, i);
    assert xs == [xs[0]] + xs[1..];
  }

  /** Reordering the rows does not change a column total. */
  lemma {:induction false} SumPermutation<T>(xs: seq<T>, ys: seq<T>, f: T -> real)
    requires multiset(xs) == multiset(ys)
    ensures Sum(xs, f) == Sum(ys, f)
    decreases |xs|
  {
    if |xs| > 0 {
      var i := RemoveFirst(xs, ys);
      SumPermutation(xs[1..], ys[..i] + ys[i + 1..], f);
      SumRemove(ys, i, f);
    }
  }

  ghost predicate Distinct<K>(ks: seq<K>) {
    forall i, j :: 0 <= i < j < |ks| ==> ks[i] != ks[j]
  }

  /** A list without repeats has as many elements as the set of its elements. */
  lemma {:induction false} DistinctCard<K>(ks: seq<K>)
    requires Distinct(ks)
    ensures |set k | k in ks| == |ks|
    decreases |ks|
  {
    if |ks| > 0 {
      var rest := ks[1..];
      DistinctCard(rest);
      assert (set k | k in ks) == {ks[0]} + (set k | k in rest) by {
        assert ks == [ks[0]] + rest;
      }
      assert ks[0] !in rest;
    } else {
      assert (set k | k in ks) == {};
    }
  }

  /** A column that is `v` on the one occurrence of `k` in a list of distinct keys and 0 elsewhere sums to `v`. */
  lemma {:induction false} SumIndicator<K>(ks: seq<K>, k: K, v: real, f: K -> real)
    requires Distinct(ks) && k in ks
    requires forall i :: 0 <= i < |ks| ==> f(ks[i]) == if ks[i] == k then v else 0.0
    ensures Sum(ks, f) == v
    decreases |ks|
  {
    if ks[0] == k {
      SumFilterZeroAll(ks[1..], f);
    } else {
      SumIndicator(ks[1..], k, v, f);
    }
  }

  lemma {:induction false} SumFilterZeroAll<T>(xs: seq<T>, f: T -> real)
    requires forall i :: 0 <= i < |xs| ==> f(xs[i]) == 0.0
    ensures Sum(xs, f) == 0.0
    decreases |xs|
  {
    if |xs| > 0 {
      SumFilterZeroAll(xs[1..], f);
    }
  }

  /** The mask `df[key] == k`. */
  function KeyIs<T(!new), K(==)>(key: T -> K, k: K): (p: T -> bool)
    ensures forall x {:trigger p(x)} :: p(x) == (key(x) == k)
  {
    x => key(x) == k
  }

  /** The total of the rows whose key is `k`. */
  ghost function KeyTotal<T(!new), K>(xs: seq<T>, key: T -> K, f: T -> real, k: K): real {
    Sum(Filter(xs, KeyIs(key, k)), f)
  }

  /**
   * `groupby(key)[col].sum()` followed by a total over the groups: when every
   * row's key is among a list of distinct keys, the group totals add up to
   * the column total.
   */
  lemma KeyTotalCons<T(!new), K>(xs: seq<T>, key: T -> K, f: T -> real, k: K)
    requires |xs| > 0
    ensures KeyTotal(xs, key, f, k) == (if key(xs[0]) == k then f(xs[0]) else 0.0) + KeyTotal(xs[1..], key, f, k)
  {
    var p := KeyIs(key, k);
    var rest := Filter(xs[1..], p);
    if p(xs[0]) {
      assert Filter(xs, p) == [xs[0]] + rest;
      assert ([xs[0]] + rest)[1..] == rest;
    } else {
      assert Filter(xs, p) == rest;
    }
  }

  lemma {:induction false} SumByKey<T(!new), K>(ks: seq<K>, xs: seq<T>, key: T -> K, f: T -> real)
    requires Distinct(ks)
    requires forall i :: 0 <= i < |xs| ==> key(xs[i]) in ks
    ensures Sum(ks, k => KeyTotal(xs, key, f, k)) == Sum(xs, f)
    decreases |xs|
  {
    if |xs| == 0 {
      SumFilterZeroAll(ks, k => KeyTotal(xs, key, f, k));
    } else {
      var x := xs[0];
      var rest := xs[1..];
      SumByKey(ks, rest, key, f);
      var head := (k: K) => if key(x) == k then f(x) else 0.0;
      forall i | 0 <= i < |ks|
        ensures KeyTotal(xs, key, f, ks[i]) == head(ks[i]) + KeyTotal(rest, key, f, ks[i])
      {
        KeyTotalCons(xs, key, f, ks[i]);
      }
      SumAdd(ks, head, k => KeyTotal(rest, key, f, k), k => KeyTotal(xs, key, f, k));
      SumIndicator(ks, key(x), f(x), head);
    }
  }


  /** The rows a mask keeps are exactly the rows of the table it accepts. */
  lemma FilterMembers<T(!new)>(xs: seq<T>, p: T -> bool)
    ensures forall i :: 0 <= i < |xs| && p(xs[i]) ==> xs[i] in Filter(xs, p)
    ensures forall y :: y in Filter(xs, p) ==> y in xs && p(y)
  {
    var ys := Filter(xs, p);
    forall i | 0 <= i < |xs| && p(xs[i]) ensures xs[i] in ys {
      assert multiset(xs)[xs[i]] > 0;
      assert xs[i] in multiset(ys);
    }
    forall y | y in ys ensures y in xs && p(y) {
      assert y in multiset(ys);
    }
  }

  /** Applying one mask after another keeps the rows both accept, in order. */
  lemma {:induction false} FilterFilter<T(!new)>(xs: seq<T>, p: T -> bool, q: T -> bool, pq: T -> bool)
    requires forall x :: pq(x) == (p(x) && q(x))
    ensures Filter(Filter(xs, p), q) == Filter(xs, pq)
    decreases |xs|
  {
    if |xs| > 0 {
      FilterFilter(xs[1..], p, q, pq);
      var rest := Filter(xs[1..], p);
      if p(xs[0]) {
        assert Filter(xs, p) == [xs[0]] + rest;
        assert ([xs[0]] + rest)[1..] == rest;
      }
    }
  }

  /** A mask that accepts everything keeps the whole table. */
  lemma {:induction false} FilterAll<T(!new)>(xs: seq<T>)
    ensures Filter(xs, x => true) == xs
    decreases |xs|
  {
    if |xs| > 0 {
      FilterAll(xs[1..]);
      assert xs == [xs[0]] + xs[1..];
    }
  }

  /** Two masks that agree on every row keep the same rows. */
  lemma {:induction false} FilterPointwise<T(!new)>(xs: seq<T>, p: T -> bool, q: T -> bool)
    requires forall i :: 0 <= i < |xs| ==> p(xs[i]) == q(xs[i])
    ensures Filter(xs, p) == Filter(xs, q)
    decreases |xs|
  {
    if |xs| > 0 {
      FilterPointwise(xs[1..], p, q);
    }
  }

  /** `pd.unique`: each value once, in order of first appearance. */
  function Unique<K(==,!new)>(xs: seq<K>): (ys: seq<K>)
    ensures Distinct(ys)
    ensures forall k :: k in ys <==> k in xs
    ensures |ys| <= |xs|
    decreases |xs|
  {
    if |xs| == 0 then []
    else
      var u := Unique(xs[..|xs| - 1]);
      assert xs == xs[..|xs| - 1] + [xs[|xs| - 1]];
      if xs[|xs| - 1] in u then u else u + [xs[|xs| - 1]]
  }

  /** Lexicographic order on integer keys, as Python compares tuples. */
  predicate LexLe(a: seq<int>, b: seq<int>)
    decreases |a|
  {
    |a| == 0 || (|b| > 0 && (a[0] < b[0] || (a[0] == b[0] && LexLe(a[1..], b[1..]))))
  }

  lemma {:induction false} LexLeTotal(a: seq<int>, b: seq<int>)
    ensures LexLe(a, b) || LexLe(b, a)
    decreases |a|
  {
    if |a| > 0 && |b| > 0 && a[0] == b[0] {
      LexLeTotal(a[1..], b[1..]);
    }
  }

  lemma {:induction false} LexLeTransitive(a: seq<int>, b: seq<int>, c: seq<int>)
    requires LexLe(a, b) && LexLe(b, c)
    ensures LexLe(a, c)
    decreases |a|
  {
    if |a| > 0 && a[0] == b[0] && b[0] == c[0] {
      LexLeTransitive(a[1..], b[1..], c[1..]);
    }
  }

  lemma {:induction false} LexLeAntisymmetric(a: seq<int>, b: seq<int>)
    requires LexLe(a, b) && LexLe(b, a)
    ensures a == b
    decreases |a|
  {
    if |a| > 0 {
      LexLeAntisymmetric(a[1..], b[1..]);
      assert a == [a[0]] + a[1..] && b == [b[0]] + b[1..];
    }
  }

  lemma LexLeReflexive(a: seq<int>)
    ensures LexLe(a, a)
  {
    LexLeTotal(a, a);
  }

  /**
   * Joining two fields with a separator below every code compares like the
   * pair of fields: first by the first field, then by the second.
   */
  lemma {:induction false} LexLeSeparated(a: seq<int>, x: seq<int>, b: seq<int>, y: seq<int>)
    requires forall i :: 0 <= i < |a| ==> a[i] >= 0
    requires forall i :: 0 <= i < |b| ==> b[i] >= 0
    requires LexLe(a + [-1] + x, b + [-1] + y)
    ensures LexLe(a, b)
    ensures a == b ==> LexLe(x, y)
    decreases |a|
  {
    if |a| == 0 {
      if |b| == 0 {
        assert (a + [-1] + x)[1..] == x;
        assert (b + [-1] + y)[1..] == y;
      }
    } else if |b| > 0 && a[0] == b[0] {
      assert (a + [-1] + x)[1..] == a[1..] + [-1] + x;
      assert (b + [-1] + y)[1..] == b[1..] + [-1] + y;
      LexLeSeparated(a[1..], x, b[1..], y);
      if a == b {
        assert a[1..] == b[1..];
      }
    }
  }

  /** The order of two keys is decided by their first two entries before anything after. */
  lemma LexLeFirstTwo(a: seq<int>, b: seq<int>)
    requires |a| >= 2 && |b| >= 2 && LexLe(a, b)
    ensures a[0] < b[0] || (a[0] == b[0] && a[1] <= b[1])
  {
    if a[0] == b[0] {
      assert LexLe(a[1..], b[1..]);
      assert a[1..][0] == a[1] && b[1..][0] == b[1];
    }
  }

  predicate SortedBy<T>(xs: seq<T>, key: T -> seq<int>) {
    forall i, j :: 0 <= i < j < |xs| ==> LexLe(key(xs[i]), key(xs[j]))
  }

  function Insert<T>(x: T, ys: seq<T>, key: T -> seq<int>): (zs: seq<T>)
    requires SortedBy(ys, key)
    ensures multiset(zs) == multiset(ys) + multiset{x}
    ensures SortedBy(zs, key)
    decreases |ys|
  {
    if |ys| == 0 then [x]
    else if LexLe(key(x), key(ys[0])) then
      SortedFront(x, ys, key);
      [x] + ys
    else
      LexLeTotal(key(x), key(ys[0]));
      var rest := Insert(x, ys[1..], key);
      assert ys == [ys[0]] + ys[1..];
      FirstBelowRest(x, ys, rest, key);
      SortedFront(ys[0], rest, key);
      [ys[0]] + rest
  }

  /** A row no later than the first of a sorted table can go in front of it. */
  lemma SortedFront<T>(x: T, ys: seq<T>, key: T -> seq<int>)
    requires SortedBy(ys, key) && (|ys| > 0 ==> LexLe(key(x), key(ys[0])))
    ensures SortedBy([x] + ys, key)
  {
    var zs := [x] + ys;
    forall i, j | 0 <= i < j < |zs|
      ensures LexLe(key(zs[i]), key(zs[j]))
    {
      if i == 0 && j > 1 {
        LexLeTransitive(key(x), key(ys[0]), key(ys[j - 1]));
      }
    }
  }

  /** The first row of a sorted table is no later than any row of the rest with `x` inserted, when it is no later than `x`. */
  lemma FirstBelowRest<T>(x: T, ys: seq<T>, rest: seq<T>, key: T -> seq<int>)
    requires SortedBy(ys, key) && |ys| > 0 && LexLe(key(ys[0]), key(x))
    requires multiset(rest) == multiset(ys[1..]) + multiset{x}
    ensures |rest| > 0 ==> LexLe(key(ys[0]), key(rest[0]))
    ensures forall j :: 0 <= j < |rest| ==> LexLe(key(ys[0]), key(rest[j]))
  {
    forall j | 0 <= j < |rest|
      ensures LexLe(key(ys[0]), key(rest[j]))
    {
      assert rest[j] in multiset(rest);
      if rest[j] != x {
        assert rest[j] in multiset(ys[1..]);
        var k :| 0 <= k < |ys[1..]| && ys[1..][k] == rest[j];
        assert ys[k + 1] == rest[j];
      }
    }
  }

  function SortBy<T>(xs: seq<T>, key: T -> seq<int>): (ys: seq<T>)
    ensures multiset(ys) == multiset(xs)
    ensures |ys| == |xs|
    ensures SortedBy(ys, key)
    decreases |xs|
  {
    if |xs| == 0 then []
    else
      assert xs == [xs[0]] + xs[1..];
      var ys := Insert(xs[0], SortBy(xs[1..], key), key);
      assert |ys| == |multiset(ys)|;
      ys
  }

  /** Character codes, so that strings sort by code point as Python compares them. */
  function Codes(s: string): (r: seq<int>)
    ensures |r| == |s|
    ensures forall i :: 0 <= i < |s| ==> r[i] == s[i] as int
  {
    seq(|s|, i requires 0 <= i < |s| => s[i] as int)
  }

  lemma {:induction false} CodesInjective(s: string, t: string)
    requires Codes(s) == Codes(t)
    ensures s == t
  {
    assert |s| == |t|;
    forall i | 0 <= i < |s| ensures s[i] == t[i] {
      assert Codes(s)[i] == Codes(t)[i];
    }
  }

  /** A list is duplicate-free exactly when no value occurs twice in its multiset. */
  lemma {:induction false} DistinctCounts<T>(xs: seq<T>)
    ensures Distinct(xs) <==> forall x :: multiset(xs)[x] <= 1
    decreases |xs|
  {
    if |xs| > 0 {
      var a := xs[0];
      var rest := xs[1..];
      DistinctCounts(rest);
      assert xs == [a] + rest;
      assert multiset(xs) == multiset{a} + multiset(rest);
      if Distinct(xs) {
        assert Distinct(rest) by {
          forall i, j | 0 <= i < j < |rest| ensures rest[i] != rest[j] {
            assert rest[i] == xs[i + 1] && rest[j] == xs[j + 1];
          }
        }
      }
      if forall x :: multiset(xs)[x] <= 1 {
        assert multiset(rest)[a] == 0 by {
          assert multiset(xs)[a] == 1 + multiset(rest)[a];
        }
        forall x ensures multiset(rest)[x] <= 1 {
          assert multiset(xs)[x] >= multiset(rest)[x];
        }
        forall i, j | 0 <= i < j < |xs| ensures xs[i] != xs[j] {
          if i == 0 {
            assert xs[j] in rest;
          } else {
            assert xs[i] == rest[i - 1] && xs[j] == rest[j - 1];
          }
        }
      }
    }
  }

  /** `sorted(set(xs))`: each value of the list once, in rank order. */
  function SortedUnique<T(==,!new)>(xs: seq<T>, rank: T -> seq<int>): (ys: seq<T>)
    ensures Distinct(ys)
    ensures forall x :: x in ys <==> x in xs
    ensures SortedBy(ys, rank)
  {
    var u := Unique(xs);
    var ys := SortBy(u, rank);
    DistinctCounts(u);
    DistinctCounts(ys);
    assert forall x :: x in ys <==> x in multiset(u);
    ys
  }

  /** The mask `x not in ys`. */
  function Outside<T(==,!new)>(ys: seq<T>): (p: T -> bool)
    ensures forall x {:trigger p(x)} :: p(x) == (x !in ys)
  {
    x => x !in ys
  }

  /** The mask `x in ys`. */
  function Inside<T(==,!new)>(ys: seq<T>): (p: T -> bool)
    ensures forall x {:trigger p(x)} :: p(x) == (x in ys)
  {
    x => x in ys
  }

  /** `sorted(set(xs) - set(ys))` */
  function Difference<T(==,!new)>(xs: seq<T>, ys: seq<T>, rank: T -> seq<int>): (zs: seq<T>)
    ensures Distinct(zs) && SortedBy(zs, rank)
    ensures forall x :: x in zs <==> x in xs && x !in ys
  {
    FilterMembers(xs, Outside(ys));
    SortedUnique(Filter(xs, Outside(ys)), rank)
  }

  /** `sorted(set(xs) & set(ys))` */
  function Intersection<T(==,!new)>(xs: seq<T>, ys: seq<T>, rank: T -> seq<int>): (zs: seq<T>)
    ensures Distinct(zs) && SortedBy(zs, rank)
    ensures forall x :: x in zs <==> x in xs && x in ys
  {
    FilterMembers(xs, Inside(ys));
    SortedUnique(Filter(xs, Inside(ys)), rank)
  }

  /** A column of non-negative values has a positive total exactly when some value is positive. */
  lemma {:induction false} SumPositive<T>(xs: seq<T>, f: T -> real)
    requires forall i :: 0 <= i < |xs| ==> f(xs[i]) >= 0.0
    ensures Sum(xs, f) > 0.0 <==> exists i :: 0 <= i < |xs| && f(xs[i]) > 0.0
    decreases |xs|
  {
    if |xs| > 0 {
      SumPositive(xs[1..], f);
      SumNonNegative(xs[1..], f);
      if exists i :: 0 <= i < |xs[1..]| && f(xs[1..][i]) > 0.0 {
        var i :| 0 <= i < |xs[1..]| && f(xs[1..][i]) > 0.0;
        assert f(xs[i + 1]) > 0.0;
      }
      if exists i :: 0 <= i < |xs| && f(xs[i]) > 0.0 {
        var i :| 0 <= i < |xs| && f(xs[i]) > 0.0;
        if i > 0 {
          assert f(xs[1..][i - 1]) > 0.0;
        }
      }
    }
  }
}
