/** Sums over the entries of a finite map. */
module MapSums {
  /** The sum of `f` over all entries, in whatever order they are taken. */
  ghost function SumBy<K, V>(m: map<K, V>, f: (K, V) -> int): int
    decreases |m|
  {
    if m == map[] then 0
    else
      var k :| k in m;
      RemovedIsSmaller(m, k);
      f(k, m[k]) + SumBy(m - {k}, f)
  }

  lemma RemovedIsSmaller<K, V>(m: map<K, V>, k: K)
    requires k in m
    ensures |m - {k}| < |m|
  {
    assert (m - {k}).Keys == m.Keys - {k};
    assert |(m - {k}).Keys| == |m - {k}| && |m.Keys| == |m|;
  }

  ghost function TermOf<K, V>(m: map<K, V>, k: K, f: (K, V) -> int): int {
    if k in m then f(k, m[k]) else 0
  }

  /** Any entry can be taken out first. */
  lemma {:induction false} SumWithout<K, V>(m: map<K, V>, k: K, f: (K, V) -> int)
    ensures SumBy(m - {k}, f) == SumBy(m, f) - TermOf(m, k, f)
    decreases |m|
  {
    if k !in m {
      assert m - {k} == m;
    } else {
      assert m != map[];
      var first :| first in m && SumBy(m, f) == f(first, m[first]) + SumBy(m - {first}, f);
      if first != k {
        RemovedIsSmaller(m, first);
        SumWithout(m - {first}, k, f);
        RemovedIsSmaller(m, k);
        SumWithout(m - {k}, first, f);
        assert m - {first} - {k} == m - {k} - {first};
      }
    }
  }

  lemma SumWith<K, V>(m: map<K, V>, k: K, v: V, f: (K, V) -> int)
    ensures SumBy(m[k := v], f) == SumBy(m, f) - TermOf(m, k, f) + f(k, v)
  {
    SumWithout(m, k, f);
    SumWithout(m[k := v], k, f);
    assert m[k := v] - {k} == m - {k};
  }

  ghost predicate NeverNegative<K(!new), V(!new)>(f: (K, V) -> int) {
    forall k, v :: f(k, v) >= 0
  }

  lemma {:induction false} SumIsNotNegative<K(!new), V(!new)>(m: map<K, V>, f: (K, V) -> int)
    requires NeverNegative(f)
    ensures SumBy(m, f) >= 0
    decreases |m|
  {
    if m == map[] {
    } else {
      var k :| k in m && SumBy(m, f) == f(k, m[k]) + SumBy(m - {k}, f);
      RemovedIsSmaller(m, k);
      SumIsNotNegative(m - {k}, f);
    }
  }

  lemma SumCoversTerm<K(!new), V(!new)>(m: map<K, V>, k: K, f: (K, V) -> int)
    requires NeverNegative(f)
    ensures 0 <= TermOf(m, k, f) <= SumBy(m, f)
  {
    SumWithout(m, k, f);
    SumIsNotNegative(m - {k}, f);
  }

  lemma {:induction false} SumOfZeros<K, V>(m: map<K, V>, f: (K, V) -> int)
    requires forall k | k in m :: f(k, m[k]) == 0
    ensures SumBy(m, f) == 0
    decreases |m|
  {
    if m == map[] {
    } else {
      var k :| k in m && SumBy(m, f) == f(k, m[k]) + SumBy(m - {k}, f);
      RemovedIsSmaller(m, k);
      SumOfZeros(m - {k}, f);
    }
  }
}
