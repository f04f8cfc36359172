/** Sums of a weight over the values of a finite map. */
module MapSums {

  ghost function Pick<K, V>(m: map<K, V>): (k: K)
    requires m != map[]
    ensures k in m
  {
    var k :| k in m; k
  }

  /** The sum of `f` over all values of `m`. */
  ghost function Sum<K, V>(m: map<K, V>, f: V -> int): int
    decreases m.Keys
  {
    if m == map[] then 0 else
      var k := Pick(m);
      f(m[k]) + Sum(m - {k}, f)
  }

  /** Any key may be split off first, whichever one the sum happened to pick. */
  lemma {:induction false} SumSplit<K, V>(m: map<K, V>, f: V -> int, k: K)
    requires k in m
    ensures Sum(m, f) == f(m[k]) + Sum(m - {k}, f)
    decreases m.Keys
  {
    var p := Pick(m);
    if p != k {
      SumSplit(m - {p}, f, k);
      SumSplit(m - {k}, f, p);
      assert m - {p} - {k} == m - {k} - {p};
    }
  }

  /** Writing a key replaces its old weight, if any, by the new one. */
  lemma SumUpdate<K, V>(m: map<K, V>, f: V -> int, k: K, v: V)
    ensures Sum(m[k := v], f) == Sum(m, f) + f(v) - (if k in m then f(m[k]) else 0)
  {
    var n := m[k := v];
    SumSplit(n, f, k);
    if k in m {
      SumSplit(m, f, k);
      assert n - {k} == m - {k};
    } else {
      assert n - {k} == m;
    }
  }

  /** Weights that are never negative have a sum that is never negative. */
  lemma {:induction false} SumNonNegative<K, V>(m: map<K, V>, f: V -> int)
    requires forall k | k in m :: f(m[k]) >= 0
    ensures Sum(m, f) >= 0
    decreases m.Keys
  {
    if m != map[] {
      var k := Pick(m);
      SumNonNegative(m - {k}, f);
    }
  }

  /** A sum of weights that are never negative is zero only if all of them are. */
  lemma SumZero<K, V>(m: map<K, V>, f: V -> int, k: K)
    requires forall x | x in m :: f(m[x]) >= 0
    requires Sum(m, f) == 0 && k in m
    ensures f(m[k]) == 0
  {
    SumSplit(m, f, k);
    SumNonNegative(m - {k}, f);
  }

  lemma {:induction false} SumCongruent<K, V>(m: map<K, V>, f: V -> int, g: V -> int)
    requires forall k | k in m :: f(m[k]) == g(m[k])
    ensures Sum(m, f) == Sum(m, g)
    decreases m.Keys
  {
    if m != map[] {
      SumCongruent(m - {Pick(m)}, f, g);
    }
  }
}
