/**
 * Sums over the values of a finite map.  The order in which a map is
 * visited is left open (the choice `:|`), and the removal lemmas show the
 * sum does not depend on it.
 */
module Folds {

  /** Some key of a non-empty map; which one is left open. */
  ghost function Pick<V>(m: map<string, V>): (k: string)
    requires |m| != 0
    ensures k in m
  {
    assert m.Keys != {};
    var k :| k in m;
    k
  }

  ghost function SumReal(m: map<string, real>): real
    decreases |m|
  {
    if |m| == 0 then 0.0
    else
      var k := Pick(m);
      m[k] + SumReal(m - {k})
  }

  ghost function SumInt(m: map<string, int>): int
    decreases |m|
  {
    if |m| == 0 then 0
    else
      var k := Pick(m);
      m[k] + SumInt(m - {k})
  }

  /** Any key may be taken out first. */
  lemma {:induction false} SumRealRemove(m: map<string, real>, k: string)
    requires k in m
    ensures SumReal(m) == m[k] + SumReal(m - {k})
    decreases |m|
  {
    assert |m| != 0;
    var j := Pick(m);
    if j != k {
      var mj, mk := m - {j}, m - {k};
      assert k in mj && mj[k] == m[k];
      assert j in mk && mk[j] == m[j];
      assert |mj| < |m| && |mk| < |m| by {
        assert mj.Keys == m.Keys - {j};
        assert mk.Keys == m.Keys - {k};
      }
      SumRealRemove(mj, k);
      SumRealRemove(mk, j);
      assert mj - {k} == mk - {j};
    }
  }

  /** Any key may be taken out first. */
  lemma {:induction false} SumIntRemove(m: map<string, int>, k: string)
    requires k in m
    ensures SumInt(m) == m[k] + SumInt(m - {k})
    decreases |m|
  {
    assert |m| != 0;
    var j := Pick(m);
    if j != k {
      var mj, mk := m - {j}, m - {k};
      assert k in mj && mj[k] == m[k];
      assert j in mk && mk[j] == m[j];
      assert |mj| < |m| && |mk| < |m| by {
        assert mj.Keys == m.Keys - {j};
        assert mk.Keys == m.Keys - {k};
      }
      SumIntRemove(mj, k);
      SumIntRemove(mk, j);
      assert mj - {k} == mk - {j};
    }
  }

  /**
   * One step of a visit of `m` in any order: `seen` holds the entries of
   * the keys already visited, `rest` the keys still to visit, and visiting
   * `k` moves it from one to the other.
   */
  lemma VisitStep<V>(m: map<string, V>, seen: map<string, V>, rest: set<string>, k: string)
    requires rest <= m.Keys && seen.Keys == m.Keys - rest && k in rest
    requires forall j | j in seen :: seen[j] == m[j]
    ensures k !in seen
    ensures seen[k := m[k]].Keys == m.Keys - (rest - {k})
    ensures forall j | j in seen[k := m[k]] :: seen[k := m[k]][j] == m[j]
  {
  }

  /** Two maps with the same keys and the same value at each key are equal. */
  lemma AgreeEquals<V>(a: map<string, V>, b: map<string, V>)
    requires a.Keys == b.Keys
    requires forall j | j in a :: a[j] == b[j]
    ensures a == b
  {
  }

  /** A map with the keys and values of `b` stored over with `v` at `k` is that map. */
  lemma PutEquals<V>(a: map<string, V>, b: map<string, V>, k: string, v: V)
    requires a.Keys == b.Keys + {k} && k in a && a[k] == v
    requires forall j | j in b && j != k :: a[j] == b[j]
    ensures a == b[k := v]
  {
  }

  /** A map with the keys and values of `b` except for `k` is `b` without `k`. */
  lemma RemoveEquals<V>(a: map<string, V>, b: map<string, V>, k: string)
    requires a.Keys == b.Keys - {k}
    requires forall j | j in a :: a[j] == b[j]
    ensures a == b - {k}
  {
  }

  /** Storing `v` at `k` replaces that key's old contribution, if any, by `v`. */
  lemma SumRealPut(m: map<string, real>, k: string, v: real)
    ensures SumReal(m[k := v]) == SumReal(m) - (if k in m then m[k] else 0.0) + v
  {
    SumRealRemove(m[k := v], k);
    assert m[k := v] - {k} == m - {k};
    if k in m {
      SumRealRemove(m, k);
    } else {
      assert m - {k} == m;
    }
  }

  /** Storing `v` at `k` replaces that key's old contribution, if any, by `v`. */
  lemma SumIntPut(m: map<string, int>, k: string, v: int)
    ensures SumInt(m[k := v]) == SumInt(m) - (if k in m then m[k] else 0) + v
  {
    SumIntRemove(m[k := v], k);
    assert m[k := v] - {k} == m - {k};
    if k in m {
      SumIntRemove(m, k);
    } else {
      assert m - {k} == m;
    }
  }
}
