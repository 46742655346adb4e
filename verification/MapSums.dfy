/** Sums over the entries of a map. */
module MapSums {

  function Weight<K, V>(m: map<K, V>, weigh: V -> nat, k: K): nat
  {
    if k in m then weigh(m[k]) else 0
  }

  /** The sum of the weights of all entries. */
  ghost function Total<K(!new), V>(m: map<K, V>, weigh: V -> nat): nat
    decreases |m|
  {
    if m == map[] then 0
    else
      var k :| k in m;
      weigh(m[k]) + Total(m - {k}, weigh)
  }

  /** Any entry can be split off. */
  lemma {:induction false} TotalRemove<K(!new), V>(m: map<K, V>, weigh: V -> nat, k: K)
    requires k in m
    ensures Total(m, weigh) == weigh(m[k]) + Total(m - {k}, weigh)
    decreases |m|
  {
    var j :| j in m && Total(m, weigh) == weigh(m[j]) + Total(m - {j}, weigh);
    if j != k {
      TotalRemove(m - {j}, weigh, k);
      TotalRemove(m - {k}, weigh, j);
      assert m - {j} - {k} == m - {k} - {j};
    }
  }

  lemma TotalInsert<K(!new), V>(m: map<K, V>, weigh: V -> nat, k: K, v: V)
    ensures Total(m[k := v], weigh) + Weight(m, weigh, k) == Total(m, weigh) + weigh(v)
  {
    var m' := m[k := v];
    TotalRemove(m', weigh, k);
    if k in m {
      TotalRemove(m, weigh, k);
      assert m' - {k} == m - {k};
    } else {
      assert m' - {k} == m;
    }
  }

  lemma WeightBound<K(!new), V>(m: map<K, V>, weigh: V -> nat, k: K)
    ensures Weight(m, weigh, k) <= Total(m, weigh)
  {
    if k in m {
      TotalRemove(m, weigh, k);
    }
  }
}
