/**
 * The values held by a finite map, counted once per key that holds them.
 * Two keys may map to equal values, so the count is a multiset; it is how
 * the model says which backing stores a pass frees, and that none is lost
 * or freed twice.
 */
module MapValues {

  /** The multiset of the values stored in `m`, one occurrence per key. */
  ghost function Values<K, V>(m: map<K, V>): (r: multiset<V>)
    ensures |r| == |m|
    decreases |m|
  {
    if |m| == 0 then multiset{}
    else
      var k := AnyKey(m);
      RemoveOneKey(m, k);
      Values(m - {k}) + multiset{m[k]}
  }

  /** Some key of a non-empty map. */
  ghost function AnyKey<K, V>(m: map<K, V>): (k: K)
    requires |m| != 0
    ensures k in m
  {
    assert m.Keys != {};
    var k :| k in m; k
  }

  /** Dropping a present key shrinks a map by exactly one entry. */
  lemma RemoveOneKey<K, V>(m: map<K, V>, k: K)
    requires k in m
    ensures |m - {k}| == |m| - 1
  {
    assert (m - {k}).Keys == m.Keys - {k};
  }

  /**
   * Whichever key is taken out first, the value under it accounts for
   * exactly one occurrence: `Values` does not depend on the order in which
   * a map is visited.
   */
  lemma {:induction false} ValuesRemove<K, V>(m: map<K, V>, k: K)
    requires k in m
    ensures Values(m) == Values(m - {k}) + multiset{m[k]}
    decreases |m|
  {
    RemoveOneKey(m, k);
    var j := AnyKey(m);
    assert Values(m) == Values(m - {j}) + multiset{m[j]};
    if j != k {
      var mj, mk := m - {j}, m - {k};
      RemoveOneKey(m, j);
      assert k in mj && mj[k] == m[k];
      assert j in mk && mk[j] == m[j];
      ValuesRemove(mj, k);
      ValuesRemove(mk, j);
      var rest := mj - {k};
      RemoveCommutes(m, j, k);
      assert Values(mj) == Values(rest) + multiset{m[k]};
      assert Values(mk) == Values(rest) + multiset{m[j]};
      SwapTail(Values(rest), m[j], m[k]);
    }
  }

  /** Taking out two keys gives the same map in either order. */
  lemma RemoveCommutes<K, V>(m: map<K, V>, j: K, k: K)
    ensures m - {j} - {k} == m - {k} - {j}
  {
    assert m - {j} - {k} == m - {j, k};
  }

  /** Two single occurrences can be added in either order. */
  lemma SwapTail<V>(a: multiset<V>, x: V, y: V)
    ensures (a + multiset{y}) + multiset{x} == (a + multiset{x}) + multiset{y}
  {
  }

  /** Storing a value under a fresh key adds exactly that value once. */
  lemma ValuesAdd<K, V>(m: map<K, V>, k: K, v: V)
    requires k !in m
    ensures Values(m[k := v]) == Values(m) + multiset{v}
  {
    ValuesRemove(m[k := v], k);
    assert m[k := v] - {k} == m;
  }

}
