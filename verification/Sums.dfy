/** Sums of the values of a finite map, independent of the order of addition. */
module Sums {
  ghost function Sum<K(!new)>(m: map<K, nat>): nat
    decreases |m|
  {
    if m == map[] then 0
    else
      var k :| k in m;
      m[k] + Sum(m - {k})
  }

  lemma {:induction false} SumRemove<K(!new)>(m: map<K, nat>, k: K)
    requires k in m
    ensures Sum(m) == m[k] + Sum(m - {k})
    decreases |m|
  {
    var p :| p in m && Sum(m) == m[p] + Sum(m - {p});
    if p != k {
      SumRemove(m - {p}, k);
      SumRemove(m - {k}, p);
      assert m - {p} - {k} == m - {k} - {p};
    }
  }

  lemma SumInsert<K(!new)>(m: map<K, nat>, k: K, v: nat)
    requires k !in m
    ensures Sum(m[k := v]) == Sum(m) + v
  {
    SumRemove(m[k := v], k);
    assert m[k := v] - {k} == m;
  }

  ghost function Restrict<K(!new)>(m: map<K, nat>, ks: set<K>): map<K, nat> {
    map k | k in ks && k in m :: m[k]
  }

  /** Removing a set of keys and summing what was removed loses nothing. */
  lemma {:induction false} SumSplit<K(!new)>(m: map<K, nat>, ks: set<K>)
    requires ks <= m.Keys
    ensures Sum(m) == Sum(m - ks) + Sum(Restrict(m, ks))
    decreases |ks|
  {
    if ks == {} {
      assert m - ks == m && Restrict(m, ks) == map[];
    } else {
      var k :| k in ks;
      SumRemove(m, k);
      SumRemove(Restrict(m, ks), k);
      SumSplit(m - {k}, ks - {k});
      assert m - {k} - (ks - {k}) == m - ks;
      assert Restrict(m - {k}, ks - {k}) == Restrict(m, ks) - {k};
    }
  }
}
