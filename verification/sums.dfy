/** Sums over finite maps with no order of iteration: the value is the same
    whichever key is taken first, which is what makes a counter built by
    walking a hash map independent of the walk. */
module Sums {

  /** The sum of `m`'s values over the keys `ks`. */
  ghost function SumOver<K>(m: map<K, nat>, ks: set<K>): nat
    requires ks <= m.Keys
    decreases ks
  {
    if ks == {} then 0
    else
      var k :| k in ks;
      m[k] + SumOver(m, ks - {k})
  }

  ghost function SumMap<K>(m: map<K, nat>): nat {
    SumOver(m, m.Keys)
  }

  /** Any key may be taken out first. */
  lemma {:induction false} SumOverPick<K>(m: map<K, nat>, ks: set<K>, k: K)
    requires ks <= m.Keys && k in ks
    ensures SumOver(m, ks) == m[k] + SumOver(m, ks - {k})
    decreases ks
  {
    var j :| j in ks && SumOver(m, ks) == m[j] + SumOver(m, ks - {j});
    if j != k {
      SumOverPick(m, ks - {j}, k);
      SumOverPick(m, ks - {k}, j);
      assert ks - {j} - {k} == ks - {k} - {j};
    }
  }

  /** Only the values at the summed keys matter. */
  lemma {:induction false} SumOverFrame<K>(m1: map<K, nat>, m2: map<K, nat>, ks: set<K>)
    requires ks <= m1.Keys && ks <= m2.Keys
    requires forall k :: k in ks ==> m1[k] == m2[k]
    ensures SumOver(m1, ks) == SumOver(m2, ks)
    decreases ks
  {
    if ks != {} {
      var k :| k in ks;
      SumOverPick(m1, ks, k);
      SumOverPick(m2, ks, k);
      SumOverFrame(m1, m2, ks - {k});
    }
  }

  /** Taking one key out of a map subtracts its value. */
  lemma SumMapPick<K>(m: map<K, nat>, k: K)
    requires k in m
    ensures SumMap(m) == m[k] + SumMap(m - {k})
  {
    SumOverPick(m, m.Keys, k);
    assert (m - {k}).Keys == m.Keys - {k};
    SumOverFrame(m, m - {k}, m.Keys - {k});
  }

  /** Adding a fresh key adds its value. */
  lemma SumMapAdd<K>(m: map<K, nat>, k: K, v: nat)
    requires k !in m
    ensures SumMap(m[k := v]) == SumMap(m) + v
  {
    SumMapPick(m[k := v], k);
    assert m[k := v] - {k} == m;
  }

  /** A pointwise smaller map has a smaller sum. */
  lemma {:induction false} SumOverMonotone<K>(small: map<K, nat>, large: map<K, nat>, ks: set<K>)
    requires ks <= small.Keys && ks <= large.Keys
    requires forall k :: k in ks ==> small[k] <= large[k]
    ensures SumOver(small, ks) <= SumOver(large, ks)
    decreases ks
  {
    if ks != {} {
      var k :| k in ks;
      SumOverPick(small, ks, k);
      SumOverPick(large, ks, k);
      SumOverMonotone(small, large, ks - {k});
    }
  }

  /** Summing over fewer keys gives no more. */
  lemma {:induction false} SumOverSubset<K>(m: map<K, nat>, fewer: set<K>, more: set<K>)
    requires fewer <= more <= m.Keys
    ensures SumOver(m, fewer) <= SumOver(m, more)
    decreases more
  {
    if more - fewer == {} {
      forall x | x in more
        ensures x in fewer
      {
        assert x !in more - fewer;
      }
      assert fewer == more;
    } else {
      var k :| k in more - fewer;
      SumOverPick(m, more, k);
      SumOverSubset(m, fewer, more - {k});
    }
  }
}
