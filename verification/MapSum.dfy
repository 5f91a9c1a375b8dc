/** Sums over finite maps, and the sums of their parts. */
module MapSum {

  ghost function Pick<K(!new)>(m: map<K, int>): (k: K)
    requires m != map[]
    ensures k in m
  {
    var k :| k in m; k
  }

  ghost function Sum<K(!new)>(m: map<K, int>): int
    decreases |m|
  {
    if m == map[] then 0
    else
      var k := Pick(m);
      assert (m - {k}).Keys == m.Keys - {k};
      assert |m - {k}| == |(m - {k}).Keys| && |m| == |m.Keys|;
      m[k] + Sum(m - {k})
  }

  lemma {:induction false} SumTake<K(!new)>(m: map<K, int>, k: K)
    requires k in m
    ensures Sum(m) == m[k] + Sum(m - {k})
    decreases |m|
  {
    var j := Pick(m);
    if j != k {
      assert (m - {j}).Keys == m.Keys - {j};
      assert |m - {j}| == |(m - {j}).Keys| && |m| == |m.Keys|;
      SumTake(m - {j}, k);
      assert m - {k} != map[] by { assert j in m - {k}; }
      assert (m - {k}).Keys == m.Keys - {k};
      assert |m - {k}| == |(m - {k}).Keys|;
      SumTake(m - {k}, j);
      assert m - {j} - {k} == m - {k} - {j};
    }
  }

  lemma {:induction false} SumPut<K(!new)>(m: map<K, int>, k: K, v: int)
    ensures Sum(m[k := v]) == Sum(m) + v - (if k in m then m[k] else 0)
  {
    SumTake(m[k := v], k);
    if k in m {
      SumTake(m, k);
      assert m[k := v] - {k} == m - {k};
    } else {
      assert m[k := v] - {k} == m;
    }
  }

  /** Taking a set of keys out divides the sum. */
  lemma {:induction false} SumSplit<K(!new)>(m: map<K, int>, ks: set<K>)
    requires ks <= m.Keys
    ensures Sum(m) == Sum(m - ks) + Sum(map k | k in ks :: m[k])
    decreases |ks|
  {
    var part := map k | k in ks :: m[k];
    if ks == {} {
      assert m - ks == m && part == map[];
    } else {
      var k :| k in ks;
      SumTake(m, k);
      SumTake(part, k);
      SumSplit(m - {k}, ks - {k});
      assert m - {k} - (ks - {k}) == m - ks;
      assert part - {k} == map j | j in ks - {k} :: (m - {k})[j];
    }
  }

  /** One more at each of some keys. */
  lemma {:induction false} SumBumped<K(!new)>(m: map<K, int>, n: map<K, int>, ones: set<K>)
    requires ones <= m.Keys && n.Keys == m.Keys && forall k :: k in m ==> n[k] == m[k] + if k in ones then 1 else 0
    ensures Sum(n) == Sum(m) + |ones|
    decreases |ones|
  {
    hide Sum;
    if ones == {} {
      assert n == m;
    } else {
      var k :| k in ones;
      SumPut(n, k, n[k] - 1);
      SumBumped(m, n[k := n[k] - 1], ones - {k});
    }
  }
}
