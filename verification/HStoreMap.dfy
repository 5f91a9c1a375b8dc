/** What an hstore means: a map from keys to values, of which its sorted pairs are the only listing. */
module HStoreMap {
  import opened HStoreLayout

  type Dict = map<string, Value>

  function ToMap(ps: seq<Pair>): Dict {
    if ps == [] then map[] else ToMap(ps[..|ps| - 1])[ps[|ps| - 1].key := ps[|ps| - 1].val]
  }

  ghost function Contents(h: HStore): Dict
    requires Canonical(h)
  {
    ToMap(Decode(h))
  }

  ghost predicate Below(m: Dict, key: string) {
    forall k :: k in m ==> KeyCompare(k, key) < 0
  }

  lemma {:induction false} MapSnoc(ps: seq<Pair>, p: Pair)
    ensures ToMap(ps + [p]) == ToMap(ps)[p.key := p.val]
  {
    assert (ps + [p])[..|ps|] == ps;
  }

  lemma {:induction false} KeyInMap(ps: seq<Pair>, k: string)
    ensures k in ToMap(ps) <==> exists i :: 0 <= i < |ps| && ps[i].key == k
  {
    if ps != [] {
      var init := ps[..|ps| - 1];
      KeyInMap(init, k);
      if k in ToMap(init) {
        var i :| 0 <= i < |init| && init[i].key == k;
        assert ps[i].key == k;
      }
      if i :| 0 <= i < |ps| && ps[i].key == k {
        assert i < |init| ==> init[i].key == k;
      }
    }
  }

  lemma {:induction false} SortedSnoc(ps: seq<Pair>, p: Pair)
    requires SortedKeys(ps) && Below(ToMap(ps), p.key)
    ensures SortedKeys(ps + [p])
  {
    hide KeyCompare;
    forall i | 0 <= i < |ps| ensures KeyCompare(ps[i].key, p.key) < 0 { KeyInMap(ps, ps[i].key); }
  }

  lemma {:induction false} SortedTake(ps: seq<Pair>, i: nat)
    requires SortedKeys(ps) && i <= |ps|
    ensures SortedKeys(ps[..i])
  {
  }

  /** Taking one more pair of a sorted list. */
  lemma {:induction false} TakeStep(ps: seq<Pair>, i: nat)
    requires SortedKeys(ps) && i < |ps|
    ensures ToMap(ps[..i + 1]) == ToMap(ps[..i])[ps[i].key := ps[i].val]
    ensures Below(ToMap(ps[..i]), ps[i].key) && ps[i].key !in ToMap(ps[..i])
  {
    hide KeyCompare;
    assert ps[..i + 1] == ps[..i] + [ps[i]];
    MapSnoc(ps[..i], ps[i]);
    forall k | k in ToMap(ps[..i]) ensures KeyCompare(k, ps[i].key) < 0 { KeyInMap(ps[..i], k); }
    KeyZero(ps[i].key, ps[i].key);
  }

  lemma {:induction false} PairInMap(ps: seq<Pair>, i: nat)
    requires SortedKeys(ps) && i < |ps|
    ensures ps[i].key in ToMap(ps) && ToMap(ps)[ps[i].key] == ps[i].val
  {
    hide KeyCompare;
    var init := ps[..|ps| - 1];
    if i < |init| {
      PairInMap(init, i);
      assert KeyCompare(ps[i].key, ps[|ps| - 1].key) < 0;
      KeyZero(ps[i].key, ps[i].key);
    }
  }

  lemma {:induction false} LastIsGreatest(ps: seq<Pair>, k: string)
    requires SortedKeys(ps) && k in ToMap(ps)
    ensures ps != [] && KeyCompare(k, ps[|ps| - 1].key) <= 0
  {
    hide KeyCompare;
    KeyInMap(ps, k);
    var i :| 0 <= i < |ps| && ps[i].key == k;
    KeyZero(k, k);
  }

  /** Two sorted lists of the same map are the same. */
  lemma {:induction false} SortedUnique(a: seq<Pair>, b: seq<Pair>)
    requires SortedKeys(a) && SortedKeys(b) && ToMap(a) == ToMap(b)
    ensures a == b
    decreases |a|
  {
    hide KeyCompare;
    if a != [] || b != [] {
      if a != [] { PairInMap(a, |a| - 1); LastIsGreatest(b, a[|a| - 1].key); }
      if b != [] { PairInMap(b, |b| - 1); LastIsGreatest(a, b[|b| - 1].key); }
      var x, y := a[|a| - 1], b[|b| - 1];
      KeyAntisymmetric(x.key, y.key);
      KeyZero(x.key, y.key);
      WithoutLast(a);
      WithoutLast(b);
      SortedUnique(a[..|a| - 1], b[..|b| - 1]);
      assert a == a[..|a| - 1] + [x] && b == b[..|b| - 1] + [y];
    }
  }

  lemma {:induction false} WithoutLast(ps: seq<Pair>)
    requires SortedKeys(ps) && ps != []
    ensures SortedKeys(ps[..|ps| - 1]) && ToMap(ps[..|ps| - 1]) == ToMap(ps) - {ps[|ps| - 1].key}
  {
    hide KeyCompare, ToMap, SortedKeys, Below;
    SortedTake(ps, |ps| - 1);
    TakeStep(ps, |ps| - 1);
    assert ps[..|ps|] == ps;
    var m, k := ToMap(ps[..|ps| - 1]), ps[|ps| - 1].key;
    assert m[k := ps[|ps| - 1].val] - {k} == m;
  }

  /** Canonical values with the same contents are equal, byte for byte. */
  lemma {:induction false} CanonicalUnique(g: HStore, h: HStore)
    requires Canonical(g) && Canonical(h) && Contents(g) == Contents(h)
    ensures g == h
  {
    hide Encode, Decode, SortedKeys, ToMap;
    CanonicalIsEncoded(g);
    CanonicalIsEncoded(h);
    SortedUnique(Decode(g), Decode(h));
  }
}
