/** contrib/hstore/hstore_op.c: finding keys, and the operators that search for one key after the other. */
module HStoreSearch {
  import opened Alloc
  import opened HStoreLayout
  import opened HStoreBuilder
  import opened HStoreMap
  import opened HStorePairs

  /** HS_KEY with HS_KEYLEN. */
  function KeyAt(h: HStore, i: nat): (k: string)
    requires Canonical(h) && i < Count(h)
    ensures |Decode(h)| == Count(h) && k == Decode(h)[i].key
  {
    ReadPair(h, i);
    h.str[Off(h, 2 * i)..Off(h, 2 * i) + Len(h, 2 * i)]
  }

  /** HS_VALISNULL, HS_VAL with HS_VALLEN. */
  function ValAt(h: HStore, i: nat): (v: Value)
    requires Canonical(h) && i < Count(h)
    ensures |Decode(h)| == Count(h) && v == Decode(h)[i].val
  {
    ReadPair(h, i);
    if IsNull(h.entries[2 * i + 1]) then Null
    else Text(h.str[Off(h, 2 * i + 1)..Off(h, 2 * i + 1) + Len(h, 2 * i + 1)])
  }

  /** The keys before bound are all below key. */
  ghost predicate LowBound(h: HStore, bound: nat, key: string)
    requires Canonical(h)
  {
    bound <= Count(h) && forall q :: 0 <= q < bound ==> KeyCompare(KeyAt(h, q), key) < 0
  }

  ghost predicate UpTo(h: HStore, bound: nat, key: string)
    requires Canonical(h)
  {
    bound <= Count(h) && forall q :: 0 <= q < bound ==> KeyCompare(KeyAt(h, q), key) <= 0
  }

  lemma {:induction false} StartBound(h: HStore, key: string)
    requires Canonical(h)
    ensures LowBound(h, 0, key)
  {
  }

  /** A bound left by one search holds for the search of any greater key. */
  lemma {:induction false} NextBound(h: HStore, bound: nat, key: string, next: string)
    requires Canonical(h) && UpTo(h, bound, key) && KeyCompare(key, next) < 0
    ensures LowBound(h, bound, next)
  {
    hide KeyCompare, KeyAt, Canonical;
    forall q | 0 <= q < bound ensures KeyCompare(KeyAt(h, q), next) < 0 { KeyChain(KeyAt(h, q), key, next); }
  }

  lemma {:induction false} KeysInOrder(h: HStore, i: nat, j: nat)
    requires Canonical(h) && i < j < Count(h)
    ensures KeyCompare(KeyAt(h, i), KeyAt(h, j)) < 0
  {
    hide KeyCompare, Readable;
  }

  /** Stored keys ascend by length, and those of one length by their bytes. */
  lemma {:induction false} StoredKeysAscend(h: HStore, i: nat, j: nat)
    requires Canonical(h) && i < j < Count(h)
    ensures KeyBefore(KeyAt(h, i), KeyAt(h, j))
  {
    hide Canonical, KeyAt, KeyBefore;
    KeysInOrder(h, i, j);
    KeyOrderAscends(KeyAt(h, i), KeyAt(h, j));
  }

  lemma {:induction false} IndexOfKey(h: HStore, k: string) returns (i: nat)
    requires Canonical(h) && k in Contents(h)
    ensures i < Count(h) && KeyAt(h, i) == k
  {
    hide KeyCompare;
    KeyInMap(Decode(h), k);
    i :| 0 <= i < |Decode(h)| && Decode(h)[i].key == k;
  }

  /** All keys below the bound are below, all from it on are above: the key is not there. */
  lemma {:induction false} NotThere(h: HStore, bound: nat, key: string)
    requires Canonical(h) && LowBound(h, bound, key)
    requires bound < Count(h) ==> KeyCompare(KeyAt(h, bound), key) > 0
    ensures key !in Contents(h)
  {
    hide KeyCompare, Canonical, Contents, KeyAt;
    if key in Contents(h) {
      var i := IndexOfKey(h, key);
      KeyZero(key, key);
      if i > bound { KeysInOrder(h, bound, i); }
    }
  }

  lemma {:induction false} FoundThere(h: HStore, i: nat)
    requires Canonical(h) && i < Count(h)
    ensures KeyAt(h, i) in Contents(h) && Contents(h)[KeyAt(h, i)] == ValAt(h, i)
  {
    PairInMap(Decode(h), i);
  }

  /** hstoreFindKey, with the bound it starts from and the bound it leaves. */
  method FindKey(h: HStore, lowbound: nat, key: string) returns (idx: int, next: nat)
    requires Canonical(h) && LowBound(h, lowbound, key)
    ensures idx >= 0 ==> idx < Count(h) && KeyAt(h, idx) == key && next == idx + 1
    ensures idx < 0 ==> idx == -1 && key !in Contents(h)
    ensures lowbound <= next && (idx >= 0 ==> lowbound <= idx) && UpTo(h, next, key)
  {
    hide KeyCompare, Canonical, KeyAt, Count, Contents;
    var stopLow, stopHigh := lowbound, Count(h);
    while stopLow < stopHigh
      invariant lowbound <= stopLow <= stopHigh <= Count(h) && LowBound(h, stopLow, key)
      invariant stopHigh < Count(h) ==> KeyCompare(KeyAt(h, stopHigh), key) > 0
    {
      var stopMiddle := stopLow + (stopHigh - stopLow) / 2;
      var difference := KeyCompare(KeyAt(h, stopMiddle), key);
      if difference == 0 {
        KeyZero(KeyAt(h, stopMiddle), key);
        MiddleBound(h, stopMiddle, key);
        return stopMiddle, stopMiddle + 1;
      } else if difference < 0 {
        MiddleBound(h, stopMiddle, key);
        stopLow := stopMiddle + 1;
      } else {
        stopHigh := stopMiddle;
      }
    }
    NotThere(h, stopLow, key);
    return -1, stopLow;
  }

  lemma {:induction false} MiddleBound(h: HStore, mid: nat, key: string)
    requires Canonical(h) && mid < Count(h) && KeyCompare(KeyAt(h, mid), key) <= 0
    ensures UpTo(h, mid + 1, key) && (KeyCompare(KeyAt(h, mid), key) < 0 ==> LowBound(h, mid + 1, key))
  {
    hide KeyCompare, Canonical, KeyAt, Count;
    forall q | 0 <= q < mid ensures KeyCompare(KeyAt(h, q), key) < 0 {
      KeysInOrder(h, q, mid);
      KeyChain(KeyAt(h, q), KeyAt(h, mid), key);
    }
  }

  // ---------------------------------------------------------------- the operators

  /** hstore_fetchval and hstore_defined: null for a missing key and for a null value alike. */
  method FetchVal(h: HStore, key: string) returns (v: Value)
    requires Canonical(h)
    ensures v == if key in Contents(h) then Contents(h)[key] else Null
  {
    hide KeyCompare, Canonical, KeyAt, Contents, ValAt;
    var idx, _ := FindKey(h, 0, key);
    if idx < 0 { return Null; }
    FoundThere(h, idx);
    return ValAt(h, idx);
  }

  datatype Answer = Answer(res: bool) | NoAnswer

  /** hstore_exists_any. */
  method ExistsAny(h: HStore, arr: seq<Value>) returns (r: Answer)
    requires Canonical(h)
    ensures r == NoAnswer <==> !Granted(PAIR_SIZE * |arr|)
    ensures r.Answer? ==> (r.res <==> exists k :: k in Contents(h) && Text(k) in arr)
  {
    hide KeyCompare, Canonical, KeyAt, Contents, LowBound, UpTo;
    var list := ArrayToPairs(arr);
    if list == NoRoom { return NoAnswer; }
    var keys := list.keys;
    var lowbound := 0;
    if |keys| > 0 { StartBound(h, keys[0]); }
    for i := 0 to |keys|
      invariant i < |keys| ==> LowBound(h, lowbound, keys[i])
      invariant forall q :: 0 <= q < i ==> keys[q] !in Contents(h)
    {
      var idx, next := FindKey(h, lowbound, keys[i]);
      lowbound := next;
      if idx >= 0 {
        FoundThere(h, idx);
        assert keys[i] in keys;
        return Answer(true);
      }
      if i + 1 < |keys| { NextBound(h, next, keys[i], keys[i + 1]); }
    }
    assert forall k :: Text(k) in arr ==> k in keys;
    return Answer(false);
  }

  /** hstore_exists_all. */
  method ExistsAll(h: HStore, arr: seq<Value>) returns (r: Answer)
    requires Canonical(h)
    ensures r == NoAnswer <==> !Granted(PAIR_SIZE * |arr|)
    ensures r.Answer? ==> (r.res <==> forall k :: Text(k) in arr ==> k in Contents(h))
  {
    hide KeyCompare, Canonical, KeyAt, Contents, LowBound, UpTo;
    var list := ArrayToPairs(arr);
    if list == NoRoom { return NoAnswer; }
    var keys := list.keys;
    var lowbound := 0;
    if |keys| > 0 { StartBound(h, keys[0]); }
    for i := 0 to |keys|
      invariant i < |keys| ==> LowBound(h, lowbound, keys[i])
      invariant forall q :: 0 <= q < i ==> keys[q] in Contents(h)
    {
      var idx, next := FindKey(h, lowbound, keys[i]);
      lowbound := next;
      if idx < 0 {
        assert keys[i] in keys;
        return Answer(false);
      }
      FoundThere(h, idx);
      if i + 1 < |keys| { NextBound(h, next, keys[i], keys[i + 1]); }
    }
    assert forall k :: Text(k) in arr ==> k in keys;
    return Answer(true);
  }

  /** hstore_contains: every pair of the template is a pair of the value. */
  method Contains(val: HStore, tmpl: HStore) returns (res: bool)
    requires Canonical(val) && Canonical(tmpl)
    ensures res <==> forall k :: k in Contents(tmpl) ==> k in Contents(val) && Contents(val)[k] == Contents(tmpl)[k]
  {
    hide KeyCompare, Canonical, KeyAt, ValAt, Contents, LowBound, UpTo;
    var tcount, lastidx := Count(tmpl), 0;
    if tcount > 0 { StartBound(val, KeyAt(tmpl, 0)); }
    for i := 0 to tcount
      invariant i < tcount ==> LowBound(val, lastidx, KeyAt(tmpl, i))
      invariant forall q :: 0 <= q < i ==> Agrees(val, tmpl, KeyAt(tmpl, q))
    {
      var key := KeyAt(tmpl, i);
      FoundThere(tmpl, i);
      var idx, next := FindKey(val, lastidx, key);
      lastidx := next;
      if idx < 0 { return false; }
      FoundThere(val, idx);
      if ValAt(tmpl, i) != ValAt(val, idx) { return false; }
      if i + 1 < tcount {
        KeysInOrder(tmpl, i, i + 1);
        NextBound(val, next, key, KeyAt(tmpl, i + 1));
      }
    }
    forall k | k in Contents(tmpl) ensures Agrees(val, tmpl, k) {
      var i := IndexOfKey(tmpl, k);
      FoundThere(tmpl, i);
    }
    return true;
  }

  ghost predicate Agrees(val: HStore, tmpl: HStore, k: string)
    requires Canonical(val) && Canonical(tmpl)
  {
    k in Contents(tmpl) && k in Contents(val) && Contents(val)[k] == Contents(tmpl)[k]
  }
}
