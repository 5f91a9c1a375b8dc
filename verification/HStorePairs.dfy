/** contrib/hstore/hstore_io.c: lists of pairs, sorted and freed of duplicate keys, and written as a value. */
module HStorePairs {
  import opened Alloc
  import opened HStoreLayout
  import opened HStoreBuilder

  /** A pair from the input, with the flag that its memory is to be freed. */
  datatype Item = Item(pair: Pair, needfree: bool)

  function ComparePairs(a: Item, b: Item): int {
    var res := KeyCompare(a.pair.key, b.pair.key);
    if res != 0 then res
    else if a.needfree == b.needfree then 0
    else if a.needfree then 1
    else -1
  }

  lemma {:induction false} ComparesTransitively(a: Item, b: Item, c: Item)
    requires ComparePairs(a, b) <= 0 && ComparePairs(b, c) <= 0
    ensures ComparePairs(a, c) <= 0
  {
    hide KeyCompare;
    KeyTransitive(a.pair.key, b.pair.key, c.pair.key);
    KeyZero(a.pair.key, c.pair.key);
    KeyZero(a.pair.key, b.pair.key);
    KeyZero(b.pair.key, c.pair.key);
    KeyAntisymmetric(a.pair.key, b.pair.key);
  }

  lemma {:induction false} ComparesEitherWay(a: Item, b: Item)
    ensures ComparePairs(a, b) <= 0 || ComparePairs(b, a) <= 0
  {
    hide KeyCompare;
    KeyAntisymmetric(a.pair.key, b.pair.key);
  }

  ghost predicate InOrder(s: seq<Item>) {
    forall i, j :: 0 <= i < j < |s| ==> ComparePairs(s[i], s[j]) <= 0
  }

  // ---------------------------------------------------------------- sorting

  function Insert(s: seq<Item>, x: Item): seq<Item> {
    if s == [] || ComparePairs(s[|s| - 1], x) <= 0 then s + [x]
    else Insert(s[..|s| - 1], x) + [s[|s| - 1]]
  }

  lemma {:induction false} InsertKeeps(s: seq<Item>, x: Item)
    requires InOrder(s)
    ensures InOrder(Insert(s, x)) && multiset(Insert(s, x)) == multiset(s) + multiset{x}
  {
    hide ComparePairs;
    if s != [] {
      var init, last := s[..|s| - 1], s[|s| - 1];
      assert s == init + [last];
      if ComparePairs(last, x) <= 0 {
        forall i | 0 <= i < |s| ensures ComparePairs(s[i], x) <= 0 {
          if i < |s| - 1 { ComparesTransitively(s[i], last, x); }
        }
      } else {
        InsertKeeps(init, x);
        ComparesEitherWay(x, last);
        var r := Insert(init, x);
        forall i | 0 <= i < |r| ensures ComparePairs(r[i], last) <= 0 {
          assert r[i] in multiset(r);
          assert r[i] in init || r[i] == x;
        }
      }
    }
  }

  /** qsort: some permutation in order. */
  method QSort(a: array<Item>, l: nat)
    requires l <= a.Length
    modifies a
    ensures InOrder(a[..l]) && multiset(a[..l]) == multiset(old(a[..l]))
  {
    hide InOrder, Insert;
    var was := a[..l];
    var s: seq<Item> := [];
    assert InOrder(s) by { InOrderEmpty(); }
    for i := 0 to l
      invariant InOrder(s) && multiset(s) == multiset(was[..i]) && a[..l] == was
    {
      InsertKeeps(s, was[i]);
      s := Insert(s, was[i]);
      assert was[..i + 1] == was[..i] + [was[i]];
    }
    assert was[..l] == was;
    assert |s| == |multiset(s)| == l;
    forall i | 0 <= i < l { a[i] := s[i]; }
    assert a[..l] == s;
  }

  lemma {:induction false} InOrderEmpty()
    ensures InOrder([])
  {
  }

  // ---------------------------------------------------------------- removing duplicate keys

  function Pairs(s: seq<Item>): (ps: seq<Pair>)
    ensures |ps| == |s| && forall i :: 0 <= i < |s| ==> ps[i] == s[i].pair
  {
    if s == [] then [] else Pairs(s[..|s| - 1]) + [s[|s| - 1].pair]
  }

  /** out has the keys of s in strict order, each with a pair of s, one not to be freed if there is one. */
  ghost predicate IsUnique(out: seq<Item>, s: seq<Item>) {
    && SortedKeys(Pairs(out))
    && (forall x :: x in out ==> x in s)
    && (forall y :: y in s ==> Represented(out, y))
  }

  ghost predicate Represented(out: seq<Item>, y: Item) {
    exists x :: x in out && x.pair.key == y.pair.key && (x.needfree ==> y.needfree)
  }

  /** The first of every run of equal keys. */
  function Firsts(s: seq<Item>): (r: seq<Item>)
    ensures |r| <= |s| && (s != [] ==> r != [])
  {
    if s == [] then []
    else
      var r, x := Firsts(s[..|s| - 1]), s[|s| - 1];
      if r != [] && r[|r| - 1].pair.key == x.pair.key then r else r + [x]
  }

  /** The last pair kept stands for the run at the end. */
  lemma {:induction false} LastOfFirsts(s: seq<Item>)
    requires InOrder(s) && s != []
    ensures var r := Firsts(s); ComparePairs(r[|r| - 1], s[|s| - 1]) <= 0 && r[|r| - 1].pair.key == s[|s| - 1].pair.key
  {
    var init, x := s[..|s| - 1], s[|s| - 1];
    KeyZero(x.pair.key, x.pair.key);
    if init != [] {
      LastOfFirsts(init);
      hide KeyCompare;
      var r := Firsts(init);
      ComparesTransitively(r[|r| - 1], init[|init| - 1], x);
    }
  }

  lemma {:induction false} FirstsIsUnique(s: seq<Item>)
    requires InOrder(s)
    ensures IsUnique(Firsts(s), s)
  {
    if s != [] {
      var init, x := s[..|s| - 1], s[|s| - 1];
      assert s == init + [x];
      FirstsIsUnique(init);
      var r := Firsts(init);
      assert Firsts(s) == if r != [] && r[|r| - 1].pair.key == x.pair.key then r else r + [x];
      assert init != [] ==> ComparePairs(init[|init| - 1], x) <= 0;
      if init == [] {
        hide IsUnique, InOrder, Firsts, KeyCompare;
        SmallIsUnique([x]);
      } else {
        LastOfFirsts(init);
        hide IsUnique, InOrder, Firsts, KeyCompare;
        FirstsGrow(r, init, x);
      }
    }
  }

  lemma {:induction false} FirstsGrow(r: seq<Item>, init: seq<Item>, x: Item)
    requires IsUnique(r, init) && r != [] && init != []
    requires ComparePairs(r[|r| - 1], init[|init| - 1]) <= 0 && ComparePairs(init[|init| - 1], x) <= 0
    ensures IsUnique(if r[|r| - 1].pair.key == x.pair.key then r else r + [x], init + [x])
  {
    hide KeyCompare, SortedKeys, Pairs;
    var last := r[|r| - 1];
    ComparesTransitively(last, init[|init| - 1], x);
    KeyZero(last.pair.key, x.pair.key);
    if last.pair.key == x.pair.key {
      assert last in r && Represented(r, x);
      KeepsUnique(r, init, x);
    } else {
      NewKeySorts(r, x);
      GrowsUnique(r, init, x);
    }
  }

  lemma {:induction false} KeepsUnique(out: seq<Item>, s: seq<Item>, x: Item)
    requires IsUnique(out, s) && Represented(out, x)
    ensures IsUnique(out, s + [x])
  {
  }

  lemma {:induction false} GrowsUnique(out: seq<Item>, s: seq<Item>, x: Item)
    requires IsUnique(out, s) && SortedKeys(Pairs(out + [x]))
    ensures IsUnique(out + [x], s + [x])
  {
    hide SortedKeys;
    assert x in out + [x];
    forall y | y in s + [x] ensures Represented(out + [x], y) {
      if y in s {
        assert Represented(out, y);
        var z :| z in out && z.pair.key == y.pair.key && (z.needfree ==> y.needfree);
        assert z in out + [x];
      }
    }
  }

  lemma {:induction false} NewKeySorts(r: seq<Item>, x: Item)
    requires SortedKeys(Pairs(r)) && r != [] && KeyCompare(r[|r| - 1].pair.key, x.pair.key) < 0
    ensures SortedKeys(Pairs(r + [x]))
  {
    hide KeyCompare;
    var ps := Pairs(r);
    forall i | 0 <= i < |r| - 1 ensures KeyCompare(ps[i].key, x.pair.key) < 0 {
      KeyChain(ps[i].key, ps[|r| - 1].key, x.pair.key);
    }
  }

  function PairLen(p: Pair): nat {
    |p.key| + if p.val.Null? then 0 else |p.val.text|
  }

  lemma {:induction false} BytesLen(ps: seq<Pair>, p: Pair)
    ensures |Bytes(ps + [p])| == |Bytes(ps)| + PairLen(p)
  {
    PiecesSnoc(ps, p);
  }

  lemma {:induction false} PairsSnoc(s: seq<Item>, x: Item)
    ensures Pairs(s + [x]) == Pairs(s) + [x.pair]
  {
  }

  lemma {:induction false} FirstsStep(s: seq<Item>, k: nat)
    requires 0 < k < |s|
    ensures var r := Firsts(s[..k]);
      r != [] && Firsts(s[..k + 1]) == if r[|r| - 1].pair.key == s[k].pair.key then r else r + [s[k]]
  {
    assert s[..k + 1][..k] == s[..k];
  }

  lemma {:induction false} FirstsOfOne(s: seq<Item>)
    requires s != []
    ensures Firsts(s[..1]) == [s[0]]
  {
  }

  /** Halfway: the first res + 1 pairs of v are those kept from the first ptr pairs of s. */
  ghost predicate Deduping(s: seq<Item>, v: seq<Item>, ptr: nat, res: nat, buflen: nat) {
    && |v| == |s| && res < ptr <= |s|
    && v[..res + 1] == Firsts(s[..ptr]) && v[ptr..] == s[ptr..]
    && buflen == |Bytes(Pairs(v[..res]))|
  }

  lemma {:induction false} DedupStart(s: seq<Item>)
    requires s != []
    ensures Deduping(s, s, 1, 0, 0)
  {
    FirstsOfOne(s);
    EmptyBytes();
    PairsEmpty();
  }

  lemma {:induction false} DedupSkip(s: seq<Item>, v: seq<Item>, ptr: nat, res: nat, buflen: nat)
    requires Deduping(s, v, ptr, res, buflen) && ptr < |s| && v[ptr].pair.key == v[res].pair.key
    ensures Deduping(s, v, ptr + 1, res, buflen)
  {
    hide Bytes, Pairs, Firsts;
    FirstsStep(s, ptr);
    assert v[..res + 1][res] == v[res] && v[ptr..][0] == s[ptr..][0];
    assert v[ptr + 1..] == v[ptr..][1..] && s[ptr + 1..] == s[ptr..][1..];
  }

  lemma {:induction false} DedupKeep(s: seq<Item>, v: seq<Item>, ptr: nat, res: nat, buflen: nat)
    requires Deduping(s, v, ptr, res, buflen) && ptr < |s| && v[ptr].pair.key != v[res].pair.key
    ensures Deduping(s, v[res + 1 := v[ptr]], ptr + 1, res + 1, buflen + PairLen(v[res].pair))
  {
    hide Bytes, Pairs, Firsts, PairLen;
    FirstsStep(s, ptr);
    var w := v[res + 1 := v[ptr]];
    assert v[..res + 1][res] == v[res] && v[ptr..][0] == s[ptr..][0];
    assert w[ptr + 1..] == v[ptr..][1..] && s[ptr + 1..] == s[ptr..][1..];
    assert w[..res + 2] == v[..res + 1] + [v[ptr]];
    assert w[..res + 1] == v[..res] + [v[res]];
    AddedBytes(v[..res], v[res]);
  }

  lemma {:induction false} DedupEnd(s: seq<Item>, v: seq<Item>, res: nat, buflen: nat)
    requires Deduping(s, v, |s|, res, buflen)
    ensures v[..res + 1] == Firsts(s) && buflen + PairLen(v[res].pair) == |Bytes(Pairs(v[..res + 1]))|
  {
    hide Bytes, Pairs, Firsts, PairLen;
    assert s[..|s|] == s && v[..res + 1] == v[..res] + [v[res]];
    AddedBytes(v[..res], v[res]);
  }

  /** The loop over the sorted pairs. */
  method Deduplicate(a: array<Item>, l: nat) returns (n: nat, buflen: nat)
    requires 0 < l <= a.Length
    modifies a
    ensures n <= l && a[..n] == Firsts(old(a[..l])) && buflen == |Bytes(Pairs(a[..n]))|
  {
    hide Bytes, Pairs, Firsts, Deduping;
    ghost var s := a[..l];
    DedupStart(s);
    var ptr, res := 1, 0;
    buflen := 0;
    while ptr < l
      invariant res < ptr <= l && Deduping(s, a[..l], ptr, res, buflen)
    {
      if a[ptr].pair.key == a[res].pair.key {
        DedupSkip(s, a[..l], ptr, res, buflen);
      } else {
        DedupKeep(s, a[..l], ptr, res, buflen);
        ghost var v := a[..l];
        buflen := buflen + PairLen(a[res].pair);
        res := res + 1;
        a[res] := a[ptr];
        assert a[..l] == v[res := v[ptr]];
      }
      ptr := ptr + 1;
    }
    DedupEnd(s, a[..l], res, buflen);
    assert a[..l][..res + 1] == a[..res + 1];
    return res + 1, buflen + PairLen(a[res].pair);
  }

  lemma {:induction false} AddedBytes(s: seq<Item>, x: Item)
    ensures |Bytes(Pairs(s + [x]))| == |Bytes(Pairs(s))| + PairLen(x.pair)
  {
    PairsSnoc(s, x);
    BytesLen(Pairs(s), x.pair);
  }

  /** hstoreUniquePairs, in place: the unique pairs come first, and buflen is the room for their bytes. */
  method UniquePairs(a: array<Item>, l: nat) returns (n: nat, buflen: nat)
    requires l <= a.Length
    modifies a
    ensures n <= l && IsUnique(a[..n], old(a[..l])) && buflen == |Bytes(Pairs(a[..n]))|
    ensures forall i, j :: 0 <= i < j < n ==> KeyBefore(a[i].pair.key, a[j].pair.key)
  {
    n, buflen := SortUnique(a, l);
    UniqueAscends(a[..n], old(a[..l]));
    hide KeyBefore, IsUnique, Bytes, Pairs;
    forall i, j | 0 <= i < j < n ensures KeyBefore(a[i].pair.key, a[j].pair.key) {
      assert a[i] == a[..n][i] && a[j] == a[..n][j];
    }
  }

  lemma {:induction false} UniqueAscends(out: seq<Item>, s: seq<Item>)
    requires IsUnique(out, s)
    ensures forall i, j :: 0 <= i < j < |out| ==> KeyBefore(out[i].pair.key, out[j].pair.key)
  {
    hide KeyBefore, KeyCompare;
    forall i, j | 0 <= i < j < |out| ensures KeyBefore(out[i].pair.key, out[j].pair.key) {
      assert Pairs(out)[i] == out[i].pair && Pairs(out)[j] == out[j].pair;
      KeyOrderAscends(out[i].pair.key, out[j].pair.key);
    }
  }

  method SortUnique(a: array<Item>, l: nat) returns (n: nat, buflen: nat)
    requires l <= a.Length
    modifies a
    ensures n <= l && IsUnique(a[..n], old(a[..l])) && buflen == |Bytes(Pairs(a[..n]))|
  {
    hide Bytes, InOrder, IsUnique, Firsts, Pairs;
    ghost var was := a[..l];
    if l < 2 {
      SmallIsUnique(was);
      EmptyBytes();
      PairsEmpty();
      buflen := 0;
      if l == 1 {
        buflen := PairLen(a[0].pair);
        AddedBytes([], a[0]);
        assert a[..1] == [] + [a[0]];
      }
      return l, buflen;
    }
    QSort(a, l);
    ghost var s := a[..l];
    n, buflen := Deduplicate(a, l);
    FirstsIsUnique(s);
    SameItems(s, was, Firsts(s));
  }

  lemma {:induction false} PairsEmpty()
    ensures Pairs([]) == []
  {
  }

  lemma {:induction false} EmptyBytes()
    ensures Bytes([]) == ""
  {
  }

  lemma {:induction false} SmallIsUnique(s: seq<Item>)
    requires |s| < 2
    ensures IsUnique(s, s)
  {
    forall y | y in s ensures Represented(s, y) { }
  }

  lemma {:induction false} SameItems(s: seq<Item>, t: seq<Item>, out: seq<Item>)
    requires multiset(s) == multiset(t) && IsUnique(out, s)
    ensures IsUnique(out, t)
  {
    forall x | x in s ensures x in t { assert x in multiset(s); }
    forall x | x in t ensures x in s { assert x in multiset(t); }
  }

  // ---------------------------------------------------------------- writing pairs

  /** A value, or the error of an allocation past the limit. */
  datatype Stored = Ok(hs: HStore) | AllocError

  lemma {:induction false} BytesGrow(ps: seq<Pair>, i: nat)
    requires i <= |ps|
    ensures |Bytes(ps[..i])| <= |Bytes(ps)|
  {
    hide Bytes;
    if i < |ps| {
      var init := ps[..|ps| - 1];
      BytesGrow(init, i);
      assert init[..i] == ps[..i] && ps == init + [ps[|ps| - 1]];
      BytesLen(init, ps[|ps| - 1]);
    } else {
      assert ps[..i] == ps;
    }
  }

  /** hstorePairs. */
  method FromPairs(pairs: seq<Pair>, buflen: nat) returns (r: Stored)
    requires buflen == |Bytes(pairs)|
    ensures r == if Fits(pairs) then Ok(Encode(pairs)) else AllocError
  {
    hide Bytes, Encode;
    if CalcDataSize(|pairs|, buflen) > MAX_ALLOC { return AllocError; }
    if |pairs| == 0 {
      EncodedEmpty();
      return Ok(HStore(CalcDataSize(0, 0), NEWVERSION, [], ""));
    }
    var b := new Builder(|pairs|, buflen);
    for i := 0 to |pairs|
      invariant b.Valid() && b.built == pairs[..i] && fresh(b) && fresh(b.entries) && fresh(b.buf)
      invariant b.entries.Length == 2 * |pairs| && b.buf.Length == buflen && b.dent == 2 * i
    {
      assert pairs[..i + 1] == pairs[..i] + [pairs[i]];
      BytesLen(pairs[..i], pairs[i]);
      BytesGrow(pairs, i + 1);
      b.AddItem(pairs[i]);
    }
    assert pairs[..|pairs|] == pairs;
    var h := b.Finalize(|pairs|);
    return Ok(h);
  }

  lemma {:induction false} EncodedEmpty()
    ensures Encode([]) == HStore(CalcDataSize(0, 0), NEWVERSION, [], "") && Bytes([]) == ""
  {
  }

  // ---------------------------------------------------------------- arrays of keys

  ghost predicate Ascending(keys: seq<string>) {
    forall i, j :: 0 <= i < j < |keys| ==> KeyCompare(keys[i], keys[j]) < 0
  }

  /** The size of one Pairs. */
  const PAIR_SIZE := 40

  datatype KeyList = Keys(keys: seq<string>) | NoRoom

  /** hstoreArrayToPairs: the keys of an array of texts without its nulls, in strict order, unless the list with
      a place for every element passes the allocation limit. */
  method ArrayToPairs(arr: seq<Value>) returns (r: KeyList)
    ensures r == NoRoom <==> !Granted(PAIR_SIZE * |arr|)
    ensures r.Keys? ==> Ascending(r.keys) && forall k :: k in r.keys <==> Text(k) in arr
  {
    if |arr| == 0 { return Keys([]); }
    if !Granted(PAIR_SIZE * |arr|) { return NoRoom; }
    var a := new Item[|arr|](_ => Item(Pair("", Null), false));
    var j := 0;
    for i := 0 to |arr|
      invariant 0 <= j <= i
      invariant IsKeysOf(a[..j], arr[..i])
    {
      assert arr[..i + 1] == arr[..i] + [arr[i]];
      if arr[i].Text? {
        ghost var was := a[..j];
        a[j] := Item(Pair(arr[i].text, Null), false);
        j := j + 1;
        assert a[..j] == was + [Item(Pair(arr[i].text, Null), false)];
      }
    }
    assert arr[..|arr|] == arr;
    ghost var items := a[..j];
    var n, buflen := UniquePairs(a, j);
    r := Keys(KeysOf(Pairs(a[..n])));
    UniqueKeys(a[..n], items, arr);
  }

  /** The items are the non-null texts, as keys with null values. */
  ghost predicate IsKeysOf(items: seq<Item>, arr: seq<Value>) {
    && (forall x :: x in items ==> Text(x.pair.key) in arr)
    && (forall k :: Text(k) in arr ==> Item(Pair(k, Null), false) in items)
  }

  function KeysOf(ps: seq<Pair>): (keys: seq<string>)
    ensures |keys| == |ps| && forall i :: 0 <= i < |ps| ==> keys[i] == ps[i].key
  {
    seq(|ps|, i requires 0 <= i < |ps| => ps[i].key)
  }

  lemma {:induction false} UniqueKeys(out: seq<Item>, items: seq<Item>, arr: seq<Value>)
    requires IsUnique(out, items) && IsKeysOf(items, arr)
    ensures Ascending(KeysOf(Pairs(out)))
    ensures forall k :: k in KeysOf(Pairs(out)) <==> Text(k) in arr
  {
    hide KeyCompare, Pairs;
    var keys := KeysOf(Pairs(out));
    forall k | k in keys ensures Text(k) in arr {
      var i :| 0 <= i < |keys| && keys[i] == k;
      assert out[i] in out;
    }
    forall k | Text(k) in arr ensures k in keys {
      var y := Item(Pair(k, Null), false);
      assert Represented(out, y);
      var x :| x in out && x.pair.key == y.pair.key;
      var i :| 0 <= i < |out| && out[i] == x;
      assert keys[i] == k;
    }
  }
}
