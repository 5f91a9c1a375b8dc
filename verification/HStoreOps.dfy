/** contrib/hstore/hstore_op.c: the operators that merge stored values into a new one. */
module HStoreOps {
  import opened Alloc
  import opened HStoreLayout
  import opened HStoreBuilder
  import opened HStoreMap
  import opened HStorePairs
  import opened HStoreSearch

  // ---------------------------------------------------------------- taking keys out

  /** built lists the first i pairs of ps without the keys in gone, in no more room. */
  ghost predicate Trimmed(built: seq<Pair>, ps: seq<Pair>, i: nat, gone: set<string>) {
    && i <= |ps| && SortedKeys(built) && ToMap(built) == ToMap(ps[..i]) - gone
    && |built| <= i && |Bytes(built)| <= |Bytes(ps[..i])|
  }

  lemma {:induction false} TrimStart(ps: seq<Pair>, gone: set<string>)
    ensures Trimmed([], ps, 0, gone)
  {
    assert ps[..0] == [];
  }

  lemma {:induction false} TrimStep(built: seq<Pair>, ps: seq<Pair>, i: nat, gone: set<string>)
    requires Trimmed(built, ps, i, gone) && i < |ps| && SortedKeys(ps)
    ensures Trimmed(if ps[i].key in gone then built else built + [ps[i]], ps, i + 1, gone)
  {
    hide KeyCompare, Bytes, ToMap, SortedKeys;
    TakeStep(ps, i);
    TakeBytes(ps, i);
    var was, p := ToMap(ps[..i]), ps[i];
    if p.key in gone {
      assert was[p.key := p.val] - gone == was - gone;
    } else {
      SortedSnoc(built, p);
      MapSnoc(built, p);
      BytesLen(built, p);
      assert was[p.key := p.val] - gone == (was - gone)[p.key := p.val];
    }
  }

  lemma {:induction false} TakeBytes(ps: seq<Pair>, i: nat)
    requires i < |ps|
    ensures |Bytes(ps[..i + 1])| == |Bytes(ps[..i])| + PairLen(ps[i])
  {
    assert ps[..i + 1] == ps[..i] + [ps[i]];
    BytesLen(ps[..i], ps[i]);
  }

  /** Room for a part of a stored value is room for its encoding. */
  lemma {:induction false} TrimEnd(built: seq<Pair>, h: HStore, gone: set<string>)
    requires Canonical(h) && Trimmed(built, Decode(h), |Decode(h)|, gone)
    ensures Canonical(Encode(built)) && Contents(Encode(built)) == Contents(h) - gone
  {
    var ps := Decode(h);
    CanonicalIsEncoded(h);
    hide Canonical, Decode, Encode, KeyCompare, ToMap, SortedKeys, Bytes;
    assert ps[..|ps|] == ps;
    EncodedIsCanonical(built);
  }

  /** The room that a stored value leaves for bytes. */
  lemma {:induction false} RoomOf(h: HStore, i: nat)
    requires Canonical(h) && i <= Count(h)
    ensures |Decode(h)| == Count(h) && |Bytes(Decode(h)[..i])| <= |h.str| == h.vsize - CalcDataSize(Count(h), 0)
  {
    var ps := Decode(h);
    CanonicalIsEncoded(h);
    assert h.str == Bytes(ps);
    hide Decode, Encode, KeyCompare, ToMap, SortedKeys, Bytes;
    BytesGrow(ps, i);
  }

  /** What is kept so far leaves room for the next pair. */
  lemma {:induction false} HasRoom(built: seq<Pair>, h: HStore, i: nat, gone: set<string>)
    requires Canonical(h) && i < |Decode(h)| && Trimmed(built, Decode(h), i, gone)
    ensures |Decode(h)| == Count(h) && |built| < Count(h)
    ensures |Bytes(built)| + PairLen(Decode(h)[i]) <= |h.str|
  {
    hide Decode, Canonical, KeyCompare, ToMap, SortedKeys, Bytes;
    CanonicalIsReadable(h);
    RoomOf(h, 0);
    RoomOf(h, i + 1);
    TakeBytes(Decode(h), i);
  }

  lemma {:induction false} PairToCopy(h: HStore, i: nat)
    requires Canonical(h) && i < Count(h)
    ensures |h.entries| == 2 * Count(h) && IsFirst(h.entries[0]) && |Decode(h)| == Count(h)
    ensures var at, klen, vlen, vnull := Off(h, 2 * i), Len(h, 2 * i), Len(h, 2 * i + 1), IsNull(h.entries[2 * i + 1]);
      && klen >= 0 && vlen >= 0 && at + klen + vlen <= |h.str| && (vnull ==> vlen == 0)
      && klen + vlen == PairLen(Decode(h)[i])
      && Decode(h)[i] == Pair(h.str[at..at + klen], if vnull then Null else Text(h.str[at + klen..at + klen + vlen]))
  {
    CanonicalIsReadable(h);
    ReadPair(h, i);
    hide Decode, Canonical, Off, Len, IsNull, IsFirst;
  }

  /** HS_COPYITEM of pair i. */
  method CopyPair(b: Builder, h: HStore, i: nat)
    requires b.Valid() && Canonical(h) && i < Count(h) && |Decode(h)| == Count(h)
    requires b.dptr + PairLen(Decode(h)[i]) <= b.buf.Length && b.dent + 2 <= b.entries.Length
    modifies b, b.entries, b.buf
    ensures b.Valid() && b.built == old(b.built) + [Decode(h)[i]]
  {
    hide Decode, Canonical, Off, Len, IsNull, IsFirst, PairLen, Bytes, RawEntries, PiecesOf;
    CanonicalIsReadable(h);
    PairToCopy(h, i);
    b.CopyItem(h.str, Off(h, 2 * i), Len(h, 2 * i), Len(h, 2 * i + 1), IsNull(h.entries[2 * i + 1]));
  }

  /** hstore_delete. */
  method Delete(h: HStore, key: string) returns (out: HStore)
    requires Canonical(h)
    ensures Canonical(out) && Contents(out) == Contents(h) - {key}
  {
    hide Canonical, Decode, Encode, KeyCompare, ToMap, Trimmed, Bytes, KeyAt, Contents, SortedKeys;
    CanonicalIsReadable(h);
    ghost var ps, gone := Decode(h), {key};
    RoomOf(h, 0);
    var count := Count(h);
    var b := new Builder(count, h.vsize - CalcDataSize(count, 0));
    var outcount := 0;
    TrimStart(ps, gone);
    for i := 0 to count
      invariant fresh(b) && fresh(b.entries) && fresh(b.buf) && b.Valid()
      invariant b.entries.Length == 2 * count && b.buf.Length == |h.str|
      invariant Trimmed(b.built, ps, i, gone) && b.dent == 2 * outcount
    {
      TrimStep(b.built, ps, i, gone);
      if KeyAt(h, i) != key {
        HasRoom(b.built, h, i, gone);
        CopyPair(b, h, i);
        outcount := outcount + 1;
      }
    }
    TrimEnd(b.built, h, gone);
    out := b.Finalize(outcount);
  }

  /** The first j keys of a list in strict order lie below key. */
  ghost predicate Behind(keys: seq<string>, j: nat, key: string) {
    j <= |keys| && forall q :: 0 <= q < j ==> KeyCompare(keys[q], key) < 0
  }

  /** Between two keys of a list in strict order there is none of its keys. */
  lemma {:induction false} NotAmong(keys: seq<string>, j: nat, key: string)
    requires Ascending(keys) && Behind(keys, j, key) && (j < |keys| ==> KeyCompare(key, keys[j]) < 0)
    ensures key !in keys
  {
    hide KeyCompare;
    if key in keys {
      var q :| 0 <= q < |keys| && keys[q] == key;
      KeyZero(key, key);
      if q > j { KeyChain(key, keys[j], keys[q]); }
    }
  }

  lemma {:induction false} BehindNext(keys: seq<string>, j: nat, key: string, next: string)
    requires Behind(keys, j, key) && KeyCompare(key, next) < 0
    ensures Behind(keys, j, next) && (j < |keys| && keys[j] == key ==> Behind(keys, j + 1, next))
  {
    hide KeyCompare;
    forall q | 0 <= q < j ensures KeyCompare(keys[q], next) < 0 { KeyChain(keys[q], key, next); }
  }

  /** The merge of a stored value with a list of keys in strict order goes on to the next pair. */
  lemma {:induction false} MergeNext(h: HStore, i: nat, keys: seq<string>, j: nat)
    requires Canonical(h) && i < Count(h) && Behind(keys, j, KeyAt(h, i))
    ensures i + 1 < Count(h) ==> Behind(keys, j, KeyAt(h, i + 1))
    ensures i + 1 < Count(h) && j < |keys| && keys[j] == KeyAt(h, i) ==> Behind(keys, j + 1, KeyAt(h, i + 1))
  {
    hide KeyCompare, KeyAt, Canonical, Behind;
    if i + 1 < Count(h) {
      KeysInOrder(h, i, i + 1);
      BehindNext(keys, j, KeyAt(h, i), KeyAt(h, i + 1));
    }
  }

  lemma {:induction false} MergeSkip(keys: seq<string>, j: nat, key: string)
    requires Behind(keys, j, key) && j < |keys| && KeyCompare(key, keys[j]) > 0
    ensures Behind(keys, j + 1, key)
  {
    hide KeyCompare;
    KeyAntisymmetric(key, keys[j]);
  }

  lemma {:induction false} NothingBehind(keys: seq<string>, key: string)
    ensures Behind(keys, 0, key)
  {
  }

  ghost function TextsIn(arr: seq<Value>): set<string> {
    set v | v in arr && v.Text? :: v.text
  }

  ghost function KeySet(keys: seq<string>): set<string> {
    set k | k in keys
  }

  lemma {:induction false} SameKeys(keys: seq<string>, arr: seq<Value>)
    requires forall k :: k in keys <==> Text(k) in arr
    ensures KeySet(keys) == TextsIn(arr)
  {
  }

  /** The merge of a value with a list of keys to leave out. */
  method DeleteKeys(h: HStore, keys: seq<string>) returns (out: HStore)
    requires Canonical(h) && Ascending(keys)
    ensures Canonical(out) && Contents(out) == Contents(h) - KeySet(keys)
  {
    hide Canonical, Decode, Encode, KeyCompare, ToMap, Trimmed, Bytes, KeyAt, Contents, SortedKeys, Behind, Ascending;
    CanonicalIsReadable(h);
    ghost var ps, gone := Decode(h), KeySet(keys);
    RoomOf(h, 0);
    var count := Count(h);
    var b := new Builder(count, h.vsize - CalcDataSize(count, 0));
    var i, j, outcount := 0, 0, 0;
    TrimStart(ps, gone);
    if count > 0 { NothingBehind(keys, KeyAt(h, 0)); }
    while i < count
      invariant 0 <= i <= count && 0 <= j <= |keys| && (i < count ==> Behind(keys, j, KeyAt(h, i)))
      invariant fresh(b) && fresh(b.entries) && fresh(b.buf) && b.Valid()
      invariant b.entries.Length == 2 * count && b.buf.Length == |h.str|
      invariant Trimmed(b.built, ps, i, gone) && b.dent == 2 * outcount
      decreases count - i, |keys| - j
    {
      var difference := if j >= |keys| then -1 else KeyCompare(KeyAt(h, i), keys[j]);
      if difference > 0 {
        MergeSkip(keys, j, KeyAt(h, i));
        j := j + 1;
      } else {
        TrimStep(b.built, ps, i, gone);
        MergeNext(h, i, keys, j);
        if difference == 0 {
          KeyZero(KeyAt(h, i), keys[j]);
          i, j := i + 1, j + 1;
        } else {
          NotAmong(keys, j, KeyAt(h, i));
          HasRoom(b.built, h, i, gone);
          CopyPair(b, h, i);
          outcount := outcount + 1;
          i := i + 1;
        }
      }
    }
    TrimEnd(b.built, h, gone);
    out := b.Finalize(outcount);
  }

  /** hstore_delete_array. */
  method DeleteArray(h: HStore, arr: seq<Value>) returns (r: Stored)
    requires Canonical(h)
    ensures r == AllocError <==> !Granted(PAIR_SIZE * |arr|)
    ensures r.Ok? ==> Canonical(r.hs) && Contents(r.hs) == Contents(h) - TextsIn(arr)
  {
    hide Canonical, Contents, KeySet, Ascending;
    var list := ArrayToPairs(arr);
    if list == NoRoom { return AllocError; }
    SameKeys(list.keys, arr);
    if |list.keys| == 0 {
      FixSizeKeepsCanonical(h);
      NoKeys(Contents(h), list.keys);
      return Ok(FixSize(h));
    }
    var out := DeleteKeys(h, list.keys);
    return Ok(out);
  }

  lemma {:induction false} NoKeys(m: Dict, keys: seq<string>)
    requires keys == []
    ensures m - KeySet(keys) == m
  {
  }

  /** The keys that both maps give the same value. */
  ghost function Common(m: Dict, n: Dict): set<string> {
    set k | k in m && k in n && m[k] == n[k]
  }

  function KeysIn(h: HStore): (keys: seq<string>)
    requires Canonical(h)
    ensures |keys| == Count(h) && forall i :: 0 <= i < Count(h) ==> keys[i] == KeyAt(h, i)
  {
    seq(Count(h), i requires 0 <= i < Count(h) => KeyAt(h, i))
  }

  lemma {:induction false} KeysInAscend(h: HStore)
    requires Canonical(h)
    ensures Ascending(KeysIn(h)) && forall k :: k in Contents(h) ==> k in KeysIn(h)
  {
    hide KeyCompare, Canonical, KeyAt, Contents;
    var keys := KeysIn(h);
    forall i, j | 0 <= i < j < |keys| ensures KeyCompare(keys[i], keys[j]) < 0 { KeysInOrder(h, i, j); }
    forall k | k in Contents(h) ensures k in keys {
      var i := IndexOfKey(h, k);
      assert keys[i] == k;
    }
  }

  /** hstore_delete_hstore: keys with equal values on both sides go. */
  method DeleteHstore(h: HStore, h2: HStore) returns (out: HStore)
    requires Canonical(h) && Canonical(h2)
    ensures Canonical(out) && Contents(out) == Contents(h) - Common(Contents(h), Contents(h2))
  {
    hide Canonical, Decode, Encode, KeyCompare, ToMap, Trimmed, Bytes, KeyAt, ValAt, Contents, SortedKeys, Behind, Ascending, Common;
    CanonicalIsReadable(h);
    ghost var ps, gone := Decode(h), Common(Contents(h), Contents(h2));
    RoomOf(h, 0);
    var count, count2 := Count(h), Count(h2);
    if count2 == 0 {
      FixSizeKeepsCanonical(h);
      NothingInCommon(h, h2);
      return FixSize(h);
    }
    ghost var keys := KeysIn(h2);
    KeysInAscend(h2);
    var b := new Builder(count, h.vsize - CalcDataSize(count, 0));
    var i, j, outcount := 0, 0, 0;
    TrimStart(ps, gone);
    if count > 0 { NothingBehind(keys, KeyAt(h, 0)); }
    while i < count
      invariant 0 <= i <= count && 0 <= j <= count2 && (i < count ==> Behind(keys, j, KeyAt(h, i)))
      invariant fresh(b) && fresh(b.entries) && fresh(b.buf) && b.Valid()
      invariant b.entries.Length == 2 * count && b.buf.Length == |h.str|
      invariant Trimmed(b.built, ps, i, gone) && b.dent == 2 * outcount
      decreases count - i, count2 - j
    {
      var difference := if j >= count2 then -1 else KeyCompare(KeyAt(h, i), KeyAt(h2, j));
      if difference > 0 {
        MergeSkip(keys, j, KeyAt(h, i));
        j := j + 1;
      } else {
        TrimStep(b.built, ps, i, gone);
        MergeNext(h, i, keys, j);
        HasRoom(b.built, h, i, gone);
        if difference == 0 {
          KeyZero(KeyAt(h, i), KeyAt(h2, j));
          CommonAt(h, i, h2, j);
          if ValAt(h, i) != ValAt(h2, j) {
            CopyPair(b, h, i);
            outcount := outcount + 1;
          }
          i, j := i + 1, j + 1;
        } else {
          NotAmong(keys, j, KeyAt(h, i));
          NotInCommon(Contents(h), Contents(h2), KeyAt(h, i));
          CopyPair(b, h, i);
          outcount := outcount + 1;
          i := i + 1;
        }
      }
    }
    TrimEnd(b.built, h, gone);
    out := b.Finalize(outcount);
  }

  lemma {:induction false} NotInCommon(m: Dict, n: Dict, k: string)
    requires k !in n
    ensures k !in Common(m, n)
  {
  }

  lemma {:induction false} NothingInCommon(h: HStore, h2: HStore)
    requires Canonical(h) && Canonical(h2) && Count(h2) == 0
    ensures Contents(h) - Common(Contents(h), Contents(h2)) == Contents(h)
  {
    CanonicalIsReadable(h2);
    hide Canonical;
  }

  lemma {:induction false} CommonAt(h: HStore, i: nat, h2: HStore, j: nat)
    requires Canonical(h) && Canonical(h2) && i < Count(h) && j < Count(h2) && KeyAt(h, i) == KeyAt(h2, j)
    ensures KeyAt(h, i) in Common(Contents(h), Contents(h2)) <==> ValAt(h, i) == ValAt(h2, j)
  {
    hide Canonical, KeyAt, ValAt, Contents;
    FoundThere(h, i);
    FoundThere(h2, j);
  }

  // ---------------------------------------------------------------- concatenation

  ghost predicate NextIsAbove(ps: seq<Pair>, i: nat, m: Dict) {
    i < |ps| ==> Below(m, ps[i].key)
  }

  /** built lists the first i pairs of ps and j pairs of qs, where they share a key that of qs, and what is
      left on either side lies above what was taken on the other. */
  ghost predicate Merged(built: seq<Pair>, ps: seq<Pair>, i: nat, qs: seq<Pair>, j: nat) {
    && i <= |ps| && j <= |qs| && SortedKeys(built)
    && ToMap(built) == ToMap(ps[..i]) + ToMap(qs[..j])
    && |built| <= i + j && |Bytes(built)| <= |Bytes(ps[..i])| + |Bytes(qs[..j])|
    && NextIsAbove(ps, i, ToMap(qs[..j])) && NextIsAbove(qs, j, ToMap(ps[..i]))
  }

  lemma {:induction false} MergeStart(ps: seq<Pair>, qs: seq<Pair>)
    ensures Merged([], ps, 0, qs, 0)
  {
    assert ps[..0] == [] && qs[..0] == [];
  }

  lemma {:induction false} StaysAbove(ps: seq<Pair>, i: nat, m: Dict)
    requires SortedKeys(ps) && i < |ps| && NextIsAbove(ps, i, m)
    ensures NextIsAbove(ps, i + 1, m)
  {
    hide KeyCompare;
    if i + 1 < |ps| {
      forall k | k in m ensures KeyCompare(k, ps[i + 1].key) < 0 { KeyChain(k, ps[i].key, ps[i + 1].key); }
    }
  }

  /** The smaller key comes from ps. */
  lemma {:induction false} MergeFirst(built: seq<Pair>, ps: seq<Pair>, i: nat, qs: seq<Pair>, j: nat)
    requires Merged(built, ps, i, qs, j) && SortedKeys(ps) && SortedKeys(qs) && i < |ps|
    requires j < |qs| ==> KeyCompare(ps[i].key, qs[j].key) < 0
    ensures Merged(built + [ps[i]], ps, i + 1, qs, j)
  {
    hide KeyCompare, Bytes, ToMap, SortedKeys;
    var p, m, n := ps[i], ToMap(ps[..i]), ToMap(qs[..j]);
    TakeStep(ps, i);
    TakeBytes(ps, i);
    StaysAbove(ps, i, n);
    SortedSnoc(built, p);
    MapSnoc(built, p);
    BytesLen(built, p);
    KeyZero(p.key, p.key);
    assert p.key !in n;
    assert m[p.key := p.val] + n == (m + n)[p.key := p.val];
  }

  /** The smaller key comes from qs, or the key is in both and that of qs counts. */
  lemma {:induction false} MergeSecond(built: seq<Pair>, ps: seq<Pair>, i: nat, qs: seq<Pair>, j: nat)
    requires Merged(built, ps, i, qs, j) && SortedKeys(ps) && SortedKeys(qs) && j < |qs|
    requires i < |ps| ==> KeyCompare(ps[i].key, qs[j].key) > 0
    ensures Merged(built + [qs[j]], ps, i, qs, j + 1)
  {
    hide KeyCompare, Bytes, ToMap, SortedKeys;
    var q, m, n := qs[j], ToMap(ps[..i]), ToMap(qs[..j]);
    TakeStep(qs, j);
    TakeBytes(qs, j);
    StaysAbove(qs, j, m);
    if i < |ps| { KeyAntisymmetric(ps[i].key, q.key); }
    SortedSnoc(built, q);
    MapSnoc(built, q);
    BytesLen(built, q);
    assert m + n[q.key := q.val] == (m + n)[q.key := q.val];
  }

  lemma {:induction false} MergeBoth(built: seq<Pair>, ps: seq<Pair>, i: nat, qs: seq<Pair>, j: nat)
    requires Merged(built, ps, i, qs, j) && SortedKeys(ps) && SortedKeys(qs) && i < |ps| && j < |qs|
    requires ps[i].key == qs[j].key
    ensures Merged(built + [qs[j]], ps, i + 1, qs, j + 1)
  {
    hide KeyCompare, Bytes, ToMap, SortedKeys;
    var p, q, m, n := ps[i], qs[j], ToMap(ps[..i]), ToMap(qs[..j]);
    TakeStep(ps, i);
    TakeStep(qs, j);
    TakeBytes(ps, i);
    TakeBytes(qs, j);
    BothAbove(ps, i, n, q);
    BothAbove(qs, j, m, p);
    SortedSnoc(built, q);
    MapSnoc(built, q);
    BytesLen(built, q);
    assert m[p.key := p.val] + n[q.key := q.val] == (m + n)[q.key := q.val];
  }

  lemma {:induction false} BothAbove(ps: seq<Pair>, i: nat, m: Dict, q: Pair)
    requires SortedKeys(ps) && i < |ps| && NextIsAbove(ps, i, m) && ps[i].key == q.key
    ensures NextIsAbove(ps, i + 1, m[q.key := q.val])
  {
    hide KeyCompare;
    StaysAbove(ps, i, m);
  }

  lemma {:induction false} MergeRoom(built: seq<Pair>, s1: HStore, i: nat, s2: HStore, j: nat)
    requires Canonical(s1) && Canonical(s2) && Merged(built, Decode(s1), i, Decode(s2), j)
    ensures |Decode(s1)| == Count(s1) && |Decode(s2)| == Count(s2)
    ensures i < Count(s1) ==> |built| < Count(s1) + Count(s2) && |Bytes(built)| + PairLen(Decode(s1)[i]) <= |s1.str| + |s2.str|
    ensures j < Count(s2) ==> |built| < Count(s1) + Count(s2) && |Bytes(built)| + PairLen(Decode(s2)[j]) <= |s1.str| + |s2.str|
  {
    hide Decode, Canonical, KeyCompare, ToMap, SortedKeys, Bytes, NextIsAbove;
    CanonicalIsReadable(s1);
    CanonicalIsReadable(s2);
    RoomOf(s1, i);
    RoomOf(s2, j);
    if i < Count(s1) { RoomOf(s1, i + 1); TakeBytes(Decode(s1), i); }
    if j < Count(s2) { RoomOf(s2, j + 1); TakeBytes(Decode(s2), j); }
  }

  lemma {:induction false} MergeEnd(built: seq<Pair>, s1: HStore, s2: HStore)
    requires Canonical(s1) && Canonical(s2) && s1.vsize + s2.vsize <= MAX_ALLOC
    requires Merged(built, Decode(s1), |Decode(s1)|, Decode(s2), |Decode(s2)|)
    ensures Canonical(Encode(built)) && Contents(Encode(built)) == Contents(s1) + Contents(s2)
  {
    var ps, qs := Decode(s1), Decode(s2);
    CanonicalIsEncoded(s1);
    CanonicalIsEncoded(s2);
    hide Canonical, Decode, Encode, KeyCompare, ToMap, SortedKeys, Bytes, NextIsAbove;
    assert ps[..|ps|] == ps && qs[..|qs|] == qs;
    RoomOf(s1, |ps|);
    RoomOf(s2, |qs|);
    EncodedIsCanonical(built);
  }

  lemma {:induction false} NoPairs(h: HStore)
    requires Canonical(h) && Count(h) == 0
    ensures Contents(h) == map[]
  {
    CanonicalIsReadable(h);
  }

  /** The merge of two values with pairs, the right one first. */
  method MergePairs(s1: HStore, s2: HStore) returns (out: HStore)
    requires Canonical(s1) && Canonical(s2) && s1.vsize + s2.vsize <= MAX_ALLOC
    ensures Canonical(out) && Contents(out) == Contents(s1) + Contents(s2)
  {
    hide Canonical, Decode, Encode, KeyCompare, ToMap, Merged, Bytes, KeyAt, Contents, SortedKeys;
    CanonicalIsReadable(s1);
    CanonicalIsReadable(s2);
    var count1, count2 := Count(s1), Count(s2);
    ghost var ps, qs := Decode(s1), Decode(s2);
    RoomOf(s1, 0);
    RoomOf(s2, 0);
    var b := new Builder(count1 + count2, s1.vsize + s2.vsize - CalcDataSize(count1 + count2, 0));
    var i, j, outcount := 0, 0, 0;
    MergeStart(ps, qs);
    while i < count1 || j < count2
      invariant 0 <= i <= count1 && 0 <= j <= count2
      invariant fresh(b) && fresh(b.entries) && fresh(b.buf) && b.Valid()
      invariant b.entries.Length == 2 * (count1 + count2) && b.buf.Length >= |s1.str| + |s2.str|
      invariant Merged(b.built, ps, i, qs, j) && b.dent == 2 * outcount
      decreases count1 - i + count2 - j
    {
      var difference := if i >= count1 then 1 else if j >= count2 then -1 else KeyCompare(KeyAt(s1, i), KeyAt(s2, j));
      MergeRoom(b.built, s1, i, s2, j);
      if difference >= 0 {
        if difference == 0 {
          KeyZero(KeyAt(s1, i), KeyAt(s2, j));
          MergeBoth(b.built, ps, i, qs, j);
        } else {
          MergeSecond(b.built, ps, i, qs, j);
        }
        CopyPair(b, s2, j);
        j := j + 1;
        if difference == 0 { i := i + 1; }
      } else {
        MergeFirst(b.built, ps, i, qs, j);
        CopyPair(b, s1, i);
        i := i + 1;
      }
      outcount := outcount + 1;
    }
    MergeEnd(b.built, s1, s2);
    out := b.Finalize(outcount);
  }

  /** hstore_concat: the union of both maps, the right one first. It fails when the two sizes together pass
      the allocation limit. */
  method Concat(s1: HStore, s2: HStore) returns (r: Stored)
    requires Canonical(s1) && Canonical(s2)
    ensures r == AllocError <==> s1.vsize + s2.vsize > MAX_ALLOC
    ensures r.Ok? ==> Canonical(r.hs) && Contents(r.hs) == Contents(s1) + Contents(s2)
  {
    hide Canonical, Decode, Contents;
    if s1.vsize + s2.vsize > MAX_ALLOC { return AllocError; }
    if Count(s1) == 0 {
      FixSizeKeepsCanonical(s2);
      NoPairs(s1);
      CanonicalIsReadable(s2);
      return Ok(FixSize(s2));
    }
    if Count(s2) == 0 {
      FixSizeKeepsCanonical(s1);
      NoPairs(s2);
      CanonicalIsReadable(s1);
      return Ok(FixSize(s1));
    }
    var out := MergePairs(s1, s2);
    return Ok(out);
  }

  // ---------------------------------------------------------------- slices

  ghost function Restricted(m: Dict, keys: set<string>): Dict {
    map k | k in m && k in keys :: m[k]
  }

  lemma {:induction false} KeySetTake(keys: seq<string>, i: nat)
    requires i < |keys|
    ensures KeySet(keys[..i + 1]) == KeySet(keys[..i]) + {keys[i]}
  {
    assert keys[..i + 1] == keys[..i] + [keys[i]];
  }

  lemma {:induction false} RestrictMore(m: Dict, keys: set<string>, k: string)
    ensures Restricted(m, keys + {k}) == if k in m then Restricted(m, keys)[k := m[k]] else Restricted(m, keys)
  {
  }

  /** out lists what the first i keys find among the first bound pairs. */
  ghost predicate Sliced(out: seq<Pair>, ps: seq<Pair>, bound: nat, keys: seq<string>, i: nat) {
    && i <= |keys| && bound <= |ps| && SortedKeys(out)
    && ToMap(out) == Restricted(ToMap(ps), KeySet(keys[..i]))
    && |out| <= bound && |Bytes(out)| <= |Bytes(ps[..bound])|
  }

  lemma {:induction false} SliceStart(ps: seq<Pair>, keys: seq<string>)
    ensures Sliced([], ps, 0, keys, 0)
  {
    assert ps[..0] == [] && keys[..0] == [];
  }

  lemma {:induction false} BytesBetween(ps: seq<Pair>, i: nat, j: nat)
    requires i <= j <= |ps|
    ensures |Bytes(ps[..i])| <= |Bytes(ps[..j])|
  {
    BytesGrow(ps[..j], i);
    assert ps[..j][..i] == ps[..i];
  }

  lemma {:induction false} SliceMiss(out: seq<Pair>, ps: seq<Pair>, bound: nat, next: nat, keys: seq<string>, i: nat)
    requires Sliced(out, ps, bound, keys, i) && i < |keys| && bound <= next <= |ps| && keys[i] !in ToMap(ps)
    ensures Sliced(out, ps, next, keys, i + 1)
  {
    hide KeyCompare, ToMap, SortedKeys, Bytes, KeySet, Restricted;
    BytesBetween(ps, bound, next);
    KeySetTake(keys, i);
    RestrictMore(ToMap(ps), KeySet(keys[..i]), keys[i]);
  }

  lemma {:induction false} SliceHit(out: seq<Pair>, ps: seq<Pair>, bound: nat, keys: seq<string>, i: nat, idx: nat)
    requires Sliced(out, ps, bound, keys, i) && i < |keys| && bound <= idx < |ps| && ps[idx].key == keys[i]
    requires SortedKeys(ps) && Ascending(keys)
    ensures Sliced(out + [ps[idx]], ps, idx + 1, keys, i + 1)
  {
    hide KeyCompare, ToMap, SortedKeys, Bytes, KeySet, Restricted, Ascending;
    var p := ps[idx];
    PairInMap(ps, idx);
    BytesBetween(ps, bound, idx);
    TakeBytes(ps, idx);
    BytesLen(out, p);
    KeySetTake(keys, i);
    RestrictMore(ToMap(ps), KeySet(keys[..i]), p.key);
    SlicedBelow(ToMap(ps), keys, i);
    SortedSnoc(out, p);
    MapSnoc(out, p);
  }

  lemma {:induction false} SlicedBelow(m: Dict, keys: seq<string>, i: nat)
    requires Ascending(keys) && i < |keys|
    ensures Below(Restricted(m, KeySet(keys[..i])), keys[i])
  {
    hide KeyCompare;
    forall k | k in KeySet(keys[..i]) ensures KeyCompare(k, keys[i]) < 0 {
      var q :| 0 <= q < i && keys[..i][q] == k;
    }
  }

  lemma {:induction false} SliceEnd(out: seq<Pair>, h: HStore, bound: nat, keys: seq<string>)
    requires Canonical(h) && Sliced(out, Decode(h), bound, keys, |keys|)
    ensures Fits(out) && Canonical(Encode(out)) && Contents(Encode(out)) == Restricted(Contents(h), KeySet(keys))
  {
    CanonicalIsEncoded(h);
    hide Canonical, Decode, Encode, KeyCompare, ToMap, SortedKeys, Bytes, Restricted, KeySet;
    RoomOf(h, bound);
    EncodedIsCanonical(out);
    assert keys[..|keys|] == keys;
  }

  /** hstore_slice_to_hstore: the map restricted to the keys asked for. */
  method SliceToHstore(h: HStore, arr: seq<Value>) returns (r: Stored)
    requires Canonical(h)
    ensures r == AllocError <==> !Granted(PAIR_SIZE * |arr|)
    ensures r.Ok? ==> Canonical(r.hs) && Contents(r.hs) == Restricted(Contents(h), TextsIn(arr))
  {
    hide Canonical, Decode, Encode, KeyCompare, ToMap, Bytes, KeyAt, ValAt, SortedKeys, Ascending, LowBound, UpTo, Sliced;
    hide Restricted, KeySet;
    CanonicalIsReadable(h);
    ghost var ps := Decode(h);
    var list := ArrayToPairs(arr);
    if list == NoRoom { return AllocError; }
    var keys := list.keys;
    SameKeys(keys, arr);
    SliceStart(ps, keys);
    EmptyBytes();
    var out: seq<Pair>, bufsiz, lastidx := [], 0, 0;
    if |keys| == 0 {
      r := FromPairs([], 0);
      SliceEnd([], h, 0, keys);
      return;
    }
    StartBound(h, keys[0]);
    for i := 0 to |keys|
      invariant lastidx <= Count(h) && (i < |keys| ==> LowBound(h, lastidx, keys[i]))
      invariant Sliced(out, ps, lastidx, keys, i) && bufsiz == |Bytes(out)|
    {
      var idx, next := FindKey(h, lastidx, keys[i]);
      if idx >= 0 {
        var p := Pair(keys[i], ValAt(h, idx));
        SliceHit(out, ps, lastidx, keys, i, idx);
        BytesLen(out, p);
        out := out + [p];
        bufsiz := bufsiz + PairLen(p);
      } else {
        BoundInRange(h, next, keys[i]);
        SliceMiss(out, ps, lastidx, next, keys, i);
      }
      lastidx := next;
      if i + 1 < |keys| { StepBound(h, next, keys, i); }
    }
    r := FromPairs(out, bufsiz);
    SliceEnd(out, h, lastidx, keys);
  }

  lemma {:induction false} BoundInRange(h: HStore, bound: nat, key: string)
    requires Canonical(h) && UpTo(h, bound, key)
    ensures bound <= Count(h)
  {
  }

  lemma {:induction false} StepBound(h: HStore, next: nat, keys: seq<string>, i: nat)
    requires Canonical(h) && Ascending(keys) && i + 1 < |keys| && UpTo(h, next, keys[i])
    ensures LowBound(h, next, keys[i + 1])
  {
    NextBound(h, next, keys[i], keys[i + 1]);
  }
}
