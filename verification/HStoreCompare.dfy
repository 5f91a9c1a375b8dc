/** contrib/hstore/hstore_op.c: the order of stored values behind the btree operators. */
module HStoreCompare {
  import opened Lexicographic
  import opened HStoreLayout
  import opened HStoreBuilder
  import opened HStoreMap

  function IntOrder(x: int, y: int): int {
    x - y
  }

  function Codes(s: string): seq<int> {
    if s == "" then [] else [s[0] as int + 1] + Codes(s[1..])
  }

  function Positions(es: seq<nat>): (ns: seq<int>)
    ensures |ns| == |es| && forall k :: 0 <= k < |es| ==> ns[k] == 2 * EndPos(es[k]) + if IsNull(es[k]) then 1 else 0
  {
    seq(|es|, k requires 0 <= k < |es| => 2 * EndPos(es[k]) + if IsNull(es[k]) then 1 else 0)
  }

  /** One list of numbers for a stored value: its bytes up to an end mark, its count, its positions. */
  function SortKey(h: HStore): seq<int> {
    Codes(h.str) + ([0] + ([Count(h)] + Positions(h.entries)))
  }

  /** The order of stored values: that of their lists of numbers. */
  function StoreOrder(g: HStore, h: HStore): int {
    Lex(IntOrder, SortKey(g), SortKey(h))
  }

  lemma {:induction false} IntsAreOrdered()
    ensures IsOrder(IntOrder)
  {
  }

  lemma {:induction false} StoreOrderAntisymmetric(g: HStore, h: HStore)
    ensures StoreOrder(g, h) == -StoreOrder(h, g)
  {
    IntsAreOrdered();
    LexAntisymmetric(IntOrder, SortKey(g), SortKey(h));
  }

  lemma {:induction false} StoreOrderTransitive(f: HStore, g: HStore, h: HStore)
    requires StoreOrder(f, g) <= 0 && StoreOrder(g, h) <= 0
    ensures StoreOrder(f, h) <= 0
  {
    IntsAreOrdered();
    LexTransitive(IntOrder, SortKey(f), SortKey(g), SortKey(h));
  }

  // ---------------------------------------------------------------- parts of the order

  /** memcmp over the common length. */
  function MemCmp(x: string, y: string): int {
    if x == "" || y == "" then 0
    else if x[0] != y[0] then CharOrder(x[0], y[0])
    else MemCmp(x[1..], y[1..])
  }

  lemma {:induction false} LexHeads(x: int, a: seq<int>, y: int, b: seq<int>)
    ensures Lex(IntOrder, [x] + a, [y] + b) == if x != y then Sign(x - y) else Lex(IntOrder, a, b)
  {
    assert ([x] + a)[1..] == a && ([y] + b)[1..] == b;
  }

  lemma {:induction false} LexCodes(x: string, a: seq<int>, y: string, b: seq<int>)
    ensures Lex(IntOrder, Codes(x) + ([0] + a), Codes(y) + ([0] + b)) ==
              if MemCmp(x, y) != 0 then Sign(MemCmp(x, y))
              else if |x| != |y| then Sign(|x| - |y|)
              else Lex(IntOrder, a, b)
    decreases |x|
  {
    hide Lex;
    if x == "" && y == "" {
      assert Codes(x) + ([0] + a) == [0] + a && Codes(y) + ([0] + b) == [0] + b;
      LexHeads(0, a, 0, b);
    } else if x == "" {
      assert Codes(x) + ([0] + a) == [0] + a;
      assert Codes(y) + ([0] + b) == [y[0] as int + 1] + (Codes(y[1..]) + ([0] + b));
      LexHeads(0, a, y[0] as int + 1, Codes(y[1..]) + ([0] + b));
    } else if y == "" {
      assert Codes(y) + ([0] + b) == [0] + b;
      assert Codes(x) + ([0] + a) == [x[0] as int + 1] + (Codes(x[1..]) + ([0] + a));
      LexHeads(x[0] as int + 1, Codes(x[1..]) + ([0] + a), 0, b);
    } else {
      assert Codes(x) + ([0] + a) == [x[0] as int + 1] + (Codes(x[1..]) + ([0] + a));
      assert Codes(y) + ([0] + b) == [y[0] as int + 1] + (Codes(y[1..]) + ([0] + b));
      LexHeads(x[0] as int + 1, Codes(x[1..]) + ([0] + a), y[0] as int + 1, Codes(y[1..]) + ([0] + b));
      LexCodes(x[1..], a, y[1..], b);
    }
  }

  /** The order, part by part. */
  lemma {:induction false} StoreOrderParts(g: HStore, h: HStore)
    ensures StoreOrder(g, h) ==
              if MemCmp(g.str, h.str) != 0 then Sign(MemCmp(g.str, h.str))
              else if |g.str| != |h.str| then Sign(|g.str| - |h.str|)
              else if Count(g) != Count(h) then Sign(Count(g) - Count(h))
              else Lex(IntOrder, Positions(g.entries), Positions(h.entries))
  {
    hide Lex, Codes, MemCmp;
    LexCodes(g.str, [Count(g)] + Positions(g.entries), h.str, [Count(h)] + Positions(h.entries));
    LexHeads(Count(g), Positions(g.entries), Count(h), Positions(h.entries));
  }

  /** The bytes decide first: the lower byte where they first differ, or the value whose bytes end first. */
  lemma {:induction false} BytesDecideFirst(g: HStore, h: HStore, k: nat)
    requires k <= |g.str| && k <= |h.str| && g.str[..k] == h.str[..k]
    ensures k < |g.str| && k < |h.str| && g.str[k] < h.str[k] ==> StoreOrder(g, h) < 0
    ensures k == |g.str| < |h.str| ==> StoreOrder(g, h) < 0
  {
    StoreOrderParts(g, h);
    MemCmpAt(g.str, h.str, k);
    hide StoreOrder, MemCmp, Lex;
  }

  lemma {:induction false} MemCmpAt(x: string, y: string, k: nat)
    requires k <= |x| && k <= |y| && x[..k] == y[..k]
    ensures k < |x| && k < |y| && x[k] < y[k] ==> MemCmp(x, y) < 0
    ensures k == |x| || k == |y| ==> MemCmp(x, y) == 0
    decreases k
  {
    if k > 0 {
      assert x[0] == x[..k][0] && y[0] == y[..k][0];
      assert x[1..][..k - 1] == x[..k][1..] && y[1..][..k - 1] == y[..k][1..];
      MemCmpAt(x[1..], y[1..], k - 1);
    }
  }

  lemma {:induction false} MemCmpZero(x: string, y: string)
    requires MemCmp(x, y) == 0 && |x| == |y|
    ensures x == y
    decreases |x|
  {
    if x != "" {
      MemCmpZero(x[1..], y[1..]);
      assert x == [x[0]] + x[1..] && y == [y[0]] + y[1..];
    }
  }

  lemma {:induction false} SameEntries(g: HStore, h: HStore)
    requires Canonical(g) && Canonical(h) && Positions(g.entries) == Positions(h.entries)
    ensures g.entries == h.entries
  {
    hide SortedKeys, Start, PiecesIn, NullsFit;
    assert |g.entries| == |Positions(g.entries)| == |Positions(h.entries)| == |h.entries|;
    hide Positions, EndPos, IsNull, IsFirst, Count, Entry, Marked;
    forall k | 0 <= k < |g.entries| ensures g.entries[k] == h.entries[k] {
      assert Positions(g.entries)[k] == Positions(h.entries)[k];
      EntryIsItsParts(g.entries[k]);
      EntryIsItsParts(h.entries[k]);
    }
  }

  lemma {:induction false} ZeroParts(g: HStore, h: HStore)
    requires StoreOrder(g, h) == 0
    ensures g.str == h.str && Positions(g.entries) == Positions(h.entries)
  {
    hide Lex, MemCmp, SortKey, StoreOrder, Positions;
    StoreOrderParts(g, h);
    IntsAreOrdered();
    LexZero(IntOrder, Positions(g.entries), Positions(h.entries));
    hide IsOrder;
    MemCmpZero(g.str, h.str);
  }

  lemma {:induction false} SameStore(g: HStore, h: HStore)
    requires Canonical(g) && Canonical(h) && g.entries == h.entries && g.str == h.str
    ensures g == h
  {
    hide SortedKeys, PiecesIn, NullsFit, Start, Count;
  }

  lemma {:induction false} StoreOrderSelf(g: HStore)
    ensures StoreOrder(g, g) == 0
  {
    IntsAreOrdered();
    LexZero(IntOrder, SortKey(g), SortKey(g));
  }

  /** Equal in the order exactly when the maps are equal. */
  lemma {:induction false} StoreOrderZero(g: HStore, h: HStore)
    requires Canonical(g) && Canonical(h)
    ensures StoreOrder(g, h) == 0 <==> Contents(g) == Contents(h)
  {
    hide Canonical, StoreOrder, Contents, Positions;
    if Contents(g) == Contents(h) {
      CanonicalUnique(g, h);
      StoreOrderSelf(g);
    }
    if StoreOrder(g, h) == 0 {
      ZeroParts(g, h);
      SameEntries(g, h);
      SameStore(g, h);
    }
  }

  // ---------------------------------------------------------------- the comparison

  /** The loop over the entries. */
  method CompareEntries(g: seq<nat>, h: seq<nat>) returns (res: int)
    requires |g| == |h|
    ensures res == Lex(IntOrder, Positions(g), Positions(h))
  {
    hide EndPos, IsNull, Lex;
    IntsAreOrdered();
    hide IsOrder;
    ghost var a, b := Positions(g), Positions(h);
    var i := 0;
    while i < |g| && EndPos(g[i]) == EndPos(h[i]) && IsNull(g[i]) == IsNull(h[i])
      invariant 0 <= i <= |g| && a[..i] == b[..i]
      decreases |g| - i
    {
      assert a[..i + 1] == a[..i] + [a[i]] && b[..i + 1] == b[..i] + [b[i]];
      i := i + 1;
    }
    LexSkip(IntOrder, a, b, i);
    if i < |g| {
      assert a[i..] == [a[i]] + a[i + 1..] && b[i..] == [b[i]] + b[i + 1..];
      LexHeads(a[i], a[i + 1..], b[i], b[i + 1..]);
      if EndPos(g[i]) < EndPos(h[i]) { return -1; }
      else if EndPos(g[i]) > EndPos(h[i]) { return 1; }
      else if IsNull(g[i]) { return 1; }
      else { return -1; }
    }
    LexNothing(a[i..], b[i..]);
    return 0;
  }

  lemma {:induction false} LexNothing(a: seq<int>, b: seq<int>)
    requires a == [] && b == []
    ensures Lex(IntOrder, a, b) == 0
  {
  }

  lemma {:induction false} EmptyStore(h: HStore)
    requires Canonical(h)
    ensures |h.entries| == 2 * Count(h) && (Count(h) == 0 ==> h.str == "")
    ensures Count(h) > 0 ==> EndPos(h.entries[2 * Count(h) - 1]) == |h.str|
  {
  }

  /** hstore_cmp. */
  method Cmp(hs1: HStore, hs2: HStore) returns (res: int)
    requires Canonical(hs1) && Canonical(hs2)
    ensures res == StoreOrder(hs1, hs2)
  {
    hide Lex, MemCmp, StoreOrder, Canonical, EndPos, Positions;
    EmptyStore(hs1);
    EmptyStore(hs2);
    StoreOrderParts(hs1, hs2);
    var hcount1, hcount2 := Count(hs1), Count(hs2);
    if hcount1 == 0 || hcount2 == 0 {
      MemCmpEmpty(hs1.str, hs2.str);
      EmptyPositions(hs1, hs2);
      if hcount1 > 0 { return 1; } else if hcount2 > 0 { return -1; }
      return 0;
    }
    var len1, len2 := EndPos(hs1.entries[2 * hcount1 - 1]), EndPos(hs2.entries[2 * hcount2 - 1]);
    res := MemCmp(hs1.str, hs2.str);
    if res == 0 {
      if len1 > len2 { return 1; }
      else if len1 < len2 { return -1; }
      else if hcount1 > hcount2 { return 1; }
      else if hcount2 > hcount1 { return -1; }
      res := CompareEntries(hs1.entries, hs2.entries);
    } else {
      res := if res > 0 then 1 else -1;
    }
  }

  lemma {:induction false} MemCmpEmpty(x: string, y: string)
    ensures x == "" || y == "" ==> MemCmp(x, y) == 0
  {
  }

  lemma {:induction false} EmptyPositions(g: HStore, h: HStore)
    requires |g.entries| == 2 * Count(g) && |h.entries| == 2 * Count(h)
    ensures Count(g) == 0 && Count(h) == 0 ==> Lex(IntOrder, Positions(g.entries), Positions(h.entries)) == 0
  {
  }
}
