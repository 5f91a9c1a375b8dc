/** contrib/ltree/ltree_gist.c: index keys made of an interval of paths and a signature, their union
    and split, and the tests an inner key is put to. */
module LtreeGist {
  import opened Lexicographic
  import opened LtreeOrder

  const SIGLENBIT := 64

  /** The checksum of a label, any function of it. */
  type Checksum = Label -> int

  function HashVal(crc: Checksum, name: Label): int {
    crc(name) % SIGLENBIT
  }

  /** Labels share a bit just if their checksums differ by a multiple of 64. */
  lemma {:induction false} HashedTogether(crc: Checksum, x: Label, y: Label)
    ensures 0 <= HashVal(crc, x) < 64
    ensures HashVal(crc, x) == HashVal(crc, y) <==> (crc(x) - crc(y)) % 64 == 0
  {
    var a, b := crc(x), crc(y);
    assert a % 64 == b % 64 <==> (a - b) % 64 == 0;
  }

  const ALL_BITS: set<int> := set b | 0 <= b < SIGLENBIT

  /** A leaf key holds one path; an inner key the ends of an interval, and signature bits unless all are set. */
  datatype Key = OneNode(node: Path) | Inner(left: Path, right: Path, allTrue: bool, sign: set<int>)

  function LeftNode(key: Key): Path {
    if key.OneNode? then key.node else key.left
  }

  function RightNode(key: Key): Path {
    if key.OneNode? then key.node else key.right
  }

  /** Paths the comparison can handle. */
  ghost predicate Safe(p: Path) {
    ValidPath(p) && |p| <= SAFE_LEVELS
  }

  ghost predicate SafeKey(key: Key) {
    Safe(LeftNode(key)) && Safe(RightNode(key))
  }

  /** The bits of a path's labels. */
  function PathBits(crc: Checksum, p: Path): set<int> {
    set k | 0 <= k < |p| :: HashVal(crc, p[k])
  }

  /** A path that may lie below a key. */
  ghost predicate Covers(crc: Checksum, key: Key, p: Path) {
    match key
    case OneNode(node) => p == node
    case Inner(left, right, allTrue, sign) =>
      PathOrder(left, p) <= 0 && PathOrder(p, right) <= 0 && (allTrue || PathBits(crc, p) <= sign)
  }

  /** A key that may stand above another. */
  ghost predicate Above(crc: Checksum, key: Key, below: Key) {
    forall p: Path :: Covers(crc, below, p) ==> Covers(crc, key, p)
  }

  // ---------------------------------------------------------------- signatures

  /** hashing: sets the bit of every label. */
  method Hashing(crc: Checksum, base: set<int>, t: Path) returns (sign: set<int>)
    ensures sign == base + PathBits(crc, t)
  {
    sign := base;
    var cur, tlen := 0, |t|;
    while tlen > 0
      invariant 0 <= cur <= |t| && tlen == |t| - cur
      invariant sign == base + PathBits(crc, t[..cur])
      decreases tlen
    {
      PathBitsSnoc(crc, t, cur);
      sign := sign + {HashVal(crc, t[cur])};
      cur, tlen := cur + 1, tlen - 1;
    }
    assert t[..cur] == t;
  }

  lemma {:induction false} PathBitsSnoc(crc: Checksum, t: Path, k: nat)
    requires k < |t|
    ensures PathBits(crc, t[..k + 1]) == PathBits(crc, t[..k]) + {HashVal(crc, t[k])}
  {
    var more, less := t[..k + 1], t[..k];
    assert forall j :: 0 <= j < k ==> more[j] == less[j];
    forall b | b in PathBits(crc, more) ensures b in PathBits(crc, less) + {HashVal(crc, t[k])} {
      var j :| 0 <= j < |more| && HashVal(crc, more[j]) == b;
      assert j < k ==> HashVal(crc, less[j]) == b;
    }
    forall b | b in PathBits(crc, less) + {HashVal(crc, t[k])} ensures b in PathBits(crc, more) {
      if b == HashVal(crc, t[k]) {
        assert HashVal(crc, more[k]) == b;
      } else {
        var j :| 0 <= j < |less| && HashVal(crc, less[j]) == b;
        assert HashVal(crc, more[j]) == b;
      }
    }
  }

  // ---------------------------------------------------------------- union

  /** An interval and signature that take in a key. */
  ghost predicate TakesIn(crc: Checksum, left: Path, right: Path, allTrue: bool, sign: set<int>, e: Key) {
    && PathOrder(left, LeftNode(e)) <= 0 && PathOrder(RightNode(e), right) <= 0
    && (allTrue || (if e.OneNode? then PathBits(crc, e.node) <= sign else !e.allTrue && e.sign <= sign))
  }

  lemma {:induction false} TakesInIsAbove(crc: Checksum, left: Path, right: Path, allTrue: bool, sign: set<int>, e: Key)
    requires TakesIn(crc, left, right, allTrue, sign, e)
    ensures Above(crc, Inner(left, right, allTrue, sign), e)
  {
    forall p: Path | Covers(crc, e, p) ensures Covers(crc, Inner(left, right, allTrue, sign), p) {
      OrderBetween(left, LeftNode(e), p, RightNode(e), right);
    }
  }

  lemma {:induction false} OrderBetween(left: Path, l: Path, p: Path, r: Path, right: Path)
    requires PathOrder(left, l) <= 0 && PathOrder(r, right) <= 0
    requires (PathOrder(l, p) <= 0 && PathOrder(p, r) <= 0) || (p == l && p == r)
    ensures PathOrder(left, p) <= 0 && PathOrder(p, right) <= 0
  {
    hide PathOrder;
    PathsAreOrdered();
    if p == l && p == r {
    } else {
      assert PathOrder(left, p) <= 0;
      assert PathOrder(p, right) <= 0;
    }
  }

  lemma {:induction false} TakesInMore(crc: Checksum, left: Path, right: Path, allTrue: bool, sign: set<int>,
                    left': Path, right': Path, allTrue': bool, sign': set<int>, e: Key)
    requires TakesIn(crc, left, right, allTrue, sign, e)
    requires PathOrder(left', left) <= 0 && PathOrder(right, right') <= 0 && (allTrue ==> allTrue') && sign <= sign'
    ensures TakesIn(crc, left', right', allTrue', sign', e)
  {
    hide PathOrder;
    PathsAreOrdered();
    assert PathOrder(left', LeftNode(e)) <= 0;
    assert PathOrder(RightNode(e), right') <= 0;
  }

  /** The smaller and the larger of two paths, by ltree_compare. */
  method Lower(a: Path, b: Path) returns (c: Path)
    requires Safe(a) && Safe(b)
    ensures (c == a || c == b) && PathOrder(c, a) <= 0 && PathOrder(c, b) <= 0
  {
    hide Tells, PathOrder;
    var cmp := LtreeCompare(a, b);
    ComparedIsOrder(a, b);
    PathsAreOrdered();
    c := if cmp > 0 then b else a;
  }

  method Upper(a: Path, b: Path) returns (c: Path)
    requires Safe(a) && Safe(b)
    ensures (c == a || c == b) && PathOrder(a, c) <= 0 && PathOrder(b, c) <= 0
  {
    hide Tells, PathOrder;
    var cmp := LtreeCompare(a, b);
    ComparedIsOrder(a, b);
    PathsAreOrdered();
    c := if cmp < 0 then b else a;
  }

  predicate SaysAllTrue(e: Key) {
    e.Inner? && e.allTrue
  }

  /** The bits a key brings along, if it does not say that all are set. */
  function KeyBits(crc: Checksum, e: Key): set<int> {
    if e.OneNode? then PathBits(crc, e.node) else if e.allTrue then {} else e.sign
  }

  function AllBits(crc: Checksum, es: seq<Key>): set<int> {
    if es == [] then {} else AllBits(crc, es[..|es| - 1]) + KeyBits(crc, es[|es| - 1])
  }

  predicate SomeAllTrue(es: seq<Key>) {
    exists i :: 0 <= i < |es| && SaysAllTrue(es[i])
  }

  /** What was gathered from keys is no more than they bring: ends of theirs, and exactly their bits. */
  ghost predicate Gathered(crc: Checksum, es: seq<Key>, left: Path, right: Path, allTrue: bool, sign: set<int>) {
    && (exists i :: 0 <= i < |es| && LeftNode(es[i]) == left)
    && (exists i :: 0 <= i < |es| && RightNode(es[i]) == right)
    && allTrue == SomeAllTrue(es) && (!allTrue ==> sign == AllBits(crc, es))
  }

  /** The least key above the given ones: the least and the greatest end, their bits together, and the all-true
      flag only if some key has it or all bits are set. */
  ghost predicate IsUnion(crc: Checksum, es: seq<Key>, key: Key) {
    && key.Inner? && (forall e :: e in es ==> Above(crc, key, e))
    && (forall e :: e in es ==> PathOrder(key.left, LeftNode(e)) <= 0 && PathOrder(RightNode(e), key.right) <= 0)
    && (exists i :: 0 <= i < |es| && LeftNode(es[i]) == key.left)
    && (exists i :: 0 <= i < |es| && RightNode(es[i]) == key.right)
    && (key.allTrue <==> SomeAllTrue(es) || ALL_BITS <= AllBits(crc, es))
    && (!key.allTrue ==> key.sign == AllBits(crc, es))
  }

  lemma {:induction false} GatherFirst(crc: Checksum, e: Key, sign: set<int>)
    requires !SaysAllTrue(e) ==> sign == KeyBits(crc, e)
    ensures Gathered(crc, [e], LeftNode(e), RightNode(e), SaysAllTrue(e), sign)
  {
    hide KeyBits, LeftNode, RightNode, SaysAllTrue;
    var es := [e];
    assert es[0] == e && es[..0] == [];
    assert LeftNode(es[0]) == LeftNode(e) && RightNode(es[0]) == RightNode(e);
    assert AllBits(crc, es) == AllBits(crc, []) + KeyBits(crc, e);
    assert SomeAllTrue(es) <==> SaysAllTrue(es[0]);
  }

  lemma {:induction false} GatherNext(crc: Checksum, es: seq<Key>, e: Key, left: Path, right: Path, allTrue: bool, sign: set<int>,
                                      left': Path, right': Path, allTrue': bool, sign': set<int>)
    requires Gathered(crc, es, left, right, allTrue, sign)
    requires (left' == left || left' == LeftNode(e)) && (right' == right || right' == RightNode(e))
    requires allTrue' == (allTrue || SaysAllTrue(e)) && (!allTrue' ==> sign' == sign + KeyBits(crc, e))
    ensures Gathered(crc, es + [e], left', right', allTrue', sign')
  {
    hide KeyBits, LeftNode, RightNode, SaysAllTrue;
    var more := es + [e];
    assert more[..|es|] == es && more[|es|] == e;
    assert forall i :: 0 <= i < |es| ==> more[i] == es[i];
    if SomeAllTrue(more) {
      var i :| 0 <= i < |more| && SaysAllTrue(more[i]);
      assert i < |es| ==> SaysAllTrue(es[i]);
    }
    if SomeAllTrue(es) {
      var i :| 0 <= i < |es| && SaysAllTrue(es[i]);
      assert SaysAllTrue(more[i]);
    }
    var l :| 0 <= l < |es| && LeftNode(es[l]) == left;
    var r :| 0 <= r < |es| && RightNode(es[r]) == right;
    assert LeftNode(more[l]) == left && RightNode(more[r]) == right;
    assert LeftNode(more[|es|]) == LeftNode(e) && RightNode(more[|es|]) == RightNode(e);
  }

  /** What takes in all keys, gathered from them, is their union. */
  lemma {:induction false} GatheredIsUnion(crc: Checksum, es: seq<Key>, left: Path, right: Path, allTrue: bool, sign: set<int>)
    requires Gathered(crc, es, left, right, allTrue, sign)
    requires forall i :: 0 <= i < |es| ==> TakesIn(crc, left, right, allTrue, sign, es[i])
    ensures IsUnion(crc, es, Finished(crc, left, right, allTrue, sign))
  {
    hide PathOrder, SomeAllTrue, AllBits, PathBits, Above;
    var key := Finished(crc, left, right, allTrue, sign);
    forall e | e in es
      ensures Above(crc, key, e) && PathOrder(key.left, LeftNode(e)) <= 0 && PathOrder(RightNode(e), key.right) <= 0
    {
      var i :| 0 <= i < |es| && es[i] == e;
      TakesInIsAbove(crc, left, right, allTrue, sign, e);
      FinishedIsAbove(crc, left, right, allTrue, sign, e);
    }
  }

  /** The signature and all-true flag after taking in one more key. */
  method AddSignature(crc: Checksum, allTrue: bool, sign: set<int>, e: Key) returns (allTrue': bool, sign': set<int>)
    ensures allTrue' == (allTrue || SaysAllTrue(e)) && (!allTrue' ==> sign' == sign + KeyBits(crc, e)) && sign <= sign'
    ensures allTrue' || (if e.OneNode? then PathBits(crc, e.node) <= sign' else !e.allTrue && e.sign <= sign')
  {
    allTrue', sign' := allTrue, sign;
    if e.OneNode? {
      sign' := Hashing(crc, sign, e.node);
    } else if allTrue || e.allTrue {
      allTrue' := true;
    } else {
      sign' := sign + e.sign;
    }
  }

  /** ltree_union: the least key above all the given ones. */
  method LtreeUnion(crc: Checksum, entries: seq<Key>) returns (result: Key)
    requires entries != [] && forall e :: e in entries ==> SafeKey(e)
    ensures SafeKey(result) && IsUnion(crc, entries, result)
  {
    hide Above, TakesIn, Safe, PathOrder, Gathered, IsUnion, KeyBits, SaysAllTrue;
    assert SafeKey(entries[0]);
    var left, right := LeftNode(entries[0]), RightNode(entries[0]);
    var allTrue, base := AddSignature(crc, false, {}, entries[0]);
    FirstTakenIn(crc, allTrue, base, entries[0]);
    GatherFirst(crc, entries[0], base);
    assert entries[..1] == [entries[0]] && {} + KeyBits(crc, entries[0]) == KeyBits(crc, entries[0]);
    for j := 1 to |entries|
      invariant Safe(left) && Safe(right) && Gathered(crc, entries[..j], left, right, allTrue, base)
      invariant forall i :: 0 <= i < j ==> TakesIn(crc, left, right, allTrue, base, entries[i])
    {
      var cur := entries[j];
      ghost var left0, right0, allTrue0, base0 := left, right, allTrue, base;
      assert SafeKey(cur);
      allTrue, base := AddSignature(crc, allTrue, base, cur);
      left := Lower(left, LeftNode(cur));
      right := Upper(right, RightNode(cur));
      forall i | 0 <= i < j ensures TakesIn(crc, left, right, allTrue, base, entries[i]) {
        TakesInMore(crc, left0, right0, allTrue0, base0, left, right, allTrue, base, entries[i]);
      }
      NextTakenIn(crc, left, right, allTrue, base, cur);
      GatherNext(crc, entries[..j], cur, left0, right0, allTrue0, base0, left, right, allTrue, base);
      assert entries[..j + 1] == entries[..j] + [cur];
    }
    result := Finished(crc, left, right, allTrue, base);
    assert entries[..|entries|] == entries;
    GatheredIsUnion(crc, entries, left, right, allTrue, base);
  }

  lemma {:induction false} FirstTakenIn(crc: Checksum, allTrue: bool, sign: set<int>, e: Key)
    requires allTrue || (if e.OneNode? then PathBits(crc, e.node) <= sign else !e.allTrue && e.sign <= sign)
    ensures TakesIn(crc, LeftNode(e), RightNode(e), allTrue, sign, e)
  {
    hide PathOrder;
    PathsAreOrdered();
  }

  lemma {:induction false} NextTakenIn(crc: Checksum, left: Path, right: Path, allTrue: bool, sign: set<int>, e: Key)
    requires PathOrder(left, LeftNode(e)) <= 0 && PathOrder(RightNode(e), right) <= 0
    requires allTrue || (if e.OneNode? then PathBits(crc, e.node) <= sign else !e.allTrue && e.sign <= sign)
    ensures TakesIn(crc, left, right, allTrue, sign, e)
  {
  }

  /** The finished key: a full signature is kept as the all-true flag. */
  function Finished(crc: Checksum, left: Path, right: Path, allTrue: bool, sign: set<int>): Key {
    if allTrue || ALL_BITS <= sign then Inner(left, right, true, {}) else Inner(left, right, false, sign)
  }

  lemma {:induction false} FinishedIsAbove(crc: Checksum, left: Path, right: Path, allTrue: bool, sign: set<int>, e: Key)
    requires Above(crc, Inner(left, right, allTrue, sign), e)
    ensures Above(crc, Finished(crc, left, right, allTrue, sign), e)
  {
    hide PathOrder;
    forall p: Path | Covers(crc, e, p) ensures Covers(crc, Finished(crc, left, right, allTrue, sign), p) {
      assert Covers(crc, Inner(left, right, allTrue, sign), p);
    }
  }

  // ---------------------------------------------------------------- split

  ghost predicate Distinct(order: seq<nat>) {
    forall i, j :: 0 <= i < j < |order| ==> order[i] != order[j]
  }

  ghost predicate SortedByLeft(entries: seq<Key>, order: seq<nat>) {
    && (forall i :: 0 <= i < |order| ==> order[i] < |entries|)
    && forall i, j :: 0 <= i < j < |order| ==> PathOrder(LeftNode(entries[order[i]]), LeftNode(entries[order[j]])) <= 0
  }

  lemma {:induction false} LeastLeft(entries: seq<Key>, rest: set<nat>) returns (least: nat)
    requires rest != {} && forall i :: i in rest ==> i < |entries|
    ensures least in rest && forall j :: j in rest ==> PathOrder(LeftNode(entries[least]), LeftNode(entries[j])) <= 0
    decreases rest
  {
    hide PathOrder;
    PathsAreOrdered();
    var first :| first in rest;
    var others := rest - {first};
    assert forall k :: k in rest ==> k == first || k in others;
    least := first;
    if others != {} {
      var other := LeastLeft(entries, others);
      if PathOrder(LeftNode(entries[other]), LeftNode(entries[first])) < 0 {
        least := other;
      } else {
        assert forall j :: j in others ==> PathOrder(LeftNode(entries[first]), LeftNode(entries[j])) <= 0;
      }
    }
  }

  lemma {:induction false} SortedSnoc(entries: seq<Key>, order: seq<nat>, k: nat)
    requires SortedByLeft(entries, order) && k < |entries|
    requires forall i :: i in order ==> PathOrder(LeftNode(entries[i]), LeftNode(entries[k])) <= 0
    ensures SortedByLeft(entries, order + [k])
  {
    hide PathOrder;
  }

  function Indices(n: nat): (s: set<nat>)
    ensures |s| == n && forall i: nat :: i in s <==> i < n
  {
    if n == 0 then {} else Indices(n - 1) + {n - 1}
  }

  /** qsort by the left ends: any order that is ascending. */
  method SortByLeft(entries: seq<Key>) returns (order: seq<nat>)
    ensures Distinct(order) && SortedByLeft(entries, order)
    ensures |order| == |entries| && forall i: nat :: i in order <==> i < |entries|
  {
    hide PathOrder, SortedByLeft;
    order := [];
    assert SortedByLeft(entries, order) by { NothingSorted(entries); }
    var rest := Indices(|entries|);
    while rest != {}
      invariant |order| + |rest| == |entries|
      invariant forall i: nat :: i < |entries| <==> (i in rest || i in order)
      invariant forall i :: i in order ==> i !in rest
      invariant Distinct(order) && SortedByLeft(entries, order)
      invariant forall i, j :: i in order && j in rest ==> PathOrder(LeftNode(entries[i]), LeftNode(entries[j])) <= 0
      decreases rest
    {
      ghost var least := LeastLeft(entries, rest);
      var k :| k in rest && forall j :: j in rest ==> PathOrder(LeftNode(entries[k]), LeftNode(entries[j])) <= 0;
      SortedSnoc(entries, order, k);
      order, rest := order + [k], rest - {k};
    }
  }

  lemma {:induction false} NothingSorted(entries: seq<Key>)
    ensures SortedByLeft(entries, [])
  {
  }

  function Chosen(entries: seq<Key>, side: seq<nat>): (es: seq<Key>)
    requires forall i :: 0 <= i < |side| ==> side[i] < |entries|
    ensures |es| == |side| && forall i :: 0 <= i < |side| ==> es[i] == entries[side[i]]
  {
    seq(|side|, i requires 0 <= i < |side| => entries[side[i]])
  }

  lemma {:induction false} ChosenTake(entries: seq<Key>, side: seq<nat>, j: nat)
    requires j < |side| && forall i :: 0 <= i < |side| ==> side[i] < |entries|
    ensures Chosen(entries, side)[..j + 1] == Chosen(entries, side)[..j] + [entries[side[j]]]
  {
  }

  /** The key of one side: its left end is that of its first entry, the rest is gathered. */
  method SideKey(crc: Checksum, entries: seq<Key>, side: seq<nat>) returns (key: Key)
    requires side != [] && SortedByLeft(entries, side) && forall e :: e in entries ==> SafeKey(e)
    ensures SafeKey(key) && IsUnion(crc, Chosen(entries, side), key)
  {
    hide Above, TakesIn, Safe, PathOrder, Gathered, IsUnion, KeyBits, SaysAllTrue;
    ghost var es := Chosen(entries, side);
    var first := entries[side[0]];
    assert SafeKey(first);
    var left, right := LeftNode(first), RightNode(first);
    var allTrue, base := AddSignature(crc, false, {}, first);
    FirstTakenIn(crc, allTrue, base, first);
    GatherFirst(crc, first, base);
    assert es[..1] == [first] && {} + KeyBits(crc, first) == KeyBits(crc, first);
    for j := 1 to |side|
      invariant Safe(left) && Safe(right) && left == LeftNode(first) && Gathered(crc, es[..j], left, right, allTrue, base)
      invariant forall i :: 0 <= i < j ==> TakesIn(crc, left, right, allTrue, base, es[i])
    {
      var cur := entries[side[j]];
      ghost var right0, allTrue0, base0 := right, allTrue, base;
      assert SafeKey(cur);
      assert PathOrder(left, left) <= 0 by { PathsAreOrdered(); }
      right := Upper(right, RightNode(cur));
      allTrue, base := AddSignature(crc, allTrue, base, cur);
      forall i | 0 <= i < j ensures TakesIn(crc, left, right, allTrue, base, es[i]) {
        TakesInMore(crc, left, right0, allTrue0, base0, left, right, allTrue, base, es[i]);
      }
      assert PathOrder(LeftNode(entries[side[0]]), LeftNode(entries[side[j]])) <= 0;
      NextTakenIn(crc, left, right, allTrue, base, cur);
      GatherNext(crc, es[..j], cur, left, right0, allTrue0, base0, left, right, allTrue, base);
      ChosenTake(entries, side, j);
    }
    key := Finished(crc, left, right, allTrue, base);
    assert es[..|es|] == es;
    GatheredIsUnion(crc, es, left, right, allTrue, base);
  }

  lemma {:induction false} SortedPart(entries: seq<Key>, order: seq<nat>, lo: nat, hi: nat)
    requires SortedByLeft(entries, order) && lo <= hi <= |order|
    ensures SortedByLeft(entries, order[lo..hi])
  {
    hide PathOrder;
  }

  /** ltree_picksplit: every entry goes to exactly one side, the half with the smaller left ends to the left,
      and each side's key is the union of its entries. */
  method LtreePicksplit(crc: Checksum, entries: seq<Key>)
    returns (lefts: seq<nat>, rights: seq<nat>, lkey: Key, rkey: Key)
    requires |entries| >= 2 && forall e :: e in entries ==> SafeKey(e)
    ensures lefts != [] && rights != [] && Distinct(lefts + rights) && |lefts| == |entries| / 2
    ensures forall i: nat :: i in lefts + rights <==> i < |entries|
    ensures SortedByLeft(entries, lefts + rights)
    ensures SortedByLeft(entries, lefts) && SafeKey(lkey) && IsUnion(crc, Chosen(entries, lefts), lkey)
    ensures SortedByLeft(entries, rights) && SafeKey(rkey) && IsUnion(crc, Chosen(entries, rights), rkey)
  {
    hide Above, SafeKey, IsUnion, PathOrder;
    var order := SortByLeft(entries);
    var half := |entries| / 2;
    SortedPart(entries, order, 0, half);
    SortedPart(entries, order, half, |order|);
    lefts, rights := order[0..half], order[half..|order|];
    assert lefts + rights == order;
    assert forall i :: i in lefts || i in rights ==> i in order;
    lkey := SideKey(crc, entries, lefts);
    rkey := SideKey(crc, entries, rights);
  }

  // ---------------------------------------------------------------- tests of an inner key

  datatype Strategy = Less | LessEqual | Equal | GreaterEqual | Greater | AncestorOf | DescendantOf

  /** What a search asks of a path: order relations to the query, and ancestry. */
  predicate LeafTest(strategy: Strategy, query: Path, p: Path) {
    match strategy
    case Less => PathOrder(query, p) > 0
    case LessEqual => PathOrder(query, p) >= 0
    case Equal => PathOrder(query, p) == 0
    case GreaterEqual => PathOrder(query, p) <= 0
    case Greater => PathOrder(query, p) < 0
    case AncestorOf => p <= query
    case DescendantOf => query <= p
  }

  /** What each search means, in terms of which path comes first. */
  lemma {:induction false} LeafTestMeans(query: Path, p: Path)
    ensures LeafTest(Less, query, p) <==> PathBefore(p, query)
    ensures LeafTest(LessEqual, query, p) <==> PathBefore(p, query) || p == query
    ensures LeafTest(Equal, query, p) <==> p == query
    ensures LeafTest(GreaterEqual, query, p) <==> PathBefore(query, p) || p == query
    ensures LeafTest(Greater, query, p) <==> PathBefore(query, p)
    ensures LeafTest(AncestorOf, query, p) <==> |p| <= |query| && p == query[..|p|]
    ensures LeafTest(DescendantOf, query, p) <==> |query| <= |p| && query == p[..|query|]
    ensures LeafTest(Less, query, p) <==> !LeafTest(GreaterEqual, query, p)
    ensures LeafTest(Less, query, p) <==> LeafTest(LessEqual, query, p) && !LeafTest(Equal, query, p)
  {
    hide PathOrder, PathBefore;
    PathOrderAscends(query, p);
  }

  /** What the search asks of an inner key. */
  predicate InnerTest(strategy: Strategy, query: Path, key: Key) {
    var l, r := LeftNode(key), RightNode(key);
    match strategy
    case Less => PathOrder(query, l) >= 0
    case LessEqual => PathOrder(query, l) >= 0
    case Equal => PathOrder(query, l) >= 0 && PathOrder(query, r) <= 0
    case GreaterEqual => PathOrder(query, r) <= 0
    case Greater => PathOrder(query, r) <= 0
    case AncestorOf => exists i :: 0 <= i <= |query| && PathOrder(query[..i], l) >= 0 && PathOrder(query[..i], r) <= 0
    case DescendantOf => PathOrder(query, Cut(l, |query|)) >= 0 && PathOrder(query, Cut(r, |query|)) <= 0
  }

  /** An inner key never prunes a path below it that the search wants. */
  lemma {:induction false} InnerTestPrunesNothing(crc: Checksum, strategy: Strategy, query: Path, key: Key, p: Path)
    requires Covers(crc, key, p) && LeafTest(strategy, query, p)
    ensures InnerTest(strategy, query, key)
  {
    hide PathOrder, PathBits;
    PathsAreOrdered();
    var l, r := LeftNode(key), RightNode(key);
    assert PathOrder(l, p) <= 0 && PathOrder(p, r) <= 0;
    if strategy == AncestorOf {
      assert query[..|p|] == p;
    } else if strategy == DescendantOf {
      PathCutMonotone(l, p, |query|);
      PathCutMonotone(p, r, |query|);
      assert Cut(p, |query|) == query;
    }
  }

  lemma {:induction false} PathCutMonotone(a: Path, b: Path, k: nat)
    requires PathOrder(a, b) <= 0
    ensures PathOrder(Cut(a, k), Cut(b, k)) <= 0
  {
    LabelsAreOrdered();
    LexCutMonotone(LabelOrder, a, b, k);
  }

  /** The inner test does not tell strict from other order searches. */
  function Relaxed(strategy: Strategy): Strategy {
    if strategy == Less then LessEqual else if strategy == Greater then GreaterEqual else strategy
  }

  ghost predicate Between(key: Key, p: Path) {
    PathOrder(LeftNode(key), p) <= 0 && PathOrder(p, RightNode(key)) <= 0
  }

  /** An inner key is searched just if its interval has a path the search wants, strict or not. */
  lemma {:induction false} InnerTestIsTight(strategy: Strategy, query: Path, key: Key)
    requires PathOrder(LeftNode(key), RightNode(key)) <= 0
    ensures InnerTest(strategy, query, key) <==> exists p :: Between(key, p) && LeafTest(Relaxed(strategy), query, p)
  {
    hide PathOrder, InnerTest, LeafTest, Between;
    if InnerTest(strategy, query, key) {
      var p := WantedPath(strategy, query, key);
    }
    if p :| Between(key, p) && LeafTest(Relaxed(strategy), query, p) {
      BetweenPasses(strategy, query, key, p);
    }
  }

  lemma {:induction false} BetweenPasses(strategy: Strategy, query: Path, key: Key, p: Path)
    requires Between(key, p) && LeafTest(Relaxed(strategy), query, p)
    ensures InnerTest(strategy, query, key)
  {
    hide PathOrder;
    InnerTestPrunesNothing(_ => 0, Relaxed(strategy), query, Inner(LeftNode(key), RightNode(key), true, {}), p);
  }

  lemma {:induction false} WantedPath(strategy: Strategy, query: Path, key: Key) returns (p: Path)
    requires PathOrder(LeftNode(key), RightNode(key)) <= 0 && InnerTest(strategy, query, key)
    ensures Between(key, p) && LeafTest(Relaxed(strategy), query, p)
  {
    hide PathOrder, Cut;
    var l, r := LeftNode(key), RightNode(key);
    Turned(l, l);
    Turned(r, r);
    Turned(query, query);
    match strategy
    case Less => p := l;
    case LessEqual => p := l;
    case Equal => p := query; Turned(query, l);
    case GreaterEqual => p := r;
    case Greater => p := r;
    case AncestorOf =>
      var i :| 0 <= i <= |query| && PathOrder(query[..i], l) >= 0 && PathOrder(query[..i], r) <= 0;
      p := query[..i];
      Turned(p, l);
    case DescendantOf =>
      CutAtLength(l, query);
      CutAtLength(r, query);
      Turned(query, l);
      p := if query <= l then l else if query <= r then r else query;
  }

  lemma {:induction false} Turned(a: Path, b: Path)
    ensures PathOrder(a, b) == -PathOrder(b, a) && (PathOrder(a, b) == 0 <==> a == b)
  {
    LabelsAreOrdered();
    LexAntisymmetric(LabelOrder, a, b);
    LexZero(LabelOrder, a, b);
  }

  /** A path against another of which it may be a beginning, cut to its length or not. */
  lemma {:induction false} CutAtLength(a: Path, query: Path)
    ensures query <= a || PathOrder(query, Cut(a, |query|)) < 0 || PathOrder(query, a) > 0
    ensures PathOrder(query, Cut(a, |query|)) <= 0 ==> PathOrder(query, a) <= 0
  {
    var cut := Cut(a, |query|);
    Turned(query, cut);
    Turned(query, a);
    LabelsAreOrdered();
    assert cut[..|cut|] == a[..|cut|];
    LexSkip(LabelOrder, cut, a, |cut|);
    if PathOrder(query, cut) <= 0 { LexTransitive(LabelOrder, query, cut, a); }
    if PathOrder(query, a) <= 0 {
      LexCutMonotone(LabelOrder, query, a, |query|);
      assert Cut(query, |query|) == query;
    }
  }

  /** A path with its level count, which gist_isparent changes for a while. */
  class LTree {
    const levels: Path
    var numlevel: nat

    ghost predicate Valid()
      reads this
    {
      numlevel <= |levels| && Safe(levels)
    }

    constructor (path: Path)
      requires Safe(path)
      ensures Valid() && levels == path && numlevel == |path|
    {
      levels, numlevel := path, |path|;
    }

    function Value(): Path
      reads this
      requires numlevel <= |levels|
    {
      levels[..numlevel]
    }
  }

  lemma {:induction false} SafePrefix(p: Path, k: nat)
    requires Safe(p) && k <= |p|
    ensures Safe(p[..k])
  {
  }

  /** gist_isparent: is some ancestor of the query within the interval? The query is left as it was. */
  method GistIsParent(key: Key, query: LTree) returns (res: bool)
    requires SafeKey(key) && query.Valid()
    modifies query`numlevel
    ensures query.numlevel == old(query.numlevel)
    ensures res == InnerTest(AncestorOf, query.Value(), key)
  {
    hide Tells, PathOrder;
    var numlevel := query.numlevel;
    ghost var q := query.Value();
    var i := query.numlevel;
    while i >= 0
      invariant -1 <= i <= numlevel <= |query.levels| && Safe(query.levels)
      invariant forall k :: i < k <= numlevel ==> !(PathOrder(q[..k], LeftNode(key)) >= 0 && PathOrder(q[..k], RightNode(key)) <= 0)
      decreases i
    {
      query.numlevel := i;
      assert query.Value() == q[..i];
      SafePrefix(query.levels, i);
      ComparedIsOrder(query.Value(), LeftNode(key));
      ComparedIsOrder(query.Value(), RightNode(key));
      var lower := LtreeCompare(query.Value(), LeftNode(key));
      var upper := LtreeCompare(query.Value(), RightNode(key));
      if lower >= 0 && upper <= 0 {
        query.numlevel := numlevel;
        return true;
      }
      i := i - 1;
    }
    query.numlevel := numlevel;
    return false;
  }

  /** gist_ischild: the interval's ends cut to the query's level count. */
  method GistIsChild(key: Key, query: Path) returns (res: bool)
    requires SafeKey(key) && Safe(query)
    ensures res == InnerTest(DescendantOf, query, key)
  {
    hide Tells, PathOrder;
    var left, right := LeftNode(key), RightNode(key);
    res := true;
    if |left| > |query| { SafePrefix(left, |query|); left := left[..|query|]; }
    var lower := LtreeCompare(query, left);
    ComparedIsOrder(query, left);
    if lower < 0 { res := false; }
    if |right| > |query| { SafePrefix(right, |query|); right := right[..|query|]; }
    var upper := LtreeCompare(query, right);
    ComparedIsOrder(query, right);
    if res && upper > 0 { res := false; }
  }

  /** ltree_consistent for the ordering and ancestry strategies. */
  method LtreeConsistent(key: Key, leaf: bool, strategy: Strategy, query: Path) returns (res: bool)
    requires SafeKey(key) && Safe(query) && (leaf ==> key.OneNode?)
    ensures res == if leaf then LeafTest(strategy, query, key.node) else InnerTest(strategy, query, key)
  {
    hide Tells, PathOrder;
    var lower := LtreeCompare(query, LeftNode(key));
    var upper := LtreeCompare(query, RightNode(key));
    ComparedIsOrder(query, LeftNode(key));
    ComparedIsOrder(query, RightNode(key));
    match strategy {
      case Less => res := if leaf then lower > 0 else lower >= 0;
      case LessEqual => res := lower >= 0;
      case Equal => res := if leaf then lower == 0 else lower >= 0 && upper <= 0;
      case GreaterEqual => res := upper <= 0;
      case Greater => res := if leaf then upper < 0 else upper <= 0;
      case AncestorOf =>
        if leaf {
          res := InnerIsParent(query, key.node);
        } else {
          var copy := new LTree(query);
          assert copy.Value() == query;
          res := GistIsParent(key, copy);
        }
      case DescendantOf =>
        if leaf { res := InnerIsParent(key.node, query); } else { res := GistIsChild(key, query); }
    }
  }

  // ---------------------------------------------------------------- pattern searches

  /** A level of a pattern: its alternatives, none for a star; whether it carries no modifier at all; and
      whether it carries none but perhaps case folding, which the checksum ignores too. */
  datatype Level = Level(variants: seq<Label>, plain: bool, signable: bool)

  predicate IsLiteral(level: Level) {
    |level.variants| == 1 && level.plain
  }

  /** firstgood: how many literal levels the pattern starts with. */
  function FirstGood(q: seq<Level>): (n: nat)
    ensures n <= |q| && forall k :: 0 <= k < n ==> |q[k].variants| == 1 && q[k].plain
    ensures n < |q| ==> |q[n].variants| != 1 || !q[n].plain
  {
    if q != [] && IsLiteral(q[0]) then 1 + FirstGood(q[1..]) else 0
  }

  function LiteralPrefix(q: seq<Level>): (p: Path)
    ensures |p| == FirstGood(q) && forall k :: 0 <= k < |p| ==> p[k] == q[k].variants[0]
  {
    seq(FirstGood(q), k requires 0 <= k < FirstGood(q) => q[k].variants[0])
  }

  /** Some label is one of the alternatives, up to what the checksum tells apart. */
  predicate HasLabelOf(crc: Checksum, level: Level, p: Path) {
    exists v, i :: v in level.variants && 0 <= i < |p| && crc(v) == crc(p[i])
  }

  /** Every level to be looked up in the signature has one of its alternatives among the labels. */
  predicate HasLabels(crc: Checksum, q: seq<Level>, p: Path) {
    forall k :: 0 <= k < |q| && q[k].variants != [] && q[k].signable ==> HasLabelOf(crc, q[k], p)
  }

  /** What every path that matches the pattern satisfies: it begins with the literal levels and has the labels
      to be looked up. */
  predicate MeetsPattern(crc: Checksum, q: seq<Level>, p: Path) {
    LiteralPrefix(q) <= p && HasLabels(crc, q, p)
  }

  /** gist_tqcmp: a path against the literal levels of a pattern. */
  method GistTqcmp(t: Path, q: seq<Level>) returns (res: int)
    ensures Sign(res) == PathOrder(Cut(t, FirstGood(q)), LiteralPrefix(q))
  {
    var lit := LiteralPrefix(q);
    var i, an, bn := 0, |t|, FirstGood(q);
    ghost var cut := Cut(t, bn);
    while an > 0 && bn > 0
      invariant 0 <= i <= |t| && i <= |lit| && an == |t| - i && bn == |lit| - i
      invariant PathOrder(cut, lit) == PathOrder(cut[i..], lit[i..])
      decreases an
    {
      MemCmpSign(t[i], lit[i]);
      res := MemCmp(t[i], lit[i]);
      assert cut[i..][0] == t[i] && cut[i..][1..] == cut[i + 1..] && lit[i..][1..] == lit[i + 1..];
      if res == 0 {
        if |t[i]| != |lit[i]| { return |t[i]| - |lit[i]|; }
      } else {
        return res;
      }
      an, bn, i := an - 1, bn - 1, i + 1;
    }
    res := (if |t| <= FirstGood(q) then |t| else FirstGood(q)) - FirstGood(q);
  }

  method GistBetween(key: Key, q: seq<Level>) returns (res: bool)
    ensures res == (PathOrder(Cut(LeftNode(key), FirstGood(q)), LiteralPrefix(q)) <= 0
                    && PathOrder(Cut(RightNode(key), FirstGood(q)), LiteralPrefix(q)) >= 0)
  {
    if FirstGood(q) == 0 {
      assert Cut(LeftNode(key), 0) == [] == LiteralPrefix(q) && Cut(RightNode(key), 0) == [];
      return true;
    }
    var lower := GistTqcmp(LeftNode(key), q);
    if lower > 0 { return false; }
    var upper := GistTqcmp(RightNode(key), q);
    if upper < 0 { return false; }
    return true;
  }

  predicate LevelHit(crc: Checksum, sign: set<int>, level: Level) {
    level.variants == [] || !level.signable || exists v :: v in level.variants && HashVal(crc, v) in sign
  }

  /** gist_qe: the signature against the alternatives of every level that can be looked up in it. */
  method GistQe(crc: Checksum, key: Key, q: seq<Level>) returns (res: bool)
    requires key.Inner?
    ensures res == (key.allTrue || forall k :: 0 <= k < |q| ==> LevelHit(crc, key.sign, q[k]))
  {
    if key.allTrue { return true; }
    for k := 0 to |q|
      invariant forall j :: 0 <= j < k ==> LevelHit(crc, key.sign, q[j])
    {
      if q[k].variants != [] && q[k].signable {
        var exists', j := false, 0;
        while j < |q[k].variants|
          invariant 0 <= j <= |q[k].variants| && !exists'
          invariant forall i :: 0 <= i < j ==> HashVal(crc, q[k].variants[i]) !in key.sign
        {
          if HashVal(crc, q[k].variants[j]) in key.sign {
            assert q[k].variants[j] in q[k].variants;
            exists' := true;
            break;
          }
          j := j + 1;
        }
        if !exists' { return false; }
      }
    }
    return true;
  }

  lemma {:induction false} LiteralIsBetween(left: Path, right: Path, q: seq<Level>, p: Path)
    requires PathOrder(left, p) <= 0 && PathOrder(p, right) <= 0 && LiteralPrefix(q) <= p
    ensures PathOrder(Cut(left, FirstGood(q)), LiteralPrefix(q)) <= 0
    ensures PathOrder(Cut(right, FirstGood(q)), LiteralPrefix(q)) >= 0
  {
    hide PathOrder;
    PathsAreOrdered();
    var n := FirstGood(q);
    assert Cut(p, n) == LiteralPrefix(q);
    PathCutMonotone(left, p, n);
    PathCutMonotone(p, right, n);
  }

  /** Pattern searches prune nothing either, whatever the pattern's other levels ask. */
  lemma {:induction false} PatternTestPrunesNothing(crc: Checksum, key: Key, q: seq<Level>, p: Path)
    requires key.Inner? && Covers(crc, key, p) && MeetsPattern(crc, q, p)
    ensures PathOrder(Cut(key.left, FirstGood(q)), LiteralPrefix(q)) <= 0
    ensures PathOrder(Cut(key.right, FirstGood(q)), LiteralPrefix(q)) >= 0
    ensures key.allTrue || forall k :: 0 <= k < |q| ==> LevelHit(crc, key.sign, q[k])
  {
    hide PathOrder;
    LiteralIsBetween(key.left, key.right, q, p);
    if !key.allTrue {
      forall k | 0 <= k < |q| ensures LevelHit(crc, key.sign, q[k]) {
        if q[k].variants != [] && q[k].signable {
          assert HasLabelOf(crc, q[k], p);
          var v, i :| v in q[k].variants && 0 <= i < |p| && crc(v) == crc(p[i]);
          assert HashVal(crc, p[i]) in PathBits(crc, p);
        }
      }
    }
  }

  /** The interval test passes just if some path in the interval begins with the literal levels. */
  lemma {:induction false} LiteralTestIsTight(key: Key, q: seq<Level>)
    requires PathOrder(LeftNode(key), RightNode(key)) <= 0
    ensures PathOrder(Cut(LeftNode(key), FirstGood(q)), LiteralPrefix(q)) <= 0 &&
            PathOrder(Cut(RightNode(key), FirstGood(q)), LiteralPrefix(q)) >= 0 <==>
            exists p :: Between(key, p) && LiteralPrefix(q) <= p
  {
    hide PathOrder, Between;
    PathsAreOrdered();
    InnerTestIsTight(DescendantOf, LiteralPrefix(q), key);
    assert forall p :: LeafTest(DescendantOf, LiteralPrefix(q), p) <==> LiteralPrefix(q) <= p;
  }

  /** The signature test passes just if some path whose bits it holds has an alternative of every level looked up. */
  lemma {:induction false} SignatureTestIsTight(crc: Checksum, sign: set<int>, q: seq<Level>)
    ensures (forall k :: 0 <= k < |q| ==> LevelHit(crc, sign, q[k])) <==>
      exists p: Path :: PathBits(crc, p) <= sign && HasLabels(crc, q, p)
  {
    if forall k :: 0 <= k < |q| ==> LevelHit(crc, sign, q[k]) {
      var p := OneOfEach(crc, sign, q);
      assert PathBits(crc, p) <= sign;
    }
    if p: Path :| PathBits(crc, p) <= sign && HasLabels(crc, q, p) {
      forall k | 0 <= k < |q| ensures LevelHit(crc, sign, q[k]) {
        if q[k].variants != [] && q[k].signable {
          assert HasLabelOf(crc, q[k], p);
          var v, i :| v in q[k].variants && 0 <= i < |p| && crc(v) == crc(p[i]);
          assert HashVal(crc, p[i]) in PathBits(crc, p);
        }
      }
    }
  }

  lemma {:induction false} OneOfEach(crc: Checksum, sign: set<int>, q: seq<Level>) returns (p: Path)
    requires forall k :: 0 <= k < |q| ==> LevelHit(crc, sign, q[k])
    ensures PathBits(crc, p) <= sign && HasLabels(crc, q, p)
    decreases |q|
  {
    if q == [] {
      p := [];
    } else {
      var init, last := q[..|q| - 1], q[|q| - 1];
      var p' := OneOfEach(crc, sign, init);
      p := p';
      if last.variants != [] && last.signable {
        assert LevelHit(crc, sign, last);
        var v :| v in last.variants && HashVal(crc, v) in sign;
        p := p' + [v];
        assert p[|p'|] == v;
        forall k | 0 <= k < |init| && init[k].variants != [] && init[k].signable ensures HasLabelOf(crc, init[k], p) {
          assert HasLabelOf(crc, init[k], p');
          var w, i :| w in init[k].variants && 0 <= i < |p'| && crc(w) == crc(p'[i]);
          assert p[i] == p'[i];
        }
      }
    }
  }

  // ---------------------------------------------------------------- a whole index

  datatype Tree = Leaf(path: Path) | Node(key: Key, children: seq<Tree>)

  function KeyOf(t: Tree): Key {
    if t.Leaf? then OneNode(t.path) else t.key
  }

  function PathsIn(t: Tree): set<Path> {
    match t
    case Leaf(p) => {p}
    case Node(_, children) => set c, p | c in children && p in PathsIn(c) :: p
  }

  /** Each key is above those of its children, as union and split leave it. */
  ghost predicate WellKeyed(crc: Checksum, t: Tree) {
    t.Node? ==> forall c :: c in t.children ==> Above(crc, t.key, KeyOf(c)) && WellKeyed(crc, c)
  }

  /** Descends only where the inner test lets it. */
  function Search(strategy: Strategy, query: Path, t: Tree): set<Path> {
    match t
    case Leaf(p) => if LeafTest(strategy, query, p) then {p} else {}
    case Node(key, children) =>
      if InnerTest(strategy, query, key) then set c, p | c in children && p in Search(strategy, query, c) :: p else {}
  }

  lemma {:induction false} KeyCoversPaths(crc: Checksum, t: Tree, p: Path)
    requires WellKeyed(crc, t) && p in PathsIn(t)
    ensures Covers(crc, KeyOf(t), p)
    decreases t
  {
    hide PathOrder;
    if t.Node? {
      var c :| c in t.children && p in PathsIn(c);
      KeyCoversPaths(crc, c, p);
    }
  }

  /** A search through the index finds exactly the paths a scan of all of them would. */
  lemma {:induction false} SearchFindsExactly(crc: Checksum, strategy: Strategy, query: Path, t: Tree, p: Path)
    requires WellKeyed(crc, t)
    ensures p in Search(strategy, query, t) <==> p in PathsIn(t) && LeafTest(strategy, query, p)
    decreases t
  {
    hide PathOrder, InnerTest, LeafTest, Covers, Above;
    if t.Node? {
      forall c | c in t.children
        ensures p in Search(strategy, query, c) <==> p in PathsIn(c) && LeafTest(strategy, query, p)
      {
        SearchFindsExactly(crc, strategy, query, c, p);
      }
      if p in PathsIn(t) && LeafTest(strategy, query, p) {
        KeyCoversPaths(crc, t, p);
        InnerTestPrunesNothing(crc, strategy, query, t.key, p);
        var c :| c in t.children && p in PathsIn(c);
        assert p in Search(strategy, query, c);
      }
    }
  }
}
