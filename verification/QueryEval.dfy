/** Evaluation of compiled queries in contrib/intarray: over a sorted array, over a signature, and
    through the GIN index. */
module QueryEval {
  import opened QuerySyntax
  import opened QueryParser
  import opened QueryCompiler
  import IntTool

  /** Every operator finds its operands inside the array. */
  predicate Linked(items: seq<Item>) {
    forall k :: 0 <= k < |items| && items[k].node.Operator? ==>
      0 < k && (items[k].node.op != '!' ==> 0 <= k + items[k].left < k)
  }

  /** execute: the test `check` decides the primitive cases from an item's position and value. */
  function Execute(items: seq<Item>, i: nat, calcnot: bool, check: (int, int) -> bool): bool
    requires Linked(items) && i < |items|
    decreases i
  {
    match items[i].node
    case Value(v) => check(i, v)
    case Operator(op) =>
      if op == '!' then (if calcnot then !Execute(items, i - 1, calcnot, check) else true)
      else if op == '&' then
        Execute(items, i + items[i].left, calcnot, check) && Execute(items, i - 1, calcnot, check)
      else
        Execute(items, i + items[i].left, calcnot, check) || Execute(items, i - 1, calcnot, check)
  }

  /** contains_required_value */
  function ContainsRequiredValue(items: seq<Item>, i: nat): bool
    requires Linked(items) && i < |items|
    decreases i
  {
    match items[i].node
    case Value(v) => true
    case Operator(op) =>
      if op == '!' then false
      else if op == '&' then
        ContainsRequiredValue(items, i + items[i].left) || ContainsRequiredValue(items, i - 1)
      else
        ContainsRequiredValue(items, i + items[i].left) && ContainsRequiredValue(items, i - 1)
  }

  // ---------------------------------------------------------------- links that fit 16 bits

  /** The right operand of every `&` and `|` has at most 32767 items. */
  predicate LinksFit(f: Formula) {
    match f
    case Num(_) => true
    case Not(a) => LinksFit(a)
    case And(l, r) => LinksFit(l) && LinksFit(r) && |Items(r)| <= 0x7fff
    case Or(l, r) => LinksFit(l) && LinksFit(r) && |Items(r)| <= 0x7fff
  }

  lemma {:induction false} ItemsCases(f: Formula)
    ensures f.Num? ==> Items(f) == [Item(OperatorOf(f), 0)]
    ensures f.Not? ==> Items(f) == Items(f.arg) + [Item(OperatorOf(f), -1)]
    ensures f.And? || f.Or? ==>
      Items(f) == Items(f.left) + Items(f.right) + [Item(OperatorOf(f), Int2(-|Items(f.right)| - 1))]
  {
  }

  /** The items that end at position i are those of f. */
  ghost predicate Segment(items: seq<Item>, i: int, f: Formula) {
    |Items(f)| - 1 <= i < |items| && items[i + 1 - |Items(f)|..i + 1] == Items(f)
  }

  lemma {:induction false} SliceSplit<T>(s: seq<T>, lo: int, hi: int, a: seq<T>, b: seq<T>)
    requires 0 <= lo <= hi <= |s| && s[lo..hi] == a + b
    ensures s[lo..lo + |a|] == a && s[lo + |a|..hi] == b
  {
    assert s[lo..lo + |a|] == s[lo..hi][..|a|];
    assert s[lo + |a|..hi] == s[lo..hi][|a|..];
  }

  /** The last item of a segment, and the segments of the operands before it. */
  lemma {:induction false} SegmentParts(items: seq<Item>, i: int, f: Formula)
    requires Segment(items, i, f)
    ensures 0 < |Items(f)| <= i + 1 <= |items| && items[i].node == OperatorOf(f)
    ensures f.Not? ==> Segment(items, i - 1, f.arg) && 0 < |Items(f.arg)| == |Items(f)| - 1
    ensures f.And? || f.Or? ==>
      && 0 < |Items(f.left)| && 0 < |Items(f.right)|
      && Segment(items, i - 1, f.right) && Segment(items, i - 1 - |Items(f.right)|, f.left)
      && |Items(f)| == |Items(f.left)| + |Items(f.right)| + 1
    ensures (f.And? || f.Or?) && LinksFit(f) ==> items[i].left == -|Items(f.right)| - 1
  {
    hide Items;
    ItemsCases(f);
    var lo := i + 1 - |Items(f)|;
    assert items[i] == items[lo..i + 1][i - lo];
    if f.Not? {
      SliceSplit(items, lo, i + 1, Items(f.arg), [items[i]]);
    } else if !f.Num? {
      SliceSplit(items, lo, i + 1, Items(f.left) + Items(f.right), [items[i]]);
      SliceSplit(items, lo, i, Items(f.left), Items(f.right));
    }
  }

  /** In the items that end at i, every `&` and `|` of f finds the root of its left operand by its link. */
  ghost predicate LinksReach(items: seq<Item>, i: int, f: Formula)
    requires Segment(items, i, f)
    decreases f
  {
    SegmentParts(items, i, f);
    match f
    case Num(_) => true
    case Not(a) => LinksReach(items, i - 1, a)
    case And(l, r) =>
      i + items[i].left == i - 1 - |Items(r)| && LinksReach(items, i - 1, r) && LinksReach(items, i - 1 - |Items(r)|, l)
    case Or(l, r) =>
      i + items[i].left == i - 1 - |Items(r)| && LinksReach(items, i - 1, r) && LinksReach(items, i - 1 - |Items(r)|, l)
  }

  /** All links reach their operands exactly when every right operand has at most 32767 items: beyond that the
      16-bit field wraps. */
  lemma {:induction false} LinksReachExactly(items: seq<Item>, i: int, f: Formula)
    requires Segment(items, i, f)
    ensures LinksReach(items, i, f) <==> LinksFit(f)
    decreases f
  {
    hide Items, Segment;
    SegmentParts(items, i, f);
    if f.Not? {
      LinksReachExactly(items, i - 1, f.arg);
    } else if !f.Num? {
      LinkOf(items, i, f);
      LinksReachExactly(items, i - 1, f.right);
      LinksReachExactly(items, i - 1 - |Items(f.right)|, f.left);
    }
  }

  lemma {:induction false} LinkOf(items: seq<Item>, i: int, f: Formula)
    requires Segment(items, i, f) && (f.And? || f.Or?)
    ensures 0 <= i < |items| && items[i].left == Int2(-|Items(f.right)| - 1)
  {
    hide Items;
    ItemsCases(f);
    assert items[i] == items[i + 1 - |Items(f)|..i + 1][|Items(f)| - 1];
  }

  lemma {:induction false} LinkedConcat(a: seq<Item>, b: seq<Item>)
    requires Linked(a) && Linked(b)
    ensures Linked(a + b)
  {
  }

  lemma {:induction false} LinkedSnoc(a: seq<Item>, x: Item)
    requires Linked(a) && a != []
    requires x.node.Operator? && x.node.op != '!' ==> 0 <= |a| + x.left < |a|
    ensures Linked(a + [x])
  {
  }

  lemma {:induction false} ItemsAreLinked(f: Formula)
    requires LinksFit(f)
    ensures Linked(Items(f))
  {
    hide Items, Linked;
    ItemsCases(f);
    if f.Not? {
      ItemsAreLinked(f.arg);
      LinkedSnoc(Items(f.arg), Item(OperatorOf(f), -1));
    } else if !f.Num? {
      ItemsAreLinked(f.left);
      ItemsAreLinked(f.right);
      LinkedConcat(Items(f.left), Items(f.right));
      LinkedSnoc(Items(f.left) + Items(f.right), Item(OperatorOf(f), Int2(-|Items(f.right)| - 1)));
    } else {
      LinkedValue(f.v);
    }
  }

  lemma {:induction false} LinkedValue(v: int)
    ensures Linked([Item(Value(v), 0)])
  {
  }

  // ---------------------------------------------------------------- evaluation is the formula's truth

  /** On the items ending at i that belong to f, the test tells membership. */
  ghost predicate Decides(items: seq<Item>, i: int, f: Formula, check: (int, int) -> bool, members: set<int>) {
    forall k :: i - |Items(f)| < k <= i && 0 <= k < |items| && items[k].node.Value? ==>
      (check(k, items[k].node.v) <==> items[k].node.v in members)
  }

  lemma {:induction false} ExecuteIsHolds(items: seq<Item>, i: nat, f: Formula, check: (int, int) -> bool, members: set<int>)
    requires Linked(items) && Segment(items, i, f) && LinksFit(f) && Decides(items, i, f, check, members)
    ensures Execute(items, i, true, check) == Holds(f, members)
    decreases f
  {
    hide Items, Segment, Linked;
    SegmentParts(items, i, f);
    if f.Not? {
      ExecuteIsHolds(items, i - 1, f.arg, check, members);
    } else if !f.Num? {
      ExecuteIsHolds(items, i - 1, f.right, check, members);
      ExecuteIsHolds(items, i - 1 - |Items(f.right)|, f.left, check, members);
    }
  }

  /** The test is true at least of the members. */
  ghost predicate Covers(check: (int, int) -> bool, members: set<int>) {
    forall k, v :: v in members ==> check(k, v)
  }

  /** Without computing negations, evaluation over anything that covers the members never misses a match. */
  lemma {:induction false} LossyExecuteIsSound(items: seq<Item>, i: nat, f: Formula, check: (int, int) -> bool, members: set<int>)
    requires Linked(items) && Segment(items, i, f) && LinksFit(f) && Covers(check, members)
    requires Holds(f, members)
    ensures Execute(items, i, false, check)
    decreases f
  {
    hide Items, Segment, Linked;
    SegmentParts(items, i, f);
    if f.And? || f.Or? {
      if Holds(f.right, members) { LossyExecuteIsSound(items, i - 1, f.right, check, members); }
      if Holds(f.left, members) { LossyExecuteIsSound(items, i - 1 - |Items(f.right)|, f.left, check, members); }
    }
  }

  /** The formula with every negation taken as true. */
  function Leniently(f: Formula, members: set<int>): bool {
    match f
    case Num(v) => v in members
    case Not(a) => true
    case And(l, r) => Leniently(l, members) && Leniently(r, members)
    case Or(l, r) => Leniently(l, members) || Leniently(r, members)
  }

  /** Without computing negations, evaluation is exactly the formula with these taken as true. */
  lemma {:induction false} LossyExecuteIsLenient(items: seq<Item>, i: nat, f: Formula, check: (int, int) -> bool, members: set<int>)
    requires Linked(items) && Segment(items, i, f) && LinksFit(f) && Decides(items, i, f, check, members)
    ensures Execute(items, i, false, check) == Leniently(f, members)
    decreases f
  {
    hide Items, Segment, Linked;
    SegmentParts(items, i, f);
    if f.And? || f.Or? {
      LossyExecuteIsLenient(items, i - 1, f.right, check, members);
      LossyExecuteIsLenient(items, i - 1 - |Items(f.right)|, f.left, check, members);
    }
  }

  /** A value is found to be required exactly if the formula, negations taken as true, fails on the empty array. */
  lemma {:induction false} RequiredExactly(items: seq<Item>, i: nat, f: Formula)
    requires Linked(items) && Segment(items, i, f) && LinksFit(f)
    ensures ContainsRequiredValue(items, i) <==> !Leniently(f, {})
    decreases f
  {
    hide Items, Segment, Linked;
    SegmentParts(items, i, f);
    if f.And? || f.Or? {
      RequiredExactly(items, i - 1, f.right);
      RequiredExactly(items, i - 1 - |Items(f.right)|, f.left);
    }
  }

  /** A query with a required value is satisfied only by arrays that contain one of its values. */
  lemma {:induction false} RequiredValueIsRequired(items: seq<Item>, i: nat, f: Formula, members: set<int>)
    requires Linked(items) && Segment(items, i, f) && LinksFit(f)
    requires ContainsRequiredValue(items, i) && Holds(f, members)
    ensures exists v :: v in Values(f) && v in members
    decreases f
  {
    hide Items, Segment, Linked;
    SegmentParts(items, i, f);
    if f.Num? {
      assert f.v in Values(f);
    } else if ContainsRequiredValue(items, i - 1) && Holds(f.right, members) {
      RequiredValueIsRequired(items, i - 1, f.right, members);
      var v :| v in Values(f.right) && v in members;
      assert v in Values(f);
    } else {
      RequiredValueIsRequired(items, i - 1 - |Items(f.right)|, f.left, members);
      var v :| v in Values(f.left) && v in members;
      assert v in Values(f);
    }
  }

  // ---------------------------------------------------------------- boolop

  function MemberTest(members: set<int>): (int, int) -> bool {
    (k, v) => v in members
  }

  lemma {:induction false} WholeSegment(f: Formula)
    ensures 0 < |Items(f)| && Segment(Items(f), |Items(f)| - 1, f)
  {
    hide Items;
    assert Items(f)[0..|Items(f)|] == Items(f);
  }

  lemma {:induction false} WholeQuery(f: Formula, members: set<int>)
    requires LinksFit(f)
    ensures Linked(Items(f)) && Execute(Items(f), |Items(f)| - 1, true, MemberTest(members)) == Holds(f, members)
  {
    hide Items, Linked, Execute, Segment;
    ItemsAreLinked(f);
    WholeSegment(f);
    ExecuteIsHolds(Items(f), |Items(f)| - 1, f, MemberTest(members), members);
  }

  // ---------------------------------------------------------------- queries with links that do not fit

  /** 2 | 2 | ... | 2 with n signs. */
  function Chain(n: nat): Formula {
    if n == 0 then Num(2) else Or(Chain(n - 1), Num(2))
  }

  lemma {:induction false} ChainFacts(n: nat)
    ensures |Items(Chain(n))| == 2 * n + 1 && LinksFit(Chain(n)) && Holds(Chain(n), {2})
    ensures n > 0 ==> Items(Chain(n))[2 * n - 1].node == Value(2)
  {
    hide Items;
    ItemsCases(Num(2));
    if n > 0 {
      ChainFacts(n - 1);
      ItemsCases(Chain(n));
    }
  }

  /** 1 & (2 | 2 | ... | 2) with 32769 twos: the link of the & wraps to the last 2 instead of the 1, and the query is
      found true on the array {2} although it is false. */
  lemma {:induction false} WrappedLinkMisleads(n: nat)
    requires n == 0x8000
    ensures var f := And(Num(1), Chain(n)); var items := Items(f);
      && !LinksFit(f) && Linked(items) && items[|items| - 1].left == -2
      && Execute(items, |items| - 1, true, MemberTest({2})) && !Holds(f, {2})
  {
    hide Items, Linked, LinksFit, Segment;
    var r := Chain(n);
    var f := And(Num(1), r);
    var items := Items(f);
    ChainFacts(n);
    ItemsCases(f);
    ItemsCases(Num(1));
    var last, op := |items| - 1, Item(Operator('&'), Int2(-|Items(r)| - 1));
    assert items == Items(Num(1)) + Items(r) + [op];
    assert op.left == -2;
    ItemsAreLinked(r);
    LinkedValue(1);
    LinkedConcat(Items(Num(1)), Items(r));
    LinkedSnoc(Items(Num(1)) + Items(r), op);
    assert items[last - 2] == Items(r)[2 * n - 1];
    assert items[last] == op;
    WholeSegment(f);
    SegmentParts(items, last, f);
    ExecuteIsHolds(items, last - 1, r, MemberTest({2}), {2});
    NotFitting(f);
  }

  lemma {:induction false} NotFitting(f: Formula)
    requires f.And? && |Items(f.right)| > 0x7fff
    ensures !LinksFit(f)
  {
  }

  /** 1 & (2 | ... | 2) with 16385 twos: the link of the & leads past the end of the query. */
  lemma {:induction false} WrappedLinkLeadsOut(n: nat)
    requires n == 0x4000
    ensures var items := Items(And(Num(1), Chain(n)));
      |items| - 1 + items[|items| - 1].left >= |items| && !Linked(items)
  {
    hide Items;
    var f := And(Num(1), Chain(n));
    ChainFacts(n);
    ItemsCases(f);
    ItemsCases(Num(1));
    assert Items(f)[|Items(f)| - 1].left == Int2(-|Items(Chain(n))| - 1) == 0x7ffe;
  }

  /** execute over a sorted array, with binary search at the leaves. */
  method ExecuteArr(items: seq<Item>, i: nat, a: array<int>, n: nat, calcnot: bool, ghost members: set<int>) returns (b: bool)
    requires Linked(items) && i < |items| && n <= a.Length && IntTool.Sorted(a[..n])
    requires forall x :: x in members <==> x in a[..n]
    ensures b == Execute(items, i, calcnot, MemberTest(members))
    decreases i
  {
    match items[i].node {
      case Value(v) =>
        b := IntTool.Contains(a, n, v);
      case Operator(op) =>
        if op == '!' {
          if calcnot {
            var arg := ExecuteArr(items, i - 1, a, n, calcnot, members);
            b := !arg;
          } else {
            b := true;
          }
        } else {
          b := ExecuteArr(items, i + items[i].left, a, n, calcnot, members);
          if b == (op == '&') {
            b := ExecuteArr(items, i - 1, a, n, calcnot, members);
          }
        }
    }
  }

  /** boolop: the array is copied, sorted and made distinct, and the compiled query evaluated on it. */
  method BoolOp(val: seq<int>, items: seq<Item>) returns (result: bool)
    requires items != [] && Linked(items)
    ensures result == Execute(items, |items| - 1, true, MemberTest(set x | x in val))
    ensures forall f :: items == Items(f) && LinksFit(f) ==> result == Holds(f, set x | x in val)
  {
    var a := new int[|val|](k requires 0 <= k < |val| => val[k]);
    assert a[..] == val;
    ghost var members := set x | x in val;
    var n := IntTool.PrepareArr(a);
    result := ExecuteArr(items, |items| - 1, a, n, true, members);
    forall f | items == Items(f) && LinksFit(f) ensures result == Holds(f, members) {
      WholeQuery(f, members);
    }
  }

  // ---------------------------------------------------------------- signatures

  const SIGLENBIT := 63 * 32

  /** HASHVAL of a 32-bit integer taken as unsigned. */
  function HashVal(v: int): int {
    (v % 0x1_0000_0000) % SIGLENBIT
  }

  /** Numbers share a bit just if, taken as unsigned, they differ by a multiple of 2016. */
  lemma {:induction false} HashedTogether(v: int, w: int)
    requires -0x8000_0000 <= v <= 0x7fff_ffff && -0x8000_0000 <= w <= 0x7fff_ffff
    ensures 0 <= HashVal(v) < 2016
    ensures HashVal(v) == HashVal(w) <==>
      var unsigned := (x: int) => if x < 0 then x + 0x1_0000_0000 else x; (unsigned(v) - unsigned(w)) % 2016 == 0
  {
    var a, b := v % 0x1_0000_0000, w % 0x1_0000_0000;
    assert a == if v < 0 then v + 0x1_0000_0000 else v;
    assert b == if w < 0 then w + 0x1_0000_0000 else w;
    SameRemainder(a, b);
  }

  lemma {:induction false} SameRemainder(a: nat, b: nat)
    ensures a % 2016 == b % 2016 <==> (a - b) % 2016 == 0
  {
  }

  /** The bits gensign sets for an array. */
  function SignatureOf(members: set<int>): set<int> {
    set v | v in members :: HashVal(v)
  }

  /** signconsistent without negations: an inner node's signature, which has the bits of every array
      below it, never hides a match. */
  lemma {:induction false} SignatureNeverHidesMatch(f: Formula, members: set<int>, sign: set<int>)
    requires LinksFit(f) && Holds(f, members) && SignatureOf(members) <= sign
    ensures Linked(Items(f)) && Execute(Items(f), |Items(f)| - 1, false, (k, v) => HashVal(v) in sign)
  {
    hide Items, Linked, Execute, Segment;
    ItemsAreLinked(f);
    WholeSegment(f);
    var check: (int, int) -> bool := (k, v) => HashVal(v) in sign;
    assert Covers(check, members) by {
      forall k, v | v in members ensures check(k, v) { assert HashVal(v) in SignatureOf(members); }
    }
    LossyExecuteIsSound(Items(f), |Items(f)| - 1, f, check, members);
  }

  /** execconsistent on an inner key: the same for a union of arrays. */
  lemma {:induction false} UnionNeverHidesMatch(f: Formula, members: set<int>, union: set<int>)
    requires LinksFit(f) && Holds(f, members) && members <= union
    ensures Linked(Items(f)) && Execute(Items(f), |Items(f)| - 1, false, MemberTest(union))
  {
    hide Items, Linked, Execute, Segment;
    ItemsAreLinked(f);
    WholeSegment(f);
    LossyExecuteIsSound(Items(f), |Items(f)| - 1, f, MemberTest(union), members);
  }

  // ---------------------------------------------------------------- GIN

  /** The values of the VAL items, in order. */
  function Extracted(items: seq<Item>): (r: seq<int>)
    ensures |r| <= |items|
  {
    if items == [] then []
    else
      var init, last := Extracted(items[..|items| - 1]), items[|items| - 1].node;
      if last.Value? then init + [last.v] else init
  }

  lemma {:induction false} ExtractedSnoc(items: seq<Item>, k: nat)
    requires k < |items|
    ensures Extracted(items[..k + 1]) ==
            if items[k].node.Value? then Extracted(items[..k]) + [items[k].node.v] else Extracted(items[..k])
  {
    assert items[..k + 1][..k] == items[..k];
  }

  lemma {:induction false} ExtractedPrefix(items: seq<Item>, k: nat, n: nat)
    requires k <= n <= |items|
    ensures Extracted(items[..k]) <= Extracted(items[..n])
    decreases n - k
  {
    if k < n {
      ExtractedSnoc(items, n - 1);
      ExtractedPrefix(items, k, n - 1);
    }
  }

  lemma {:induction false} ExtractedConcat(a: seq<Item>, b: seq<Item>)
    ensures Extracted(a + b) == Extracted(a) + Extracted(b)
    decreases |b|
  {
    if b == [] {
      assert a + b == a;
    } else {
      assert (a + b)[..|a + b| - 1] == a + b[..|b| - 1];
      ExtractedConcat(a, b[..|b| - 1]);
    }
  }

  lemma {:induction false} ExtractedAreValues(f: Formula)
    ensures forall v :: v in Values(f) <==> v in Extracted(Items(f))
  {
    hide Items;
    ItemsCases(f);
    if f.Not? {
      ExtractedAreValues(f.arg);
      ExtractedConcat(Items(f.arg), [Item(OperatorOf(f), -1)]);
    } else if !f.Num? {
      ExtractedAreValues(f.left);
      ExtractedAreValues(f.right);
      ExtractedConcat(Items(f.left), Items(f.right));
      ExtractedConcat(Items(f.left) + Items(f.right), [Item(OperatorOf(f), Int2(-|Items(f.right)| - 1))]);
    }
  }

  datatype SearchMode = SearchDefault | SearchAll

  /** ginint4_queryextract, boolean strategy. */
  method QueryExtract(items: seq<Item>) returns (entries: seq<int>, mode: SearchMode)
    requires Linked(items)
    ensures entries == Extracted(items)
    ensures mode == SearchAll <==> items != [] && !ContainsRequiredValue(items, |items| - 1)
  {
    entries, mode := [], SearchDefault;
    if items == [] { return; }
    if !ContainsRequiredValue(items, |items| - 1) { mode := SearchAll; }
    for i := 0 to |items|
      invariant entries == Extracted(items[..i])
    {
      ExtractedSnoc(items, i);
      if items[i].node.Value? { entries := entries + [items[i].node.v]; }
    }
    assert items[..|items|] == items;
  }

  /** Each extracted value is marked present exactly when the array has it. */
  ghost predicate TellsPresence(items: seq<Item>, check: seq<bool>, members: set<int>) {
    |check| == |Extracted(items)| && forall j :: 0 <= j < |check| ==> (check[j] <==> Extracted(items)[j] in members)
  }

  /** gin_bool_consistent: exact, given the presence of the extracted values. */
  method GinBoolConsistent(items: seq<Item>, check: seq<bool>) returns (result: bool)
    requires Linked(items) && |check| == |Extracted(items)|
    ensures items == [] ==> !result
    ensures forall f, members :: items == Items(f) && LinksFit(f) && TellsPresence(items, check, members) ==>
              result == Holds(f, members)
  {
    if items == [] { return false; }
    hide Extracted, Items, Linked, Segment, Execute, TellsPresence;
    var mapped := MapCheck(items, check);
    var test: (int, int) -> bool := (k, v) => 0 <= k < |mapped| && mapped[k];
    result := Execute(items, |items| - 1, true, test);
    forall f, members | items == Items(f) && LinksFit(f) && TellsPresence(items, check, members)
      ensures result == Holds(f, members)
    {
      WholeSegment(f);
      MappedDecides(items, check, mapped, members);
      ExecuteIsHolds(items, |items| - 1, f, test, members);
    }
  }

  /** The marks belonging to the values extracted from each item. */
  ghost predicate IsMapped(items: seq<Item>, check: seq<bool>, mapped: seq<bool>) {
    |mapped| == |items| &&
    forall k :: 0 <= k < |items| && items[k].node.Value? ==>
      |Extracted(items[..k])| < |check| && mapped[k] == check[|Extracted(items[..k])|]
  }

  lemma {:induction false} ExtractedAt(items: seq<Item>, k: nat)
    requires k < |items| && items[k].node.Value?
    ensures |Extracted(items[..k])| < |Extracted(items)| && Extracted(items)[|Extracted(items[..k])|] == items[k].node.v
  {
    hide Extracted;
    ExtractedSnoc(items, k);
    ExtractedPrefix(items, k + 1, |items|);
    assert items[..|items|] == items;
  }

  lemma {:induction false} MappedDecides(items: seq<Item>, check: seq<bool>, mapped: seq<bool>, members: set<int>)
    requires IsMapped(items, check, mapped) && TellsPresence(items, check, members)
    ensures forall k :: 0 <= k < |items| && items[k].node.Value? ==> (mapped[k] <==> items[k].node.v in members)
  {
    hide Extracted;
    forall k | 0 <= k < |items| && items[k].node.Value?
      ensures mapped[k] <==> items[k].node.v in members
    {
      ExtractedAt(items, k);
    }
  }

  /** The mapping loop: item k gets the mark of the value extracted from it. */
  method MapCheck(items: seq<Item>, check: seq<bool>) returns (mapped: seq<bool>)
    requires |check| == |Extracted(items)|
    ensures IsMapped(items, check, mapped)
  {
    hide Extracted;
    var buf := new bool[|items|];
    var j := 0;
    assert Extracted(items[..0]) == [] by { ExtractedNone(items); }
    for i := 0 to |items|
      invariant j == |Extracted(items[..i])|
      invariant forall k :: 0 <= k < i && items[k].node.Value? ==>
                  |Extracted(items[..k])| < |check| && buf[k] == check[|Extracted(items[..k])|]
    {
      ExtractedSnoc(items, i);
      if items[i].node.Value? {
        ExtractedAt(items, i);
        buf[i] := check[j];
        j := j + 1;
      }
    }
    mapped := buf[..];
  }

  lemma {:induction false} ExtractedNone(items: seq<Item>)
    ensures Extracted(items[..0]) == []
  {
  }

  /** In the default search mode the index only visits arrays with some extracted value, and loses nothing. */
  lemma {:induction false} DefaultModeLosesNothing(f: Formula, members: set<int>)
    requires LinksFit(f) && Holds(f, members)
    ensures Linked(Items(f))
    ensures ContainsRequiredValue(Items(f), |Items(f)| - 1) ==> exists v :: v in Extracted(Items(f)) && v in members
  {
    hide Items, Linked, ContainsRequiredValue, Segment;
    ItemsAreLinked(f);
    if ContainsRequiredValue(Items(f), |Items(f)| - 1) {
      WholeSegment(f);
      RequiredValueIsRequired(Items(f), |Items(f)| - 1, f, members);
      ExtractedAreValues(f);
      var v :| v in Values(f) && v in members;
      assert v in Extracted(Items(f));
    }
  }
}
