/** No cover of a long array by 100 ranges is smaller than the one that closes its smallest gaps. */
module RangeCover {
  import opened Alloc
  import opened IntTool
  import opened IntRanges

  /** The integers from lo up to hi, without hi. */
  ghost function Interval(lo: int, hi: int): (s: set<int>)
    ensures forall x :: x in s <==> lo <= x < hi
    ensures |s| == if lo < hi then hi - lo else 0
    decreases hi - lo
  {
    if lo >= hi then {} else {lo} + Interval(lo + 1, hi)
  }

  ghost predicate Outside(a: seq<int>, open: set<int>, x: int)
    requires open <= Interval(1, |a|)
  {
    forall g :: g in open ==> !Inside(a, g, x)
  }

  /** The integers in the span of a outside the gaps in open. */
  ghost function Hull(a: seq<int>, open: set<int>): set<int>
    requires a != [] && open <= Interval(1, |a|)
  {
    set x | x in Interval(a[0], a[|a| - 1] + 1) && Outside(a, open, x)
  }

  lemma {:induction false} InnerIsInHull(a: seq<int>, open: set<int>, g: int, x: int)
    requires StrictlyIncreasing(a) && a != [] && open <= Interval(1, |a|) && 0 < g < |a| && g !in open && Inside(a, g, x)
    ensures x in Hull(a, open)
  {
    assert a[0] <= a[g - 1] && a[g] <= a[|a| - 1];
    forall k | k in open ensures !Inside(a, k, x) {
      if k < g { assert a[k] <= a[g - 1]; } else { assert a[g] <= a[k - 1]; }
    }
    assert x in Interval(a[0], a[|a| - 1] + 1) && Outside(a, open, x);
  }

  /** Opening one more gap takes its inner integers out. */
  lemma {:induction false} HullOpens(a: seq<int>, open: set<int>, g: int)
    requires StrictlyIncreasing(a) && a != [] && open <= Interval(1, |a|) && 0 < g < |a| && g !in open
    ensures |Hull(a, open)| == |Hull(a, open + {g})| + Gap(a, g) - 1
  {
    var h, h', inner := Hull(a, open), Hull(a, open + {g}), Interval(a[g - 1] + 1, a[g]);
    forall x | x in inner ensures x in h { InnerIsInHull(a, open, g, x); }
    forall x | x in h && x !in inner ensures x in h' {
      assert !Inside(a, g, x);
    }
    forall x | x in h' ensures x !in inner {
      assert g in open + {g};
    }
    assert h == h' + inner;
  }

  /** Of sets of gaps no larger than it, one that holds the widest gaps leaves the smallest hull. */
  lemma {:induction false} WidestGapsLeaveLeast(a: seq<int>, best: set<int>, other: set<int>)
    requires StrictlyIncreasing(a) && a != [] && best <= Interval(1, |a|) && other <= Interval(1, |a|)
    requires forall c, g :: 0 < c < |a| && c !in best && g in best ==> Gap(a, c) <= Gap(a, g)
    requires |other| <= |best|
    ensures |Hull(a, best)| <= |Hull(a, other)|
    decreases |other - best|
  {
    if other <= best {
      assert Hull(a, best) <= Hull(a, other);
      Smaller(Hull(a, best), Hull(a, other));
    } else {
      var h :| h in other && h !in best;
      if best <= other { assert best <= other - {h}; Smaller(best, other - {h}); assert false; }
      var g :| g in best && g !in other;
      var less := other - {h};
      var swapped := less + {g};
      assert other == less + {h};
      HullOpens(a, less, h);
      HullOpens(a, less, g);
      assert swapped - best == (other - best) - {h};
      WidestGapsLeaveLeast(a, best, swapped);
    }
  }

  lemma {:induction false} Smaller<T>(a: set<T>, b: set<T>)
    requires a <= b
    ensures |a| <= |b|
  {
    if a != {} {
      var x :| x in a;
      Smaller(a - {x}, b - {x});
    }
  }

  // ---------------------------------------------------------------- any cover

  /** x lies in one of the intervals of c, given by their ends. */
  ghost predicate Covered(c: seq<(int, int)>, x: int) {
    exists k :: 0 <= k < |c| && c[k].0 <= x <= c[k].1
  }

  ghost predicate IsCover(c: seq<(int, int)>, a: seq<int>) {
    forall i :: 0 <= i < |a| ==> Covered(c, a[i])
  }

  /** All the integers in the intervals. */
  ghost function Points(c: seq<(int, int)>): set<int> {
    if c == [] then {} else Points(c[1..]) + Interval(c[0].0, c[0].1 + 1)
  }

  lemma {:induction false} PointsAreCovered(c: seq<(int, int)>, x: int)
    ensures x in Points(c) <==> Covered(c, x)
  {
    if c != [] {
      PointsAreCovered(c[1..], x);
      if Covered(c, x) {
        var k :| 0 <= k < |c| && c[k].0 <= x <= c[k].1;
        if k > 0 { assert c[1..][k - 1] == c[k]; }
      }
      if Covered(c[1..], x) {
        var k :| 0 <= k < |c[1..]| && c[1..][k].0 <= x <= c[1..][k].1;
        assert c[k + 1] == c[1..][k];
      }
      assert c[0].0 <= x <= c[0].1 ==> Covered(c, x);
    }
  }

  /** The gaps that a cover leaves a hole in. */
  ghost function Holes(c: seq<(int, int)>, a: seq<int>): (s: set<int>)
    ensures s <= Interval(1, |a|)
  {
    set g | g in Interval(1, |a|) && exists x :: Inside(a, g, x) && !Covered(c, x)
  }

  ghost function Covering(c: seq<(int, int)>, a: seq<int>, i: int): (k: int)
    requires IsCover(c, a) && 0 <= i < |a|
    ensures 0 <= k < |c| && c[k].0 <= a[i] <= c[k].1
  {
    var k :| 0 <= k < |c| && c[k].0 <= a[i] <= c[k].1; k
  }

  /** The interval that covers the element after a hole covers none before it. */
  lemma {:induction false} HolesPart(c: seq<(int, int)>, a: seq<int>, i: int, g: int)
    requires StrictlyIncreasing(a) && IsCover(c, a) && 0 <= i < g && g in Holes(c, a)
    ensures g < |a| && Covering(c, a, i) != Covering(c, a, g)
  {
    var x :| Inside(a, g, x) && !Covered(c, x);
    assert a[i] <= a[g - 1];
    if Covering(c, a, i) == Covering(c, a, g) { assert false; }
  }

  lemma {:induction false} ImageSize(s: set<int>, c: seq<(int, int)>, a: seq<int>, used: set<int>)
    requires IsCover(c, a) && s <= Interval(0, |a|) && used <= Interval(0, |c|)
    requires forall i :: i in s ==> Covering(c, a, i) !in used
    requires forall i, j :: i in s && j in s && i < j ==> Covering(c, a, i) != Covering(c, a, j)
    ensures |s| + |used| <= |c|
    decreases |s|
  {
    if s == {} {
      Smaller(used, Interval(0, |c|));
    } else {
      var i :| i in s;
      var k := Covering(c, a, i);
      forall j | j in s && j != i ensures Covering(c, a, j) != k { assert j < i || i < j; }
      ImageSize(s - {i}, c, a, used + {k});
    }
  }

  /** A cover has more intervals than it leaves holes. */
  lemma {:induction false} FewerHolesThanIntervals(c: seq<(int, int)>, a: seq<int>)
    requires StrictlyIncreasing(a) && a != [] && IsCover(c, a)
    ensures |Holes(c, a)| < |c|
  {
    var s := Holes(c, a) + {0};
    forall i, j | i in s && j in s && i < j ensures Covering(c, a, i) != Covering(c, a, j) {
      HolesPart(c, a, i, j);
    }
    ImageSize(s, c, a, {});
  }

  lemma {:induction false} HullIsCovered(c: seq<(int, int)>, a: seq<int>)
    requires StrictlyIncreasing(a) && a != [] && IsCover(c, a)
    ensures Hull(a, Holes(c, a)) <= Points(c)
  {
    forall x | x in Hull(a, Holes(c, a)) ensures x in Points(c) {
      PointsAreCovered(c, x);
      var g := Above(a, x, |a| - 1);
      if g > 0 && x != a[g] { assert Inside(a, g, x); assert g !in Holes(c, a); }
    }
  }

  /** The first element that is not below x. */
  lemma {:induction false} Above(a: seq<int>, x: int, n: nat) returns (g: nat)
    requires n < |a| && a[0] <= x <= a[n]
    ensures g <= n && x <= a[g] && (g > 0 ==> a[g - 1] < x) && (g == 0 ==> x == a[0])
  {
    if n > 0 && x <= a[n - 1] { g := Above(a, x, n - 1); } else { g := n; }
  }

  lemma {:induction false} DistinctSize(s: seq<int>)
    requires StrictlyIncreasing(s)
    ensures |set x | x in s| == |s|
  {
    if s != [] {
      var init, last := s[..|s| - 1], s[|s| - 1];
      DistinctSize(init);
      assert (set x | x in s) == (set x | x in init) + {last};
    }
  }

  /** The ranges of a greedy choice of open gaps hold no more integers than any cover of the array with as
      many intervals. */
  lemma {:induction false} GreedyIsSmallestCover(a: seq<int>, open: seq<int>, d: seq<int>, c: seq<(int, int)>)
    requires StrictlyIncreasing(a) && Laid(a, open, d) && Greedy(a, open)
    requires IsCover(c, a) && |c| <= |open| + 1
    ensures |Expand(d)| <= |Points(c)|
  {
    hide Laid, Expand, Points, Holes, Greedy, AreRanges, Kept, StrictlyIncreasing, Hull, IsCover;
    LaidGaps(a, open, d);
    LaidSize(a, open, d);
    var best := set g | g in open;
    GreedySet(a, open, best);
    FewerHolesThanIntervals(c, a);
    WidestGapsLeaveLeast(a, best, Holes(c, a));
    HullIsCovered(c, a);
    Smaller(Hull(a, Holes(c, a)), Points(c));
  }

  lemma {:induction false} HullIsKept(a: seq<int>, open: seq<int>, x: int)
    requires a != [] && AreGaps(a, open) && (set g | g in open) <= Interval(1, |a|)
    ensures x in Hull(a, set g | g in open) <==> Kept(a, open, x)
  {
    var best := set g | g in open;
    if Kept(a, open, x) {
      forall g | g in best ensures !Inside(a, g, x) { var j :| 0 <= j < |open| && open[j] == g; }
      assert x in Interval(a[0], a[|a| - 1] + 1) && Outside(a, best, x);
    }
    if x in Hull(a, best) {
      forall j | 0 <= j < |open| ensures !Inside(a, open[j], x) { assert open[j] in best; }
    }
  }

  /** The ranges hold as many integers as the hull of their open gaps. */
  lemma {:induction false} LaidSize(a: seq<int>, open: seq<int>, d: seq<int>)
    requires StrictlyIncreasing(a) && Laid(a, open, d)
    ensures a != [] && (set g | g in open) <= Interval(1, |a|) && |set g | g in open| == |open|
    ensures |Expand(d)| == |Hull(a, set g | g in open)|
  {
    var best := set g | g in open;
    assert best <= Interval(1, |a|);
    ExpandedKeepsElements(a, open, d);
    hide Laid, Expand, AreRanges;
    DistinctSize(Expand(d));
    DistinctSize(open);
    hide Kept, Hull, StrictlyIncreasing;
    forall x ensures x in Hull(a, best) <==> Kept(a, open, x) { HullIsKept(a, open, x); }
    assert (set x | x in Expand(d)) == Hull(a, best);
  }

  lemma {:induction false} GreedySet(a: seq<int>, open: seq<int>, best: set<int>)
    requires AreGaps(a, open) && Greedy(a, open) && best == set g | g in open
    ensures forall c, g :: 0 < c < |a| && c !in best && g in best ==> Gap(a, c) <= Gap(a, g)
  {
  }

  // ---------------------------------------------------------------- the converse

  lemma {:induction false} Some<T>(s: set<T>) returns (x: T)
    requires s != {}
    ensures x in s
  {
    x :| x in s;
  }

  lemma {:induction false} InOrder(s: set<int>) returns (q: seq<int>)
    ensures StrictlyIncreasing(q) && |q| == |s| && forall x :: x in q <==> x in s
    decreases |s|
  {
    if s == {} {
      q := [];
    } else {
      var m := Some(s);
      var rest := InOrder(s - {m});
      q := Inserted(rest, m);
    }
  }

  lemma {:induction false} Inserted(q: seq<int>, m: int) returns (r: seq<int>)
    requires StrictlyIncreasing(q) && m !in q
    ensures StrictlyIncreasing(r) && |r| == |q| + 1 && forall x :: x in r <==> x in q || x == m
  {
    if q == [] || q[|q| - 1] < m {
      r := q + [m];
    } else {
      var init, last := q[..|q| - 1], q[|q| - 1];
      var small := Inserted(init, m);
      assert q == init + [last];
      r := small + [last];
      assert forall i :: 0 <= i < |small| ==> small[i] in small;
    }
  }

  /** The ends of the ranges between the open gaps. */
  ghost function Ends(a: seq<int>, open: seq<int>): seq<int>
    requires a != [] && AreGaps(a, open)
  {
    seq(2 * |open| + 2, i requires 0 <= i < 2 * |open| + 2 =>
      if i % 2 == 0 then a[if i == 0 then 0 else open[i / 2 - 1]]
      else a[if i / 2 == |open| then |a| - 1 else open[i / 2] - 1])
  }

  lemma {:induction false} EndsAreLaid(a: seq<int>, open: seq<int>)
    requires a != [] && AreGaps(a, open)
    ensures Laid(a, open, Ends(a, open))
  {
    var d := Ends(a, open);
    forall j | 0 <= j < |open| ensures d[2 * j + 1] == a[open[j] - 1] && d[2 * j + 2] == a[open[j]] {
      assert (2 * j + 1) / 2 == j && (2 * j + 2) / 2 == j + 1;
    }
  }

  ghost function Intervals(d: seq<int>): seq<(int, int)>
    requires |d| % 2 == 0
  {
    seq(|d| / 2, k requires 0 <= k < |d| / 2 => (d[2 * k], d[2 * k + 1]))
  }

  lemma {:induction false} IntervalsCover(d: seq<int>, x: int)
    requires |d| % 2 == 0
    ensures Covered(Intervals(d), x) <==> InSomeRange(d, x)
  {
    var c := Intervals(d);
    if InSomeRange(d, x) {
      var i :| 0 <= i < |d| - 1 && i % 2 == 0 && d[i] <= x <= d[i + 1];
      assert c[i / 2] == (d[i], d[i + 1]);
    }
    if Covered(c, x) {
      var k :| 0 <= k < |c| && c[k].0 <= x <= c[k].1;
      assert (2 * k) % 2 == 0 && d[2 * k] <= x <= d[2 * k + 1];
    }
  }

  lemma {:induction false} CoverOfGaps(a: seq<int>, q: seq<int>) returns (c: seq<(int, int)>)
    requires StrictlyIncreasing(a) && a != [] && AreGaps(a, q)
    ensures |c| == |q| + 1 && forall x :: Covered(c, x) <==> Kept(a, q, x)
  {
    hide Ends, AreGaps, StrictlyIncreasing, InSomeRange, Kept, Covered, Laid;
    EndsAreLaid(a, q);
    var d := Ends(a, q);
    var n := LaidLength(a, q, d);
    c := Intervals(d);
    forall x ensures Covered(c, x) <==> Kept(a, q, x) {
      IntervalsCover(d, x);
      LaidRangesHold(a, q, d, x);
    }
  }

  /** Any choice of open gaps is a cover of that many intervals and one more, as large as its hull. */
  lemma {:induction false} HullHasCover(a: seq<int>, open: set<int>) returns (c: seq<(int, int)>)
    requires StrictlyIncreasing(a) && a != [] && open <= Interval(1, |a|)
    ensures IsCover(c, a) && |c| == |open| + 1 && |Points(c)| == |Hull(a, open)|
  {
    var q := InOrder(open);
    assert forall j :: 0 <= j < |q| ==> q[j] in open;
    assert AreGaps(a, q);
    assert open == set g | g in q;
    hide AreGaps, StrictlyIncreasing, Kept, Hull, Covered, Points;
    c := CoverOfGaps(a, q);
    forall x ensures x in Points(c) <==> x in Hull(a, open) {
      PointsAreCovered(c, x);
      HullIsKept(a, q, x);
    }
    assert Points(c) == Hull(a, open);
    forall i | 0 <= i < |a| ensures Covered(c, a[i]) { ElementsAreKept(a, q, i); }
  }

  lemma {:induction false} LaidLength(a: seq<int>, open: seq<int>, d: seq<int>) returns (n: nat)
    requires Laid(a, open, d)
    ensures n == |open| + 1 && |d| == 2 * n && |d| % 2 == 0 && |d| / 2 == n
  {
    n := |open| + 1;
  }

  /** A closed gap wider than an open one: trading them gives a smaller cover. */
  lemma {:induction false} TradeGaps(a: seq<int>, best: set<int>, h: int, g: int) returns (c: seq<(int, int)>)
    requires StrictlyIncreasing(a) && a != [] && best <= Interval(1, |a|)
    requires g in best && 0 < h < |a| && h !in best && Gap(a, h) > Gap(a, g)
    ensures IsCover(c, a) && |c| == |best| + 1 && |Points(c)| < |Hull(a, best)|
  {
    hide Hull, StrictlyIncreasing, Points, IsCover;
    var less := best - {g};
    assert best == less + {g};
    HullOpens(a, less, g);
    HullOpens(a, less, h);
    c := HullHasCover(a, less + {h});
  }

  /** No cover of a with up to n intervals has fewer integers than values. */
  ghost predicate IsSmallestCover(a: seq<int>, values: seq<int>, n: nat) {
    forall c :: IsCover(c, a) && |c| <= n ==> |values| <= |Points(c)|
  }

  /** The ranges are a smallest cover exactly when every closed gap is no wider than every open one. */
  lemma {:induction false} SmallestExactlyIfGreedy(a: seq<int>, open: seq<int>, d: seq<int>)
    requires StrictlyIncreasing(a) && Laid(a, open, d)
    ensures AreGaps(a, open) && (IsSmallestCover(a, Expand(d), |open| + 1) <==> Greedy(a, open))
  {
    LaidGaps(a, open, d);
    if Greedy(a, open) {
      forall c | IsCover(c, a) && |c| <= |open| + 1 ensures |Expand(d)| <= |Points(c)| {
        GreedyIsSmallestCover(a, open, d, c);
      }
    } else {
      var h, j :| 0 < h < |a| && h !in open && 0 <= j < |open| && Gap(a, h) > Gap(a, open[j]);
      hide Laid, Expand, Points, StrictlyIncreasing, Hull, IsCover;
      LaidSize(a, open, d);
      var c := TradeGaps(a, (set g | g in open), h, open[j]);
    }
  }

  /** A closed gap over the 32-bit range fills the ranges with that many integers. */
  lemma {:induction false} WideClosedIsLarge(a: seq<int>, open: seq<int>, d: seq<int>, g: int)
    requires StrictlyIncreasing(a) && Laid(a, open, d) && 0 < g < |a| && g !in open && Gap(a, g) > INT_MAX
    ensures |Expand(d)| >= INT_MAX
  {
    hide Laid, Expand, StrictlyIncreasing, Hull;
    LaidSize(a, open, d);
    var best, inner := (set j | j in open), Interval(a[g - 1] + 1, a[g]);
    forall x | x in inner ensures x in Hull(a, best) { InnerIsInHull(a, best, g, x); }
    Smaller(inner, Hull(a, best));
  }

  /** Some cover with up to 100 intervals has few enough integers to be allocated. */
  ghost predicate SomeCoverFits(a: seq<int>) {
    exists c :: IsCover(c, a) && |c| <= 100 && 24 + 4 * |Points(c)| <= MAX_ALLOC
  }

  /** The ranges can be expanded exactly when all gaps fit 32 bits and some cover can be allocated. */
  lemma {:induction false} ExpansionFits(a: seq<int>, open: seq<int>, d: seq<int>)
    requires StrictlyIncreasing(a) && Laid(a, open, d) && AreGaps(a, open) && |open| == MAXNUMRANGE - 1 < |a| - 1
    requires (Greedy(a, open) <==> GapsFit(a)) && WideClosed(a, open)
    ensures ARR_OVERHEAD + 4 * |Expand(d)| <= MAX_ALLOC <==> GapsFit(a) && SomeCoverFits(a)
    ensures GapsFit(a) ==> IsSmallestCover(a, Expand(d), MAXNUMRANGE)
  {
    SmallestExactlyIfGreedy(a, open, d);
    if ARR_OVERHEAD + 4 * |Expand(d)| <= MAX_ALLOC {
      if !GapsFit(a) {
        var g :| 0 < g < |a| && Gap(a, g) > INT_MAX;
        WideClosedIsLarge(a, open, d, g);
      }
      hide Laid, Expand, StrictlyIncreasing, Hull, IsCover, Points;
      LaidSize(a, open, d);
      var c := HullHasCover(a, (set j | j in open));
    }
    if GapsFit(a) && SomeCoverFits(a) {
      hide Laid, Expand, StrictlyIncreasing, Hull, IsCover, Points;
      var c :| IsCover(c, a) && |c| <= MAXNUMRANGE && ARR_OVERHEAD + 4 * |Points(c)| <= MAX_ALLOC;
    }
  }

  /** What an inner key of a sorted array without duplicates reads back as. A long one reads back if it can be
      doubled, does not end at INT_MAX, has no gap over the 32-bit range and can be covered within the allocation
      limit; then it reads back as a smallest cover. */
  method CompressThenDecompress(r: seq<int>) returns (d: Decompressed)
    requires StrictlyIncreasing(r) && Int32Values(r) && IsArray(r)
    ensures |r| < 200 ==> d == Values(r)
    ensures |r| >= 200 ==>
              (d.Values? <==> 24 + 8 * |r| <= MAX_ALLOC && r[|r| - 1] < INT_MAX && GapsFit(r) && SomeCoverFits(r))
    ensures |r| >= 200 && d.Values? ==>
              && StrictlyIncreasing(d.values) && (forall x :: x in r ==> x in d.values)
              && IsSmallestCover(r, d.values, 100)
  {
    hide Laid, Greedy, GapsFit, StrictlyIncreasing, IsSmallestCover, AreRanges, Expand, SomeCoverFits, WideClosed;
    var out, open := GIntCompress(r);
    if out == NoRoom { return AllocError; }
    if |r| >= 2 * MAXNUMRANGE {
      LaidGaps(r, open, out.key);
      ExpandedKeepsElements(r, open, out.key);
      ExpansionFits(r, open, out.key);
      LaidInRange(r, open, out.key);
    }
    d := GIntDecompress(out.key);
  }

  lemma {:induction false} LaidInRange(a: seq<int>, open: seq<int>, d: seq<int>)
    requires Laid(a, open, d) && Int32Values(a)
    ensures Int32Values(d) && |d| == 2 * |open| + 2 && d[|d| - 1] == a[|a| - 1]
  {
    forall i | 0 <= i < |d| ensures INT_MIN <= d[i] <= INT_MAX {
      LaidEnds(a, open, d, i / 2);
      assert i == 2 * (i / 2) || i == 2 * (i / 2) + 1;
    }
  }

  // ---------------------------------------------------------------- arrays that do not read back

  ghost predicate EvenGaps(a: seq<int>, gap: nat) {
    a != [] && forall g :: 0 < g < |a| ==> Gap(a, g) == gap
  }

  lemma {:induction false} EvenSpan(a: seq<int>, gap: nat, n: nat)
    requires EvenGaps(a, gap) && n < |a|
    ensures a[n] - a[0] == n * gap
  {
    if n > 0 {
      EvenSpan(a, gap, n - 1);
      assert Gap(a, n) == gap;
    }
  }

  lemma {:induction false} WholeHull(a: seq<int>)
    requires StrictlyIncreasing(a) && a != []
    ensures |Hull(a, {})| == a[|a| - 1] - a[0] + 1
  {
    assert Hull(a, {}) == Interval(a[0], a[|a| - 1] + 1);
    assert a[0] <= a[|a| - 1];
  }

  lemma {:induction false} EvenHull(a: seq<int>, gap: nat, open: set<int>)
    requires StrictlyIncreasing(a) && EvenGaps(a, gap) && open <= Interval(1, |a|)
    ensures |Hull(a, open)| == (|a| - 1) * gap + 1 - |open| * (gap - 1)
  {
    hide Hull, StrictlyIncreasing, Interval;
    if open == {} {
      EvenSpan(a, gap, |a| - 1);
      WholeHull(a);
    } else {
      var g := Some(open);
      var less := open - {g};
      EvenHull(a, gap, less);
      assert g in Interval(1, |a|);
      HullOpens(a, less, g);
      assert less + {g} == open;
      OneMore(|less|, gap - 1);
    }
  }

  lemma {:induction false} OneMore(n: int, x: int)
    ensures (n + 1) * x == n * x + x
  {
  }

  /** What any cover of an evenly spaced array must hold. */
  lemma {:induction false} EvenCover(a: seq<int>, gap: nat, c: seq<(int, int)>)
    requires StrictlyIncreasing(a) && EvenGaps(a, gap) && gap > 0 && IsCover(c, a)
    ensures |Points(c)| >= (|a| - |c|) * gap + |c|
  {
    hide Hull, Points, Holes;
    FewerHolesThanIntervals(c, a);
    HullIsCovered(c, a);
    Smaller(Hull(a, Holes(c, a)), Points(c));
    EvenHull(a, gap, Holes(c, a));
    ManyHoles(|a|, |c|, gap, |Holes(c, a)|);
  }

  lemma {:induction false} ManyHoles(n: nat, c: nat, gap: nat, holes: nat)
    requires holes < c && gap > 0
    ensures (n - 1) * gap + 1 - holes * (gap - 1) >= (n - c) * gap + c
  {
    assert holes * (gap - 1) <= (c - 1) * (gap - 1);
  }

  const SPARSE := seq(200, k => INT_MIN + 21_000_000 * k)

  /** 200 values all over the 32-bit range: every gap fits, but no cover by 100 intervals can be allocated. */
  lemma {:induction false} SparseExample()
    ensures StrictlyIncreasing(SPARSE) && Int32Values(SPARSE) && IsArray(SPARSE) && GapsFit(SPARSE)
    ensures SPARSE[|SPARSE| - 1] < INT_MAX && ARR_OVERHEAD + 8 * |SPARSE| <= MAX_ALLOC && !SomeCoverFits(SPARSE)
  {
    assert EvenGaps(SPARSE, 21_000_000);
    forall c | IsCover(c, SPARSE) && |c| <= MAXNUMRANGE ensures ARR_OVERHEAD + 4 * |Points(c)| > MAX_ALLOC {
      EvenCover(SPARSE, 21_000_000, c);
    }
  }

  const WIDE := seq(200, k => if k < 100 then INT_MIN + k else k)

  /** Two runs of 100 values with a gap over the 32-bit range between them: two intervals cover them with 200
      integers, but the gap is the first to be closed. */
  lemma {:induction false} WideExample()
    ensures StrictlyIncreasing(WIDE) && Int32Values(WIDE) && IsArray(WIDE) && !GapsFit(WIDE)
    ensures WIDE[|WIDE| - 1] < INT_MAX && ARR_OVERHEAD + 8 * |WIDE| <= MAX_ALLOC && SomeCoverFits(WIDE)
  {
    WideIsIncreasing();
    WideHasGap();
    WideCoverFits();
    hide StrictlyIncreasing, SomeCoverFits, GapsFit;
  }

  lemma {:induction false} WideIsIncreasing()
    ensures StrictlyIncreasing(WIDE)
  {
  }

  lemma {:induction false} WideHasGap()
    ensures |WIDE| == 200 && !GapsFit(WIDE)
  {
    assert Gap(WIDE, 100) > INT_MAX;
  }

  lemma {:induction false} WideCoverFits()
    ensures SomeCoverFits(WIDE)
  {
    hide Points, IsCover;
    WideCover();
    PointsOfTwo((INT_MIN, INT_MIN + 99), (100, 199));
  }

  lemma {:induction false} WideCover()
    ensures IsCover([(INT_MIN, INT_MIN + 99), (100, 199)], WIDE)
  {
    var c := [(INT_MIN, INT_MIN + 99), (100, 199)];
    forall i | 0 <= i < |WIDE| ensures Covered(c, WIDE[i]) {
      if i < 100 { assert c[0].0 <= WIDE[i] <= c[0].1; } else { assert c[1].0 <= WIDE[i] <= c[1].1; }
    }
  }

  lemma {:induction false} PointsFirst(c: seq<(int, int)>)
    requires c != [] && c[0].0 <= c[0].1 + 1
    ensures |Points(c)| <= |Points(c[1..])| + (c[0].1 + 1 - c[0].0)
  {
    var p, q := Points(c[1..]), Interval(c[0].0, c[0].1 + 1);
    hide Interval;
    assert Points(c) == p + q;
    assert |p + q| == |p| + |q| - |p * q|;
  }

  lemma {:induction false} PointsOfTwo(x: (int, int), y: (int, int))
    requires x.0 <= x.1 + 1 && y.0 <= y.1 + 1
    ensures |Points([x, y])| <= (x.1 + 1 - x.0) + (y.1 + 1 - y.0)
  {
    assert Points([]) == {};
    hide Points;
    assert [x, y][1..] == [y] && [y][1..] == [];
    PointsFirst([x, y]);
    PointsFirst([y]);
  }
}
