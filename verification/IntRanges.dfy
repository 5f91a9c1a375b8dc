/** Inner keys of contrib/intarray/_int_gist.c: a long sorted array kept as 100 ranges, by closing its
    smallest gaps. */
module IntRanges {
  import opened Alloc
  import opened IntTool

  const MAXNUMRANGE := 100
  const ARR_OVERHEAD := 24

  ghost predicate Int32Values(a: seq<int>) {
    forall i :: 0 <= i < |a| ==> INT_MIN <= a[i] <= INT_MAX
  }

  /** The bytes that room for num elements asks for, in 32 bits. */
  function ArrayBytes(num: int): int {
    Int32(ARR_OVERHEAD + 4 * num)
  }

  /** An array that exists has itself been allocated. */
  predicate IsArray(a: seq<int>) {
    ARR_OVERHEAD + 4 * |a| <= MAX_ALLOC
  }

  /** Gap g lies between elements g - 1 and g. */
  function Gap(a: seq<int>, g: int): int
    requires 0 < g < |a|
  {
    a[g] - a[g - 1]
  }

  /** Gaps left open, in ascending order. */
  ghost predicate AreGaps(a: seq<int>, open: seq<int>) {
    && (forall j :: 0 <= j < |open| ==> 0 < open[j] < |a|)
    && forall i, j :: 0 <= i < j < |open| ==> open[i] < open[j]
  }

  /** d lists the ends of the ranges that the open gaps divide a into. */
  ghost predicate Laid(a: seq<int>, open: seq<int>, d: seq<int>) {
    && a != [] && AreGaps(a, open) && |d| == 2 * |open| + 2
    && d[0] == a[0] && d[|d| - 1] == a[|a| - 1]
    && forall j :: 0 <= j < |open| ==> d[2 * j + 1] == a[open[j] - 1] && d[2 * j + 2] == a[open[j]]
  }

  /** The gap computed by the scan at an even position. */
  function ScannedGap(d: seq<int>, i: int): int
    requires 0 < i < |d|
  {
    Int32(d[i] - d[i - 1])
  }

  ghost predicate IsCandidate(d: seq<int>, cand: int) {
    && 2 <= cand < |d| && cand % 2 == 0
    && forall i :: 2 <= i < |d| && i % 2 == 0 ==> ScannedGap(d, cand) <= ScannedGap(d, i)
  }

  /** Taking out the two ends at cand joins the ranges there. */
  function Joined(d: seq<int>, cand: int): seq<int>
    requires 2 <= cand < |d|
  {
    d[..cand - 1] + d[cand + 1..]
  }

  function Without(open: seq<int>, k: int): seq<int>
    requires 0 <= k < |open|
  {
    open[..k] + open[k + 1..]
  }

  lemma {:induction false} WithoutAt(open: seq<int>, k: int, j: int)
    requires 0 <= k < |open| && 0 <= j < |open| - 1
    ensures |Without(open, k)| == |open| - 1 && Without(open, k)[j] == open[if j < k then j else j + 1]
  {
  }

  lemma {:induction false} JoinedAt(d: seq<int>, cand: int, i: int)
    requires 2 <= cand < |d| && 0 <= i < |d| - 2
    ensures |Joined(d, cand)| == |d| - 2 && Joined(d, cand)[i] == d[if i < cand - 1 then i else i + 2]
  {
  }

  lemma {:induction false} WithoutIsGaps(a: seq<int>, open: seq<int>, k: int)
    requires AreGaps(a, open) && 0 <= k < |open|
    ensures AreGaps(a, Without(open, k))
  {
  }

  lemma {:induction false} JoinedIsLaid(a: seq<int>, open: seq<int>, d: seq<int>, cand: int)
    requires Laid(a, open, d) && 2 <= cand < |d| && cand % 2 == 0
    ensures Laid(a, Without(open, cand / 2 - 1), Joined(d, cand))
  {
    var k := cand / 2 - 1;
    WithoutIsGaps(a, open, k);
    hide AreGaps, Without, Joined;
    var open', d' := Without(open, k), Joined(d, cand);
    JoinedAt(d, cand, 0);
    JoinedAt(d, cand, |d| - 3);
    if |open| > 1 { WithoutAt(open, k, 0); } else { WithoutOnly(open); }
    forall j | 0 <= j < |open'|
      ensures d'[2 * j + 1] == a[open'[j] - 1] && d'[2 * j + 2] == a[open'[j]]
    {
      WithoutAt(open, k, j);
      JoinedAt(d, cand, 2 * j + 1);
      JoinedAt(d, cand, 2 * j + 2);
    }
  }

  lemma {:induction false} WithoutOnly(open: seq<int>)
    requires |open| == 1
    ensures Without(open, 0) == []
  {
  }

  // ---------------------------------------------------------------- compression

  /** The first loop: every element becomes a range of its own. */
  method Doubled(r: seq<int>) returns (dr: array<int>)
    requires r != []
    ensures fresh(dr) && dr.Length == 2 * |r| && forall i :: 0 <= i < |r| ==> dr[2 * i] == r[i] && dr[2 * i + 1] == r[i]
  {
    dr := new int[2 * |r|];
    for i := 0 to |r|
      invariant forall k :: 0 <= k < i ==> dr[k] == r[k]
    {
      dr[i] := r[i];
    }
    var i := |r| - 1;
    while i >= 0
      invariant -1 <= i < |r|
      invariant forall k :: 0 <= k <= i ==> dr[k] == r[k]
      invariant forall k :: i < k < |r| ==> dr[2 * k] == r[k] && dr[2 * k + 1] == r[k]
    {
      dr[2 * i + 1] := dr[i];
      dr[2 * i] := dr[2 * i + 1];
      i := i - 1;
    }
  }

  function AllGaps(n: nat): (open: seq<int>)
    ensures |open| == (if n == 0 then 0 else n - 1) && forall j :: 0 <= j < |open| ==> open[j] == j + 1
  {
    if n == 0 then [] else seq(n - 1, j => j + 1)
  }

  lemma {:induction false} DoubledIsLaid(r: seq<int>, d: seq<int>)
    requires r != [] && |d| == 2 * |r| && forall i :: 0 <= i < |r| ==> d[2 * i] == r[i] && d[2 * i + 1] == r[i]
    ensures Laid(r, AllGaps(|r|), d)
  {
    var open := AllGaps(|r|);
    assert d[2 * (|r| - 1) + 1] == r[|r| - 1];
    forall j | 0 <= j < |open| ensures d[2 * j + 1] == r[open[j] - 1] && d[2 * j + 2] == r[open[j]] {
      assert d[2 * (j + 1)] == r[j + 1];
    }
  }

  /** The scan for the smallest gap. If all were 0x7fffffff or more, the previous candidate would stand. */
  method SmallestGap(dr: array<int>, len: nat, prior: int) returns (cand: int)
    requires len <= dr.Length
    ensures cand == prior || (2 <= cand < len && cand % 2 == 0)
    ensures (exists i :: 2 <= i < len && i % 2 == 0 && ScannedGap(dr[..len], i) < INT_MAX) ==> IsCandidate(dr[..len], cand)
  {
    var min, i := INT_MAX, 2;
    cand := prior;
    while i < len
      invariant i % 2 == 0 && 2 <= i
      invariant cand == prior || (2 <= cand < len && cand % 2 == 0)
      invariant min <= INT_MAX
      invariant min < INT_MAX ==> 2 <= cand < len && cand % 2 == 0 && min == ScannedGap(dr[..len], cand)
      invariant forall k :: 2 <= k < i && k < len && k % 2 == 0 ==> min <= ScannedGap(dr[..len], k)
    {
      if min > Int32(dr[i] - dr[i - 1]) {
        min := Int32(dr[i] - dr[i - 1]);
        cand := i;
      }
      i := i + 2;
    }
  }

  /** memmove of the tail over the two ends at cand. */
  method RemoveEnds(dr: array<int>, len: nat, cand: int)
    requires 2 <= cand < len <= dr.Length
    modifies dr
    ensures dr[..len - 2] == old(Joined(dr[..len], cand))
  {
    var i := cand - 1;
    while i < len - 2
      invariant cand - 1 <= i <= len - 2
      invariant forall k :: 0 <= k < cand - 1 ==> dr[k] == old(dr[k])
      invariant forall k :: cand - 1 <= k < i ==> dr[k] == old(dr[k + 2])
      invariant forall k :: i <= k < len ==> dr[k] == old(dr[k])
    {
      dr[i] := dr[i + 2];
      i := i + 1;
    }
  }

  lemma {:induction false} GapsAddUp(a: seq<int>, i: int, j: int)
    requires StrictlyIncreasing(a) && 0 < i < j < |a|
    ensures Gap(a, i) + Gap(a, j) <= a[|a| - 1] - a[0]
  {
    assert a[0] <= a[i - 1] && a[i] <= a[j - 1] && a[j] <= a[|a| - 1];
  }

  lemma {:induction false} ScannedIsGap(a: seq<int>, open: seq<int>, d: seq<int>, j: int)
    requires Laid(a, open, d) && 0 <= j < |open|
    ensures ScannedGap(d, 2 * j + 2) == Int32(Gap(a, open[j]))
  {
  }

  /** With more than 100 ranges, some gap is seen to be smaller than the starting minimum. */
  lemma {:induction false} SomeGapIsSeen(a: seq<int>, open: seq<int>, d: seq<int>)
    requires StrictlyIncreasing(a) && Int32Values(a) && Laid(a, open, d) && |open| >= 3
    ensures exists i :: 2 <= i < |d| && i % 2 == 0 && ScannedGap(d, i) < INT_MAX
  {
    var x, y, z := open[0], open[1], open[2];
    assert a[x] <= a[y - 1] && a[y] <= a[z - 1];
    ScannedIsGap(a, open, d, 0);
    ScannedIsGap(a, open, d, 1);
    ScannedIsGap(a, open, d, 2);
    assert INT_MIN <= a[x - 1] && a[z] <= INT_MAX;
    if Gap(a, x) == INT_MAX && Gap(a, y) == INT_MAX {
      assert Gap(a, z) < INT_MAX;
      assert ScannedGap(d, 6) < INT_MAX;
    } else if Gap(a, x) != INT_MAX {
      assert ScannedGap(d, 2) < INT_MAX;
    } else {
      assert ScannedGap(d, 4) < INT_MAX;
    }
  }

  /** No gap closed is larger than a gap left open. */
  ghost predicate Greedy(a: seq<int>, open: seq<int>)
    requires AreGaps(a, open)
  {
    forall c, j :: 0 < c < |a| && c !in open && 0 <= j < |open| ==> Gap(a, c) <= Gap(a, open[j])
  }

  /** Every gap fits 32 bits. */
  ghost predicate GapsFit(a: seq<int>) {
    forall g :: 0 < g < |a| ==> Gap(a, g) <= INT_MAX
  }

  lemma {:induction false} WithoutKeeps(open: seq<int>, k: int, x: int)
    requires 0 <= k < |open| && x in open && x != open[k]
    ensures x in Without(open, k)
  {
    var i :| 0 <= i < |open| && open[i] == x;
    assert Without(open, k)[if i < k then i else i - 1] == x;
  }

  lemma {:induction false} WithoutIsWithin(open: seq<int>, k: int, x: int)
    requires 0 <= k < |open| && x in Without(open, k)
    ensures x in open
  {
  }

  lemma {:induction false} CandidateIsSmallest(a: seq<int>, open: seq<int>, d: seq<int>, cand: int)
    requires StrictlyIncreasing(a) && Laid(a, open, d) && IsCandidate(d, cand) && GapsFit(a)
    ensures var k := cand / 2 - 1;
            0 <= k < |open| && forall i :: 0 <= i < |open| ==> Gap(a, open[k]) <= Gap(a, open[i])
  {
    var k := cand / 2 - 1;
    ScannedIsGap(a, open, d, k);
    forall i | 0 <= i < |open| ensures Gap(a, open[k]) <= Gap(a, open[i]) {
      ScannedIsGap(a, open, d, i);
      assert (2 * i + 2) % 2 == 0;
      assert Gap(a, open[i]) >= 0 && Gap(a, open[k]) >= 0;
    }
  }

  lemma {:induction false} GreedyStep(a: seq<int>, open: seq<int>, k: int)
    requires AreGaps(a, open) && Greedy(a, open) && 0 <= k < |open|
    requires forall i :: 0 <= i < |open| ==> Gap(a, open[k]) <= Gap(a, open[i])
    ensures AreGaps(a, Without(open, k)) && Greedy(a, Without(open, k))
  {
    var open' := Without(open, k);
    assert forall j :: 0 <= j < |open'| ==> open'[j] == open[if j < k then j else j + 1];
    forall c, j | 0 < c < |a| && c !in open' && 0 <= j < |open'| ensures Gap(a, c) <= Gap(a, open'[j]) {
      if c in open && c != open[k] { WithoutKeeps(open, k, c); }
    }
  }

  /** A gap of 0x80000000 or more wraps to a negative number and is the first to be closed. */
  lemma {:induction false} WideGapIsCandidate(a: seq<int>, open: seq<int>, d: seq<int>, cand: int, wide: int)
    requires StrictlyIncreasing(a) && Int32Values(a) && Laid(a, open, d) && IsCandidate(d, cand)
    requires 0 < wide < |a| && Gap(a, wide) > INT_MAX && wide in open
    ensures open[cand / 2 - 1] == wide
  {
    var k := cand / 2 - 1;
    var i :| 0 <= i < |open| && open[i] == wide;
    ScannedIsGap(a, open, d, i);
    ScannedIsGap(a, open, d, k);
    if i != k {
      GapsAddUp(a, if i < k then wide else open[k], if i < k then open[k] else wide);
    }
  }

  lemma {:induction false} WideGapIsNotGreedy(a: seq<int>, open: seq<int>, wide: int)
    requires StrictlyIncreasing(a) && Int32Values(a) && AreGaps(a, open) && open != []
    requires 0 < wide < |a| && Gap(a, wide) > INT_MAX && wide !in open
    ensures !Greedy(a, open)
  {
    var g := open[0];
    GapsAddUp(a, if wide < g then wide else g, if wide < g then g else wide);
    assert Gap(a, wide) > Gap(a, g);
  }

  /** Until a gap has been closed all are open; a wide gap is not open after that. */
  ghost predicate WideClosed(a: seq<int>, open: seq<int>) {
    |open| < |a| - 1 ==> forall g :: 0 < g < |a| && Gap(a, g) > INT_MAX ==> g !in open
  }

  lemma {:induction false} WideClosedStep(a: seq<int>, open: seq<int>, d: seq<int>, cand: int)
    requires StrictlyIncreasing(a) && Int32Values(a) && Laid(a, open, d) && IsCandidate(d, cand) && WideClosed(a, open)
    ensures 0 <= cand / 2 - 1 < |open| && WideClosed(a, Without(open, cand / 2 - 1))
  {
    var k := cand / 2 - 1;
    forall g | 0 < g < |a| && Gap(a, g) > INT_MAX ensures g !in Without(open, k) {
      if g in Without(open, k) {
        WithoutIsWithin(open, k, g);
        WideGapIsCandidate(a, open, d, cand, g);
        NoLongerThere(a, open, k);
      }
    }
  }

  lemma {:induction false} NoLongerThere(a: seq<int>, open: seq<int>, k: int)
    requires AreGaps(a, open) && 0 <= k < |open|
    ensures open[k] !in Without(open, k)
  {
  }

  /** The state of the compression loop. */
  ghost predicate Compressing(r: seq<int>, open: seq<int>, d: seq<int>) {
    && StrictlyIncreasing(r) && Int32Values(r) && Laid(r, open, d) && WideClosed(r, open)
    && AreGaps(r, open) && (GapsFit(r) ==> Greedy(r, open)) && |d| == 2 * |open| + 2
  }

  lemma {:induction false} CompressStep(r: seq<int>, open: seq<int>, d: seq<int>, cand: int)
    requires Compressing(r, open, d) && IsCandidate(d, cand)
    ensures 2 <= cand < |d| && 0 <= cand / 2 - 1 < |open|
    ensures Compressing(r, Without(open, cand / 2 - 1), Joined(d, cand))
  {
    hide Laid, Greedy, IsCandidate, GapsFit, WideClosed, StrictlyIncreasing, Int32Values;
    CandidateInRange(d, cand);
    WideClosedStep(r, open, d, cand);
    JoinedIsLaid(r, open, d, cand);
    LaidGaps(r, Without(open, cand / 2 - 1), Joined(d, cand));
    if GapsFit(r) {
      CandidateIsSmallest(r, open, d, cand);
      GreedyStep(r, open, cand / 2 - 1);
    }
  }

  /** The key to store, or an error if there is no room for the array doubled. */
  datatype Compressed = Key(key: seq<int>) | NoRoom

  lemma {:induction false} DoubledRequest(r: seq<int>)
    requires IsArray(r)
    ensures Granted(ArrayBytes(2 * |r|)) <==> ARR_OVERHEAD + 8 * |r| <= MAX_ALLOC
  {
  }

  /** g_int_compress on an inner key. */
  method GIntCompress(r: seq<int>) returns (out: Compressed, ghost open: seq<int>)
    requires StrictlyIncreasing(r) && Int32Values(r) && IsArray(r)
    ensures |r| < 2 * MAXNUMRANGE ==> out == Key(r)
    ensures |r| >= 2 * MAXNUMRANGE ==> (out == NoRoom <==> ARR_OVERHEAD + 8 * |r| > MAX_ALLOC)
    ensures |r| >= 2 * MAXNUMRANGE && out.Key? ==> |open| == MAXNUMRANGE - 1 && Laid(r, open, out.key)
    ensures |r| >= 2 * MAXNUMRANGE && out.Key? ==> (Greedy(r, open) <==> GapsFit(r)) && WideClosed(r, open)
  {
    hide Laid, Greedy, IsCandidate, GapsFit, WideClosed, StrictlyIncreasing, Int32Values, AreGaps, ArrayBytes, Int32;
    open := [];
    DoubledRequest(r);
    if |r| < 2 * MAXNUMRANGE { return Key(r), open; }
    if !Granted(ArrayBytes(2 * |r|)) { return NoRoom, open; }
    var dr := Doubled(r);
    var len, cand := 2 * |r|, 1;
    open := AllGaps(|r|);
    assert dr[..len] == dr[..];
    DoubledIsLaid(r, dr[..]);
    StartGreedy(r, dr[..len]);
    while len > 2 * MAXNUMRANGE
      invariant 2 * MAXNUMRANGE <= len <= dr.Length && |open| <= |r| - 1
      invariant Compressing(r, open, dr[..len])
    {
      SomeGapIsSeen(r, open, dr[..len]);
      cand := SmallestGap(dr, len, cand);
      CompressStep(r, open, dr[..len], cand);
      RemoveEnds(dr, len, cand);
      len := len - 2;
      open := Without(open, cand / 2 - 1);
    }
    out := Key(dr[..len]);
    NotGreedyUnlessFit(r, open);
  }

  lemma {:induction false} CandidateInRange(d: seq<int>, cand: int)
    requires IsCandidate(d, cand)
    ensures 2 <= cand < |d| && cand % 2 == 0
  {
  }

  lemma {:induction false} LaidGaps(a: seq<int>, open: seq<int>, d: seq<int>)
    requires Laid(a, open, d)
    ensures AreGaps(a, open)
  {
  }

  lemma {:induction false} StartGreedy(r: seq<int>, d: seq<int>)
    requires Laid(r, AllGaps(|r|), d)
    ensures AreGaps(r, AllGaps(|r|)) && Greedy(r, AllGaps(|r|)) && WideClosed(r, AllGaps(|r|))
  {
    var open := AllGaps(|r|);
    forall c | 0 < c < |r| ensures c in open { assert open[c - 1] == c; }
  }

  lemma {:induction false} NotGreedyUnlessFit(r: seq<int>, open: seq<int>)
    requires StrictlyIncreasing(r) && Int32Values(r) && AreGaps(r, open) && 0 < |open| < |r| - 1 && WideClosed(r, open)
    ensures Greedy(r, open) ==> GapsFit(r)
  {
    if !GapsFit(r) {
      var g :| 0 < g < |r| && Gap(r, g) > INT_MAX;
      WideGapIsNotGreedy(r, open, g);
    }
  }

  // ---------------------------------------------------------------- ranges and their expansion

  /** Pairs of ends of ranges, ascending and apart from each other. */
  ghost predicate AreRanges(d: seq<int>) {
    && |d| % 2 == 0
    && (forall k :: 0 <= k < |d| - 1 && k % 2 == 0 ==> d[k] <= d[k + 1])
    && (forall k :: 0 <= k < |d| - 1 && k % 2 == 1 ==> d[k] < d[k + 1])
  }

  lemma {:induction false} LaidAreRanges(a: seq<int>, open: seq<int>, d: seq<int>)
    requires StrictlyIncreasing(a) && Laid(a, open, d)
    ensures AreRanges(d)
  {
    forall k | 0 <= k < |d| - 1 && k % 2 == 1 ensures d[k] < d[k + 1] {
      var j := k / 2;
      assert d[2 * j + 1] == a[open[j] - 1] && d[2 * j + 2] == a[open[j]];
    }
    forall k | 0 <= k < |d| - 1 && k % 2 == 0 ensures d[k] <= d[k + 1] {
      var j := k / 2;
      var lo := if j == 0 then 0 else open[j - 1];
      var hi := if j == |open| then |a| - 1 else open[j] - 1;
      assert j > 0 ==> d[2 * (j - 1) + 2] == a[open[j - 1]];
      assert j < |open| ==> d[2 * j + 1] == a[open[j] - 1];
      assert d[k] == a[lo] && d[k + 1] == a[hi] && lo <= hi;
    }
  }

  function Run(lo: int, hi: int): (r: seq<int>)
    ensures |r| == (if lo <= hi then hi - lo + 1 else 0) && forall k :: 0 <= k < |r| ==> r[k] == lo + k
    decreases hi - lo
  {
    if lo > hi then [] else [lo] + Run(lo + 1, hi)
  }

  /** All the values in the ranges. */
  function Expand(d: seq<int>): seq<int> {
    if |d| < 2 then [] else Expand(d[..|d| - 2]) + Run(d[|d| - 2], d[|d| - 1])
  }

  lemma {:induction false} RangesInit(d: seq<int>)
    requires AreRanges(d) && d != []
    ensures |d| >= 2 && AreRanges(d[..|d| - 2]) && d[|d| - 2] <= d[|d| - 1]
    ensures |d| > 2 ==> d[|d| - 3] < d[|d| - 2]
  {
    var init := d[..|d| - 2];
    assert forall k :: 0 <= k < |init| ==> init[k] == d[k];
    assert (|d| - 2) % 2 == 0;
    assert |d| > 2 ==> (|d| - 3) % 2 == 1;
  }

  /** The expansion is strictly increasing and ends with the last end. */
  lemma {:induction false} ExpandIsSorted(d: seq<int>)
    requires AreRanges(d)
    ensures StrictlyIncreasing(Expand(d))
    ensures d != [] ==> Expand(d) != [] && Expand(d)[|Expand(d)| - 1] == d[|d| - 1]
    decreases |d|
  {
    if d != [] {
      RangesInit(d);
      var init := d[..|d| - 2];
      ExpandIsSorted(init);
      var more := Run(d[|d| - 2], d[|d| - 1]);
      assert StrictlyIncreasing(more);
      assert Below(Expand(init), more);
      StrictConcat(Expand(init), more);
    }
  }

  lemma {:induction false} ExpandPrefix(d: seq<int>, i: nat)
    requires AreRanges(d) && i % 2 == 0 && i <= |d|
    ensures AreRanges(d[..i]) && |Expand(d[..i])| <= |Expand(d)|
    decreases |d|
  {
    if i < |d| {
      RangesInit(d);
      ExpandPrefix(d[..|d| - 2], i);
      assert d[..|d| - 2][..i] == d[..i];
    } else {
      assert d[..i] == d;
    }
  }

  ghost predicate InSomeRange(d: seq<int>, x: int) {
    exists k :: 0 <= k < |d| - 1 && k % 2 == 0 && d[k] <= x <= d[k + 1]
  }

  lemma {:induction false} SomeRangeInit(d: seq<int>, x: int)
    requires |d| >= 2 && |d| % 2 == 0
    ensures InSomeRange(d, x) <==> InSomeRange(d[..|d| - 2], x) || d[|d| - 2] <= x <= d[|d| - 1]
  {
    var init := d[..|d| - 2];
    if InSomeRange(init, x) {
      var k :| 0 <= k < |init| - 1 && k % 2 == 0 && init[k] <= x <= init[k + 1];
      assert d[k] <= x <= d[k + 1];
    }
    if InSomeRange(d, x) {
      var k :| 0 <= k < |d| - 1 && k % 2 == 0 && d[k] <= x <= d[k + 1];
      assert k < |d| - 2 ==> k < |init| - 1 && init[k] == d[k] && init[k + 1] == d[k + 1];
    }
    assert (|d| - 2) % 2 == 0;
  }

  lemma {:induction false} RunHas(lo: int, hi: int, x: int)
    ensures x in Run(lo, hi) <==> lo <= x <= hi
  {
    if lo <= x <= hi { assert Run(lo, hi)[x - lo] == x; }
  }

  /** The expansion is the union of the ranges. */
  lemma {:induction false} ExpandHasRanges(d: seq<int>, x: int)
    requires AreRanges(d)
    ensures x in Expand(d) <==> InSomeRange(d, x)
    decreases |d|
  {
    if d != [] {
      RangesInit(d);
      hide InSomeRange, AreRanges, Run;
      ExpandHasRanges(d[..|d| - 2], x);
      RunHas(d[|d| - 2], d[|d| - 1], x);
      SomeRangeInit(d, x);
    }
  }

  /** x lies strictly between the two elements around gap g. */
  predicate Inside(a: seq<int>, g: int, x: int)
    requires 0 < g < |a|
  {
    a[g - 1] < x < a[g]
  }

  /** x lies in the span of a and in none of the open gaps. */
  ghost predicate Kept(a: seq<int>, open: seq<int>, x: int)
    requires a != [] && AreGaps(a, open)
  {
    a[0] <= x <= a[|a| - 1] && forall j :: 0 <= j < |open| ==> !Inside(a, open[j], x)
  }

  lemma {:induction false} RangeOf(a: seq<int>, open: seq<int>, x: int, n: nat) returns (k: nat)
    requires AreGaps(a, open) && n <= |open| && (n < |open| ==> x < a[open[n]])
    ensures k <= n && (k > 0 ==> a[open[k - 1]] <= x) && (k < |open| ==> x < a[open[k]])
  {
    if n > 0 && x < a[open[n - 1]] { k := RangeOf(a, open, x, n - 1); } else { k := n; }
  }

  lemma {:induction false} LaidEnds(a: seq<int>, open: seq<int>, d: seq<int>, k: nat)
    requires Laid(a, open, d) && k <= |open|
    ensures d[2 * k] == a[if k == 0 then 0 else open[k - 1]]
    ensures d[2 * k + 1] == a[if k == |open| then |a| - 1 else open[k] - 1]
  {
    assert k > 0 ==> d[2 * (k - 1) + 2] == a[open[k - 1]];
    assert k < |open| ==> d[2 * k + 1] == a[open[k] - 1];
  }

  /** The ranges hold exactly what the open gaps do not cut out. */
  lemma {:induction false} LaidRangesHold(a: seq<int>, open: seq<int>, d: seq<int>, x: int)
    requires StrictlyIncreasing(a) && Laid(a, open, d)
    ensures InSomeRange(d, x) <==> Kept(a, open, x)
  {
    if InSomeRange(d, x) {
      var i :| 0 <= i < |d| - 1 && i % 2 == 0 && d[i] <= x <= d[i + 1];
      var k := i / 2;
      LaidEnds(a, open, d, k);
      forall j | 0 <= j < |open| ensures !Inside(a, open[j], x) {
        assert j < k ==> open[j] <= open[k - 1];
        assert j > k ==> open[k] <= open[j] - 1;
      }
    }
    if Kept(a, open, x) {
      var k := RangeOf(a, open, x, |open|);
      LaidEnds(a, open, d, k);
      assert k < |open| ==> !Inside(a, open[k], x);
      assert (2 * k) % 2 == 0 && d[2 * k] <= x <= d[2 * k + 1];
    }
  }

  lemma {:induction false} ElementsAreKept(a: seq<int>, open: seq<int>, i: int)
    requires StrictlyIncreasing(a) && AreGaps(a, open) && 0 <= i < |a|
    ensures Kept(a, open, a[i])
  {
    assert a[0] <= a[i] <= a[|a| - 1];
    forall j | 0 <= j < |open| ensures !Inside(a, open[j], a[i]) {
      assert i <= open[j] - 1 || open[j] <= i;
    }
  }

  // ---------------------------------------------------------------- decompression

  lemma {:induction false} Int32Sum(x: int, y: int)
    ensures Int32(Int32(x) + y) == Int32(x + y) && ArrayBytes(Int32(x)) == ArrayBytes(x)
  {
    var k := (x - INT_MIN) / 0x1_0000_0000;
    assert Int32(x) == x + (-k) * 0x1_0000_0000;
    Int32Shift(x + y, -k);
    Int32Shift(ARR_OVERHEAD + 4 * x, -4 * k);
    hide Int32;
  }

  lemma {:induction false} NothingExpands()
    ensures Expand([]) == [] && Int32(0) == 0
  {
  }

  /** internal_size: counts the values of ranges, leaving out one that starts where the last ended. The count is
      kept in 32 bits. */
  method InternalSize(a: seq<int>) returns (size: int)
    requires |a| % 2 == 0
    ensures AreRanges(a) ==> size == Int32(|Expand(a)|)
  {
    hide Int32, Expand, Run, AreRanges;
    NothingExpands();
    size := 0;
    var i := 0;
    while i < |a|
      invariant 0 <= i <= |a| && i % 2 == 0
      invariant AreRanges(a) ==> size == Int32(|Expand(a[..i])|)
    {
      if AreRanges(a) {
        RangeAt(a, i);
        ExpandStep(a, i);
        Int32Sum(|Expand(a[..i])|, a[i + 1] - a[i] + 1);
      }
      if i == 0 || a[i] != a[i - 1] { size := Int32(size + (a[i + 1] - a[i] + 1)); }
      i := i + 2;
    }
    assert a[..|a|] == a;
  }

  /** The expanded array; a refused request for room; or a write past the end of the array, because the request
      wrapped to a small one or because a counter that reaches INT_MAX wraps and goes on. */
  datatype Decompressed = Values(values: seq<int>) | AllocError | Overrun

  /** How many elements fit the room asked for by a request that is granted. */
  function Room(num: int): (n: nat)
    requires Granted(ArrayBytes(num))
  {
    if ArrayBytes(num) < ARR_OVERHEAD then 0 else (ArrayBytes(num) - ARR_OVERHEAD) / 4
  }

  /** A granted request has room for all or, wrapped, for fewer. */
  lemma {:induction false} RoomOrLess(num: nat)
    requires Granted(ArrayBytes(num))
    ensures Room(num) <= num
    ensures Room(num) == num <==> ARR_OVERHEAD + 4 * num <= MAX_ALLOC
  {
  }

  lemma {:induction false} SmallRequest(num: nat)
    requires ARR_OVERHEAD + 4 * num <= MAX_ALLOC
    ensures Granted(ArrayBytes(num)) && Room(num) == num
  {
  }

  /** The inner loop: appends lo..hi, except a value equal to the last written. */
  method AppendRange(dr: array<int>, at: nat, first: bool, lo: int, hi: int) returns (ok: bool, next: nat)
    requires at <= dr.Length && lo <= hi && INT_MIN <= lo && hi <= INT_MAX
    requires first <==> at == 0
    requires at > 0 ==> dr[at - 1] < lo
    requires hi == INT_MAX ==> dr.Length <= at + (hi - lo + 1)
    modifies dr
    ensures ok <==> hi < INT_MAX && at + (hi - lo + 1) <= dr.Length
    ensures ok ==> next == at + (hi - lo + 1) && dr[..next] == old(dr[..at]) + Run(lo, hi)
  {
    var j, wrapped := lo, false;
    next := at;
    while j <= hi
      invariant !wrapped ==> lo <= j <= hi + 1 && next == at + (j - lo) <= dr.Length && (hi == INT_MAX ==> j <= hi)
      invariant wrapped ==> hi == INT_MAX && j == INT_MIN && next == dr.Length && next > 0 && dr[next - 1] == INT_MAX
      invariant !wrapped ==> dr[..at] == old(dr[..at]) && forall k :: at <= k < next ==> dr[k] == lo + (k - at)
      decreases if wrapped then 0 else hi - j + 2
    {
      if first || dr[next - 1] != j {
        if next >= dr.Length { return false, next; }
        dr[next] := j;
        next := next + 1;
      }
      if j == INT_MAX { wrapped, j := true, INT_MIN; } else { j := j + 1; }
    }
    assert dr[..next] == dr[..at] + Run(lo, hi);
    return true, next;
  }

  lemma {:induction false} RangeAt(d: seq<int>, i: nat)
    requires AreRanges(d) && i % 2 == 0 && i < |d|
    ensures i + 2 <= |d| && (i + 2) % 2 == 0 && d[i] <= d[i + 1]
    ensures i + 2 < |d| ==> d[i + 1] < d[i + 2]
    ensures i > 0 ==> d[i - 1] < d[i]
  {
    assert (i + 1) % 2 == 1;
    assert i > 0 ==> (i - 1) % 2 == 1;
  }

  lemma {:induction false} RangeIsInt32(d: seq<int>, i: nat)
    requires Int32Values(d) && i + 2 <= |d|
    ensures INT_MIN <= d[i] && d[i + 1] <= INT_MAX && (i + 2 < |d| ==> d[i + 2] <= INT_MAX)
  {
  }

  /** What one range adds to the expansion of those before it. */
  lemma {:induction false} ExpandStep(d: seq<int>, i: nat)
    requires AreRanges(d) && i % 2 == 0 && i < |d|
    ensures i + 2 <= |d|
    ensures Expand(d[..i + 2]) == Expand(d[..i]) + Run(d[i], d[i + 1]) && |Expand(d[..i + 2])| <= |Expand(d)|
    ensures i + 2 == |d| ==> Expand(d[..i + 2]) == Expand(d)
    ensures Expand(d[..i]) == [] <==> i == 0
    ensures i > 0 ==> Expand(d[..i])[|Expand(d[..i])| - 1] < d[i]
  {
    hide AreRanges, Run, StrictlyIncreasing;
    RangeAt(d, i);
    ExpandPrefix(d, i);
    ExpandPrefix(d, i + 2);
    ExpandIsSorted(d[..i]);
    assert d[..i + 2][..i] == d[..i];
    assert i + 2 == |d| ==> d[..i + 2] == d;
  }

  /** The loop over the ranges, into room for no more than their values. */
  method WriteRanges(dr: array<int>, din: seq<int>) returns (ok: bool)
    requires AreRanges(din) && Int32Values(din) && din != [] && dr.Length <= |Expand(din)|
    modifies dr
    ensures ok <==> din[|din| - 1] < INT_MAX && dr.Length == |Expand(din)|
    ensures ok ==> dr[..] == Expand(din)
  {
    assert din[..0] == [];
    NothingExpands();
    hide AreRanges, Expand, Run, Int32Values;
    var i, at := 0, 0;
    while i < |din|
      invariant 0 <= i <= |din| && i % 2 == 0 && 0 <= at <= dr.Length
      invariant dr[..at] == Expand(din[..i])
      invariant i > 0 ==> din[i - 1] < INT_MAX
    {
      RangeAt(din, i);
      RangeIsInt32(din, i);
      ExpandStep(din, i);
      assert at > 0 ==> dr[at - 1] == dr[..at][at - 1];
      var more, next := AppendRange(dr, at, i == 0, din[i], din[i + 1]);
      if !more { return false; }
      at, i := next, i + 2;
    }
    assert din[..|din|] == din;
    return true;
  }

  /** g_int_decompress. The array is written whole exactly when its bytes are within the allocation limit and no
      range ends at INT_MAX. */
  method GIntDecompress(din: seq<int>) returns (r: Decompressed)
    requires |din| >= 2 * MAXNUMRANGE ==> AreRanges(din) && Int32Values(din)
    ensures |din| < 2 * MAXNUMRANGE ==> r == Values(din)
    ensures |din| >= 2 * MAXNUMRANGE ==>
              (r == AllocError <==> !Granted(ArrayBytes(|Expand(din)|)))
    ensures |din| >= 2 * MAXNUMRANGE ==>
              (r.Values? <==> din[|din| - 1] < INT_MAX && ARR_OVERHEAD + 4 * |Expand(din)| <= MAX_ALLOC)
    ensures |din| >= 2 * MAXNUMRANGE && r.Values? ==> r.values == Expand(din)
  {
    if |din| < 2 * MAXNUMRANGE { return Values(din); }
    hide AreRanges, Expand, Run, ArrayBytes, Int32, Room, Int32Values;
    var lenr := InternalSize(din);
    ghost var total := |Expand(din)|;
    Int32Sum(total, 0);
    if ARR_OVERHEAD + 4 * total <= MAX_ALLOC { SmallRequest(total); }
    if !Granted(ArrayBytes(lenr)) { return AllocError; }
    RoomOrLess(total);
    SameRoom(lenr, total);
    var dr := new int[Room(lenr)];
    var ok := WriteRanges(dr, din);
    if !ok { return Overrun; }
    return Values(dr[..]);
  }

  lemma {:induction false} SameRoom(num: int, total: int)
    requires ArrayBytes(num) == ArrayBytes(total) && Granted(ArrayBytes(num))
    ensures Room(num) == Room(total)
  {
  }

  /** A long array, compressed and expanded again: strictly increasing, with every original value in it. */
  lemma {:induction false} ExpandedKeepsElements(a: seq<int>, open: seq<int>, d: seq<int>)
    requires StrictlyIncreasing(a) && Laid(a, open, d)
    ensures AreRanges(d) && StrictlyIncreasing(Expand(d))
    ensures forall x :: x in a ==> x in Expand(d)
    ensures forall x :: x in Expand(d) <==> Kept(a, open, x)
  {
    LaidAreRanges(a, open, d);
    ExpandIsSorted(d);
    forall x ensures x in Expand(d) <==> Kept(a, open, x) {
      ExpandHasRanges(d, x);
      LaidRangesHold(a, open, d, x);
    }
    forall i | 0 <= i < |a| ensures a[i] in Expand(d) { ElementsAreKept(a, open, i); }
  }
}
