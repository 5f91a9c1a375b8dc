/** Sorting, de-duplication and search of contrib/intarray/_int_tool.c and _int_bool.c. */
module IntTool {

  ghost predicate Sorted(s: seq<int>) {
    forall i, j :: 0 <= i < j < |s| ==> s[i] <= s[j]
  }

  ghost predicate StrictlyIncreasing(s: seq<int>) {
    forall i, j :: 0 <= i < j < |s| ==> s[i] < s[j]
  }

  ghost predicate Below(a: seq<int>, b: seq<int>) {
    forall i, j :: 0 <= i < |a| && 0 <= j < |b| ==> a[i] < b[j]
  }

  ghost predicate NotAbove(a: seq<int>, b: seq<int>) {
    forall i, j :: 0 <= i < |a| && 0 <= j < |b| ==> a[i] <= b[j]
  }

  lemma {:induction false} SortedConcat(a: seq<int>, b: seq<int>)
    ensures Sorted(a + b) <==> Sorted(a) && Sorted(b) && NotAbove(a, b)
  {
    var s := a + b;
    if Sorted(s) {
      assert forall i :: 0 <= i < |a| ==> a[i] == s[i];
      assert forall j :: 0 <= j < |b| ==> b[j] == s[|a| + j];
    }
  }

  lemma {:induction false} StrictConcat(a: seq<int>, b: seq<int>)
    ensures StrictlyIncreasing(a + b) <==> StrictlyIncreasing(a) && StrictlyIncreasing(b) && Below(a, b)
  {
    var s := a + b;
    if StrictlyIncreasing(s) {
      assert forall i :: 0 <= i < |a| ==> a[i] == s[i];
      assert forall j :: 0 <= j < |b| ==> b[j] == s[|a| + j];
    }
  }

  lemma {:induction false} LastBounds(init: seq<int>, x: int)
    requires Sorted(init) && (init != [] ==> init[|init| - 1] <= x)
    ensures NotAbove(init, [x]) && (Below(init, [x]) <==> (init != [] ==> init[|init| - 1] < x))
    ensures Sorted([x]) && StrictlyIncreasing([x])
  {
    assert [x][0] == x;
  }

  lemma {:induction false} BelowSnoc(init: seq<int>, x: int, rest: seq<int>)
    ensures Below(init + [x], rest) <==> Below(init, rest) && Below([x], rest)
  {
    var s := init + [x];
    assert forall i :: 0 <= i < |init| ==> s[i] == init[i];
    assert s[|init|] == x == [x][0];
  }

  /** Putting x after the elements it is not smaller than keeps an array sorted, and distinct unless it
      equals its new neighbour. */
  lemma {:induction false} InsertIsSorted(init: seq<int>, x: int, rest: seq<int>)
    requires Sorted(init + rest)
    requires init != [] ==> init[|init| - 1] <= x
    requires Below([x], rest)
    ensures Sorted(init + [x] + rest)
    ensures StrictlyIncreasing(init + [x] + rest) <==>
            StrictlyIncreasing(init + rest) && (init != [] ==> init[|init| - 1] < x)
  {
    hide Sorted, StrictlyIncreasing;
    SortedConcat(init, rest);
    SortedConcat(init, [x]);
    SortedConcat(init + [x], rest);
    StrictConcat(init, rest);
    StrictConcat(init, [x]);
    StrictConcat(init + [x], rest);
    LastBounds(init, x);
    BelowSnoc(init, x, rest);
  }

  /** The array with the element at p moved to q and the elements between shifted. */
  lemma {:induction false} ShiftedIsInsertion(s: seq<int>, t: seq<int>, q: nat, p: nat)
    requires q <= p < |s| == |t| && t[q] == s[p] && Sorted(s[..p])
    requires forall k :: 0 <= k < q || p < k < |s| ==> t[k] == s[k]
    requires forall k :: q < k <= p ==> t[k] == s[k - 1] && t[k] > s[p]
    requires q > 0 ==> s[q - 1] <= s[p]
    ensures multiset(t) == multiset(s)
    ensures Sorted(t[..p + 1])
    ensures StrictlyIncreasing(t[..p + 1]) <==> StrictlyIncreasing(s[..p]) && (q > 0 ==> s[q - 1] < s[p])
  {
    hide Sorted, StrictlyIncreasing;
    assert multiset(t) == multiset(s) by {
      assert t == s[..q] + [s[p]] + s[q..p] + s[p + 1..];
      assert s == s[..q] + s[q..p] + [s[p]] + s[p + 1..];
    }
    assert t[..p + 1] == s[..q] + [s[p]] + s[q..p];
    assert s[..p] == s[..q] + s[q..p];
    forall k | 0 <= k < p - q ensures s[q..p][k] > s[p] { assert t[q + 1 + k] > s[p]; }
    InsertIsSorted(s[..q], s[p], s[q..p]);
  }

  /** isort: sorts in place and tells whether it met duplicates. */
  method Isort(a: array<int>) returns (r: bool)
    modifies a
    ensures multiset(a[..]) == multiset(old(a[..]))
    ensures Sorted(a[..])
    ensures !r <==> StrictlyIncreasing(a[..])
  {
    r := false;
    var pcur := 1;
    assert a.Length > 0 ==> a[..1] == [a[0]];
    while pcur < a.Length
      invariant 1 <= pcur && (if a.Length > 0 then pcur <= a.Length else !r)
      invariant multiset(a[..]) == multiset(old(a[..]))
      invariant a.Length > 0 ==> Sorted(a[..pcur]) && (!r <==> StrictlyIncreasing(a[..pcur]))
    {
      var met := InsertAt(a, pcur);
      r := r || met;
      pcur := pcur + 1;
    }
    assert a.Length > 0 ==> a[..pcur] == a[..];
    assert a.Length == 0 ==> a[..] == [];
  }

  /** One round of the sort: the element at pcur moves left to its place. */
  method InsertAt(a: array<int>, pcur: nat) returns (met: bool)
    requires 0 < pcur < a.Length && Sorted(a[..pcur])
    modifies a
    ensures multiset(a[..]) == multiset(old(a[..]))
    ensures Sorted(a[..pcur + 1])
    ensures StrictlyIncreasing(a[..pcur + 1]) <==> old(StrictlyIncreasing(a[..pcur])) && !met
  {
    hide Sorted, StrictlyIncreasing;
    ghost var s := a[..];
    var cur := a[pcur];
    var pprev := pcur - 1;
    met := false;
    while pprev >= 0
      invariant -1 <= pprev < pcur && !met
      invariant forall k :: 0 <= k <= pprev || pcur < k < a.Length ==> a[k] == s[k]
      invariant forall k :: pprev + 1 < k <= pcur ==> a[k] == s[k - 1] && a[k] > cur
    {
      var prev := a[pprev];
      if prev <= cur {
        if prev == cur { met := true; }
        break;
      }
      a[pprev + 1] := prev;
      pprev := pprev - 1;
    }
    a[pprev + 1] := cur;
    ShiftedIsInsertion(s, a[..], pprev + 1, pcur);
    assert a[..pcur + 1] == a[..][..pcur + 1] && old(a[..pcur]) == s[..pcur];
  }

  /** _int_unique: the first n elements become those of the sorted array, each once. */
  method IntUnique(a: array<int>, num: nat) returns (n: nat)
    requires num <= a.Length && Sorted(a[..num])
    modifies a
    ensures n <= num && StrictlyIncreasing(a[..n])
    ensures forall x :: x in a[..n] <==> x in old(a[..num])
  {
    if num < 2 { return num; }
    var tmp, dr := 1, 0;
    while tmp < num
      invariant 0 <= dr < tmp <= num
      invariant StrictlyIncreasing(a[..dr + 1])
      invariant forall k :: tmp <= k < num ==> a[k] == old(a[k])
      invariant a[dr] == old(a[tmp - 1])
      invariant forall x :: x in a[..dr + 1] <==> x in old(a[..tmp])
    {
      assert old(a[..num])[tmp - 1] <= old(a[..num])[tmp];
      assert old(a[..tmp + 1]) == old(a[..tmp]) + [old(a[tmp])];
      if a[tmp] != a[dr] {
        ghost var before := a[..dr + 1];
        dr := dr + 1;
        a[dr] := a[tmp];
        assert a[..dr + 1] == before + [a[dr]];
      } else {
        assert a[dr] in a[..dr + 1];
      }
      tmp := tmp + 1;
    }
    n := dr + 1;
  }

  /** checkcondition_arr: binary search. */
  method Contains(a: array<int>, n: nat, val: int) returns (found: bool)
    requires n <= a.Length && Sorted(a[..n])
    ensures found <==> val in a[..n]
  {
    var low, high := 0, n;
    while low < high
      invariant 0 <= low <= high <= n
      invariant forall k :: 0 <= k < low ==> a[..n][k] < val
      invariant forall k :: high <= k < n ==> val < a[..n][k]
    {
      var middle := low + (high - low) / 2;
      assert a[middle] == a[..n][middle];
      if a[middle] == val { return true; }
      if a[middle] < val { low := middle + 1; } else { high := middle; }
    }
    return false;
  }

  /** PREPAREARR: sort, and drop duplicates if the sort met any. */
  method PrepareArr(a: array<int>) returns (n: nat)
    modifies a
    ensures n <= a.Length && StrictlyIncreasing(a[..n])
    ensures forall x :: x in a[..n] <==> x in old(a[..])
  {
    n := a.Length;
    if n > 1 {
      var duplicates := Isort(a);
      assert forall x :: x in a[..] <==> x in multiset(a[..]);
      assert forall x :: x in old(a[..]) <==> x in multiset(old(a[..]));
      assert a[..n] == a[..];
      if duplicates { n := IntUnique(a, n); }
    } else {
      assert a[..n] == a[..];
    }
  }
}
