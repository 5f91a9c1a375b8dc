/** Lexicographic order over sequences, a proper prefix first, from an order of the elements. */
module Lexicographic {

  function Sign(x: int): int {
    if x < 0 then -1 else if x > 0 then 1 else 0
  }

  /** A total order given by the sign of a comparison. */
  ghost predicate IsOrder<T(!new)>(cmp: (T, T) -> int) {
    && (forall x, y :: cmp(x, y) == -cmp(y, x))
    && (forall x, y :: cmp(x, y) == 0 <==> x == y)
    && (forall x, y, z :: cmp(x, y) <= 0 && cmp(y, z) <= 0 ==> cmp(x, z) <= 0)
  }

  function Lex<T>(cmp: (T, T) -> int, a: seq<T>, b: seq<T>): int {
    if a == [] || b == [] then Sign(|a| - |b|)
    else if cmp(a[0], b[0]) != 0 then Sign(cmp(a[0], b[0]))
    else Lex(cmp, a[1..], b[1..])
  }

  lemma {:induction false} LexAntisymmetric<T(!new)>(cmp: (T, T) -> int, a: seq<T>, b: seq<T>)
    requires IsOrder(cmp)
    ensures Lex(cmp, a, b) == -Lex(cmp, b, a)
    decreases |a|
  {
    if a != [] && b != [] { LexAntisymmetric(cmp, a[1..], b[1..]); }
  }

  lemma {:induction false} LexZero<T(!new)>(cmp: (T, T) -> int, a: seq<T>, b: seq<T>)
    requires IsOrder(cmp)
    ensures Lex(cmp, a, b) == 0 <==> a == b
    decreases |a|
  {
    if a != [] && b != [] {
      LexZero(cmp, a[1..], b[1..]);
      assert a == [a[0]] + a[1..] && b == [b[0]] + b[1..];
    }
  }

  lemma {:induction false} LexTransitive<T(!new)>(cmp: (T, T) -> int, a: seq<T>, b: seq<T>, c: seq<T>)
    requires IsOrder(cmp) && Lex(cmp, a, b) <= 0 && Lex(cmp, b, c) <= 0
    ensures Lex(cmp, a, c) <= 0
    decreases |a|
  {
    if a != [] && b != [] && c != [] {
      var x, y, z := a[0], b[0], c[0];
      assert cmp(x, y) <= 0 && cmp(y, z) <= 0;
      assert cmp(x, z) <= 0;
      if cmp(x, z) == 0 {
        assert cmp(z, y) <= 0 by { assert cmp(z, x) == 0; }
        LexTransitive(cmp, a[1..], b[1..], c[1..]);
      }
    }
  }

  lemma {:induction false} LexIsOrder<T(!new)>(cmp: (T, T) -> int)
    requires IsOrder(cmp)
    ensures IsOrder((a: seq<T>, b: seq<T>) => Lex(cmp, a, b))
  {
    var lex := (a: seq<T>, b: seq<T>) => Lex(cmp, a, b);
    forall a: seq<T>, b: seq<T> ensures lex(a, b) == -lex(b, a) && (lex(a, b) == 0 <==> a == b) {
      LexAntisymmetric(cmp, a, b);
      LexZero(cmp, a, b);
    }
    forall a: seq<T>, b: seq<T>, c: seq<T> | lex(a, b) <= 0 && lex(b, c) <= 0 ensures lex(a, c) <= 0 {
      LexTransitive(cmp, a, b, c);
    }
  }

  function Cut<T>(a: seq<T>, k: nat): seq<T> {
    if |a| > k then a[..k] else a
  }

  /** Cutting both sides to the same length keeps the order. */
  lemma {:induction false} LexCutMonotone<T(!new)>(cmp: (T, T) -> int, a: seq<T>, b: seq<T>, k: nat)
    requires IsOrder(cmp) && Lex(cmp, a, b) <= 0
    ensures Lex(cmp, Cut(a, k), Cut(b, k)) <= 0
    decreases k
  {
    if k > 0 && a != [] && b != [] {
      assert Cut(a, k)[1..] == Cut(a[1..], k - 1) && Cut(b, k)[1..] == Cut(b[1..], k - 1);
      if cmp(a[0], b[0]) == 0 { LexCutMonotone(cmp, a[1..], b[1..], k - 1); }
    }
  }

  /** The order depends on common elements only up to the first difference. */
  lemma {:induction false} LexSkip<T(!new)>(cmp: (T, T) -> int, a: seq<T>, b: seq<T>, k: nat)
    requires IsOrder(cmp) && k <= |a| && k <= |b| && a[..k] == b[..k]
    ensures Lex(cmp, a, b) == Lex(cmp, a[k..], b[k..])
    decreases k
  {
    if k > 0 {
      assert a[0] == a[..k][0] == b[..k][0] == b[0];
      assert a[1..][..k - 1] == a[..k][1..] == b[..k][1..] == b[1..][..k - 1];
      LexSkip(cmp, a[1..], b[1..], k - 1);
      assert a[1..][k - 1..] == a[k..] && b[1..][k - 1..] == b[k..];
    }
  }

  /** What the order means: a proper prefix comes first, otherwise the first difference decides. */
  lemma {:induction false} LexFirstDifference<T(!new)>(cmp: (T, T) -> int, a: seq<T>, b: seq<T>)
    requires IsOrder(cmp)
    ensures Lex(cmp, a, b) < 0 <==>
      || (|a| < |b| && a == b[..|a|])
      || exists k: nat :: k < |a| && k < |b| && a[..k] == b[..k] && cmp(a[k], b[k]) < 0
  {
    if (|a| < |b| && a == b[..|a|]) || (|b| <= |a| && b == a[..|b|]) {
      var n := if |a| < |b| then |a| else |b|;
      assert a[..n] == b[..n];
      LexSkip(cmp, a, b, n);
      forall k: nat | k < n ensures a[k] == b[k] { assert a[..n][k] == b[..n][k]; }
    } else {
      var n := FirstDifference(a, b);
      LexSkip(cmp, a, b, n);
      assert forall k: nat :: k < |a| && k < |b| && a[..k] == b[..k] && a[k] != b[k] ==> k == n by {
        assert forall k: nat :: n < k < |a| && k < |b| ==> a[..k][n] == a[n] && b[..k][n] == b[n];
        assert forall k: nat :: k < n ==> a[..n][k] == a[k] && b[..n][k] == b[k];
      }
    }
  }

  lemma {:induction false} FirstDifference<T>(a: seq<T>, b: seq<T>) returns (k: nat)
    requires !(|a| <= |b| && a == b[..|a|]) && !(|b| <= |a| && b == a[..|b|])
    ensures k < |a| && k < |b| && a[..k] == b[..k] && a[k] != b[k]
    decreases |a|
  {
    if a[0] != b[0] {
      k := 0;
    } else {
      assert a == [a[0]] + a[1..] && b == [b[0]] + b[1..];
      k := FirstDifference(a[1..], b[1..]);
      k := k + 1;
      assert a[..k] == [a[0]] + a[1..][..k - 1] && b[..k] == [b[0]] + b[1..][..k - 1];
    }
  }
}
