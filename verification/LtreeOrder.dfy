/** contrib/ltree/ltree_op.c: the order of label paths, and ancestry. */
module LtreeOrder {
  import opened Alloc
  import opened Lexicographic

  type Byte = x: int | 0 <= x < 256
  type Label = seq<Byte>
  type Path = seq<Label>

  function ByteOrder(x: Byte, y: Byte): int {
    x - y
  }

  /** Labels compare as byte strings, a proper prefix first. */
  function LabelOrder(x: Label, y: Label): int {
    Lex(ByteOrder, x, y)
  }

  /** Paths compare label by label, a proper ancestor first. */
  function PathOrder(a: Path, b: Path): int {
    Lex(LabelOrder, a, b)
  }

  lemma {:induction false} LabelsAreOrdered()
    ensures IsOrder(LabelOrder)
  {
    assert IsOrder(ByteOrder);
    LexIsOrder(ByteOrder);
    var lex := (a: Label, b: Label) => Lex(ByteOrder, a, b);
    assert forall a, b :: LabelOrder(a, b) == lex(a, b);
  }

  lemma {:induction false} PathsAreOrdered()
    ensures IsOrder(PathOrder)
  {
    LabelsAreOrdered();
    LexIsOrder(LabelOrder);
    var lex := (a: Path, b: Path) => Lex(LabelOrder, a, b);
    assert forall a, b :: PathOrder(a, b) == lex(a, b);
  }

  /** A label that comes before another: a beginning of it, or lower in the first byte that differs. */
  ghost predicate LabelBefore(x: Label, y: Label) {
    || (|x| < |y| && x == y[..|x|])
    || exists k: nat :: k < |x| && k < |y| && x[..k] == y[..k] && x[k] < y[k]
  }

  /** A path that comes before another: an ancestor of it, or first in the first label that differs. */
  ghost predicate PathBefore(a: Path, b: Path) {
    || (|a| < |b| && a == b[..|a|])
    || exists k: nat :: k < |a| && k < |b| && a[..k] == b[..k] && LabelBefore(a[k], b[k])
  }

  lemma {:induction false} LabelOrderAscends(x: Label, y: Label)
    ensures LabelOrder(x, y) < 0 <==> LabelBefore(x, y)
  {
    assert IsOrder(ByteOrder);
    LexFirstDifference(ByteOrder, x, y);
    assert forall k: nat :: k < |x| && k < |y| ==> (ByteOrder(x[k], y[k]) < 0 <==> x[k] < y[k]);
  }

  /** The path order ascends by labels, and these by bytes. */
  lemma {:induction false} PathOrderAscends(a: Path, b: Path)
    ensures PathOrder(a, b) < 0 <==> PathBefore(a, b)
    ensures PathOrder(a, b) > 0 <==> PathBefore(b, a)
    ensures PathOrder(a, b) == 0 <==> a == b
  {
    hide LabelBefore, LabelOrder;
    LabelsAreOrdered();
    forall x: Label, y: Label ensures LabelOrder(x, y) < 0 <==> LabelBefore(x, y) { LabelOrderAscends(x, y); }
    LexFirstDifference(LabelOrder, a, b);
    LexFirstDifference(LabelOrder, b, a);
    LexAntisymmetric(LabelOrder, a, b);
    LexZero(LabelOrder, a, b);
  }

  // ---------------------------------------------------------------- the comparison as computed

  /** memcmp over the common length: the difference of the first bytes that differ. */
  function MemCmp(x: Label, y: Label): (d: int)
    ensures -255 <= d <= 255
    decreases |x|
  {
    if x == [] || y == [] then 0
    else if x[0] != y[0] then x[0] - y[0]
    else MemCmp(x[1..], y[1..])
  }

  lemma {:induction false} MemCmpSign(x: Label, y: Label)
    ensures LabelOrder(x, y) == if MemCmp(x, y) != 0 then Sign(MemCmp(x, y)) else Sign(|x| - |y|)
    decreases |x|
  {
    if x != [] && y != [] && x[0] == y[0] {
      MemCmpSign(x[1..], y[1..]);
      assert LabelOrder(x, y) == LabelOrder(x[1..], y[1..]);
    }
  }

  /** A label has up to 255 characters of up to 4 bytes, a path up to 65535 levels. */
  ghost predicate ValidPath(p: Path) {
    |p| <= 0xffff && forall k :: 0 <= k < |p| ==> |p[k]| <= 1020
  }

  /** The number ltree_compare computes from level i on, before it is cut to 32 bits. */
  function Exact(a: Path, b: Path, i: nat): int
    requires i <= |a| && i <= |b|
    decreases |a| - i
  {
    if i == |a| || i == |b| then (|a| - |b|) * 10 * (|a| - i + 1)
    else if MemCmp(a[i], b[i]) != 0 then MemCmp(a[i], b[i]) * 10 * (|a| - i + 1)
    else if |a[i]| != |b[i]| then (|a[i]| - |b[i]|) * 10 * (|a| - i + 1)
    else Exact(a, b, i + 1)
  }

  /** ltree_compare. */
  method LtreeCompare(a: Path, b: Path) returns (res: int)
    ensures res == Int32(Exact(a, b, 0))
    ensures ValidPath(a) && ValidPath(b) && |a| <= SAFE_LEVELS ==> Tells(res, a, b)
  {
    if ValidPath(a) && ValidPath(b) && |a| <= SAFE_LEVELS { ComparedIsOrder(a, b); }
    hide Tells, ValidPath;
    var i, an, bn := 0, |a|, |b|;
    while an > 0 && bn > 0
      invariant 0 <= i <= |a| && i <= |b| && an == |a| - i && bn == |b| - i
      invariant Exact(a, b, 0) == Exact(a, b, i)
      decreases an
    {
      res := MemCmp(a[i], b[i]);
      if res == 0 {
        if |a[i]| != |b[i]| { return Int32((|a[i]| - |b[i]|) * 10 * (an + 1)); }
      } else {
        return Int32(res * 10 * (an + 1));
      }
      an, bn, i := an - 1, bn - 1, i + 1;
    }
    return Int32((|a| - |b|) * 10 * (an + 1));
  }

  lemma {:induction false} ScaledSign(x: int, an: nat)
    ensures Sign(x * 10 * (an + 1)) == Sign(x)
  {
  }

  lemma {:induction false} ExactSign(a: Path, b: Path, i: nat)
    requires i <= |a| && i <= |b|
    ensures Sign(Exact(a, b, i)) == PathOrder(a[i..], b[i..])
    decreases |a| - i
  {
    if i == |a| || i == |b| {
      ScaledSign(|a| - |b|, |a| - i);
    } else {
      MemCmpSign(a[i], b[i]);
      ScaledSign(MemCmp(a[i], b[i]), |a| - i);
      ScaledSign(|a[i]| - |b[i]|, |a| - i);
      ExactSign(a, b, i + 1);
      assert a[i..][1..] == a[i + 1..] && b[i..][1..] == b[i + 1..];
    }
  }

  /** The most levels for which the comparison cannot overflow. */
  const SAFE_LEVELS := 14653

  lemma {:induction false} ScaledBound(x: int, an: nat, bx: int, ba: nat)
    requires -bx <= x <= bx && an <= ba
    ensures -(bx * 10 * (ba + 1)) <= x * 10 * (an + 1) <= bx * 10 * (ba + 1)
  {
    assert bx * 10 * (an + 1) <= bx * 10 * (ba + 1);
    assert x * 10 * (an + 1) <= bx * 10 * (an + 1);
    assert -(bx * 10 * (an + 1)) <= x * 10 * (an + 1);
  }

  lemma {:induction false} ExactFits(a: Path, b: Path, i: nat)
    requires i <= |a| && i <= |b| && ValidPath(a) && ValidPath(b) && |a| <= SAFE_LEVELS
    ensures -0x7fff_ffff <= Exact(a, b, i) <= 0x7fff_ffff
    decreases |a| - i
  {
    if i == |a| {
      ScaledBound(|a| - |b|, 0, 0xffff, 0);
    } else if i == |b| {
      ScaledBound(|a| - |b|, |a| - i, SAFE_LEVELS, SAFE_LEVELS);
    } else {
      ScaledBound(MemCmp(a[i], b[i]), |a| - i, 255, SAFE_LEVELS);
      ScaledBound(|a[i]| - |b[i]|, |a| - i, 1020, SAFE_LEVELS);
      ExactFits(a, b, i + 1);
    }
  }

  /** What ltree_compare says of two paths. */
  function Compared(a: Path, b: Path): int {
    Sign(Int32(Exact(a, b, 0)))
  }

  /** The sign of a comparison says which path comes first. */
  ghost predicate Tells(res: int, a: Path, b: Path) {
    (res < 0 <==> PathBefore(a, b)) && (res > 0 <==> PathBefore(b, a)) && (res == 0 <==> a == b)
  }

  /** Up to 14653 levels ltree_compare has the sign of the path order. */
  lemma {:induction false} ComparedIsOrder(a: Path, b: Path)
    requires ValidPath(a) && ValidPath(b) && |a| <= SAFE_LEVELS
    ensures Compared(a, b) == PathOrder(a, b) && Tells(Compared(a, b), a, b)
  {
    hide PathBefore;
    PathOrderAscends(a, b);
    ExactFits(a, b, 0);
    ExactSign(a, b, 0);
    assert a[0..] == a && b[0..] == b;
  }

  /** The path a.a.a... of n levels. */
  function Repeated(n: nat): (p: Path)
    ensures |p| == n && forall k :: 0 <= k < n ==> p[k] == [97]
  {
    seq(n, _ => [97])
  }

  ghost predicate CompareIsRight(levels: nat) {
    forall a, b :: ValidPath(a) && ValidPath(b) && |a| <= levels && |b| <= levels ==> Tells(Compared(a, b), a, b)
  }

  /** The comparison is right for all paths of up to so many levels exactly when these are at most 14653:
      the product for 14654 levels against the empty path overflows to a negative number. */
  lemma {:induction false} CompareRightExactlyUpTo(levels: nat)
    requires levels <= 0xffff
    ensures CompareIsRight(levels) <==> levels <= SAFE_LEVELS
  {
    if levels <= SAFE_LEVELS {
      forall a, b | ValidPath(a) && ValidPath(b) && |a| <= levels && |b| <= levels
        ensures Tells(Compared(a, b), a, b)
      {
        ComparedIsOrder(a, b);
      }
    } else {
      var a: Path, b: Path := Repeated(SAFE_LEVELS + 1), [];
      assert ValidPath(a) && ValidPath(b);
      assert Exact(a, b, 0) == 14654 * 10 * 14655;
      assert Compared(a, b) == -1 && PathBefore(b, a);
    }
  }

  // ---------------------------------------------------------------- ancestry

  /** inner_isparent: p is an ancestor of c, or c itself. */
  method InnerIsParent(c: Path, p: Path) returns (res: bool)
    ensures res <==> p <= c
  {
    var pn, i := |p|, 0;
    if pn > |c| { return false; }
    while pn > 0
      invariant 0 <= i <= |p| && pn == |p| - i && p[..i] == c[..i]
      decreases pn
    {
      if |c[i]| != |p[i]| || MemCmp(c[i], p[i]) != 0 {
        MemCmpSign(c[i], p[i]);
        LabelsAreOrdered();
        assert LabelOrder(c[i], p[i]) != 0 ==> c[i] != p[i];
        assert p[..|p|][i] != c[..|p|][i];
        return false;
      }
      MemCmpSign(c[i], p[i]);
      LabelsAreOrdered();
      assert p[..i + 1] == p[..i] + [p[i]] && c[..i + 1] == c[..i] + [c[i]];
      pn, i := pn - 1, i + 1;
    }
    assert p[..|p|] == p;
    return true;
  }
}
