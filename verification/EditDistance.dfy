/** The reference for contrib/fuzzystrmatch/levenshtein.c: the notional matrix, the edit
    scripts whose cost it minimises, and the metric laws of the distance it defines.
    Text is a sequence of decoded characters of any type with equality. */
module EditDistance {

  datatype Costs = Costs(ins: int, del: int, sub: int)

  ghost predicate NonNegative(c: Costs) {
    c.ins >= 0 && c.del >= 0 && c.sub >= 0
  }

  function Min(a: int, b: int): int {
    if a <= b then a else b
  }

  function SubCost<T(==)>(c: Costs, x: T, y: T): int {
    if x == y then 0 else c.sub
  }

  /** Cell (i, j) of the notional matrix: the first i characters of s against the first j of t. */
  ghost function Cell<T>(s: seq<T>, t: seq<T>, c: Costs, i: nat, j: nat): int
    requires i <= |s| && j <= |t|
  {
    if i == 0 && j == 0 then 0
    else if i == 0 then Cell(s, t, c, 0, j - 1) + c.ins
    else if j == 0 then Cell(s, t, c, i - 1, 0) + c.del
    else
      Min(Min(Cell(s, t, c, i, j - 1) + c.ins, Cell(s, t, c, i - 1, j) + c.del),
          Cell(s, t, c, i - 1, j - 1) + SubCost(c, s[i - 1], t[j - 1]))
  }

  /** The definition of one cell, for proofs that hide it. */
  lemma {:induction false} CellCases<T>(s: seq<T>, t: seq<T>, c: Costs, i: nat, j: nat)
    requires i <= |s| && j <= |t|
    ensures i == 0 && j == 0 ==> Cell(s, t, c, i, j) == 0
    ensures i == 0 && j > 0 ==> Cell(s, t, c, i, j) == Cell(s, t, c, 0, j - 1) + c.ins
    ensures i > 0 && j == 0 ==> Cell(s, t, c, i, j) == Cell(s, t, c, i - 1, 0) + c.del
    ensures i > 0 && j > 0 ==>
      Cell(s, t, c, i, j) ==
      Min(Min(Cell(s, t, c, i, j - 1) + c.ins, Cell(s, t, c, i - 1, j) + c.del),
          Cell(s, t, c, i - 1, j - 1) + SubCost(c, s[i - 1], t[j - 1]))
  {
  }

  /** The first row and column hold i deletions and j insertions. */
  lemma {:induction false} CellEdges<T>(s: seq<T>, t: seq<T>, c: Costs, k: nat)
    ensures k <= |s| ==> Cell(s, t, c, k, 0) == k * c.del
    ensures k <= |t| ==> Cell(s, t, c, 0, k) == k * c.ins
  {
    if k > 0 {
      CellEdges(s, t, c, k - 1);
      assert k * c.del == (k - 1) * c.del + c.del;
      assert k * c.ins == (k - 1) * c.ins + c.ins;
    }
  }

  ghost function Distance<T>(s: seq<T>, t: seq<T>, c: Costs): int {
    Cell(s, t, c, |s|, |t|)
  }

  // ---------------------------------------------------------------- edit scripts

  /** One edit: keep or drop the next source character, put another in its place, or add one.
      Replacing a character by itself is `Keep`, never `Replace`. */
  datatype Edit<T> = Keep | Delete | Insert(added: T) | Replace(replacement: T)

  datatype Option<+A> = None | Some(value: A)

  /** How far a script has read its source, and what it has written. */
  datatype Progress<T> = Progress(read: nat, written: seq<T>)

  function EditCost<T>(c: Costs, e: Edit<T>): int {
    match e
    case Keep => 0
    case Delete => c.del
    case Insert(_) => c.ins
    case Replace(_) => c.sub
  }

  function ScriptCost<T>(c: Costs, script: seq<Edit<T>>): int {
    if script == [] then 0
    else ScriptCost(c, script[..|script| - 1]) + EditCost(c, script[|script| - 1])
  }

  function Step<T(==)>(s: seq<T>, p: Progress<T>, e: Edit<T>): Option<Progress<T>> {
    match e
    case Insert(y) => Some(Progress(p.read, p.written + [y]))
    case Delete => if p.read < |s| then Some(Progress(p.read + 1, p.written)) else None
    case Keep => if p.read < |s| then Some(Progress(p.read + 1, p.written + [s[p.read]])) else None
    case Replace(y) =>
      if p.read < |s| && y != s[p.read] then Some(Progress(p.read + 1, p.written + [y])) else None
  }

  function Run<T(==)>(s: seq<T>, script: seq<Edit<T>>): Option<Progress<T>> {
    if script == [] then Some(Progress(0, []))
    else
      match Run(s, script[..|script| - 1])
      case None => None
      case Some(p) => Step(s, p, script[|script| - 1])
  }

  /** The script reads all of s and writes exactly t. */
  ghost predicate Turns<T>(s: seq<T>, script: seq<Edit<T>>, t: seq<T>) {
    Run(s, script) == Some(Progress(|s|, t))
  }

  lemma {:induction false} CellIsLowerBound<T>(s: seq<T>, t: seq<T>, c: Costs, script: seq<Edit<T>>, i: nat, j: nat)
    requires i <= |s| && j <= |t|
    requires Run(s, script) == Some(Progress(i, t[..j]))
    ensures Cell(s, t, c, i, j) <= ScriptCost(c, script)
    decreases |script|
  {
    hide Cell;
    CellCases(s, t, c, i, j);
    if script != [] {
      var init, e := script[..|script| - 1], script[|script| - 1];
      var p := Run(s, init).value;
      match e {
        case Delete =>
          CellIsLowerBound(s, t, c, init, i - 1, j);
          DeleteStep(s, t, c, i, j);
        case Insert(_) =>
          assert p.written == t[..j][..j - 1] == t[..j - 1];
          CellIsLowerBound(s, t, c, init, i, j - 1);
          InsertStep(s, t, c, i, j);
        case Keep =>
          assert p.written == t[..j][..j - 1] == t[..j - 1];
          assert t[j - 1] == t[..j][j - 1] == s[i - 1];
          CellIsLowerBound(s, t, c, init, i - 1, j - 1);
        case Replace(y) =>
          assert p.written == t[..j][..j - 1] == t[..j - 1];
          assert t[j - 1] == t[..j][j - 1] == y;
          CellIsLowerBound(s, t, c, init, i - 1, j - 1);
      }
    }
  }

  lemma {:induction false} InsertStep<T>(s: seq<T>, t: seq<T>, c: Costs, i: nat, j: nat)
    requires i <= |s| && 0 < j <= |t|
    ensures Cell(s, t, c, i, j) <= Cell(s, t, c, i, j - 1) + c.ins
  {
    hide Cell;
    CellCases(s, t, c, i, j);
  }

  lemma {:induction false} DeleteStep<T>(s: seq<T>, t: seq<T>, c: Costs, i: nat, j: nat)
    requires 0 < i <= |s| && j <= |t|
    ensures Cell(s, t, c, i, j) <= Cell(s, t, c, i - 1, j) + c.del
  {
    hide Cell;
    CellCases(s, t, c, i, j);
  }

  lemma {:induction false} RunExtends<T>(s: seq<T>, init: seq<Edit<T>>, e: Edit<T>)
    requires Run(s, init).Some?
    ensures Run(s, init + [e]) == Step(s, Run(s, init).value, e)
    ensures forall c: Costs :: ScriptCost(c, init + [e]) == ScriptCost(c, init) + EditCost(c, e)
  {
    assert (init + [e])[..|init + [e]| - 1] == init;
  }

  lemma {:induction false} CellIsAttained<T>(s: seq<T>, t: seq<T>, c: Costs, i: nat, j: nat) returns (script: seq<Edit<T>>)
    requires i <= |s| && j <= |t|
    ensures Run(s, script) == Some(Progress(i, t[..j]))
    ensures ScriptCost(c, script) == Cell(s, t, c, i, j)
    decreases i + j
  {
    hide Cell;
    CellCases(s, t, c, i, j);
    if i == 0 && j == 0 {
      script := [];
      return;
    }
    var init: seq<Edit<T>>, e: Edit<T>;
    if j > 0 && Cell(s, t, c, i, j) == Cell(s, t, c, i, j - 1) + c.ins {
      init := CellIsAttained(s, t, c, i, j - 1);
      e := Insert(t[j - 1]);
    } else if i > 0 && Cell(s, t, c, i, j) == Cell(s, t, c, i - 1, j) + c.del {
      init := CellIsAttained(s, t, c, i - 1, j);
      e := Delete;
    } else {
      init := CellIsAttained(s, t, c, i - 1, j - 1);
      e := if s[i - 1] == t[j - 1] then Keep else Replace(t[j - 1]);
    }
    RunExtends(s, init, e);
    if j > 0 { assert t[..j] == t[..j - 1] + [t[j - 1]]; }
    script := init + [e];
  }

  /** The distance is the least cost of a script turning s into t, whatever the costs. */
  lemma {:induction false} DistanceIsCheapestScript<T>(s: seq<T>, t: seq<T>, c: Costs)
    ensures exists script: seq<Edit<T>> :: Turns(s, script, t) && ScriptCost(c, script) == Distance(s, t, c)
    ensures forall script: seq<Edit<T>> :: Turns(s, script, t) ==> Distance(s, t, c) <= ScriptCost(c, script)
  {
    assert t[..|t|] == t;
    var best := CellIsAttained(s, t, c, |s|, |t|);
    assert Turns(s, best, t);
    forall script: seq<Edit<T>> | Turns(s, script, t)
      ensures Distance(s, t, c) <= ScriptCost(c, script)
    {
      CellIsLowerBound(s, t, c, script, |s|, |t|);
    }
  }

  // ---------------------------------------------------------------- metric laws

  lemma {:induction false} CellNonNegative<T>(s: seq<T>, t: seq<T>, c: Costs, i: nat, j: nat)
    requires i <= |s| && j <= |t| && NonNegative(c)
    ensures Cell(s, t, c, i, j) >= 0
    decreases i + j
  {
    hide Cell;
    CellCases(s, t, c, i, j);
    if i > 0 { CellNonNegative(s, t, c, i - 1, j); }
    if j > 0 { CellNonNegative(s, t, c, i, j - 1); }
    if i > 0 && j > 0 { CellNonNegative(s, t, c, i - 1, j - 1); }
  }

  lemma {:induction false} CellMirrors<T>(s: seq<T>, t: seq<T>, c: Costs, i: nat, j: nat)
    requires i <= |s| && j <= |t|
    ensures Cell(s, t, c, i, j) == Cell(t, s, Costs(c.del, c.ins, c.sub), j, i)
    decreases i + j
  {
    hide Cell;
    var mirrored := Costs(c.del, c.ins, c.sub);
    CellCases(s, t, c, i, j);
    CellCases(t, s, mirrored, j, i);
    if i > 0 { CellMirrors(s, t, c, i - 1, j); }
    if j > 0 { CellMirrors(s, t, c, i, j - 1); }
    if i > 0 && j > 0 { CellMirrors(s, t, c, i - 1, j - 1); }
  }

  lemma {:induction false} CellTriangle<T>(s: seq<T>, t: seq<T>, u: seq<T>, c: Costs, i: nat, j: nat, k: nat)
    requires i <= |s| && j <= |t| && k <= |u| && NonNegative(c)
    ensures Cell(s, u, c, i, k) <= Cell(s, t, c, i, j) + Cell(t, u, c, j, k)
    decreases i + j + k
  {
    hide Cell;
    CellCases(s, t, c, i, j);
    CellCases(t, u, c, j, k);
    CellCases(s, u, c, i, k);
    if i > 0 && Cell(s, t, c, i, j) == Cell(s, t, c, i - 1, j) + c.del {
      CellTriangle(s, t, u, c, i - 1, j, k);
      DeleteStep(s, u, c, i, k);
    } else if k > 0 && Cell(t, u, c, j, k) == Cell(t, u, c, j, k - 1) + c.ins {
      CellTriangle(s, t, u, c, i, j, k - 1);
      InsertStep(s, u, c, i, k);
    } else if j > 0 {
      CellTriangleInner(s, t, u, c, i, j, k);
    }
  }

  /** The cases of the triangle in which the last character of the middle text takes part in both halves. */
  lemma {:induction false} CellTriangleInner<T>(s: seq<T>, t: seq<T>, u: seq<T>, c: Costs, i: nat, j: nat, k: nat)
    requires i <= |s| && 0 < j <= |t| && k <= |u| && NonNegative(c)
    requires i > 0 ==> Cell(s, t, c, i, j) != Cell(s, t, c, i - 1, j) + c.del
    requires k > 0 ==> Cell(t, u, c, j, k) != Cell(t, u, c, j, k - 1) + c.ins
    ensures Cell(s, u, c, i, k) <= Cell(s, t, c, i, j) + Cell(t, u, c, j, k)
    decreases i + j + k, 0
  {
    hide Cell;
    CellCases(s, t, c, i, j);
    CellCases(t, u, c, j, k);
    CellCases(s, u, c, i, k);
    var inserted := Cell(s, t, c, i, j) == Cell(s, t, c, i, j - 1) + c.ins;
    var deleted := Cell(t, u, c, j, k) == Cell(t, u, c, j - 1, k) + c.del;
    if inserted && deleted {
      CellTriangle(s, t, u, c, i, j - 1, k);
    } else if inserted {
      CellTriangle(s, t, u, c, i, j - 1, k - 1);
      InsertStep(s, u, c, i, k);
    } else if deleted {
      CellTriangle(s, t, u, c, i - 1, j - 1, k);
      DeleteStep(s, u, c, i, k);
    } else {
      CellTriangle(s, t, u, c, i - 1, j - 1, k - 1);
    }
  }

  lemma {:induction false} CellZero<T>(s: seq<T>, t: seq<T>, c: Costs, i: nat, j: nat)
    requires i <= |s| && j <= |t| && c.ins > 0 && c.del > 0 && c.sub > 0
    ensures Cell(s, t, c, i, j) == 0 <==> s[..i] == t[..j]
    decreases i + j
  {
    hide Cell;
    CellCases(s, t, c, i, j);
    if i > 0 { CellNonNegative(s, t, c, i - 1, j); }
    if j > 0 { CellNonNegative(s, t, c, i, j - 1); }
    if i > 0 && j > 0 {
      CellNonNegative(s, t, c, i - 1, j - 1);
      CellZero(s, t, c, i - 1, j - 1);
      SnocEqual(s, t, i, j);
    }
  }

  lemma {:induction false} SnocEqual<T>(s: seq<T>, t: seq<T>, i: nat, j: nat)
    requires 0 < i <= |s| && 0 < j <= |t|
    ensures s[..i] == t[..j] <==> s[..i - 1] == t[..j - 1] && s[i - 1] == t[j - 1]
  {
    assert s[..i] == s[..i - 1] + [s[i - 1]];
    assert t[..j] == t[..j - 1] + [t[j - 1]];
    if s[..i] == t[..j] {
      assert s[..i - 1] == s[..i][..i - 1] == t[..j][..j - 1] == t[..j - 1];
    }
  }

  /** With positive costs, insertion as dear as deletion, the distance is a metric. The laws
      below hold separately for wider costs: the triangle for every non-negative triple. */
  lemma {:induction false} DistanceIsMetric<T>(s: seq<T>, t: seq<T>, u: seq<T>, c: Costs)
    requires c.ins == c.del > 0 && c.sub > 0
    ensures Distance(s, t, c) >= 0
    ensures Distance(s, t, c) == 0 <==> s == t
    ensures Distance(s, t, c) == Distance(t, s, c)
    ensures Distance(s, u, c) <= Distance(s, t, c) + Distance(t, u, c)
  {
    CellNonNegative(s, t, c, |s|, |t|);
    CellZero(s, t, c, |s|, |t|);
    assert s[..|s|] == s && t[..|t|] == t;
    CellMirrors(s, t, c, |s|, |t|);
    CellTriangle(s, t, u, c, |s|, |t|, |u|);
  }
}
