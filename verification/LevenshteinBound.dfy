/** contrib/fuzzystrmatch/levenshtein.c compiled with a bound: the computation keeps only the columns
    that can still lead to an answer within the bound and gives up once there are none. */
module LevenshteinBound {
  import opened EditDistance
  import opened Levenshtein

  // ---------------------------------------------------------------- residual distance

  /** The least that can still be spent when the rest of t is `net` characters longer than the rest of s. */
  function Residual(c: Costs, net: int): int {
    if net > 0 then net * c.ins else -net * c.del
  }

  lemma {:induction false} ResidualSteps(c: Costs, net: int)
    requires c.ins + c.del >= 0
    ensures Residual(c, net) <= Residual(c, net - 1) + c.ins
    ensures Residual(c, net) <= Residual(c, net + 1) + c.del
    ensures net < 0 ==> Residual(c, net) == Residual(c, net + 1) + c.del
    ensures net >= 0 ==> Residual(c, net + 1) == Residual(c, net) + c.ins
  {
    assert (net + 1) * c.ins == net * c.ins + c.ins;
    assert (net - 1) * c.ins == net * c.ins - c.ins;
    assert -(net + 1) * c.del == -net * c.del - c.del;
    assert -(net - 1) * c.del == -net * c.del + c.del;
  }

  lemma {:induction false} ResidualSign(c: Costs, net: int)
    ensures c.ins >= 0 && c.del >= 0 ==> Residual(c, net) >= 0
    ensures c.ins <= 0 && c.del <= 0 ==> Residual(c, net) <= 0
  {
  }

  lemma {:induction false} ResidualIgnoresSub(c: Costs, d: Costs, net: int)
    requires c.ins == d.ins && c.del == d.del
    ensures Residual(c, net) == Residual(d, net)
  {
  }

  /** By how much the rest of t is longer than the rest of s at cell (i, j). */
  function Net<T>(s: seq<T>, t: seq<T>, i: int, j: int): int {
    i - (j - (|t| - |s|))
  }

  /** A cell that may still lead to an answer within the bound; a negative bound means there is none. */
  ghost predicate Live<T>(s: seq<T>, t: seq<T>, c: Costs, maxD: int, i: nat, j: nat)
    requires i <= |s| && j <= |t|
  {
    maxD < 0 || Cell(s, t, c, i, j) + Residual(c, Net(s, t, i, j)) <= maxD
  }

  ghost predicate Admissible(c: Costs, maxD: int) {
    maxD >= 0 ==> NonNegative(c)
  }

  /** Values never decrease down a diagonal. */
  lemma {:induction false} DiagonalMonotone<T>(s: seq<T>, t: seq<T>, c: Costs, i: nat, j: nat)
    requires 0 < i <= |s| && 0 < j <= |t| && NonNegative(c)
    ensures Cell(s, t, c, i - 1, j - 1) <= Cell(s, t, c, i, j)
    decreases i + j
  {
    hide Cell;
    CellCases(s, t, c, i, j);
    CellCases(s, t, c, i - 1, j);
    CellCases(s, t, c, i, j - 1);
    var corner := Cell(s, t, c, i - 1, j - 1);
    assert corner <= Cell(s, t, c, i - 1, j) + c.del by {
      if i > 1 { DiagonalMonotone(s, t, c, i - 1, j); DeleteStep(s, t, c, i - 1, j - 1); }
    }
    assert corner <= Cell(s, t, c, i, j - 1) + c.ins by {
      if j > 1 { DiagonalMonotone(s, t, c, i, j - 1); InsertStep(s, t, c, i - 1, j - 1); }
    }
  }

  /** The cell above-left of a live cell is live; in the first column, the cell above. */
  lemma {:induction false} LiveAbove<T>(s: seq<T>, t: seq<T>, c: Costs, maxD: int, i: nat, j: nat)
    requires i <= |s| && 0 < j <= |t| && Admissible(c, maxD) && Live(s, t, c, maxD, i, j)
    ensures i > 0 ==> Live(s, t, c, maxD, i - 1, j - 1)
    ensures i == 0 ==> Live(s, t, c, maxD, 0, j - 1)
  {
    hide Cell;
    CellCases(s, t, c, i, j);
    if maxD >= 0 {
      if i > 0 { DiagonalMonotone(s, t, c, i, j); } else { ResidualSteps(c, Net(s, t, i, j) + 1); }
    }
  }

  /** Left of the zero point, the cell to the right of a live cell is live. */
  lemma {:induction false} LiveToTheRight<T>(s: seq<T>, t: seq<T>, c: Costs, maxD: int, i: nat, j: nat)
    requires i < |s| && j <= |t| && NonNegative(c) && Live(s, t, c, maxD, i, j)
    requires Net(s, t, i, j) < 0
    ensures Live(s, t, c, maxD, i + 1, j)
  {
    hide Cell;
    DeleteStep(s, t, c, i + 1, j);
    ResidualSteps(c, Net(s, t, i, j));
  }

  lemma {:induction false} LiveReachesZeroPoint<T>(s: seq<T>, t: seq<T>, c: Costs, maxD: int, i: nat)
    requires i <= |s| && NonNegative(c) && Live(s, t, c, maxD, i, |t|)
    ensures Live(s, t, c, maxD, |s|, |t|)
    decreases |s| - i
  {
    hide Cell;
    if i < |s| {
      LiveToTheRight(s, t, c, maxD, i, |t|);
      LiveReachesZeroPoint(s, t, c, maxD, i + 1);
    }
  }

  lemma {:induction false} LiveInEveryRow<T>(s: seq<T>, t: seq<T>, c: Costs, maxD: int, i: nat, j: nat, j0: nat)
    requires i <= |s| && j0 <= j <= |t| && Admissible(c, maxD) && Live(s, t, c, maxD, i, j)
    ensures exists k: nat :: k <= |s| && Live(s, t, c, maxD, k, j0)
    decreases j
  {
    hide Cell;
    if j0 < j {
      LiveAbove(s, t, c, maxD, i, j);
      LiveInEveryRow(s, t, c, maxD, if i > 0 then i - 1 else 0, j - 1, j0);
    }
  }

  /** The theoretical minimum is a lower bound of the distance, even if one cost of the two is negative. */
  lemma {:induction false} TheoreticalMinimum<T>(s: seq<T>, t: seq<T>, c: Costs, i: nat, j: nat)
    requires i <= |s| && j <= |t| && c.ins + c.del >= 0 && c.sub >= 0
    ensures Residual(c, j - i) <= Cell(s, t, c, i, j)
    decreases i + j
  {
    hide Cell;
    if i == 0 || j == 0 {
      CellEdges(s, t, c, i + j);
    } else {
      CellCases(s, t, c, i, j);
      ResidualSteps(c, j - i);
      TheoreticalMinimum(s, t, c, i, j - 1);
      TheoreticalMinimum(s, t, c, i - 1, j);
      TheoreticalMinimum(s, t, c, i - 1, j - 1);
    }
  }

  /** Deleting and inserting is one way to pass a diagonal. */
  lemma {:induction false} DiagonalDetour<T>(s: seq<T>, t: seq<T>, c: Costs, i: nat, j: nat)
    requires 0 < i <= |s| && 0 < j <= |t|
    ensures Cell(s, t, c, i, j) <= Cell(s, t, c, i - 1, j - 1) + c.ins + c.del
  {
    hide Cell;
    InsertStep(s, t, c, i - 1, j);
    DeleteStep(s, t, c, i, j);
  }

  /** A substitution never needs to cost more than a deletion and an insertion. */
  lemma {:induction false} LoweredSubstitution<T>(s: seq<T>, t: seq<T>, c: Costs, lowered: Costs, i: nat, j: nat)
    requires i <= |s| && j <= |t| && c.ins + c.del < c.sub
    requires lowered == Costs(c.ins, c.del, c.ins + c.del)
    ensures Cell(s, t, c, i, j) == Cell(s, t, lowered, i, j)
    decreases i + j
  {
    hide Cell;
    if i == 0 || j == 0 {
      CellEdges(s, t, c, i + j);
      CellEdges(s, t, lowered, i + j);
    } else {
      LoweredSubstitution(s, t, c, lowered, i - 1, j);
      LoweredSubstitution(s, t, c, lowered, i, j - 1);
      LoweredSubstitution(s, t, c, lowered, i - 1, j - 1);
      DiagonalDetour(s, t, c, i, j);
      CellCases(s, t, c, i, j);
      CellCases(s, t, lowered, i, j);
    }
  }

  // ---------------------------------------------------------------- the band as a function

  /** The columns of one row still kept; every other column reads as one more than the bound. */
  datatype Window = Window(row: seq<int>, start: nat, stop: nat)

  ghost function Mask(row: seq<int>, maxD: int, start: nat, stop: nat): (r: seq<int>)
    ensures |r| == |row|
  {
    seq(|row|, i requires 0 <= i < |row| => if start <= i < stop then row[i] else maxD + 1)
  }

  /** The value the inner loop gives column i of row j. */
  ghost function NextCell<T>(s: seq<T>, y: T, c: Costs, maxD: int, j: nat, row: seq<int>, start: nat, i: nat): int
    requires |row| == |s| + 1 && i <= |s|
  {
    if i < start then maxD + 1
    else if i == 0 then j * c.ins
    else
      Min(Min(row[i] + c.ins, NextCell(s, y, c, maxD, j, row, start, i - 1) + c.del),
          row[i - 1] + SubCost(c, s[i - 1], y))
  }

  ghost function NextRow<T>(s: seq<T>, y: T, c: Costs, maxD: int, j: nat, row: seq<int>, start: nat, stop: nat): (r: seq<int>)
    requires |row| == |s| + 1
    ensures |r| == |row|
  {
    seq(|row|, i requires 0 <= i < |row| =>
      if i < stop then NextCell(s, y, c, maxD, j, row, start, i) else maxD + 1)
  }

  /** The test by which a column survives at either end of the window. */
  predicate Kept<T>(s: seq<T>, t: seq<T>, c: Costs, maxD: int, j: int, v: int, i: int) {
    v + Residual(c, Net(s, t, i, j)) <= maxD
  }

  ghost function StopAt<T>(s: seq<T>, t: seq<T>, c: Costs, maxD: int, j: nat, row: seq<int>, stop: nat): (r: nat)
    requires stop <= |row|
    ensures r <= stop
  {
    if stop == 0 || Kept(s, t, c, maxD, j, row[stop - 1], stop - 1) then stop
    else StopAt(s, t, c, maxD, j, row, stop - 1)
  }

  ghost function StartAt<T>(s: seq<T>, t: seq<T>, c: Costs, maxD: int, j: nat, row: seq<int>, start: nat, stop: nat): (r: nat)
    requires stop <= |row|
    ensures start <= r && (start <= stop ==> r <= stop)
    decreases stop - start
  {
    if start >= stop || Kept(s, t, c, maxD, j, row[start], start) then start
    else StartAt(s, t, c, maxD, j, row, start + 1, stop)
  }

  /** What the computation returns; Stale if it ends with the last column outside the window and so returns
      whatever the row holds there. */
  datatype Outcome = Returns(result: Result) | Stale

  ghost predicate Fits<T>(s: seq<T>, w: Window) {
    |w.row| == |s| + 1 && w.stop <= |s| + 1
  }

  /** The window after row j, before it is narrowed. */
  ghost function Widened<T>(s: seq<T>, t: seq<T>, c: Costs, maxD: int, j: nat, w: Window): (r: Window)
    requires 0 < j <= |t| && Fits(s, w)
    ensures Fits(s, r)
  {
    var stop := if w.stop < |s| + 1 then w.stop + 1 else w.stop;
    Window(NextRow(s, t[j - 1], c, maxD, j, w.row, w.start, stop), w.start, stop)
  }

  ghost function Narrowed<T>(s: seq<T>, t: seq<T>, c: Costs, maxD: int, j: nat, w: Window): (r: Window)
    requires Fits(s, w)
    ensures Fits(s, r)
  {
    var stop := StopAt(s, t, c, maxD, j, w.row, w.stop);
    var start := StartAt(s, t, c, maxD, j, w.row, w.start, stop);
    Window(Mask(w.row, maxD, start, stop), start, stop)
  }

  /** Rows j and below, from the window of the row above. */
  ghost function Rows<T>(s: seq<T>, t: seq<T>, c: Costs, maxD: int, j: nat, w: Window): Outcome
    requires 0 < j <= |t| + 1 && Fits(s, w)
    decreases |t| + 1 - j
  {
    if j == |t| + 1 then
      if w.stop == |s| + 1 then Returns(Distance(w.row[|s|])) else Stale
    else
      var wide := Widened(s, t, c, maxD, j, w);
      if maxD < 0 then Rows(s, t, c, maxD, j + 1, wide)
      else
        var narrow := Narrowed(s, t, c, maxD, j, wide);
        if narrow.start >= narrow.stop then Returns(Distance(maxD + 1))
        else Rows(s, t, c, maxD, j + 1, narrow)
  }

  ghost function TopWindow(m: nat, c: Costs, maxD: int, stop: nat): Window {
    Window(Mask(seq(m + 1, i => i * c.del), maxD, 0, stop), 0, stop)
  }

  function Lowered(c: Costs): Costs {
    if c.ins + c.del < c.sub then c.(sub := c.ins + c.del) else c
  }

  /** How many columns of the top row the slack leaves. */
  function FirstStop(m: nat, n: nat, c: Costs, maxD: int): (stop: nat)
    requires 0 < m && Residual(c, n - m) <= maxD
    ensures 0 < stop <= m + 1
  {
    if c.ins + c.del <= 0 then m + 1
    else
      var best := if n < m then m - n else 0;
      var stop := best + (maxD - Residual(c, n - m)) / (c.ins + c.del) + 1;
      if stop > m then m + 1 else stop
  }

  /** No answer can exceed the bound. */
  predicate Loose(m: nat, n: nat, c: Costs, maxD: int) {
    maxD >= Residual(c, n - m) + Lowered(c).sub * Min(m, n)
  }

  /** The bounded computation for any costs and any bound. */
  ghost function Bounded<T>(s: seq<T>, t: seq<T>, c: Costs, maxD: int): Outcome {
    if s == [] then Returns(Distance(|t| * c.ins))
    else if t == [] then Returns(Distance(|s| * c.del))
    else if TooLong(s, t) then Returns(ArgumentTooLong)
    else if maxD < 0 then Rows(s, t, c, maxD, 1, TopWindow(|s|, c, maxD, |s| + 1))
    else if Residual(c, |t| - |s|) > maxD then Returns(Distance(maxD + 1))
    else if Loose(|s|, |t|, c, maxD) then
      Rows(s, t, Lowered(c), -1, 1, TopWindow(|s|, c, -1, |s| + 1))
    else
      Rows(s, t, Lowered(c), maxD, 1, TopWindow(|s|, c, maxD, FirstStop(|s|, |t|, c, maxD)))
  }

  // ---------------------------------------------------------------- what the window knows

  /** What a stored value says of its cell: exact if the cell is live, otherwise never too small
      to be mistaken for an answer within the bound. */
  ghost predicate Approximates<T>(s: seq<T>, t: seq<T>, c: Costs, maxD: int, v: int, i: nat, j: nat)
    requires i <= |s| && j <= |t|
  {
    && (Live(s, t, c, maxD, i, j) ==> v == Cell(s, t, c, i, j))
    && (maxD >= 0 ==> v >= Min(Cell(s, t, c, i, j), maxD + 1))
  }

  /** All live cells of row j lie in [start, stop). */
  ghost predicate Encloses<T>(s: seq<T>, t: seq<T>, c: Costs, maxD: int, j: nat, start: int, stop: int)
    requires j <= |t|
  {
    forall i: nat :: i <= |s| && Live(s, t, c, maxD, i, j) ==> start <= i < stop
  }

  lemma {:induction false} EnclosesNextRow<T>(s: seq<T>, t: seq<T>, c: Costs, maxD: int, j: nat, start: int, stop: int)
    requires 0 < j <= |t| && Admissible(c, maxD) && start >= 0
    requires Encloses(s, t, c, maxD, j - 1, start, stop)
    ensures Encloses(s, t, c, maxD, j, start, stop + 1)
  {
    hide Cell;
    forall i: nat | i <= |s| && Live(s, t, c, maxD, i, j)
      ensures start <= i < stop + 1
    {
      LiveAbove(s, t, c, maxD, i, j);
    }
  }

  /** One cell of the inner loop. */
  lemma {:induction false} ApproximatesFromNeighbours<T>(s: seq<T>, t: seq<T>, c: Costs, maxD: int, i: nat, j: nat, up: int, left: int, diag: int)
    requires 0 < i <= |s| && 0 < j <= |t| && Admissible(c, maxD)
    requires Approximates(s, t, c, maxD, up, i, j - 1)
    requires Approximates(s, t, c, maxD, left, i - 1, j)
    requires Approximates(s, t, c, maxD, diag, i - 1, j - 1)
    ensures Approximates(s, t, c, maxD, Min(Min(up + c.ins, left + c.del), diag + SubCost(c, s[i - 1], t[j - 1])), i, j)
  {
    hide Cell, Residual;
    CellCases(s, t, c, i, j);
    if maxD >= 0 && Live(s, t, c, maxD, i, j) {
      var net := Net(s, t, i, j);
      ResidualSign(c, net);
      ResidualSign(c, net - 1);
      ResidualSign(c, net + 1);
      ResidualSteps(c, net - 1);
      ResidualSteps(c, net);
      ResidualSteps(c, net + 1);
      assert Net(s, t, i, j - 1) == net + 1 && Net(s, t, i - 1, j) == net - 1 && Net(s, t, i - 1, j - 1) == net;
    }
  }

  /** A column outside the window approximates its cell. */
  lemma {:induction false} PoisonApproximates<T>(s: seq<T>, t: seq<T>, c: Costs, maxD: int, j: nat, start: int, stop: int, i: nat)
    requires i <= |s| && j <= |t| && maxD >= 0
    requires Encloses(s, t, c, maxD, j, start, stop) && !(start <= i < stop)
    ensures Approximates(s, t, c, maxD, maxD + 1, i, j)
  {
    hide Cell, Residual;
  }

  /** The window of row j: it encloses every live cell and every column approximates its cell. */
  ghost predicate Tracks<T>(s: seq<T>, t: seq<T>, c: Costs, maxD: int, j: nat, w: Window)
    requires j <= |t|
  {
    && Fits(s, w)
    && (maxD < 0 ==> w.start == 0 && w.stop == |s| + 1)
    && Encloses(s, t, c, maxD, j, w.start, w.stop)
    && forall i: nat :: i <= |s| ==> Approximates(s, t, c, maxD, w.row[i], i, j)
  }

  lemma {:induction false} NextCellApproximates<T>(s: seq<T>, t: seq<T>, c: Costs, maxD: int, j: nat, w: Window, stop: int, i: nat)
    requires 0 < j <= |t| && Admissible(c, maxD) && Tracks(s, t, c, maxD, j - 1, w)
    requires Encloses(s, t, c, maxD, j, w.start, stop)
    requires i <= |s|
    ensures Approximates(s, t, c, maxD, NextCell(s, t[j - 1], c, maxD, j, w.row, w.start, i), i, j)
    decreases i
  {
    hide Cell, Residual, Approximates, Encloses;
    if i < w.start {
      PoisonApproximates(s, t, c, maxD, j, w.start, stop, i);
    } else if i == 0 {
      EdgeApproximates(s, t, c, maxD, j);
    } else {
      NextCellApproximates(s, t, c, maxD, j, w, stop, i - 1);
      ApproximatesFromNeighbours(s, t, c, maxD, i, j, w.row[i],
        NextCell(s, t[j - 1], c, maxD, j, w.row, w.start, i - 1), w.row[i - 1]);
    }
  }

  lemma {:induction false} EdgeApproximates<T>(s: seq<T>, t: seq<T>, c: Costs, maxD: int, j: nat)
    requires j <= |t|
    ensures Approximates(s, t, c, maxD, j * c.ins, 0, j)
  {
    CellEdges(s, t, c, j);
  }

  lemma {:induction false} WidenedTracks<T>(s: seq<T>, t: seq<T>, c: Costs, maxD: int, j: nat, w: Window)
    requires 0 < j <= |t| && Admissible(c, maxD) && Tracks(s, t, c, maxD, j - 1, w)
    ensures Tracks(s, t, c, maxD, j, Widened(s, t, c, maxD, j, w))
  {
    hide Cell, Residual, Approximates, NextCell;
    var wide := Widened(s, t, c, maxD, j, w);
    EnclosesNextRow(s, t, c, maxD, j, w.start, w.stop);
    assert Encloses(s, t, c, maxD, j, wide.start, wide.stop);
    forall i: nat | i <= |s|
      ensures Approximates(s, t, c, maxD, wide.row[i], i, j)
    {
      if i < wide.stop {
        NextCellApproximates(s, t, c, maxD, j, w, wide.stop, i);
      } else {
        PoisonApproximates(s, t, c, maxD, j, wide.start, wide.stop, i);
      }
    }
  }

  lemma {:induction false} DroppedIsDead<T>(s: seq<T>, t: seq<T>, c: Costs, maxD: int, j: nat, v: int, i: nat)
    requires i <= |s| && j <= |t| && maxD >= 0
    requires Approximates(s, t, c, maxD, v, i, j) && !Kept(s, t, c, maxD, j, v, i)
    ensures !Live(s, t, c, maxD, i, j)
  {
    hide Cell, Residual;
  }

  lemma {:induction false} KeptIsLive<T>(s: seq<T>, t: seq<T>, c: Costs, maxD: int, j: nat, v: int, i: nat)
    requires i <= |s| && j <= |t| && NonNegative(c)
    requires Approximates(s, t, c, maxD, v, i, j) && Kept(s, t, c, maxD, j, v, i)
    ensures Live(s, t, c, maxD, i, j)
  {
    hide Cell, Residual;
    ResidualSign(c, Net(s, t, i, j));
  }

  lemma {:induction false} StopEncloses<T>(s: seq<T>, t: seq<T>, c: Costs, maxD: int, j: nat, w: Window, stop: nat)
    requires j <= |t| && maxD >= 0 && NonNegative(c) && Tracks(s, t, c, maxD, j, w) && stop <= w.stop
    requires Encloses(s, t, c, maxD, j, w.start, stop)
    ensures var r := StopAt(s, t, c, maxD, j, w.row, stop);
            && Encloses(s, t, c, maxD, j, w.start, r)
            && (r > 0 ==> Live(s, t, c, maxD, r - 1, j))
    decreases stop
  {
    hide Cell, Residual, Approximates, Live, Kept;
    if stop > 0 {
      assert Approximates(s, t, c, maxD, w.row[stop - 1], stop - 1, j);
      if Kept(s, t, c, maxD, j, w.row[stop - 1], stop - 1) {
        KeptIsLive(s, t, c, maxD, j, w.row[stop - 1], stop - 1);
      } else {
        DroppedIsDead(s, t, c, maxD, j, w.row[stop - 1], stop - 1);
        StopEncloses(s, t, c, maxD, j, w, stop - 1);
      }
    }
  }

  lemma {:induction false} StartEncloses<T>(s: seq<T>, t: seq<T>, c: Costs, maxD: int, j: nat, w: Window, start: nat, stop: nat)
    requires j <= |t| && maxD >= 0 && Tracks(s, t, c, maxD, j, w) && stop <= w.stop
    requires Encloses(s, t, c, maxD, j, start, stop)
    ensures Encloses(s, t, c, maxD, j, StartAt(s, t, c, maxD, j, w.row, start, stop), stop)
    decreases stop - start
  {
    hide Cell, Residual, Approximates, Live, Kept;
    if start < stop && !Kept(s, t, c, maxD, j, w.row[start], start) {
      assert Approximates(s, t, c, maxD, w.row[start], start, j);
      DroppedIsDead(s, t, c, maxD, j, w.row[start], start);
      StartEncloses(s, t, c, maxD, j, w, start + 1, stop);
    }
  }

  lemma {:induction false} NarrowedTracks<T>(s: seq<T>, t: seq<T>, c: Costs, maxD: int, j: nat, w: Window)
    requires j <= |t| && maxD >= 0 && NonNegative(c) && Tracks(s, t, c, maxD, j, w)
    ensures var r := Narrowed(s, t, c, maxD, j, w);
            && Tracks(s, t, c, maxD, j, r)
            && (r.start < r.stop ==> Live(s, t, c, maxD, r.stop - 1, j))
  {
    hide Cell, Residual, Approximates, Live, StopAt, StartAt;
    var r := Narrowed(s, t, c, maxD, j, w);
    StopEncloses(s, t, c, maxD, j, w, w.stop);
    StartEncloses(s, t, c, maxD, j, w, w.start, r.stop);
    forall i: nat | i <= |s|
      ensures Approximates(s, t, c, maxD, r.row[i], i, j)
    {
      if !(r.start <= i < r.stop) { PoisonApproximates(s, t, c, maxD, j, r.start, r.stop, i); }
    }
  }

  /** An empty window means that the distance exceeds the bound. */
  lemma {:induction false} EmptyWindow<T>(s: seq<T>, t: seq<T>, c: Costs, maxD: int, j: nat, start: int, stop: int)
    requires NonNegative(c) && maxD >= 0 && j <= |t| && start >= stop
    requires Encloses(s, t, c, maxD, j, start, stop)
    ensures EditDistance.Distance(s, t, c) > maxD
  {
    if EditDistance.Distance(s, t, c) <= maxD {
      LiveInEveryRow(s, t, c, maxD, |s|, |t|, j);
    }
  }

  /** The answer the bounded computation owes: exact up to the bound, anything above it beyond. */
  ghost predicate Answers<T>(s: seq<T>, t: seq<T>, c: Costs, maxD: int, value: int) {
    var d := EditDistance.Distance(s, t, c);
    if maxD < 0 || d <= maxD then value == d else value > maxD
  }

  lemma {:induction false} LastRowAnswers<T>(s: seq<T>, t: seq<T>, c: Costs, maxD: int, w: Window)
    requires Admissible(c, maxD) && Tracks(s, t, c, maxD, |t|, w)
    requires maxD >= 0 ==> 0 < w.stop && Live(s, t, c, maxD, w.stop - 1, |t|)
    ensures w.stop == |s| + 1 && Answers(s, t, c, maxD, w.row[|s|])
  {
    hide Cell, Residual;
    if maxD >= 0 {
      LiveReachesZeroPoint(s, t, c, maxD, w.stop - 1);
      ResidualSign(c, 0);
    }
    assert Live(s, t, c, maxD, |s|, |t|);
  }

  lemma {:induction false} RowsAnswer<T>(s: seq<T>, t: seq<T>, c: Costs, maxD: int, j: nat, w: Window)
    requires 0 < j <= |t| + 1 && Admissible(c, maxD) && Fits(s, w) && Tracks(s, t, c, maxD, j - 1, w)
    requires j == |t| + 1 && maxD >= 0 ==> 0 < w.stop && Live(s, t, c, maxD, w.stop - 1, |t|)
    ensures var r := Rows(s, t, c, maxD, j, w);
            r.Returns? && r.result.Distance? && Answers(s, t, c, maxD, r.result.value)
    decreases |t| + 1 - j
  {
    hide Cell, Residual, Tracks, Live, Answers, Widened, Narrowed;
    if j == |t| + 1 {
      LastRowAnswers(s, t, c, maxD, w);
    } else {
      var wide := Widened(s, t, c, maxD, j, w);
      WidenedTracks(s, t, c, maxD, j, w);
      if maxD < 0 {
        RowsAnswer(s, t, c, maxD, j + 1, wide);
      } else {
        NarrowedTracks(s, t, c, maxD, j, wide);
        var narrow := Narrowed(s, t, c, maxD, j, wide);
        if narrow.start >= narrow.stop {
          GivingUpAnswers(s, t, c, maxD, j, narrow);
        } else {
          RowsAnswer(s, t, c, maxD, j + 1, narrow);
        }
      }
    }
  }

  lemma {:induction false} GivingUpAnswers<T>(s: seq<T>, t: seq<T>, c: Costs, maxD: int, j: nat, w: Window)
    requires j <= |t| && maxD >= 0 && NonNegative(c) && Tracks(s, t, c, maxD, j, w) && w.start >= w.stop
    ensures Answers(s, t, c, maxD, maxD + 1)
  {
    hide Cell, Residual;
    EmptyWindow(s, t, c, maxD, j, w.start, w.stop);
  }

  // ---------------------------------------------------------------- the top row

  /** The stop column computed from the slack leaves out no live cell of the top row. */
  lemma {:induction false} InitialBand<T>(s: seq<T>, t: seq<T>, c: Costs, maxD: int, stop: int)
    requires NonNegative(c) && maxD >= 0 && c.ins + c.del > 0
    requires Residual(c, |t| - |s|) <= maxD
    requires
      var best := if |t| < |s| then |s| - |t| else 0;
      var slack := maxD - Residual(c, |t| - |s|);
      stop >= best + slack / (c.ins + c.del) + 1
    ensures Encloses(s, t, c, maxD, 0, 0, stop)
  {
    hide Cell, Residual;
    var best := if |t| < |s| then |s| - |t| else 0;
    var slack := maxD - Residual(c, |t| - |s|);
    forall i: nat | i <= |s| && Live(s, t, c, maxD, i, 0)
      ensures i < stop
    {
      if i > best {
        CellEdges(s, t, c, i);
        TopRowCost(c, |t| - |s|, i);
        QuotientBound(i - best, c.ins + c.del, slack);
      }
    }
  }

  lemma {:induction false} QuotientBound(k: int, unit: int, total: int)
    requires unit > 0 && k * unit <= total
    ensures k <= total / unit
  {
    var q := total / unit;
    assert total < (q + 1) * unit;
    if q + 1 <= k { ScaleMonotone(q + 1, k, unit); }
  }

  lemma {:induction false} ScaleMonotone(a: int, b: int, unit: int)
    requires unit >= 0 && a <= b
    ensures a * unit <= b * unit
  {
    assert (b - a) * unit >= 0;
  }

  lemma {:induction false} TopRowCost(c: Costs, net: int, i: nat)
    requires i > -net
    ensures var best := if net < 0 then -net else 0;
            i * c.del + Residual(c, i + net) == Residual(c, net) + (i - best) * (c.ins + c.del)
  {
    var best := if net < 0 then -net else 0;
    assert (i + net) * c.ins == i * c.ins + net * c.ins;
    assert (i - best) * (c.ins + c.del) == (i - best) * c.ins + (i - best) * c.del;
    assert (i - best) * c.ins == i * c.ins - best * c.ins;
    assert (i - best) * c.del == i * c.del - best * c.del;
  }

  lemma {:induction false} TopTracks<T>(s: seq<T>, t: seq<T>, c: Costs, maxD: int, stop: nat)
    requires 0 < stop <= |s| + 1 && Encloses(s, t, c, maxD, 0, 0, stop) && (maxD < 0 ==> stop == |s| + 1)
    ensures Tracks(s, t, c, maxD, 0, TopWindow(|s|, c, maxD, stop))
  {
    hide Cell, Residual, Encloses;
    var w := TopWindow(|s|, c, maxD, stop);
    forall i: nat | i <= |s|
      ensures Approximates(s, t, c, maxD, w.row[i], i, 0)
    {
      CellEdges(s, t, c, i);
      if i >= stop { PoisonApproximates(s, t, c, maxD, 0, 0, stop, i); }
    }
  }

  lemma {:induction false} FirstStopEncloses<T>(s: seq<T>, t: seq<T>, c: Costs, maxD: int)
    requires s != [] && NonNegative(c) && maxD >= 0 && Residual(c, |t| - |s|) <= maxD
    ensures Encloses(s, t, c, maxD, 0, 0, FirstStop(|s|, |t|, c, maxD))
  {
    hide Cell, Residual;
    if c.ins + c.del > 0 {
      var best := if |t| < |s| then |s| - |t| else 0;
      InitialBand(s, t, c, maxD, best + (maxD - Residual(c, |t| - |s|)) / (c.ins + c.del) + 1);
    }
  }

  // ---------------------------------------------------------------- when a bound is safe

  /** The costs for which the bounded computation is right whatever the texts and the bound: neither an
      insertion nor a deletion costs anything; or no cost is negative; or only one of those two is, the
      other makes up for it, and the band is never used because substituting costs nothing. */
  predicate Safe(c: Costs) {
    || (c.ins <= 0 && c.del <= 0)
    || (c.ins + c.del >= 0 && c.sub >= 0 && ((c.ins >= 0 && c.del >= 0) || c.ins + c.del == 0 || c.sub == 0))
  }

  /** The outcome is the answer owed. */
  ghost predicate IsRight<T>(s: seq<T>, t: seq<T>, c: Costs, maxD: int, r: Outcome) {
    match r
    case Stale => false
    case Returns(ArgumentTooLong) => s != [] && t != [] && (|s| > 255 || |t| > 255)
    case Returns(Distance(value)) => !(s != [] && t != [] && (|s| > 255 || |t| > 255)) && Answers(s, t, c, maxD, value)
  }

  lemma {:induction false} LoweredAnswers<T>(s: seq<T>, t: seq<T>, c: Costs, maxD: int, value: int)
    ensures Answers(s, t, Lowered(c), maxD, value) == Answers(s, t, c, maxD, value)
  {
    hide Cell;
    if c.ins + c.del < c.sub { LoweredSubstitution(s, t, c, Lowered(c), |s|, |t|); }
  }

  lemma {:induction false} UnboundedIsExact<T>(s: seq<T>, t: seq<T>, c: Costs, maxD: int)
    requires maxD < 0
    ensures Rows(s, t, c, maxD, 1, TopWindow(|s|, c, maxD, |s| + 1))
         == Returns(Distance(EditDistance.Distance(s, t, c)))
  {
    hide Cell, Residual, Rows, Tracks;
    TopTracks(s, t, c, maxD, |s| + 1);
    RowsAnswer(s, t, c, maxD, 1, TopWindow(|s|, c, maxD, |s| + 1));
  }

  lemma {:induction false} BandedIsRight<T>(s: seq<T>, t: seq<T>, c: Costs, maxD: int)
    requires s != [] && t != [] && NonNegative(c) && maxD >= 0 && Residual(c, |t| - |s|) <= maxD
    ensures var r := Rows(s, t, Lowered(c), maxD, 1, TopWindow(|s|, c, maxD, FirstStop(|s|, |t|, c, maxD)));
            r.Returns? && r.result.Distance? && Answers(s, t, c, maxD, r.result.value)
  {
    hide Cell, Residual, Rows, Tracks, Answers;
    var low := Lowered(c);
    ResidualIgnoresSub(c, low, |t| - |s|);
    FirstStopEncloses(s, t, low, maxD);
    TopTracks(s, t, low, maxD, FirstStop(|s|, |t|, low, maxD));
    var w := TopWindow(|s|, low, maxD, FirstStop(|s|, |t|, low, maxD));
    assert w == TopWindow(|s|, c, maxD, FirstStop(|s|, |t|, c, maxD));
    RowsAnswer(s, t, low, maxD, 1, w);
    LoweredAnswers(s, t, c, maxD, Rows(s, t, low, maxD, 1, w).result.value);
  }

  /** Safe costs one of which is negative: a bound either refuses at once or is switched off. */
  lemma {:induction false} NoBand(m: nat, n: nat, c: Costs, maxD: int)
    requires Safe(c) && !NonNegative(c) && maxD >= 0 && Residual(c, n - m) <= maxD
    ensures Loose(m, n, c, maxD)
  {
    ResidualSign(c, n - m);
    assert Lowered(c).sub <= 0;
    assert Lowered(c).sub * Min(m, n) <= 0;
  }

  lemma {:induction false} RefusalIsRight<T>(s: seq<T>, t: seq<T>, c: Costs, maxD: int)
    requires Safe(c) && maxD >= 0 && Residual(c, |t| - |s|) > maxD
    ensures EditDistance.Distance(s, t, c) > maxD
  {
    hide Cell, Residual;
    ResidualSign(c, |t| - |s|);
    TheoreticalMinimum(s, t, c, |s|, |t|);
  }

  /** With safe costs, or without a bound, the computation is right. */
  lemma {:induction false} SafeIsRight<T>(s: seq<T>, t: seq<T>, c: Costs, maxD: int)
    requires maxD < 0 || Safe(c)
    ensures IsRight(s, t, c, maxD, Bounded(s, t, c, maxD))
  {
    hide Cell, Residual, Rows;
    CellEdges(s, t, c, |t|);
    CellEdges(s, t, c, |s|);
    if s == [] || t == [] || TooLong(s, t) {
    } else if maxD < 0 {
      UnboundedIsExact(s, t, c, maxD);
    } else if Residual(c, |t| - |s|) > maxD {
      RefusalIsRight(s, t, c, maxD);
    } else {
      SwitchedOff(s, t, c, maxD);
      if NonNegative(c) {
        BandedIsRight(s, t, c, maxD);
      } else {
        NoBand(|s|, |t|, c, maxD);
      }
    }
  }

  lemma {:induction false} SwitchedOff<T>(s: seq<T>, t: seq<T>, c: Costs, maxD: int)
    ensures var r := Rows(s, t, Lowered(c), -1, 1, TopWindow(|s|, c, -1, |s| + 1));
            r.Returns? && r.result.Distance? && Answers(s, t, c, maxD, r.result.value)
  {
    hide Cell, Residual, Rows;
    var low := Lowered(c);
    assert TopWindow(|s|, c, -1, |s| + 1) == TopWindow(|s|, low, -1, |s| + 1);
    UnboundedIsExact(s, t, low, -1);
    LoweredAnswers(s, t, c, maxD, EditDistance.Distance(s, t, low));
  }

  /** An insertion costs something, but a detour or a substitution costs less than nothing: `x` to `yz` is
      refused although it is within the bound. */
  lemma {:induction false} InsertionRefused(c: Costs)
    requires c.ins > 0 && (c.ins + c.del < 0 || c.sub < 0)
    ensures !IsRight("x", "yz", c, c.ins - 1, Bounded("x", "yz", c, c.ins - 1))
  {
    hide Cell, Rows;
    CellEdges("x", "yz", c, 1);
    CellEdges("x", "yz", c, 2);
    CellCases("x", "yz", c, 1, 2);
  }

  lemma {:induction false} DeletionRefused(c: Costs)
    requires c.del > 0 && (c.ins + c.del < 0 || c.sub < 0)
    ensures !IsRight("yz", "x", c, c.del - 1, Bounded("yz", "x", c, c.del - 1))
  {
    hide Cell, Rows;
    CellEdges("yz", "x", c, 1);
    CellEdges("yz", "x", c, 2);
    CellCases("yz", "x", c, 2, 1);
  }

  /** A negative insertion cost turns the mark right of the window into an answer: `x` to `y` with bound 0. */
  lemma {:induction false} PaidInsertion(c: Costs)
    requires c.ins < 0 < c.ins + c.del && c.sub > 0
    ensures !IsRight("x", "y", c, 0, Bounded("x", "y", c, 0))
  {
    hide Cell;
    var s, t, low := "x", "y", Lowered(c);
    CellEdges(s, t, c, 1);
    CellCases(s, t, c, 0, 0);
    CellCases(s, t, c, 1, 1);
    var top := TopWindow(1, c, 0, 1);
    assert FirstStop(1, 1, c, 0) == 1;
    var wide := Widened(s, t, low, 0, 1, top);
    assert wide.row[0] == c.ins;
    assert wide.row[1] == 1 + c.ins;
    assert StopAt(s, t, low, 0, 1, wide.row, 2) == 2;
    assert StartAt(s, t, low, 0, 1, wide.row, 1, 2) == 1;
    assert StartAt(s, t, low, 0, 1, wide.row, 0, 2) == 1;
    var narrow := Narrowed(s, t, low, 0, 1, wide);
    assert Rows(s, t, low, 0, 2, narrow) == Returns(Distance(1 + c.ins));
  }

  lemma {:induction false} PaidDeletionFirstRow(c: Costs)
    requires c.del < 0 < c.ins + c.del && c.sub > 0
    ensures var s, t, low := "ax", "ay", Lowered(c);
            Rows(s, t, low, 0, 1, TopWindow(2, c, 0, 1)) == Rows(s, t, low, 0, 2, Window([1, 0, 1], 1, 2))
  {
    var s, t, low := "ax", "ay", Lowered(c);
    var wide := Widened(s, t, low, 0, 1, TopWindow(2, c, 0, 1));
    assert wide.row[0] == c.ins;
    assert wide.row[1] == 0;
    assert StopAt(s, t, low, 0, 1, wide.row, 2) == 2;
    assert StartAt(s, t, low, 0, 1, wide.row, 1, 2) == 1;
    assert StartAt(s, t, low, 0, 1, wide.row, 0, 2) == 1;
    assert Narrowed(s, t, low, 0, 1, wide) == Window([1, 0, 1], 1, 2);
  }

  lemma {:induction false} PaidDeletionSecondRow(c: Costs)
    requires c.del < 0 < c.ins + c.del && c.sub > 0
    ensures Rows("ax", "ay", Lowered(c), 0, 2, Window([1, 0, 1], 1, 2)) == Returns(Distance(1 + 2 * c.del))
  {
    var s, t, low := "ax", "ay", Lowered(c);
    var row := [1, 0, 1];
    var wide := Widened(s, t, low, 0, 2, Window(row, 1, 2));
    assert NextCell(s, 'y', low, 0, 2, row, 1, 0) == 1;
    assert NextCell(s, 'y', low, 0, 2, row, 1, 1) == 1 + c.del;
    assert NextCell(s, 'y', low, 0, 2, row, 1, 2) == 1 + 2 * c.del;
    assert wide.row[1] == 1 + c.del && wide.row[2] == 1 + 2 * c.del;
    assert StopAt(s, t, low, 0, 2, wide.row, 3) == 3;
    assert StartAt(s, t, low, 0, 2, wide.row, 1, 3) == 1;
    var narrow := Narrowed(s, t, low, 0, 2, wide);
    assert narrow.stop == 3 && narrow.row[2] == 1 + 2 * c.del;
    assert Rows(s, t, low, 0, 3, narrow) == Returns(Distance(1 + 2 * c.del));
  }

  /** A negative deletion cost turns the mark left of the window into an answer: `ax` to `ay` with bound 0. */
  lemma {:induction false} PaidDeletion(c: Costs)
    requires c.del < 0 < c.ins + c.del && c.sub > 0
    ensures !IsRight("ax", "ay", c, 0, Bounded("ax", "ay", c, 0))
  {
    hide Cell, Rows;
    var s, t := "ax", "ay";
    PaidDeletionFirstRow(c);
    PaidDeletionSecondRow(c);
    assert FirstStop(2, 2, c, 0) == 1;
    assert Lowered(c).sub * 2 > 0;
    TheoreticalMinimum(s, t, c, 2, 1);
    TheoreticalMinimum(s, t, c, 1, 2);
    TheoreticalMinimum(s, t, c, 1, 1);
    CellCases(s, t, c, 2, 2);
  }

  /** The exact condition: the bounded computation is right for all texts and all bounds just for safe costs. */
  lemma {:induction false} RightExactlyWhenSafe(c: Costs)
    ensures (forall s: string, t: string, maxD: nat :: IsRight(s, t, c, maxD, Bounded(s, t, c, maxD))) <==> Safe(c)
  {
    hide IsRight, Bounded;
    if Safe(c) {
      forall s: string, t: string, maxD: nat
        ensures IsRight(s, t, c, maxD, Bounded(s, t, c, maxD))
      {
        SafeIsRight(s, t, c, maxD);
      }
    } else if c.ins + c.del < 0 || c.sub < 0 {
      if c.ins > 0 { InsertionRefused(c); } else { DeletionRefused(c); }
    } else {
      if c.ins < 0 { PaidInsertion(c); } else { PaidDeletion(c); }
    }
  }

  // ---------------------------------------------------------------- the computation

  method FillRow<T(==)>(s: seq<T>, t: seq<T>, c: Costs, ghost maxD: int, j: nat, prev: array<int>, curr: array<int>,
                        sData: nat, start: nat, stop: nat, ghost row: seq<int>)
    requires 0 < j <= |t| && prev != curr && prev.Length == curr.Length == |row| == |s| + 1
    requires start < stop <= |s| + 1 && sData == (if start == 0 then 0 else start - 1)
    requires forall i :: 0 <= i < stop ==> prev[i] == row[i]
    requires forall i :: 0 <= i < start ==> curr[i] == maxD + 1
    modifies curr
    ensures forall i :: 0 <= i < stop ==> curr[i] == NextCell(s, t[j - 1], c, maxD, j, row, start, i)
  {
    hide Cell;
    var i, x := start, sData;
    if start == 0 {
      curr[0] := j * c.ins;
      i := 1;
    }
    while i < stop
      invariant start <= i <= stop && 0 < i && x == i - 1
      invariant forall k :: 0 <= k < i ==> curr[k] == NextCell(s, t[j - 1], c, maxD, j, row, start, k)
    {
      var ins := prev[i] + c.ins;
      var del := curr[i - 1] + c.del;
      var sub := prev[i - 1] + (if s[x] == t[j - 1] then 0 else c.sub);
      curr[i] := Min(Min(ins, del), sub);
      x, i := x + 1, i + 1;
    }
  }

  /** Moves the stop column left past columns that are not kept. */
  method SlideStop<T>(s: seq<T>, t: seq<T>, c: Costs, maxD: int, j: nat, prev: array<int>, stop: nat, ghost row: seq<int>)
    returns (newStop: nat)
    requires stop <= |row| <= prev.Length && forall i :: 0 <= i < stop ==> prev[i] == row[i]
    ensures newStop == StopAt(s, t, c, maxD, j, row, stop)
  {
    hide Residual;
    newStop := stop;
    while newStop > 0
      invariant newStop <= stop
      invariant StopAt(s, t, c, maxD, j, row, stop) == StopAt(s, t, c, maxD, j, row, newStop)
    {
      var ii := newStop - 1;
      if Kept(s, t, c, maxD, j, prev[ii], ii) { break; }
      newStop := newStop - 1;
    }
  }

  /** Moves the start column right, marking what it leaves behind in both rows, and the text pointer with it. */
  method SlideStart<T>(s: seq<T>, t: seq<T>, c: Costs, maxD: int, j: nat, prev: array<int>, curr: array<int>,
                       sData: nat, start: nat, stop: nat, ghost row: seq<int>)
    returns (newData: nat, newStart: nat)
    requires prev != curr && prev.Length == curr.Length == |row| && stop <= |row|
    requires forall i :: 0 <= i < stop ==> prev[i] == row[i]
    requires sData == (if start == 0 then 0 else start - 1)
    modifies prev, curr
    ensures newStart == StartAt(s, t, c, maxD, j, row, start, stop)
    ensures newData == if newStart == 0 then 0 else newStart - 1
    ensures forall i :: 0 <= i < prev.Length && !(start <= i < newStart) ==> prev[i] == old(prev[i]) && curr[i] == old(curr[i])
    ensures forall i :: start <= i < newStart && i < prev.Length ==> prev[i] == curr[i] == maxD + 1
  {
    hide Residual;
    newData, newStart := sData, start;
    while newStart < stop
      invariant start <= newStart && (start <= stop ==> newStart <= stop)
      invariant newData == if newStart == 0 then 0 else newStart - 1
      invariant StartAt(s, t, c, maxD, j, row, start, stop) == StartAt(s, t, c, maxD, j, row, newStart, stop)
      invariant forall i :: 0 <= i < prev.Length && !(start <= i < newStart) ==> prev[i] == old(prev[i]) && curr[i] == old(curr[i])
      invariant forall i :: start <= i < newStart && i < prev.Length ==> prev[i] == curr[i] == maxD + 1
    {
      if Kept(s, t, c, maxD, j, prev[newStart], newStart) { break; }
      prev[newStart] := maxD + 1;
      curr[newStart] := maxD + 1;
      if newStart != 0 { newData := newData + 1; }
      newStart := newStart + 1;
    }
  }

  /** The two rows hold the window w: what lies left of it is marked in both. */
  ghost predicate Holds(prev: array<int>, curr: array<int>, maxD: int, w: Window)
    reads prev, curr
  {
    && prev != curr && prev.Length == curr.Length == |w.row|
    && w.start < w.stop <= |w.row|
    && (forall i :: 0 <= i < w.stop ==> prev[i] == w.row[i])
    && (forall i :: w.stop <= i < |w.row| ==> w.row[i] == maxD + 1)
    && (forall i :: 0 <= i < w.start ==> w.row[i] == curr[i] == maxD + 1)
  }

  /** Fills the next row and opens one more column on the right. */
  method Widen<T(==)>(s: seq<T>, t: seq<T>, c: Costs, maxD: int, j: nat, prev: array<int>, curr: array<int>,
                      sData: nat, start: nat, stop: nat, ghost w: Window)
    returns (newStop: nat)
    requires 0 < j <= |t| && Fits(s, w) && Holds(prev, curr, maxD, w) && w.start == start && w.stop == stop
    requires sData == if start == 0 then 0 else start - 1
    modifies prev, curr
    ensures var r := Widened(s, t, c, maxD, j, w);
            Holds(curr, prev, maxD, r) && start == r.start < newStop == r.stop
  {
    hide NextCell;
    newStop := stop;
    if newStop < prev.Length {
      prev[newStop] := maxD + 1;
      newStop := newStop + 1;
    }
    FillRow(s, t, c, maxD, j, prev, curr, sData, start, newStop, w.row);
    LeftIsMarked(s, t[j - 1], c, maxD, j, w.row, start);
  }

  lemma {:induction false} LeftIsMarked<T>(s: seq<T>, y: T, c: Costs, maxD: int, j: nat, row: seq<int>, start: nat)
    requires |row| == |s| + 1
    ensures forall i: nat :: i < start && i <= |s| ==> NextCell(s, y, c, maxD, j, row, start, i) == maxD + 1
  {
  }

  method Narrow<T>(s: seq<T>, t: seq<T>, c: Costs, maxD: int, j: nat, prev: array<int>, curr: array<int>,
                   sData: nat, start: nat, stop: nat, ghost w: Window)
    returns (newData: nat, newStart: nat, newStop: nat)
    requires Fits(s, w) && Holds(prev, curr, maxD, w) && w.start == start && w.stop == stop
    requires sData == if start == 0 then 0 else start - 1
    modifies prev, curr
    ensures newData == if newStart == 0 then 0 else newStart - 1
    ensures var r := Narrowed(s, t, c, maxD, j, w);
            newStart == r.start && newStop == r.stop && (newStart < newStop ==> Holds(prev, curr, maxD, r))
  {
    hide Residual, StopAt, StartAt;
    newStop := SlideStop(s, t, c, maxD, j, prev, stop, w.row);
    newData, newStart := SlideStart(s, t, c, maxD, j, prev, curr, sData, start, newStop, w.row);
  }

  method TopRow(prev: array<int>, curr: array<int>, c: Costs, ghost maxD: int, stop: nat)
    requires prev != curr && prev.Length == curr.Length && 0 < stop <= prev.Length
    modifies prev
    ensures var w := TopWindow(prev.Length - 1, c, maxD, stop);
            Holds(prev, curr, maxD, w) && w.start == 0 && w.stop == stop && |w.row| == prev.Length
  {
    for i := 0 to stop
      invariant forall k: nat :: k < i ==> prev[k] == k * c.del
    {
      prev[i] := i * c.del;
    }
  }

  /** The definition of Rows, for proofs that hide it. */
  lemma {:induction false} RowsStep<T>(s: seq<T>, t: seq<T>, c: Costs, maxD: int, j: nat, w: Window)
    requires 0 < j <= |t| && Fits(s, w)
    ensures var wide := Widened(s, t, c, maxD, j, w);
            var narrow := Narrowed(s, t, c, maxD, j, wide);
            Rows(s, t, c, maxD, j, w) ==
            if maxD < 0 then Rows(s, t, c, maxD, j + 1, wide)
            else if narrow.start >= narrow.stop then Returns(Distance(maxD + 1))
            else Rows(s, t, c, maxD, j + 1, narrow)
  {
  }

  lemma {:induction false} RowsEnd<T>(s: seq<T>, t: seq<T>, c: Costs, maxD: int, w: Window, prev: array<int>, curr: array<int>)
    requires Fits(s, w) && Holds(prev, curr, maxD, w) && prev.Length == |s| + 1
    ensures var r := Rows(s, t, c, maxD, |t| + 1, w);
            r.Stale? || r == Returns(Distance(prev[|s|]))
  {
  }

  method BandedRows<T(==)>(s: seq<T>, t: seq<T>, c: Costs, maxD: int, stop: nat) returns (value: int)
    requires 0 < stop <= |s| + 1
    ensures var r := Rows(s, t, c, maxD, 1, TopWindow(|s|, c, maxD, stop));
            r.Stale? || r == Returns(Distance(value))
  {
    hide Widened, Narrowed, TopWindow, Rows, Holds;
    var m, n := |s| + 1, |t| + 1;
    var prev, curr := new int[m], new int[m];
    var sData, startColumn, stopColumn := 0, 0, stop;
    TopRow(prev, curr, c, maxD, stop);
    ghost var w := TopWindow(|s|, c, maxD, stop);
    for j := 1 to n
      invariant prev.Length == curr.Length == m && fresh(prev) && fresh(curr)
      invariant Fits(s, w) && Holds(prev, curr, maxD, w) && w.start == startColumn < w.stop == stopColumn
      invariant sData == if startColumn == 0 then 0 else startColumn - 1
      invariant Rows(s, t, c, maxD, 1, TopWindow(|s|, c, maxD, stop)) == Rows(s, t, c, maxD, j, w)
    {
      RowsStep(s, t, c, maxD, j, w);
      stopColumn := Widen(s, t, c, maxD, j, prev, curr, sData, startColumn, stopColumn, w);
      w := Widened(s, t, c, maxD, j, w);
      prev, curr := curr, prev;
      if maxD >= 0 {
        sData, startColumn, stopColumn := Narrow(s, t, c, maxD, j, prev, curr, sData, startColumn, stopColumn, w);
        w := Narrowed(s, t, c, maxD, j, w);
        if startColumn >= stopColumn { return maxD + 1; }
      }
    }
    value := prev[m - 1];
    RowsEnd(s, t, c, maxD, w, prev, curr);
  }

  /** The costs, bound and columns the rows are computed with; a negative bound switches the band off. */
  method Tighten(m: nat, n: nat, c: Costs, maxD: int) returns (d: Costs, bound: int, stopColumn: nat)
    requires 0 < m && maxD >= 0 && Residual(c, n - m) <= maxD
    ensures d == Lowered(c)
    ensures if Loose(m, n, c, maxD) then bound == -1 && stopColumn == m + 1
            else bound == maxD && stopColumn == FirstStop(m, n, c, maxD)
  {
    hide Residual, FirstStop;
    d, bound, stopColumn := c, maxD, m + 1;
    var minTheoD := Residual(c, n - m);
    if c.ins + c.del < c.sub { d := Costs(c.ins, c.del, c.ins + c.del); }
    var maxTheoD := minTheoD + d.sub * Min(m, n);
    if bound >= maxTheoD {
      bound := -1;
    } else {
      stopColumn := FirstStop(m, n, c, maxD);
    }
  }

  /** levenshtein_less_equal, for any costs and any bound. */
  method LevenshteinLessEqualInternal<T(==)>(s: seq<T>, t: seq<T>, insC: int, delC: int, subC: int, maxD: int)
    returns (r: Result)
    ensures var o := Bounded(s, t, Costs(insC, delC, subC), maxD); o.Stale? || o == Returns(r)
    ensures maxD < 0 || Safe(Costs(insC, delC, subC)) ==>
              IsRight(s, t, Costs(insC, delC, subC), maxD, Returns(r))
  {
    hide Cell, Residual, Rows, IsRight, TopWindow, Safe, Loose, FirstStop;
    var c := Costs(insC, delC, subC);
    var m, n := |s|, |t|;
    if maxD < 0 || Safe(c) {
      SafeIsRight(s, t, c, maxD);
      NotStale(s, t, c, maxD, Bounded(s, t, c, maxD));
    }
    if m == 0 { return Distance(n * insC); }
    if n == 0 { return Distance(m * delC); }
    if m > MAX_LEVENSHTEIN_STRLEN || n > MAX_LEVENSHTEIN_STRLEN { return ArgumentTooLong; }
    var bound, stopColumn := maxD, m + 1;
    if bound >= 0 {
      if Residual(c, n - m) > bound { return Distance(bound + 1); }
      c, bound, stopColumn := Tighten(m, n, c, maxD);
    }
    SameTopWindow(m, c, Costs(insC, delC, subC), bound, stopColumn);
    var value := BandedRows(s, t, c, bound, stopColumn);
    return Distance(value);
  }

  lemma {:induction false} SameTopWindow(m: nat, c: Costs, d: Costs, maxD: int, stop: nat)
    requires c.del == d.del
    ensures TopWindow(m, c, maxD, stop) == TopWindow(m, d, maxD, stop)
  {
    assert seq(m + 1, i => i * c.del) == seq(m + 1, i => i * d.del);
  }

  lemma {:induction false} NotStale<T>(s: seq<T>, t: seq<T>, c: Costs, maxD: int, r: Outcome)
    requires IsRight(s, t, c, maxD, r)
    ensures r.Returns?
  {
  }
}
