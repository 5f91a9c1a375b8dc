/** contrib/fuzzystrmatch/levenshtein.c compiled without a bound: the full two-row computation. */
module Levenshtein {
  import opened EditDistance

  const MAX_LEVENSHTEIN_STRLEN := 255

  datatype Result = Distance(value: int) | ArgumentTooLong

  predicate TooLong<T>(s: seq<T>, t: seq<T>) {
    s != [] && t != [] && (|s| > MAX_LEVENSHTEIN_STRLEN || |t| > MAX_LEVENSHTEIN_STRLEN)
  }

  // ---------------------------------------------------------------- full computation

  /** Every value of one row of the matrix. */
  ghost predicate ExactRow<T>(s: seq<T>, t: seq<T>, c: Costs, j: nat, row: seq<int>)
    requires j <= |t|
  {
    |row| == |s| + 1 && forall i :: 0 <= i <= |s| ==> row[i] == Cell(s, t, c, i, j)
  }

  method LevenshteinInternal<T(==)>(s: seq<T>, t: seq<T>, insC: int, delC: int, subC: int) returns (r: Result)
    ensures r == if s != [] && t != [] && (|s| > 255 || |t| > 255) then ArgumentTooLong
                 else Distance(EditDistance.Distance(s, t, Costs(insC, delC, subC)))
  {
    hide Cell;
    ghost var c := Costs(insC, delC, subC);
    var m, n := |s|, |t|;
    CellEdges(s, t, c, n);
    CellEdges(s, t, c, m);
    if m == 0 { return Distance(n * insC); }
    if n == 0 { return Distance(m * delC); }
    if m > MAX_LEVENSHTEIN_STRLEN || n > MAX_LEVENSHTEIN_STRLEN { return ArgumentTooLong; }
    var prev, curr := new int[m + 1], new int[m + 1];
    for i := 0 to m + 1
      invariant forall k :: 0 <= k < i ==> prev[k] == Cell(s, t, c, k, 0)
    {
      CellEdges(s, t, c, i);
      prev[i] := i * delC;
    }
    for j := 1 to n + 1
      invariant prev != curr && prev.Length == curr.Length == m + 1
      invariant fresh(prev) && fresh(curr)
      invariant ExactRow(s, t, c, j - 1, prev[..])
    {
      CellEdges(s, t, c, j);
      curr[0] := j * insC;
      for i := 1 to m + 1
        invariant ExactRow(s, t, c, j - 1, prev[..])
        invariant forall k :: 0 <= k < i ==> curr[k] == Cell(s, t, c, k, j)
      {
        assert prev[i] == prev[..][i] && prev[i - 1] == prev[..][i - 1];
        CellCases(s, t, c, i, j);
        var ins := prev[i] + insC;
        var del := curr[i - 1] + delC;
        var sub := prev[i - 1] + (if s[i - 1] == t[j - 1] then 0 else subC);
        curr[i] := Min(Min(ins, del), sub);
      }
      prev, curr := curr, prev;
    }
    assert prev[m] == prev[..][m];
    return Distance(prev[m]);
  }
}
