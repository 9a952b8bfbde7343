/** The dynamic-programming matrices of `needleman_wunsch` (global) and
    `smith_waterman` (local): a recursive reference definition of every cell,
    a row-by-row fill proved to agree with it, and the two entry points with
    their argument checks. */
module Alignment {
  import opened Python
  import opened Scoring

  /** Global alignment (Needleman–Wunsch) or local alignment (Smith–Waterman). */
  datatype Mode = Global | Local

  const ArityMessage := "Only support two strings to align."
  const TypeMessage := "Only support string values"

  /** The cost of k gaps, one gap at a time. */
  function GapCost(sc: Scores, k: nat): int {
    if k == 0 then 0 else GapCost(sc, k - 1) + sc.gap
  }

  lemma MultiplyStep(x: int, k: nat)
    requires k > 0
    ensures x * (k - 1) + x == x * k
  {
  }

  /** k gaps cost the gap score times k, the boundary value written by the
      source. */
  lemma {:induction false} GapCostIsProduct(sc: Scores, k: nat)
    ensures GapCost(sc, k) == sc.gap * k
  {
    if k > 0 {
      GapCostIsProduct(sc, k - 1);
      MultiplyStep(sc.gap, k);
    }
  }

  /** Value of boundary cell (k, 0) or (0, k): the cost of k gaps in global
      mode, zero in local mode. */
  function Border(mode: Mode, sc: Scores, k: nat): int {
    match mode
    case Global => GapCost(sc, k)
    case Local => 0
  }

  /** Combination of the three candidate scores of an interior cell, as
      Python's `max`; local mode adds zero as a fourth candidate. */
  function Best(mode: Mode, left: int, above: int, diagonal: int): int {
    var m := if left >= above && left >= diagonal then left
             else if above >= diagonal then above
             else diagonal;
    match mode
    case Global => m
    case Local => if m >= 0 then m else 0
  }

  /** Cell (i, j) of the matrix for reference `a` and query `b`: the score of
      the best alignment of a[..i] against b[..j] (global), or of the best
      alignment ending at those positions (local). */
  ghost function Cell(mode: Mode, sc: Scores, a: string, b: string, i: nat, j: nat): int
    requires i <= |a| && j <= |b|
    decreases i + j
  {
    if i == 0 || j == 0 then Border(mode, sc, i + j)
    else
      Best(mode,
           Cell(mode, sc, a, b, i, j - 1) + sc.gap,
           Cell(mode, sc, a, b, i - 1, j) + sc.gap,
           Cell(mode, sc, a, b, i - 1, j - 1) + Substitution(sc, a[i - 1], b[j - 1]))
  }

  /** The combined score is the largest candidate: at least each of them and
      equal to one (or to the zero floor in local mode). */
  lemma BestIsMaximum(mode: Mode, left: int, above: int, diagonal: int)
    ensures Best(mode, left, above, diagonal) >= left
    ensures Best(mode, left, above, diagonal) >= above
    ensures Best(mode, left, above, diagonal) >= diagonal
    ensures mode == Local ==> Best(mode, left, above, diagonal) >= 0
    ensures var r := Best(mode, left, above, diagonal);
            r == left || r == above || r == diagonal || (mode == Local && r == 0)
  {
  }

  /** One unfolding of the recurrence at an interior cell. */
  lemma CellInterior(mode: Mode, sc: Scores, a: string, b: string, i: nat, j: nat)
    requires 1 <= i <= |a| && 1 <= j <= |b|
    ensures Cell(mode, sc, a, b, i, j)
         == Best(mode,
                 Cell(mode, sc, a, b, i, j - 1) + sc.gap,
                 Cell(mode, sc, a, b, i - 1, j) + sc.gap,
                 Cell(mode, sc, a, b, i - 1, j - 1) + Substitution(sc, a[i - 1], b[j - 1]))
  {
  }

  /** An interior cell is at least each of its three candidates, and equals
      one of them unless local mode floored it at zero. */
  lemma CellNeighbours(mode: Mode, sc: Scores, a: string, b: string, i: nat, j: nat)
    requires 1 <= i <= |a| && 1 <= j <= |b|
    ensures Cell(mode, sc, a, b, i, j) >= Cell(mode, sc, a, b, i, j - 1) + sc.gap
    ensures Cell(mode, sc, a, b, i, j) >= Cell(mode, sc, a, b, i - 1, j) + sc.gap
    ensures Cell(mode, sc, a, b, i, j) >= Cell(mode, sc, a, b, i - 1, j - 1) + Substitution(sc, a[i - 1], b[j - 1])
    ensures || Cell(mode, sc, a, b, i, j) == Cell(mode, sc, a, b, i, j - 1) + sc.gap
            || Cell(mode, sc, a, b, i, j) == Cell(mode, sc, a, b, i - 1, j) + sc.gap
            || Cell(mode, sc, a, b, i, j) == Cell(mode, sc, a, b, i - 1, j - 1) + Substitution(sc, a[i - 1], b[j - 1])
            || (mode == Local && Cell(mode, sc, a, b, i, j) == 0)
  {
    CellInterior(mode, sc, a, b, i, j);
    BestIsMaximum(mode, Cell(mode, sc, a, b, i, j - 1) + sc.gap, Cell(mode, sc, a, b, i - 1, j) + sc.gap,
                  Cell(mode, sc, a, b, i - 1, j - 1) + Substitution(sc, a[i - 1], b[j - 1]));
  }

  /** Every local cell is non-negative. */
  lemma {:induction false} LocalCellNonNegative(sc: Scores, a: string, b: string, i: nat, j: nat)
    requires i <= |a| && j <= |b|
    ensures Cell(Local, sc, a, b, i, j) >= 0
  {
    if i > 0 && j > 0 {
      CellNeighbours(Local, sc, a, b, i, j);
    }
  }

  /** Along the global border each cell is its predecessor plus one gap. */
  lemma GlobalBorderStep(sc: Scores, a: string, b: string, k: nat)
    ensures 1 <= k <= |a| ==> Cell(Global, sc, a, b, k, 0) == Cell(Global, sc, a, b, k - 1, 0) + sc.gap
    ensures 1 <= k <= |b| ==> Cell(Global, sc, a, b, 0, k) == Cell(Global, sc, a, b, 0, k - 1) + sc.gap
  {
  }

  /** A rectangular grid of `rows` rows and `cols` columns. */
  predicate IsGrid(m: seq<seq<int>>, rows: nat, cols: nat) {
    |m| == rows && forall i :: 0 <= i < |m| ==> |m[i]| == cols
  }

  /** The whole (|a|+1) x (|b|+1) matrix, cell by cell. */
  ghost function Matrix(mode: Mode, sc: Scores, a: string, b: string): (m: seq<seq<int>>)
    ensures IsGrid(m, |a| + 1, |b| + 1)
    ensures forall i, j :: 0 <= i <= |a| && 0 <= j <= |b| ==> m[i][j] == Cell(mode, sc, a, b, i, j)
  {
    seq(|a| + 1, i requires 0 <= i <= |a| =>
      seq(|b| + 1, j requires 0 <= j <= |b| => Cell(mode, sc, a, b, i, j)))
  }

  /** Row 0 of the matrix: the boundary row. */
  method FirstRow(mode: Mode, sc: Scores, a: string, b: string) returns (row: seq<int>)
    ensures |row| == |b| + 1
    ensures forall q {:trigger row[q]} :: 0 <= q <= |b| ==> row[q] == Cell(mode, sc, a, b, 0, q)
  {
    row := [0];
    var j := 1;
    while j <= |b|
      invariant 1 <= j <= |b| + 1
      invariant |row| == j
      invariant forall q {:trigger row[q]} :: 0 <= q < j ==> row[q] == Cell(mode, sc, a, b, 0, q)
    {
      row := row + [Border(mode, sc, j)];
      j := j + 1;
    }
  }

  /** Appending cell (i, |row|) to a prefix of row i gives a longer prefix. */
  lemma RowExtends(mode: Mode, sc: Scores, a: string, b: string, i: nat, row: seq<int>, cell: int)
    requires i <= |a| && |row| <= |b|
    requires forall q {:trigger row[q]} :: 0 <= q < |row| ==> row[q] == Cell(mode, sc, a, b, i, q)
    requires cell == Cell(mode, sc, a, b, i, |row|)
    ensures forall q {:trigger (row + [cell])[q]} :: 0 <= q <= |row| ==> (row + [cell])[q] == Cell(mode, sc, a, b, i, q)
  {
  }

  /** Row i of the matrix from row i - 1: the boundary cell in column 0,
      then each interior cell from its left, upper and upper-left
      neighbours, in increasing column order. */
  method NextRow(mode: Mode, sc: Scores, a: string, b: string, i: nat, previous: seq<int>) returns (row: seq<int>)
    requires 1 <= i <= |a|
    requires |previous| == |b| + 1
    requires forall q {:trigger previous[q]} :: 0 <= q <= |b| ==> previous[q] == Cell(mode, sc, a, b, i - 1, q)
    ensures |row| == |b| + 1
    ensures forall q {:trigger row[q]} :: 0 <= q <= |b| ==> row[q] == Cell(mode, sc, a, b, i, q)
  {
    row := [Border(mode, sc, i)];
    var j := 1;
    while j <= |b|
      invariant 1 <= j <= |b| + 1
      invariant |row| == j
      invariant forall q {:trigger row[q]} :: 0 <= q < j ==> row[q] == Cell(mode, sc, a, b, i, q)
    {
      var left := row[j - 1] + sc.gap;
      var above := previous[j] + sc.gap;
      var diagonal := previous[j - 1] + Substitution(sc, a[i - 1], b[j - 1]);
      CellInterior(mode, sc, a, b, i, j);
      RowExtends(mode, sc, a, b, i, row, Best(mode, left, above, diagonal));
      row := row + [Best(mode, left, above, diagonal)];
      j := j + 1;
    }
  }

  /** The row-major fill: the boundary row, then each following row from the
      one above it. The result is the reference matrix. */
  method Fill(mode: Mode, sc: Scores, a: string, b: string) returns (r: seq<seq<int>>)
    ensures IsGrid(r, |a| + 1, |b| + 1)
    ensures forall i, j :: 0 <= i <= |a| && 0 <= j <= |b| ==> r[i][j] == Cell(mode, sc, a, b, i, j)
  {
    var row := FirstRow(mode, sc, a, b);
    r := [row];
    var i := 1;
    while i <= |a|
      invariant 1 <= i <= |a| + 1
      invariant |r| == i && r[i - 1] == row
      invariant IsGrid(r, i, |b| + 1)
      invariant forall p, q {:trigger r[p][q]} :: 0 <= p < i && 0 <= q <= |b| ==> r[p][q] == Cell(mode, sc, a, b, p, q)
    {
      row := NextRow(mode, sc, a, b, i, row);
      r := r + [row];
      i := i + 1;
    }
  }

  /** The checks shared by both entry points: exactly two arguments (checked
      first), both of them strings. */
  function CheckPair(args: seq<Value>): (r: Result<(string, string)>)
    ensures |args| != 2 ==> r == Raise(ValueError(ArityMessage))
    ensures |args| == 2 && !(args[0].Str? && args[1].Str?) ==> r == Raise(TypeError(TypeMessage))
    ensures r.Ok? <==> |args| == 2 && args[0].Str? && args[1].Str?
    ensures r.Ok? ==> r.value == (args[0].s, args[1].s)
  {
    if |args| != 2 then Raise(ValueError(ArityMessage))
    else if !args[0].Str? then Raise(TypeError(TypeMessage))
    else if !args[1].Str? then Raise(TypeError(TypeMessage))
    else Ok((args[0].s, args[1].s))
  }

  /** One alignment call: checks, merge of the keyword options, fill. */
  method Align(mode: Mode, args: seq<Value>, kwargs: map<string, int>) returns (r: Result<seq<seq<int>>>)
    ensures |args| != 2 ==> r == Raise(ValueError(ArityMessage))
    ensures |args| == 2 && !(args[0].Str? && args[1].Str?) ==> r == Raise(TypeError(TypeMessage))
    ensures r.Ok? <==> |args| == 2 && args[0].Str? && args[1].Str?
    ensures r.Ok? ==> r.value == Matrix(mode, Merge(kwargs), args[0].s, args[1].s)
  {
    var pair := CheckPair(args);
    if pair.Raise? {
      return Raise(pair.exc);
    }
    var (a, b) := pair.value;
    var m := Fill(mode, Merge(kwargs), a, b);
    ghost var expected := Matrix(mode, Merge(kwargs), a, b);
    assert forall p :: 0 <= p < |m| ==> m[p] == expected[p];
    return Ok(m);
  }

  /** `needleman_wunsch(*seq, **kwargs)`. */
  method NeedlemanWunsch(args: seq<Value>, kwargs: map<string, int>) returns (r: Result<seq<seq<int>>>)
    ensures |args| != 2 ==> r == Raise(ValueError(ArityMessage))
    ensures |args| == 2 && !(args[0].Str? && args[1].Str?) ==> r == Raise(TypeError(TypeMessage))
    ensures r.Ok? <==> |args| == 2 && args[0].Str? && args[1].Str?
    ensures r.Ok? ==> IsGrid(r.value, |args[0].s| + 1, |args[1].s| + 1)
    ensures r.Ok? ==> forall k :: 0 <= k <= |args[0].s| ==> r.value[k][0] == Merge(kwargs).gap * k
    ensures r.Ok? ==> forall k :: 0 <= k <= |args[1].s| ==> r.value[0][k] == Merge(kwargs).gap * k
    ensures r.Ok? ==> r.value == Matrix(Global, Merge(kwargs), args[0].s, args[1].s)
  {
    r := Align(Global, args, kwargs);
    forall k: nat {
      GapCostIsProduct(Merge(kwargs), k);
    }
  }

  /** `smith_waterman(*seq, **kwargs)`. */
  method SmithWaterman(args: seq<Value>, kwargs: map<string, int>) returns (r: Result<seq<seq<int>>>)
    ensures |args| != 2 ==> r == Raise(ValueError(ArityMessage))
    ensures |args| == 2 && !(args[0].Str? && args[1].Str?) ==> r == Raise(TypeError(TypeMessage))
    ensures r.Ok? <==> |args| == 2 && args[0].Str? && args[1].Str?
    ensures r.Ok? ==> IsGrid(r.value, |args[0].s| + 1, |args[1].s| + 1)
    ensures r.Ok? ==> forall k :: 0 <= k <= |args[0].s| ==> r.value[k][0] == 0
    ensures r.Ok? ==> forall k :: 0 <= k <= |args[1].s| ==> r.value[0][k] == 0
    ensures r.Ok? ==> forall i, j :: 0 <= i <= |args[0].s| && 0 <= j <= |args[1].s| ==> r.value[i][j] >= 0
    ensures r.Ok? ==> r.value == Matrix(Local, Merge(kwargs), args[0].s, args[1].s)
  {
    r := Align(Local, args, kwargs);
  }
}
