/** Whole-matrix properties of the two alignment variants: symmetry under
    swapping reference and query, the score of aligning a sequence with
    itself, and the degenerate empty case. */
module AlignmentProperties {
  import opened Scoring
  import opened Alignment

  /** The transpose of a rows x cols grid. */
  ghost function Transpose(m: seq<seq<int>>, rows: nat, cols: nat): (t: seq<seq<int>>)
    requires IsGrid(m, rows, cols)
    ensures IsGrid(t, cols, rows)
    ensures forall i, j :: 0 <= i < rows && 0 <= j < cols ==> t[j][i] == m[i][j]
  {
    seq(cols, j requires 0 <= j < cols => seq(rows, i requires 0 <= i < rows => m[i][j]))
  }

  /** Swapping reference and query mirrors every cell: left and above both
      add the gap score, and symbol equality is symmetric. */
  lemma {:induction false} CellSymmetric(mode: Mode, sc: Scores, a: string, b: string, i: nat, j: nat)
    requires i <= |a| && j <= |b|
    ensures Cell(mode, sc, a, b, i, j) == Cell(mode, sc, b, a, j, i)
    decreases i + j
  {
    if i > 0 && j > 0 {
      CellSymmetric(mode, sc, a, b, i, j - 1);
      CellSymmetric(mode, sc, a, b, i - 1, j);
      CellSymmetric(mode, sc, a, b, i - 1, j - 1);
      CellInterior(mode, sc, a, b, i, j);
      CellInterior(mode, sc, b, a, j, i);
    }
  }

  /** The matrix for (b, a) is the transpose of the matrix for (a, b), in
      both modes. */
  lemma MatrixSymmetric(mode: Mode, sc: Scores, a: string, b: string)
    ensures Matrix(mode, sc, b, a) == Transpose(Matrix(mode, sc, a, b), |a| + 1, |b| + 1)
  {
    var m, t := Matrix(mode, sc, b, a), Transpose(Matrix(mode, sc, a, b), |a| + 1, |b| + 1);
    forall j, i | 0 <= j <= |b| && 0 <= i <= |a|
      ensures m[j][i] == t[j][i]
    {
      CellSymmetric(mode, sc, a, b, i, j);
    }
    assert forall j :: 0 <= j <= |b| ==> m[j] == t[j];
  }

  /** Score of pairing min(i, j) symbols as matches and gapping the rest:
      an upper bound on global cell (i, j) when a match scores at least a
      mismatch and at least two gaps. */
  ghost function PairedBound(sc: Scores, i: nat, j: nat): int
    decreases i + j
  {
    if i == 0 && j == 0 then 0
    else if i == 0 then PairedBound(sc, 0, j - 1) + sc.gap
    else if j == 0 then PairedBound(sc, i - 1, 0) + sc.gap
    else PairedBound(sc, i - 1, j - 1) + sc.matchScore
  }

  /** Along the border the global cells meet the bound: k gaps. */
  lemma {:induction false} GlobalBorderMeetsBound(sc: Scores, a: string, b: string, k: nat)
    ensures k <= |a| ==> Cell(Global, sc, a, b, k, 0) == PairedBound(sc, k, 0)
    ensures k <= |b| ==> Cell(Global, sc, a, b, 0, k) == PairedBound(sc, 0, k)
  {
    if k > 0 {
      GlobalBorderMeetsBound(sc, a, b, k - 1);
      GlobalBorderStep(sc, a, b, k);
    }
  }

  /** On the diagonal the bound is k matches. */
  lemma {:induction false} PairedBoundDiagonal(sc: Scores, k: nat)
    ensures PairedBound(sc, k, k) == sc.matchScore * k
  {
    if k > 0 {
      PairedBoundDiagonal(sc, k - 1);
      MultiplyStep(sc.matchScore, k);
    }
  }

  /** A gap move never beats the bound when two gaps score at most a match. */
  lemma {:induction false} PairedBoundGapSteps(sc: Scores, i: nat, j: nat)
    requires 2 * sc.gap <= sc.matchScore
    requires i > 0 && j > 0
    ensures PairedBound(sc, i, j - 1) + sc.gap <= PairedBound(sc, i, j)
    ensures PairedBound(sc, i - 1, j) + sc.gap <= PairedBound(sc, i, j)
    decreases i + j
  {
    if i > 1 && j > 1 {
      PairedBoundGapSteps(sc, i - 1, j - 1);
    }
  }

  /** No global cell exceeds the paired bound. */
  lemma {:induction false} GlobalCellBounded(sc: Scores, a: string, b: string, i: nat, j: nat)
    requires sc.mismatchScore <= sc.matchScore && 2 * sc.gap <= sc.matchScore
    requires i <= |a| && j <= |b|
    ensures Cell(Global, sc, a, b, i, j) <= PairedBound(sc, i, j)
    decreases i + j
  {
    if i > 0 && j > 0 {
      CellNeighbours(Global, sc, a, b, i, j);
      PairedBoundGapSteps(sc, i, j);
      var c := Cell(Global, sc, a, b, i, j);
      if c == Cell(Global, sc, a, b, i - 1, j - 1) + Substitution(sc, a[i - 1], b[j - 1]) {
        GlobalCellBounded(sc, a, b, i - 1, j - 1);
      } else if c == Cell(Global, sc, a, b, i, j - 1) + sc.gap {
        GlobalCellBounded(sc, a, b, i, j - 1);
      } else {
        GlobalCellBounded(sc, a, b, i - 1, j);
      }
    } else {
      GlobalBorderMeetsBound(sc, a, b, i + j);
    }
  }

  /** Pairing every symbol with itself scores `match` per symbol. */
  lemma {:induction false} SelfDiagonalScore(sc: Scores, s: string, k: nat)
    requires k <= |s|
    ensures Cell(Global, sc, s, s, k, k) >= sc.matchScore * k
  {
    if k > 0 {
      SelfDiagonalScore(sc, s, k - 1);
      CellNeighbours(Global, sc, s, s, k, k);
      MultiplyStep(sc.matchScore, k);
    }
  }

  /** Aligning a sequence with itself globally scores exactly `match` per
      symbol, whenever a match is worth at least a mismatch and two gaps. */
  lemma SelfAlignmentScore(sc: Scores, s: string)
    requires sc.mismatchScore <= sc.matchScore && 2 * sc.gap <= sc.matchScore
    ensures Matrix(Global, sc, s, s)[|s|][|s|] == sc.matchScore * |s|
  {
    GlobalCellBounded(sc, s, s, |s|, |s|);
    PairedBoundDiagonal(sc, |s|);
    SelfDiagonalScore(sc, s, |s|);
  }

  /** With the default options the bottom-right cell of the self-alignment
      is the length of the sequence. */
  lemma DefaultSelfAlignment(s: string)
    ensures Matrix(Global, Merge(map[]), s, s)[|s|][|s|] == |s|
  {
    SelfAlignmentScore(Default, s);
  }

  /** Two empty sequences give the 1 x 1 matrix holding the base score. */
  lemma EmptyPair(mode: Mode, sc: Scores)
    ensures Matrix(mode, sc, "", "") == [[0]]
  {
    assert Matrix(mode, sc, "", "")[0] == [0];
  }
}
