/** What the matrix cells mean. An alignment of a prefix of the reference
    against a prefix of the query is a path of moves through the grid; the
    lemmas here prove that every global cell is the best score of a path from
    (0, 0) and every local cell the best score of a path from anywhere. */
module AlignmentPaths {
  import opened Scoring
  import opened Alignment

  /** One column of an alignment: `Diagonal` pairs a[i-1] with b[j-1],
      `Above` sets a[i-1] against a gap, `Left` sets b[j-1] against a gap. */
  datatype Move = Diagonal | Above | Left

  /** An alignment as the path of moves that spells it out, last move
      outermost. */
  datatype Path = Start | Then(rest: Path, last: Move)

  /** The cell a move is taken from when it ends at (i, j). */
  ghost function Predecessor(move: Move, i: int, j: int): (int, int) {
    match move
    case Diagonal => (i - 1, j - 1)
    case Above => (i - 1, j)
    case Left => (i, j - 1)
  }

  /** The move ending at (i, j) starts inside the grid of a and b. */
  ghost predicate Fits(a: string, b: string, move: Move, i: int, j: int) {
    && i <= |a| && j <= |b|
    && Predecessor(move, i, j).0 >= 0 && Predecessor(move, i, j).1 >= 0
  }

  /** Score of the alignment column a move ending at (i, j) spells out. */
  ghost function ColumnScore(sc: Scores, a: string, b: string, move: Move, i: int, j: int): int
    requires Fits(a, b, move, i, j)
  {
    match move
    case Diagonal => Substitution(sc, a[i - 1], b[j - 1])
    case _ => sc.gap
  }

  /** The cell a path starts from when it ends at (i, j). */
  ghost function Origin(path: Path, i: int, j: int): (o: (int, int))
    ensures o.0 <= i && o.1 <= j
    ensures o == (i, j) <==> path == Start
  {
    match path
    case Start => (i, j)
    case Then(rest, last) =>
      var p := Predecessor(last, i, j);
      Origin(rest, p.0, p.1)
  }

  /** The path ending at (i, j) stays inside the grid of a and b. */
  ghost predicate InGrid(a: string, b: string, path: Path, i: int, j: int) {
    0 <= i <= |a| && 0 <= j <= |b| && Origin(path, i, j).0 >= 0 && Origin(path, i, j).1 >= 0
  }

  /** Score of the alignment a path spells out: the sum of its column scores. */
  ghost function PathScore(sc: Scores, a: string, b: string, path: Path, i: int, j: int): int
    requires InGrid(a, b, path, i, j)
  {
    match path
    case Start => 0
    case Then(rest, last) =>
      var p := Predecessor(last, i, j);
      PathScore(sc, a, b, rest, p.0, p.1) + ColumnScore(sc, a, b, last, i, j)
  }

  /** A vertical gap step never beats a global cell. */
  lemma GlobalAboveStep(sc: Scores, a: string, b: string, i: nat, j: nat)
    requires 1 <= i <= |a| && j <= |b|
    ensures Cell(Global, sc, a, b, i, j) >= Cell(Global, sc, a, b, i - 1, j) + sc.gap
  {
    if j > 0 {
      CellNeighbours(Global, sc, a, b, i, j);
    } else {
      GlobalBorderStep(sc, a, b, i);
    }
  }

  /** A horizontal gap step never beats a global cell. */
  lemma GlobalLeftStep(sc: Scores, a: string, b: string, i: nat, j: nat)
    requires i <= |a| && 1 <= j <= |b|
    ensures Cell(Global, sc, a, b, i, j) >= Cell(Global, sc, a, b, i, j - 1) + sc.gap
  {
    if i > 0 {
      CellNeighbours(Global, sc, a, b, i, j);
    } else {
      GlobalBorderStep(sc, a, b, j);
    }
  }

  /** A global cell is at least the cell any single move comes from plus the
      score of the column that move spells out. */
  lemma GlobalDominatesMove(sc: Scores, a: string, b: string, move: Move, i: nat, j: nat)
    requires Fits(a, b, move, i, j)
    ensures Cell(Global, sc, a, b, i, j)
         >= Cell(Global, sc, a, b, Predecessor(move, i, j).0, Predecessor(move, i, j).1) + ColumnScore(sc, a, b, move, i, j)
  {
    match move
    case Diagonal => CellNeighbours(Global, sc, a, b, i, j);
    case Above => GlobalAboveStep(sc, a, b, i, j);
    case Left => GlobalLeftStep(sc, a, b, i, j);
  }

  /** Local cells on the boundary are zero. */
  lemma LocalBorder(sc: Scores, a: string, b: string, i: nat, j: nat)
    requires i <= |a| && j <= |b| && (i == 0 || j == 0)
    ensures Cell(Local, sc, a, b, i, j) == 0
  {
  }

  /** With a non-positive gap score, a vertical gap step never beats a local
      cell. */
  lemma LocalAboveStep(sc: Scores, a: string, b: string, i: nat, j: nat)
    requires sc.gap <= 0
    requires 1 <= i <= |a| && j <= |b|
    ensures Cell(Local, sc, a, b, i, j) >= Cell(Local, sc, a, b, i - 1, j) + sc.gap
  {
    if j > 0 {
      CellNeighbours(Local, sc, a, b, i, j);
    } else {
      LocalBorder(sc, a, b, i, 0);
      LocalBorder(sc, a, b, i - 1, 0);
    }
  }

  /** With a non-positive gap score, a horizontal gap step never beats a
      local cell. */
  lemma LocalLeftStep(sc: Scores, a: string, b: string, i: nat, j: nat)
    requires sc.gap <= 0
    requires i <= |a| && 1 <= j <= |b|
    ensures Cell(Local, sc, a, b, i, j) >= Cell(Local, sc, a, b, i, j - 1) + sc.gap
  {
    if i > 0 {
      CellNeighbours(Local, sc, a, b, i, j);
    } else {
      LocalBorder(sc, a, b, 0, j);
      LocalBorder(sc, a, b, 0, j - 1);
    }
  }

  /** With a non-positive gap score, the same holds for a local cell. */
  lemma LocalDominatesMove(sc: Scores, a: string, b: string, move: Move, i: nat, j: nat)
    requires sc.gap <= 0
    requires Fits(a, b, move, i, j)
    ensures Cell(Local, sc, a, b, i, j)
         >= Cell(Local, sc, a, b, Predecessor(move, i, j).0, Predecessor(move, i, j).1) + ColumnScore(sc, a, b, move, i, j)
  {
    match move
    case Diagonal => CellNeighbours(Local, sc, a, b, i, j);
    case Above => LocalAboveStep(sc, a, b, i, j);
    case Left => LocalLeftStep(sc, a, b, i, j);
  }

  /** No path from (0, 0) to (i, j) scores more than global cell (i, j). */
  lemma {:induction false} GlobalUpperBound(sc: Scores, a: string, b: string, path: Path, i: int, j: int)
    requires InGrid(a, b, path, i, j) && Origin(path, i, j) == (0, 0)
    ensures PathScore(sc, a, b, path, i, j) <= Cell(Global, sc, a, b, i, j)
  {
    if path.Then? {
      var p := Predecessor(path.last, i, j);
      GlobalUpperBound(sc, a, b, path.rest, p.0, p.1);
      GlobalDominatesMove(sc, a, b, path.last, i, j);
    }
  }

  /** With a non-positive gap score, no path ending at (i, j), wherever it
      starts, scores more than local cell (i, j). */
  lemma {:induction false} LocalUpperBound(sc: Scores, a: string, b: string, path: Path, i: int, j: int)
    requires sc.gap <= 0
    requires InGrid(a, b, path, i, j)
    ensures PathScore(sc, a, b, path, i, j) <= Cell(Local, sc, a, b, i, j)
  {
    if path.Then? {
      var p := Predecessor(path.last, i, j);
      LocalUpperBound(sc, a, b, path.rest, p.0, p.1);
      LocalDominatesMove(sc, a, b, path.last, i, j);
    } else {
      LocalCellNonNegative(sc, a, b, i, j);
    }
  }

  /** The move a Needleman–Wunsch traceback takes out of cell (i, j): one
      whose candidate score the cell equals. */
  ghost function GlobalMove(sc: Scores, a: string, b: string, i: nat, j: nat): (move: Move)
    requires i <= |a| && j <= |b| && i + j > 0
    ensures move == Diagonal ==> (0 < i && 0 < j
              && Cell(Global, sc, a, b, i, j) == Cell(Global, sc, a, b, i - 1, j - 1) + Substitution(sc, a[i - 1], b[j - 1]))
    ensures move == Above ==> 0 < i && Cell(Global, sc, a, b, i, j) == Cell(Global, sc, a, b, i - 1, j) + sc.gap
    ensures move == Left ==> 0 < j && Cell(Global, sc, a, b, i, j) == Cell(Global, sc, a, b, i, j - 1) + sc.gap
  {
    if j == 0 then
      GlobalBorderStep(sc, a, b, i);
      Above
    else if i == 0 then
      GlobalBorderStep(sc, a, b, j);
      Left
    else
      CellNeighbours(Global, sc, a, b, i, j);
      if Cell(Global, sc, a, b, i, j) == Cell(Global, sc, a, b, i - 1, j - 1) + Substitution(sc, a[i - 1], b[j - 1]) then Diagonal
      else if Cell(Global, sc, a, b, i, j) == Cell(Global, sc, a, b, i - 1, j) + sc.gap then Above
      else Left
  }

  /** A path from (0, 0) to (i, j) that attains global cell (i, j): the
      traceback of the Needleman–Wunsch matrix. */
  ghost function GlobalTraceback(sc: Scores, a: string, b: string, i: nat, j: nat): (path: Path)
    requires i <= |a| && j <= |b|
    ensures InGrid(a, b, path, i, j) && Origin(path, i, j) == (0, 0)
    ensures PathScore(sc, a, b, path, i, j) == Cell(Global, sc, a, b, i, j)
    decreases i + j
  {
    if i == 0 && j == 0 then Start
    else
      match GlobalMove(sc, a, b, i, j)
      case Diagonal => Then(GlobalTraceback(sc, a, b, i - 1, j - 1), Diagonal)
      case Above => Then(GlobalTraceback(sc, a, b, i - 1, j), Above)
      case Left => Then(GlobalTraceback(sc, a, b, i, j - 1), Left)
  }

  /** Global cell (i, j) is the best score over all alignments of a[..i]
      against b[..j], and some alignment attains it. */
  lemma GlobalCellIsOptimal(sc: Scores, a: string, b: string, i: nat, j: nat)
    requires i <= |a| && j <= |b|
    ensures forall path :: InGrid(a, b, path, i, j) && Origin(path, i, j) == (0, 0)
              ==> PathScore(sc, a, b, path, i, j) <= Cell(Global, sc, a, b, i, j)
    ensures exists path :: InGrid(a, b, path, i, j) && Origin(path, i, j) == (0, 0)
              && PathScore(sc, a, b, path, i, j) == Cell(Global, sc, a, b, i, j)
  {
    forall path | InGrid(a, b, path, i, j) && Origin(path, i, j) == (0, 0)
      ensures PathScore(sc, a, b, path, i, j) <= Cell(Global, sc, a, b, i, j)
    {
      GlobalUpperBound(sc, a, b, path, i, j);
    }
    var best := GlobalTraceback(sc, a, b, i, j);
  }

  /** The move a Smith–Waterman traceback takes out of a positive interior
      cell (i, j). */
  ghost function LocalMove(sc: Scores, a: string, b: string, i: nat, j: nat): (move: Move)
    requires 0 < i <= |a| && 0 < j <= |b|
    requires Cell(Local, sc, a, b, i, j) != 0
    ensures move == Diagonal ==>
              Cell(Local, sc, a, b, i, j) == Cell(Local, sc, a, b, i - 1, j - 1) + Substitution(sc, a[i - 1], b[j - 1])
    ensures move == Above ==> Cell(Local, sc, a, b, i, j) == Cell(Local, sc, a, b, i - 1, j) + sc.gap
    ensures move == Left ==> Cell(Local, sc, a, b, i, j) == Cell(Local, sc, a, b, i, j - 1) + sc.gap
  {
    CellNeighbours(Local, sc, a, b, i, j);
    if Cell(Local, sc, a, b, i, j) == Cell(Local, sc, a, b, i - 1, j - 1) + Substitution(sc, a[i - 1], b[j - 1]) then Diagonal
    else if Cell(Local, sc, a, b, i, j) == Cell(Local, sc, a, b, i - 1, j) + sc.gap then Above
    else Left
  }

  /** A path ending at (i, j) that attains local cell (i, j): the traceback
      of the Smith–Waterman matrix, which stops at the first zero cell. */
  ghost function LocalTraceback(sc: Scores, a: string, b: string, i: nat, j: nat): (path: Path)
    requires i <= |a| && j <= |b|
    ensures InGrid(a, b, path, i, j)
    ensures PathScore(sc, a, b, path, i, j) == Cell(Local, sc, a, b, i, j)
    decreases i + j
  {
    if i == 0 || j == 0 || Cell(Local, sc, a, b, i, j) == 0 then Start
    else
      match LocalMove(sc, a, b, i, j)
      case Diagonal => Then(LocalTraceback(sc, a, b, i - 1, j - 1), Diagonal)
      case Above => Then(LocalTraceback(sc, a, b, i - 1, j), Above)
      case Left => Then(LocalTraceback(sc, a, b, i, j - 1), Left)
  }

  /** With a non-positive gap score, local cell (i, j) is the best score over
      all alignments of a segment of a ending at i against a segment of b
      ending at j (the empty alignment scoring 0), and some alignment attains it. */
  lemma LocalCellIsOptimal(sc: Scores, a: string, b: string, i: nat, j: nat)
    requires sc.gap <= 0
    requires i <= |a| && j <= |b|
    ensures forall path :: InGrid(a, b, path, i, j)
              ==> PathScore(sc, a, b, path, i, j) <= Cell(Local, sc, a, b, i, j)
    ensures exists path :: InGrid(a, b, path, i, j)
              && PathScore(sc, a, b, path, i, j) == Cell(Local, sc, a, b, i, j)
  {
    forall path | InGrid(a, b, path, i, j)
      ensures PathScore(sc, a, b, path, i, j) <= Cell(Local, sc, a, b, i, j)
    {
      LocalUpperBound(sc, a, b, path, i, j);
    }
    var best := LocalTraceback(sc, a, b, i, j);
  }
}
