# sagen-toolkit alignment core in Dafny

This project models the core of the sagen-toolkit sequence utilities:

- `needleman_wunsch` (global alignment) and `smith_waterman` (local
  alignment) from `source/alignment.py`. Both check their positional
  arguments (exactly two, then all strings). Both merge the keyword options
  over the module defaults (`match` 1, `mismatch` -1, `gap` -2). Both then
  fill the (R+1) x (Q+1) dynamic-programming matrix.
- The alphabet check `valid` from `sequence.py`.
- The Wallace-rule melting temperature `compute_melting_temperature` from
  `PCR.py`.

Python's dynamic values are modelled by the tagged datatype `Python.Value`.
A raised exception is modelled by `Python.Result`, which carries the
exception type and the exact message.

Modules:

- `Python`: argument values, exceptions, results.
- `Scoring`: the default options, the keyword merge, the substitution score.
- `Alignment`: the recursive reference definition `Cell` of every matrix
  cell in both modes, the row-by-row fill proved equal to it, and the two
  entry points.
- `AlignmentPaths`: alignments as paths of moves through the grid. It proves
  that every global cell is the best score over all alignments of the two
  prefixes, and that every local cell is the best score over all alignments
  ending there. In both cases a traceback attains the cell.
- `AlignmentProperties`: symmetry under swapping the two sequences, the
  score of aligning a sequence with itself, and the empty case.
- `Sequence`: `valid`, its ordered error checks, and its meaning as alphabet
  membership.
- `Pcr`: the melting temperature, its checks, and the per-nucleotide
  reading of the formula.

The source computes every boundary cell first and then the interior row by
row. `Alignment.Fill` instead computes each row's column-0 cell when it
starts that row. Every cell still comes from the same neighbours, so the
resulting matrix is the same.

Both alignment functions describe themselves as aligning two sequences.
They take any number of positional arguments and raise `ValueError` at run
time when there are not exactly two. The model keeps that run-time check.

## Model

| member | source | states |
|---|---|---|
| Scoring.Merge | source/alignment.py:30 | each of match, mismatch and gap is the caller's value when supplied and the module default otherwise |
| Scoring.Substitution | source/alignment.py:46-49 | definition: the diagonal candidate adds `match` when the two symbols are equal and `mismatch` otherwise (the same test at lines 93-96) |
| Scoring.MergeDefaults | source/alignment.py:6-10 | with no keyword arguments the scores are (1, -1, -2); keys other than the three options never change the scores |
| Alignment.Border | source/alignment.py:34-38 | definition: boundary cell (k, 0) or (0, k) holds k gaps in global mode and 0 in local mode (lines 81-85) |
| Alignment.Best | source/alignment.py:54 | definition: the largest of the left, above and diagonal candidates; local mode also takes 0 as a candidate (line 101) |
| Alignment.Cell | source/alignment.py:32-55 | definition of cell (i, j): 0 at (0, 0), the boundary value on row 0 and column 0, and elsewhere the combination of left + gap, above + gap and diagonal + substitution, each from the neighbouring cell (lines 79-102 for local mode) |
| Alignment.Matrix | source/alignment.py:32-57 | the returned matrix has R+1 rows of Q+1 cells, cell (i, j) being the value of the recurrence there |
| Alignment.GapCostIsProduct | source/alignment.py:34-38 | the global boundary value after k one-gap steps equals gap * k, the product the source writes |
| Alignment.BestIsMaximum | source/alignment.py:54 | the combined score is at least each of the three candidates and equals one of them; in local mode it is also at least 0 or equal to 0 (line 101) |
| Alignment.CellNeighbours | source/alignment.py:40-55 | an interior cell is at least its left and above neighbours plus gap and its diagonal neighbour plus the substitution score, and equals one of these (or 0 in local mode) |
| Alignment.LocalCellNonNegative | source/alignment.py:101 | no local cell is negative |
| Alignment.FirstRow | source/alignment.py:37-38 | row 0 has Q+1 cells, each equal to the boundary value of its column |
| Alignment.NextRow | source/alignment.py:40-55 | from a correct row i-1, the inner loop produces row i with every cell equal to the recurrence's value |
| Alignment.Fill | source/alignment.py:32-55 | the filled matrix has (R+1) x (Q+1) cells and each equals the reference cell |
| Alignment.CheckPair | source/alignment.py:23-28 | a count other than two raises ValueError before any type is looked at; otherwise a non-string raises TypeError; success exactly for two strings |
| Alignment.Align | source/alignment.py:23-55 | the error results of the argument checks, and on success the reference matrix for the merged scores |
| Alignment.NeedlemanWunsch | source/alignment.py:13-57 | the two errors in order; on success an (R+1) x (Q+1) matrix whose column 0 and row 0 hold gap * k and which equals the global reference matrix |
| Alignment.SmithWaterman | source/alignment.py:60-104 | the two errors in order; on success an (R+1) x (Q+1) matrix with zero borders, no negative cell, equal to the local reference matrix |
| AlignmentPaths.GlobalDominatesMove | source/alignment.py:40-55 | a global cell is at least the cell any single move comes from plus that move's column score, on the borders as well |
| AlignmentPaths.LocalDominatesMove | source/alignment.py:87-102 | the same for local cells when the gap score is not positive |
| AlignmentPaths.GlobalUpperBound | source/alignment.py:40-55 | no alignment of a[..i] with b[..j] scores more than global cell (i, j) |
| AlignmentPaths.LocalUpperBound | source/alignment.py:87-102 | no alignment ending at (i, j), whatever its start, scores more than local cell (i, j) |
| AlignmentPaths.GlobalMove | source/alignment.py:54 | the traceback step picks a move whose candidate the cell equals, only from inside the grid |
| AlignmentPaths.GlobalTraceback | source/alignment.py:40-55 | the traceback path runs from (0, 0) to (i, j) and scores exactly global cell (i, j) |
| AlignmentPaths.GlobalCellIsOptimal | source/alignment.py:13-57 | global cell (i, j) is the maximum alignment score of the prefixes: an upper bound on every alignment, attained by one |
| AlignmentPaths.LocalMove | source/alignment.py:101 | in a positive interior local cell, the traceback step picks a move whose candidate the cell equals |
| AlignmentPaths.LocalTraceback | source/alignment.py:87-102 | the traceback path ends at (i, j) and scores exactly local cell (i, j) |
| AlignmentPaths.LocalCellIsOptimal | source/alignment.py:60-104 | local cell (i, j) is the maximum score over alignments ending at (i, j), the empty one scoring 0, and some alignment attains it |
| AlignmentProperties.CellSymmetric | source/alignment.py:40-55 | swapping reference and query mirrors every cell, in both modes |
| AlignmentProperties.MatrixSymmetric | source/alignment.py:32-55 | the matrix for (b, a) is the transpose of the matrix for (a, b) |
| AlignmentProperties.GlobalCellBounded | source/alignment.py:40-55 | when a match is worth at least a mismatch and two gaps, no global cell exceeds the score of matching min(i, j) symbols and gapping the rest |
| AlignmentProperties.SelfDiagonalScore | source/alignment.py:46-47 | pairing each of the first k symbols of a sequence with itself reaches at least match * k |
| AlignmentProperties.SelfAlignmentScore | source/alignment.py:13-57 | aligning a sequence with itself scores exactly match * length under the same condition |
| AlignmentProperties.DefaultSelfAlignment | source/alignment.py:6-10 | with the default options a sequence aligned with itself scores its length |
| AlignmentProperties.EmptyPair | source/alignment.py:32 | two empty sequences give the 1 x 1 matrix [[0]] in both modes |
| Sequence.CheckBases | sequence.py:26-30 | success exactly when every base is a one-character string; otherwise the first malformed base raises TypeError (not a string) or ValueError (wrong length) |
| Sequence.Scan | sequence.py:32-36 | True exactly when every symbol of the sequence is among the bases |
| Sequence.MemberOfAlphabet | sequence.py:33 | a symbol is among the bases exactly when it is in their alphabet |
| Sequence.Valid | sequence.py:4-36 | the four errors in the source's order; on success, True exactly when every symbol is in the alphabet of the bases |
| Sequence.DefaultAlphabet | sequence.py:4 | the default bases are well formed and their alphabet is {A, T, G, C} |
| Sequence.ValidDefault | sequence.py:4-36 | with the default bases only a non-string raises, and the result is True exactly for strings over A, T, G, C |
| Sequence.ValidEmpty | sequence.py:32-36 | the empty string is valid for any well-formed bases |
| Sequence.ChecksPrecedeScan | sequence.py:20-30 | whether and what `valid` raises does not depend on the string's contents |
| Sequence.ValidConcat | sequence.py:32-36 | a concatenation is valid exactly when both parts are |
| Pcr.AllNumbers | PCR.py:17-19 | True exactly when every argument is an integer |
| Pcr.MeltingTemperature | PCR.py:5-26 | a non-number raises TypeError whatever the count; all numbers but not four raises ValueError; four numbers give 2(A+T) + 4(G+C), which is even and non-negative for non-negative counts |
| Pcr.MeltingTemperatureMonotone | PCR.py:26 | raising any count never lowers the temperature |
| Pcr.WallaceOfCounts | PCR.py:26 | the formula over a strand's A, T, G and C counts equals the sum of per-nucleotide weights (2 for A/T, 4 for G/C) |
| Pcr.MeltingTemperatureOfStrand | PCR.py:24-26 | called with a strand's four counts, the function returns that strand's per-nucleotide weight sum |

## Left out

- Floating-point values are not modelled. This covers float keyword
  options, float arguments to the melting temperature, and the `int(...)`
  conversions at source/alignment.py:35, 38, 54 and 101. With integer
  options those conversions are the identity.
- Scoring.Merge: keyword options are a map from names to integers. Values of
  other types, and any effect they would have, are not modelled.
- Alignment.Fill: the matrix is `seq<seq<int>>` with unbounded integers.
  The source's `numpy` array holds 64-bit integers. Values outside that
  range are not modelled: they raise `OverflowError` at the boundary stores
  (source/alignment.py:35, 38), where `gap * index` is computed as an
  unbounded Python integer, and they wrap around in the interior sums
  (lines 47-52 and 94-99), which use numpy's 64-bit arithmetic.
- Pcr.MeltingTemperature: returns the exact integer value of the formula.
  The source converts it with `float(...)` at PCR.py:26. That conversion
  rounds results whose magnitude exceeds 2**53 and raises `OverflowError`
  past the float range; neither effect is modelled. Float arguments, which
  the source accepts, cannot be expressed in `Python.Value`.
- Python.Value: `bool` arguments are modelled as `Int`, as Python's
  `isinstance(True, int)` holds. Values of any other type collapse into
  `Other`.
- AlignmentPaths.LocalDominatesMove, AlignmentPaths.LocalUpperBound,
  AlignmentPaths.LocalCellIsOptimal: proved only for a gap score that is not
  positive. With a positive gap score, an all-gap path along the zero border
  scores more than the border cell. The source places no condition on the
  gap score; it only fills the matrix.
- AlignmentProperties.GlobalCellBounded, AlignmentProperties.SelfAlignmentScore:
  stated under the condition that a match scores at least a mismatch and at
  least two gaps, without which the self-alignment need not be the diagonal.
- `ratios` (sequence.py:39-72) is not modelled: it divides by the sequence
  length in floating point.
- The docstrings' `numpy.ndarray` and `float` return annotations are
  represented by a sequence of integer rows and by an integer.
