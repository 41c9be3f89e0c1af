/** `TaskTracker` (TaskTracker.swift): accumulates recognised frames of the
    puzzle until the matrix size, every cell and the target list have each
    been read the same way often enough, and then exposes them, caching the
    result until `reset`.

    The class is modelled as an immutable record; every mutating member
    returns the new state, and the two getters, which fill a cache as a side
    effect, return their value together with the new state.
 */
module Tracker {
  import opened Wrappers
  import opened Text
  import opened Grid
  import opened Modes

  datatype MatrixIndex = MatrixIndex(row: int, col: int)

  type MatrixMap = map<MatrixIndex, string>

  /** One recognised frame: the digits found at each index and the matrix
      size counted for it (a count, so never negative). */
  datatype MatrixInfo = MatrixInfo(cells: MatrixMap, size: nat)

  const DigitConfidenceThreshold: int := 5
  const SizeThreshold: int := 5
  const TargetsThreshold: int := 5
  const TargetsSeparator: char := '|'

  // ----- MatrixMap.render(atSize:) -----

  /** The text of one cell: its digits, or `--` when the index is missing. */
  function Cell(m: MatrixMap, i: int, j: int): string
  {
    if MatrixIndex(i, j) in m then m[MatrixIndex(i, j)] else "--"
  }

  /** The inner loop of `render(atSize:)` from column `j`. */
  function RenderRow(m: MatrixMap, n: nat, i: int, j: nat): string
    decreases n - j
  {
    if j >= n then "" else Cell(m, i, j) + " " + RenderRow(m, n, i, j + 1)
  }

  /** The outer loop of `render(atSize:)` from row `i`. */
  function RenderRows(m: MatrixMap, n: nat, i: nat): string
    decreases n - i
  {
    if i >= n then "" else RenderRow(m, n, i, 0) + RenderRows(m, n, i + 1)
  }

  /** `render(atSize:)`: every cell of the `n`-by-`n` grid followed by a
      space, row after row. */
  function RenderMap(m: MatrixMap, n: nat): string
  {
    RenderRows(m, n, 0)
  }

  /** The cells of row `i` from column `j` on. */
  function RowCells(m: MatrixMap, n: nat, i: int, j: nat): seq<string>
    decreases n - j
  {
    if j >= n then [] else [Cell(m, i, j)] + RowCells(m, n, i, j + 1)
  }

  /** The cells of rows `i` .. `n-1` in row-major order. */
  function CellsFrom(m: MatrixMap, n: nat, i: nat): seq<string>
    decreases n - i
  {
    if i >= n then [] else RowCells(m, n, i, 0) + CellsFrom(m, n, i + 1)
  }

  // ----- the tracker -----

  datatype TaskTracker = TaskTracker(
    candidates: map<MatrixIndex, ModeDetector<string>>,
    sizeDetector: ModeDetector<nat>,
    detectedMatrix: Option<Matrix>,
    targetsDetector: ModeDetector<string>,
    detectedTargets: Option<seq<string>>)

  /** A new tracker. */
  function Fresh(): TaskTracker
  {
    TaskTracker(map[], Init(SizeThreshold), None, Init(TargetsThreshold), None)
  }

  /** `log(matrixInfo:)`: track the size once and each digit at its index,
      creating a detector for an index seen for the first time. */
  function LogMatrix(tr: TaskTracker, info: MatrixInfo): (r: TaskTracker)
    ensures r.candidates.Keys == tr.candidates.Keys + info.cells.Keys
    ensures forall idx :: idx in tr.candidates && idx !in info.cells ==> r.candidates[idx] == tr.candidates[idx]
    ensures forall idx :: idx in info.cells && idx !in tr.candidates ==>
      r.candidates[idx] == Track(Init(DigitConfidenceThreshold), info.cells[idx])
    ensures forall idx :: idx in info.cells && idx in tr.candidates ==>
      r.candidates[idx] == Track(tr.candidates[idx], info.cells[idx])
    ensures r.sizeDetector == Track(tr.sizeDetector, info.size)
    ensures r.detectedMatrix == tr.detectedMatrix && r.targetsDetector == tr.targetsDetector
    ensures r.detectedTargets == tr.detectedTargets
  {
    var candidates := map idx | idx in tr.candidates.Keys + info.cells.Keys ::
      var d := if idx in tr.candidates then tr.candidates[idx] else Init(DigitConfidenceThreshold);
      if idx in info.cells then Track(d, info.cells[idx]) else d;
    tr.(sizeDetector := Track(tr.sizeDetector, info.size), candidates := candidates)
  }

  /** Every cell of the `size`-by-`size` grid has a detector with a mode. */
  predicate AllCellModes(tr: TaskTracker, size: nat)
  {
    forall i, j :: 0 <= i < size && 0 <= j < size ==>
      MatrixIndex(i, j) in tr.candidates && Mode(tr.candidates[MatrixIndex(i, j)]).Some?
  }

  /** The grid of the cells' modes. */
  function ModeGrid(tr: TaskTracker, size: nat): (m: Matrix)
    requires AllCellModes(tr, size)
    ensures |m| == size && forall i :: 0 <= i < size ==> |m[i]| == size
    ensures forall i, j :: 0 <= i < size && 0 <= j < size ==>
      Mode(tr.candidates[MatrixIndex(i, j)]) == Some(m[i][j])
  {
    seq(size, i requires 0 <= i < size =>
      seq(size, j requires 0 <= j < size => Mode(tr.candidates[MatrixIndex(i, j)]).value))
  }

  /** `bestMatrixCandidate`: nil until the size has a mode; then the cached
      matrix if there is one; otherwise the grid of modes when every cell
      has one (which is then cached), else nil. */
  function BestMatrix(tr: TaskTracker): (r: (Option<Matrix>, TaskTracker))
    ensures Mode(tr.sizeDetector).None? ==> r == (None, tr)
    ensures r.1 == tr || (tr.detectedMatrix.None? && r.1 == tr.(detectedMatrix := r.0) && r.0.Some?)
    ensures tr.detectedMatrix.None? && r.0.Some? ==>
      AllCellModes(tr, Mode(tr.sizeDetector).value) && r.0.value == ModeGrid(tr, Mode(tr.sizeDetector).value)
  {
    match Mode(tr.sizeDetector)
    case None => (None, tr)
    case Some(size) =>
      if tr.detectedMatrix.Some? then (tr.detectedMatrix, tr)
      else if AllCellModes(tr, size) then
        var m := ModeGrid(tr, size);
        (Some(m), tr.(detectedMatrix := Some(m)))
      else (None, tr)
  }

  /** `log(targets:)`: once the targets have a mode, or for an empty list,
      nothing changes; otherwise track the list joined with `|`. */
  function LogTargets(tr: TaskTracker, targets: seq<string>): (r: TaskTracker)
    ensures Mode(tr.targetsDetector).Some? || |targets| == 0 ==> r == tr
    ensures r.candidates == tr.candidates && r.sizeDetector == tr.sizeDetector
    ensures r.detectedMatrix == tr.detectedMatrix && r.detectedTargets == tr.detectedTargets
  {
    if Mode(tr.targetsDetector).Some? then tr
    else if |targets| == 0 then tr
    else tr.(targetsDetector := Track(tr.targetsDetector, Join(targets, TargetsSeparator)))
  }

  /** `bestTargestCandidates`: the cached list if there is one, otherwise
      the mode of the joined lists split on `|` (then cached), else nil. */
  function BestTargets(tr: TaskTracker): (r: (Option<seq<string>>, TaskTracker))
    ensures tr.detectedTargets.Some? ==> r == (tr.detectedTargets, tr)
    ensures tr.detectedTargets.None? && Mode(tr.targetsDetector).None? ==> r == (None, tr)
    ensures tr.detectedTargets.None? && Mode(tr.targetsDetector).Some? ==>
      r.0 == Some(Split(Mode(tr.targetsDetector).value, TargetsSeparator)) && r.1 == tr.(detectedTargets := r.0)
  {
    if tr.detectedTargets.Some? then (tr.detectedTargets, tr)
    else match Mode(tr.targetsDetector)
      case None => (None, tr)
      case Some(joined) =>
        var targets := Split(joined, TargetsSeparator);
        (Some(targets), tr.(detectedTargets := Some(targets)))
  }

  /** `reset()`: drop every detector's counts and both caches. */
  function Reset(tr: TaskTracker): (r: TaskTracker)
    ensures r.candidates == map[] && r.detectedMatrix == None && r.detectedTargets == None
    ensures Mode(r.sizeDetector) == None && Mode(r.targetsDetector) == None
    ensures tr.sizeDetector.stopThreshold == SizeThreshold && tr.targetsDetector.stopThreshold == TargetsThreshold ==>
      r == Fresh()
  {
    TaskTracker(map[], Modes.Reset(tr.sizeDetector), None, Modes.Reset(tr.targetsDetector), None)
  }
}
