/** `render(atSize:)` lays out exactly `n*n` space-terminated cells in
    row-major order and looks only inside the grid. */
module TrackerRender {
  import opened Text
  import opened Tracker

  lemma {:induction false} TerminatedAppend(xs: seq<string>, ys: seq<string>, sep: char)
    ensures Terminated(xs + ys, sep) == Terminated(xs, sep) + Terminated(ys, sep)
  {
    if |xs| > 0 {
      assert (xs + ys)[1..] == xs[1..] + ys;
      TerminatedAppend(xs[1..], ys, sep);
    } else {
      assert xs + ys == ys;
    }
  }

  lemma {:induction false} RenderRowCells(m: MatrixMap, n: nat, i: int, j: nat)
    ensures RenderRow(m, n, i, j) == Terminated(RowCells(m, n, i, j), ' ')
    decreases n - j
  {
    if j < n {
      RenderRowCells(m, n, i, j + 1);
      var cells := RowCells(m, n, i, j);
      assert cells[1..] == RowCells(m, n, i, j + 1);
    }
  }

  lemma {:induction false} RenderRowsCells(m: MatrixMap, n: nat, i: nat)
    ensures RenderRows(m, n, i) == Terminated(CellsFrom(m, n, i), ' ')
    decreases n - i
  {
    if i < n {
      RenderRowCells(m, n, i, 0);
      RenderRowsCells(m, n, i + 1);
      TerminatedAppend(RowCells(m, n, i, 0), CellsFrom(m, n, i + 1), ' ');
    }
  }

  /** `render(atSize: n)` is the row-major list of cells, each followed by
      a space. */
  lemma RenderMapCells(m: MatrixMap, n: nat)
    ensures RenderMap(m, n) == Terminated(CellsFrom(m, n, 0), ' ')
  {
    RenderRowsCells(m, n, 0);
  }

  lemma {:induction false} RowCellsIndex(m: MatrixMap, n: nat, i: int, j: nat)
    ensures |RowCells(m, n, i, j)| == if j >= n then 0 else n - j
    ensures forall k :: 0 <= k < |RowCells(m, n, i, j)| ==> RowCells(m, n, i, j)[k] == Cell(m, i, j + k)
    decreases n - j
  {
    if j < n {
      RowCellsIndex(m, n, i, j + 1);
      var cells, tail := RowCells(m, n, i, j), RowCells(m, n, i, j + 1);
      assert cells == [Cell(m, i, j)] + tail;
      forall k | 0 <= k < |cells|
        ensures cells[k] == Cell(m, i, j + k)
      {
        if k > 0 {
          assert cells[k] == tail[k - 1];
        }
      }
    }
  }

  lemma {:induction false} CellsFromLength(m: MatrixMap, n: nat, i: nat)
    requires i <= n
    ensures |CellsFrom(m, n, i)| == (n - i) * n
    decreases n - i
  {
    if i < n {
      RowCellsIndex(m, n, i, 0);
      CellsFromLength(m, n, i + 1);
      assert (n - i) * n == n + (n - (i + 1)) * n;
    }
  }

  /** Where row `r` starts among the cells of rows `i ..`, counted without
      multiplication. */
  function RowStart(i: int, r: int, n: nat): nat
    decreases r - i
  {
    if r <= i then 0 else n + RowStart(i + 1, r, n)
  }

  lemma {:induction false} RowStartIsProduct(i: int, r: int, n: nat)
    requires i <= r
    ensures RowStart(i, r, n) == (r - i) * n
    decreases r - i
  {
    if i < r {
      RowStartIsProduct(i + 1, r, n);
    }
  }

  lemma {:induction false} CellsFromAt(m: MatrixMap, n: nat, i: nat, r: int, j: int)
    requires i <= r < n && 0 <= j < n
    ensures RowStart(i, r, n) + j < |CellsFrom(m, n, i)|
    ensures CellsFrom(m, n, i)[RowStart(i, r, n) + j] == Cell(m, r, j)
    decreases n - i
  {
    var row, rest := RowCells(m, n, i, 0), CellsFrom(m, n, i + 1);
    RowCellsLength(m, n, i);
    assert CellsFrom(m, n, i) == row + rest;
    if i < r {
      CellsFromAt(m, n, i + 1, r, j);
      var at := RowStart(i + 1, r, n) + j;
      assert RowStart(i, r, n) + j == n + at;
      assert (row + rest)[n + at] == rest[at];
    } else {
      RowCellAt(m, n, r, j);
      assert RowStart(i, r, n) == 0;
      assert (row + rest)[j] == row[j];
    }
  }

  lemma RowCellsLength(m: MatrixMap, n: nat, i: int)
    ensures |RowCells(m, n, i, 0)| == n
  {
    RowCellsIndex(m, n, i, 0);
  }

  lemma RowCellAt(m: MatrixMap, n: nat, i: int, j: int)
    requires 0 <= j < n
    ensures |RowCells(m, n, i, 0)| == n && RowCells(m, n, i, 0)[j] == Cell(m, i, j)
  {
    RowCellsIndex(m, n, i, 0);
  }

  /** Cell `i*n+j` of `cells` is the digits at row `i`, column `j`, or
      `--` when that index is missing. */
  predicate CellAt(cells: seq<string>, m: MatrixMap, n: nat, i: int, j: int)
  {
    0 <= i * n + j < |cells| && cells[i * n + j] == Cell(m, i, j)
  }

  lemma CellPosition(m: MatrixMap, n: nat, i: int, j: int)
    requires 0 <= i < n && 0 <= j < n
    ensures CellAt(CellsFrom(m, n, 0), m, n, i, j)
  {
    CellsFromAt(m, n, 0, i, j);
    RowStartIsProduct(0, i, n);
    assert RowStart(0, i, n) == i * n;
  }

  /** `render(atSize: n)` lists `n*n` cells in row-major order. */
  lemma CellsLayout(m: MatrixMap, n: nat)
    ensures |CellsFrom(m, n, 0)| == n * n
    ensures forall i, j :: 0 <= i < n && 0 <= j < n ==> CellAt(CellsFrom(m, n, 0), m, n, i, j)
  {
    CellsFromLength(m, n, 0);
    forall i, j | 0 <= i < n && 0 <= j < n
      ensures CellAt(CellsFrom(m, n, 0), m, n, i, j)
    {
      CellPosition(m, n, i, j);
    }
  }

  /** When every recorded digit string is non-empty and has no space,
      splitting the rendered text on spaces gives back the `n*n` cells. */
  lemma RenderMapSplit(m: MatrixMap, n: nat)
    requires forall idx :: idx in m ==> IsPiece(m[idx], ' ')
    ensures Split(RenderMap(m, n), ' ') == CellsFrom(m, n, 0)
  {
    RenderMapCells(m, n);
    var cells := CellsFrom(m, n, 0);
    forall k | 0 <= k < |cells|
      ensures IsPiece(cells[k], ' ')
    {
      CellIsPiece(m, n, 0, k);
    }
    SplitTerminated(cells, ' ');
  }

  lemma {:induction false} CellIsPiece(m: MatrixMap, n: nat, i: nat, k: int)
    requires forall idx :: idx in m ==> IsPiece(m[idx], ' ')
    requires 0 <= k < |CellsFrom(m, n, i)|
    ensures IsPiece(CellsFrom(m, n, i)[k], ' ')
    decreases n - i
  {
    RowCellsIndex(m, n, i, 0);
    var row := RowCells(m, n, i, 0);
    if k >= |row| {
      CellIsPiece(m, n, i + 1, k - |row|);
    }
  }

  /** The entries of `m` inside the `n`-by-`n` grid. */
  function Inside(m: MatrixMap, n: nat): (r: MatrixMap)
    ensures forall idx :: idx in r <==> idx in m && 0 <= idx.row < n && 0 <= idx.col < n
  {
    map idx | idx in m && 0 <= idx.row < n && 0 <= idx.col < n :: m[idx]
  }

  lemma {:induction false} RenderRowInside(m: MatrixMap, n: nat, i: int, j: nat)
    requires 0 <= i < n
    ensures RenderRow(m, n, i, j) == RenderRow(Inside(m, n), n, i, j)
    decreases n - j
  {
    if j < n {
      assert Cell(m, i, j) == Cell(Inside(m, n), i, j);
      RenderRowInside(m, n, i, j + 1);
    }
  }

  lemma {:induction false} RenderRowsInside(m: MatrixMap, n: nat, i: nat)
    ensures RenderRows(m, n, i) == RenderRows(Inside(m, n), n, i)
    decreases n - i
  {
    if i < n {
      RenderRowInside(m, n, i, 0);
      RenderRowsInside(m, n, i + 1);
    }
  }

  /** Entries outside the `n`-by-`n` grid do not affect `render(atSize: n)`. */
  lemma RenderMapIgnoresOutside(m: MatrixMap, n: nat)
    ensures RenderMap(m, n) == RenderMap(Inside(m, n), n)
  {
    RenderRowsInside(m, n, 0);
  }
}
