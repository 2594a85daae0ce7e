/** Grid cells and the row-major order in which the food placer visits them. */
module RowMajor {

  /** A grid cell as (row, column). */
  type Cell = (int, int)

  predicate InGrid(rows: int, cols: int, c: Cell) {
    0 <= c.0 < rows && 0 <= c.1 < cols
  }

  /** No cell occurs twice. */
  predicate Distinct(cells: seq<Cell>) {
    forall i, j :: 0 <= i < j < |cells| ==> cells[i] != cells[j]
  }

  /** The cells of a sequence, as a set. */
  function CellSet(cells: seq<Cell>): set<Cell> {
    set c | c in cells
  }

  /** The first n cells of row r, in column order: (r, 0), ..., (r, n - 1). */
  function RowCells(r: int, n: nat): seq<Cell> {
    if n == 0 then [] else RowCells(r, n - 1) + [(r, n - 1)]
  }

  /** The cells of the first n rows of a grid of width cols, in row-major order. */
  function GridCells(n: nat, cols: nat): seq<Cell> {
    if n == 0 then [] else GridCells(n - 1, cols) + RowCells(n - 1, cols)
  }

  /** The cells of `cells` that are not in `occupied`, in their original order. */
  function Free(cells: seq<Cell>, occupied: set<Cell>): seq<Cell> {
    if cells == [] then []
    else (if cells[0] in occupied then [] else [cells[0]]) + Free(cells[1..], occupied)
  }

  lemma {:induction false} RowCellsAt(r: int, n: nat)
    ensures |RowCells(r, n)| == n
    ensures forall j :: 0 <= j < n ==> RowCells(r, n)[j] == (r, j)
  {
    if n > 0 {
      RowCellsAt(r, n - 1);
    }
  }

  lemma RowCellsMember(r: int, n: nat, x: Cell)
    ensures x in RowCells(r, n) <==> x.0 == r && 0 <= x.1 < n
  {
    RowCellsAt(r, n);
    if x.0 == r && 0 <= x.1 < n {
      assert RowCells(r, n)[x.1] == x;
    }
  }

  lemma {:induction false} RowCellsPrefix(r: int, m: nat, n: nat)
    requires m <= n
    ensures RowCells(r, m) <= RowCells(r, n)
  {
    if m < n {
      RowCellsPrefix(r, m, n - 1);
    }
  }

  lemma {:induction false} GridCellsPrefix(m: nat, n: nat, cols: nat)
    requires m <= n
    ensures GridCells(m, cols) <= GridCells(n, cols)
  {
    if m < n {
      GridCellsPrefix(m, n - 1, cols);
    }
  }

  /** The grid enumeration holds exactly the in-bounds cells, each once, rows * cols of them. */
  lemma {:induction false} GridCellsSpec(n: nat, cols: nat)
    ensures |GridCells(n, cols)| == n * cols
    ensures Distinct(GridCells(n, cols))
    ensures forall x :: x in GridCells(n, cols) <==> InGrid(n, cols, x)
  {
    if n > 0 {
      GridCellsSpec(n - 1, cols);
      RowCellsAt(n - 1, cols);
      var g, row := GridCells(n - 1, cols), RowCells(n - 1, cols);
      assert GridCells(n, cols) == g + row;
      assert |g + row| == (n - 1) * cols + cols == n * cols;
      forall x
        ensures x in g + row <==> InGrid(n, cols, x)
      {
        RowCellsMember(n - 1, cols, x);
      }
      forall i, j | 0 <= i < j < |g + row|
        ensures (g + row)[i] != (g + row)[j]
      {
        if j < |g| {
          assert (g + row)[i] == g[i] && (g + row)[j] == g[j];
        } else if i < |g| {
          assert (g + row)[i] == g[i] && g[i] in g;
          assert (g + row)[j] == row[j - |g|] == (n - 1, j - |g|);
        } else {
          assert (g + row)[i] == row[i - |g|] && (g + row)[j] == row[j - |g|];
        }
      }
    }
  }

  lemma {:induction false} FreeMember(cells: seq<Cell>, occupied: set<Cell>, x: Cell)
    ensures x in Free(cells, occupied) <==> x in cells && x !in occupied
  {
    if cells != [] {
      FreeMember(cells[1..], occupied, x);
      assert cells == [cells[0]] + cells[1..];
    }
  }

  lemma {:induction false} FreeAppend(a: seq<Cell>, b: seq<Cell>, occupied: set<Cell>)
    ensures Free(a + b, occupied) == Free(a, occupied) + Free(b, occupied)
  {
    if a == [] {
      assert a + b == b;
    } else {
      assert (a + b)[0] == a[0] && (a + b)[1..] == a[1..] + b;
      FreeAppend(a[1..], b, occupied);
    }
  }

  lemma FreeSnoc(a: seq<Cell>, x: Cell, occupied: set<Cell>)
    ensures Free(a + [x], occupied) == Free(a, occupied) + (if x in occupied then [] else [x])
  {
    FreeAppend(a, [x], occupied);
    assert [x][1..] == [];
  }

  lemma FreePrefix(a: seq<Cell>, b: seq<Cell>, occupied: set<Cell>)
    requires a <= b
    ensures Free(a, occupied) <= Free(b, occupied)
  {
    assert b == a + b[|a|..];
    FreeAppend(a, b[|a|..], occupied);
  }

  /** Filtering a duplicate-free sequence removes exactly the occupied cells it holds. */
  lemma {:induction false} FreeCount(cells: seq<Cell>, occupied: set<Cell>)
    requires Distinct(cells)
    ensures |Free(cells, occupied)| == |cells| - |occupied * CellSet(cells)|
  {
    if cells != [] {
      var x, rest := cells[0], cells[1..];
      DistinctTail(cells);
      FreeCount(rest, occupied);
      CellSetCons(cells);
      var inRest := occupied * CellSet(rest);
      if x in occupied {
        assert occupied * CellSet(cells) == inRest + {x};
        assert |inRest + {x}| == |inRest| + 1;
      } else {
        assert occupied * CellSet(cells) == inRest;
      }
    }
  }

  lemma CellSetCons(cells: seq<Cell>)
    requires Distinct(cells) && cells != []
    ensures CellSet(cells) == {cells[0]} + CellSet(cells[1..])
    ensures cells[0] !in CellSet(cells[1..])
  {
    assert cells == [cells[0]] + cells[1..];
  }

  lemma DistinctTail(cells: seq<Cell>)
    requires Distinct(cells) && cells != []
    ensures Distinct(cells[1..])
  {
    var rest := cells[1..];
    forall i, j | 0 <= i < j < |rest| ensures rest[i] != rest[j] {
      assert rest[i] == cells[i + 1] && rest[j] == cells[j + 1];
    }
  }

  /**
   * The free cells of a grid whose occupied cells all lie inside it number
   * rows * cols minus the number of occupied cells.
   */
  lemma FreeGridCount(rows: nat, cols: nat, occupied: set<Cell>)
    requires forall x :: x in occupied ==> InGrid(rows, cols, x)
    ensures |Free(GridCells(rows, cols), occupied)| == rows * cols - |occupied|
  {
    GridCellsSpec(rows, cols);
    FreeCount(GridCells(rows, cols), occupied);
    assert occupied * CellSet(GridCells(rows, cols)) == occupied;
  }

  /**
   * When the scan of the grid reaches a free cell (r, c), the free cells seen
   * before it are exactly its position in the row-major list of free cells.
   */
  lemma FreeAt(rows: nat, cols: nat, r: nat, c: nat, occupied: set<Cell>)
    requires r < rows && c < cols && (r, c) !in occupied
    ensures |Free(GridCells(r, cols) + RowCells(r, c), occupied)| < |Free(GridCells(rows, cols), occupied)|
    ensures Free(GridCells(rows, cols), occupied)[|Free(GridCells(r, cols) + RowCells(r, c), occupied)|] == (r, c)
  {
    var seen := GridCells(r, cols) + RowCells(r, c);
    RowCellsPrefix(r, c + 1, cols);
    GridCellsPrefix(r + 1, rows, cols);
    assert seen + [(r, c)] == GridCells(r, cols) + RowCells(r, c + 1);
    assert GridCells(r, cols) + RowCells(r, c + 1) <= GridCells(r + 1, cols);
    FreePrefix(seen + [(r, c)], GridCells(rows, cols), occupied);
    FreeSnoc(seen, (r, c), occupied);
  }

  /** A duplicate-free sequence has as many distinct cells as elements. */
  lemma DistinctCellCount(cells: seq<Cell>)
    requires Distinct(cells)
    ensures |CellSet(cells)| == |cells|
  {
    FreeCount(cells, CellSet(cells));
    var free := Free(cells, CellSet(cells));
    if free != [] {
      FreeMember(cells, CellSet(cells), free[0]);
    }
    assert CellSet(cells) * CellSet(cells) == CellSet(cells);
  }
}
