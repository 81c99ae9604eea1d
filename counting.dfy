/**
 * Counting cells of a kind in a grid of cells, and listing where they are in row-major
 * order: the bookkeeping restartGame does while it copies a level into its map.
 */
module Counting {
  import opened Wrappers
  import opened Cells
  import opened Levels

  /** Cells equal to `c` in one row. */
  function CountRow(row: seq<Cell>, c: Cell): (n: nat)
    ensures n <= |row|
  {
    if row == [] then 0
    else CountRow(row[..|row| - 1], c) + (if row[|row| - 1] == c then 1 else 0)
  }

  /** Cells equal to `c` in a grid. */
  function CountGrid(cells: seq<seq<Cell>>, c: Cell): nat {
    if cells == [] then 0
    else CountGrid(cells[..|cells| - 1], c) + CountRow(cells[|cells| - 1], c)
  }

  /** Overwriting one cell changes the row's count by what left and what came in. */
  lemma {:induction false} CountRowUpdate(row: seq<Cell>, j: int, x: Cell, c: Cell)
    requires 0 <= j < |row|
    ensures CountRow(row[j := x], c)
         == CountRow(row, c) - (if row[j] == c then 1 else 0) + (if x == c then 1 else 0)
  {
    var n := |row|;
    if j < n - 1 {
      assert row[j := x][..n - 1] == row[..n - 1][j := x];
      CountRowUpdate(row[..n - 1], j, x, c);
    } else {
      assert row[j := x][..n - 1] == row[..n - 1];
    }
  }

  /** Overwriting one cell changes the grid's count by what left and what came in. */
  lemma {:induction false} CountGridUpdate(cells: seq<seq<Cell>>, i: int, j: int, x: Cell, c: Cell)
    requires 0 <= i < |cells| && 0 <= j < |cells[i]|
    ensures CountGrid(cells[i := cells[i][j := x]], c)
         == CountGrid(cells, c) - (if cells[i][j] == c then 1 else 0) + (if x == c then 1 else 0)
  {
    var n := |cells|;
    var updated := cells[i := cells[i][j := x]];
    if i < n - 1 {
      assert updated[..n - 1] == cells[..n - 1][i := cells[i][j := x]];
      CountGridUpdate(cells[..n - 1], i, j, x, c);
    } else {
      assert updated[..n - 1] == cells[..n - 1];
      CountRowUpdate(cells[i], j, x, c);
    }
  }

  /** The positions (i, column) of the cells equal to `c` in row `i`, left to right. */
  function RowPositions(row: seq<Cell>, c: Cell, i: int): (ps: seq<(int, int)>)
    ensures |ps| == CountRow(row, c)
    ensures forall k :: 0 <= k < |ps| ==> ps[k].0 == i && 0 <= ps[k].1 < |row| && row[ps[k].1] == c
  {
    if row == [] then []
    else
      var init := RowPositions(row[..|row| - 1], c, i);
      assert forall k :: 0 <= k < |init| ==> row[init[k].1] == row[..|row| - 1][init[k].1];
      init + (if row[|row| - 1] == c then [(i, |row| - 1)] else [])
  }

  /** The positions of the cells equal to `c` in a grid, in row-major order. */
  function GridPositions(cells: seq<seq<Cell>>, c: Cell): (ps: seq<(int, int)>)
    ensures |ps| == CountGrid(cells, c)
    ensures forall k :: 0 <= k < |ps| ==>
      0 <= ps[k].0 < |cells| && 0 <= ps[k].1 < |cells[ps[k].0]| && cells[ps[k].0][ps[k].1] == c
  {
    if cells == [] then []
    else
      var n := |cells|;
      var init := GridPositions(cells[..n - 1], c);
      var last := RowPositions(cells[n - 1], c, n - 1);
      assert forall k :: 0 <= k < |init| ==> cells[init[k].0] == cells[..n - 1][init[k].0];
      init + last
  }

  /** Positions listed strictly in row-major order: row by row, left to right, none twice. */
  predicate RowMajor(ps: seq<(int, int)>) {
    forall a, b :: 0 <= a < b < |ps| ==> ps[a].0 < ps[b].0 || (ps[a].0 == ps[b].0 && ps[a].1 < ps[b].1)
  }

  /** Every cell of the row that holds `c` is listed. */
  lemma {:induction false} RowPositionsComplete(row: seq<Cell>, c: Cell, i: int)
    ensures forall j :: 0 <= j < |row| && row[j] == c ==> (i, j) in RowPositions(row, c, i)
  {
    if row != [] {
      var n := |row|;
      var init := RowPositions(row[..n - 1], c, i);
      RowPositionsComplete(row[..n - 1], c, i);
      assert RowPositions(row, c, i) == init + (if row[n - 1] == c then [(i, n - 1)] else []);
      forall j | 0 <= j < n && row[j] == c
        ensures (i, j) in RowPositions(row, c, i)
      {
        if j < n - 1 {
          assert row[..n - 1][j] == c;
        }
      }
    }
  }

  /** The cells of a row are listed left to right, each once. */
  lemma {:induction false} RowPositionsOrdered(row: seq<Cell>, c: Cell, i: int)
    ensures forall a, b :: 0 <= a < b < |RowPositions(row, c, i)| ==>
      RowPositions(row, c, i)[a].1 < RowPositions(row, c, i)[b].1
  {
    if row != [] {
      var n := |row|;
      var init := RowPositions(row[..n - 1], c, i);
      RowPositionsOrdered(row[..n - 1], c, i);
      var ps := init + (if row[n - 1] == c then [(i, n - 1)] else []);
      assert RowPositions(row, c, i) == ps;
      forall a, b | 0 <= a < b < |ps|
        ensures ps[a].1 < ps[b].1
      {
        if b < |init| {
          assert ps[a] == init[a] && ps[b] == init[b];
        } else {
          assert ps[a] == init[a] && ps[b] == (i, n - 1);
        }
      }
    }
  }

  /** Every cell of the grid that holds `c` is listed. */
  lemma {:induction false} GridPositionsComplete(cells: seq<seq<Cell>>, c: Cell)
    ensures forall i, j :: 0 <= i < |cells| && 0 <= j < |cells[i]| && cells[i][j] == c ==>
      (i, j) in GridPositions(cells, c)
  {
    if cells != [] {
      var n := |cells|;
      var init := GridPositions(cells[..n - 1], c);
      var last := RowPositions(cells[n - 1], c, n - 1);
      GridPositionsComplete(cells[..n - 1], c);
      RowPositionsComplete(cells[n - 1], c, n - 1);
      assert GridPositions(cells, c) == init + last;
      forall i, j | 0 <= i < n && 0 <= j < |cells[i]| && cells[i][j] == c
        ensures (i, j) in init + last
      {
        if i < n - 1 {
          assert cells[..n - 1][i] == cells[i];
          assert (i, j) in init;
        } else {
          assert (i, j) in last;
        }
      }
    }
  }

  /** The cells of the grid are listed in row-major order, each once. */
  lemma {:induction false} GridPositionsOrdered(cells: seq<seq<Cell>>, c: Cell)
    ensures RowMajor(GridPositions(cells, c))
  {
    if cells != [] {
      var n := |cells|;
      var init := GridPositions(cells[..n - 1], c);
      var last := RowPositions(cells[n - 1], c, n - 1);
      GridPositionsOrdered(cells[..n - 1], c);
      RowPositionsOrdered(cells[n - 1], c, n - 1);
      var ps := init + last;
      assert GridPositions(cells, c) == ps;
      forall a, b | 0 <= a < b < |ps|
        ensures ps[a].0 < ps[b].0 || (ps[a].0 == ps[b].0 && ps[a].1 < ps[b].1)
      {
        if b < |init| {
          assert ps[a] == init[a] && ps[b] == init[b];
        } else if a < |init| {
          assert ps[a] == init[a] && ps[b] == last[b - |init|];
        } else {
          assert ps[a] == last[a - |init|] && ps[b] == last[b - |init|];
        }
      }
    }
  }

  /**
   * The positions of the cells equal to `c` that a row-major scan has passed before it
   * reaches cell (i, j): all of the first i rows, then the first j cells of row i.
   */
  function Scanned(cells: seq<seq<Cell>>, c: Cell, i: nat, j: nat): (ps: seq<(int, int)>)
    requires i <= |cells| && (i < |cells| ==> j <= |cells[i]|) && (i == |cells| ==> j == 0)
  {
    var rows := GridPositions(cells[..i], c);
    if i < |cells| then rows + RowPositions(cells[i][..j], c, i) else rows
  }

  /** Nothing is scanned before the first cell. */
  lemma ScannedNothing(cells: seq<seq<Cell>>, c: Cell)
    ensures Scanned(cells, c, 0, 0) == []
  {
    assert cells[..0] == [];
    if |cells| > 0 {
      assert cells[0][..0] == [];
    }
  }

  /** Passing cell (i, j) adds its position when it holds `c`. */
  lemma ScannedStep(cells: seq<seq<Cell>>, c: Cell, i: nat, j: nat)
    requires i < |cells| && j < |cells[i]|
    ensures Scanned(cells, c, i, j + 1) == Scanned(cells, c, i, j) + (if cells[i][j] == c then [(i, j)] else [])
  {
    assert cells[i][..j + 1][..j] == cells[i][..j];
  }

  /** The end of row i is the start of row i + 1. */
  lemma ScannedNextRow(cells: seq<seq<Cell>>, c: Cell, i: nat)
    requires i < |cells|
    ensures Scanned(cells, c, i, |cells[i]|) == Scanned(cells, c, i + 1, 0)
  {
    assert cells[..i + 1][..i] == cells[..i];
    assert cells[i][..|cells[i]|] == cells[i];
    if i + 1 < |cells| {
      assert cells[i + 1][..0] == [];
    }
  }

  /** A scan past the last row has passed every position. */
  lemma ScannedAll(cells: seq<seq<Cell>>, c: Cell)
    ensures Scanned(cells, c, |cells|, 0) == GridPositions(cells, c)
  {
    assert cells[..|cells|] == cells;
  }

  /** The last of the positions ps, if there is one. */
  function LastOf(ps: seq<(int, int)>): (p: Option<(int, int)>)
    ensures p.None? <==> ps == []
    ensures p.Some? ==> p.value in ps
  {
    if ps == [] then None else Some(ps[|ps| - 1])
  }

  /**
   * What restartGame has gathered from the cells a scan has passed: where the ghosts
   * start, where Pac-Man starts (the last such cell wins), and how many dots there are.
   */
  datatype ScanProgress = ScanProgress(ghostStarts: seq<(int, int)>, pacStart: Option<(int, int)>,
                                       bigDots: nat, smallDots: nat)

  /** What the cells of level L before (i, j), in row-major order, give. */
  function ScanOf(L: Layout, i: nat, j: nat): ScanProgress
    requires L.Valid() && i <= L.height && j <= L.width && (i == L.height ==> j == 0)
  {
    var grid := L.Grid();
    ScanProgress(Scanned(grid, GhostStart, i, j), LastOf(Scanned(grid, PacManStart, i, j)),
                 |Scanned(grid, BigDot, i, j)|, |Scanned(grid, SmallDot, i, j)|)
  }

  /** What passing cell c at (i, j) adds to a scan. */
  function AfterCell(p: ScanProgress, c: Cell, i: int, j: int): (q: ScanProgress)
    ensures q.ghostStarts == p.ghostStarts + (if c == GhostStart then [(i, j)] else [])
    ensures q.pacStart == if c == PacManStart then Some((i, j)) else p.pacStart
    ensures q.bigDots == p.bigDots + (if c == BigDot then 1 else 0)
    ensures q.smallDots == p.smallDots + (if c == SmallDot then 1 else 0)
  {
    match c
    case GhostStart => p.(ghostStarts := p.ghostStarts + [(i, j)])
    case PacManStart => p.(pacStart := Some((i, j)))
    case BigDot => p.(bigDots := p.bigDots + 1)
    case SmallDot => p.(smallDots := p.smallDots + 1)
    case _ => p
  }

  lemma ScanOfNothing(L: Layout)
    requires L.Valid()
    ensures ScanOf(L, 0, 0) == ScanProgress([], None, 0, 0)
  {
    var grid := L.Grid();
    ScannedNothing(grid, GhostStart);
    ScannedNothing(grid, PacManStart);
    ScannedNothing(grid, BigDot);
    ScannedNothing(grid, SmallDot);
  }

  lemma ScanOfStep(L: Layout, i: nat, j: nat)
    requires L.Valid() && L.InBounds(i, j)
    ensures ScanOf(L, i, j + 1) == AfterCell(ScanOf(L, i, j), L.CellAt(i, j), i, j)
  {
    var grid := L.Grid();
    ScannedStep(grid, GhostStart, i, j);
    ScannedStep(grid, PacManStart, i, j);
    ScannedStep(grid, BigDot, i, j);
    ScannedStep(grid, SmallDot, i, j);
  }

  lemma ScanOfNextRow(L: Layout, i: nat)
    requires L.Valid() && i < L.height
    ensures ScanOf(L, i, L.width) == ScanOf(L, i + 1, 0)
  {
    var grid := L.Grid();
    ScannedNextRow(grid, GhostStart, i);
    ScannedNextRow(grid, PacManStart, i);
    ScannedNextRow(grid, BigDot, i);
    ScannedNextRow(grid, SmallDot, i);
  }

  /** A scan of the whole level has found every start cell and every dot. */
  lemma ScanOfAll(L: Layout)
    requires L.Valid()
    ensures var grid := L.Grid();
      ScanOf(L, L.height, 0) == ScanProgress(GridPositions(grid, GhostStart), LastOf(GridPositions(grid, PacManStart)),
                                             CountGrid(grid, BigDot), CountGrid(grid, SmallDot))
  {
    var grid := L.Grid();
    ScannedAll(grid, GhostStart);
    ScannedAll(grid, PacManStart);
    ScannedAll(grid, BigDot);
    ScannedAll(grid, SmallDot);
  }

  // ---------------------------------------------------------------------------
  // Cells against the symbols of the level file
  // ---------------------------------------------------------------------------

  lemma {:induction false} RowCountSnoc(row: string, x: char, ch: char)
    ensures RowCount(row + [x], ch) == RowCount(row, ch) + (if x == ch then 1 else 0)
  {
    if row == [] {
      assert [x][1..] == [];
    } else {
      assert (row + [x])[1..] == row[1..] + [x];
      RowCountSnoc(row[1..], x, ch);
    }
  }

  lemma {:induction false} SymbolCountSnoc(lines: seq<string>, x: string, ch: char)
    ensures SymbolCount(lines + [x], ch) == SymbolCount(lines, ch) + RowCount(x, ch)
  {
    if lines == [] {
      assert [x][1..] == [];
    } else {
      assert (lines + [x])[1..] == lines[1..] + [x];
      SymbolCountSnoc(lines[1..], x, ch);
    }
  }

  /** A decoded cell is `c` exactly when its symbol is `c`'s symbol. */
  lemma CellMatchesSymbol(L: Layout, i: int, j: int, c: Cell)
    requires L.Valid() && L.InBounds(i, j)
    ensures L.CellAt(i, j) == c <==> L.lines[i][j] == CellValue(c)[0]
  {
    if L.lines[i][j] == CellValue(c)[0] {
      assert CellValue(L.CellAt(i, j)) == CellValue(c);
      CellValueInjective(L.CellAt(i, j), c);
    }
  }

  lemma {:induction false} RowCountsSymbols(L: Layout, i: int, m: nat, c: Cell)
    requires L.Valid() && 0 <= i < L.height && m <= L.width
    ensures CountRow(L.Grid()[i][..m], c) == RowCount(L.lines[i][..m], CellValue(c)[0])
  {
    if m > 0 {
      RowCountsSymbols(L, i, m - 1, c);
      assert L.Grid()[i][..m][..m - 1] == L.Grid()[i][..m - 1];
      assert L.lines[i][..m] == L.lines[i][..m - 1] + [L.lines[i][m - 1]];
      RowCountSnoc(L.lines[i][..m - 1], L.lines[i][m - 1], CellValue(c)[0]);
      CellMatchesSymbol(L, i, m - 1, c);
    }
  }

  lemma {:induction false} GridPrefixCountsSymbols(L: Layout, n: nat, c: Cell)
    requires L.Valid() && n <= L.height
    ensures CountGrid(L.Grid()[..n], c) == SymbolCount(L.lines[..n], CellValue(c)[0])
  {
    if n > 0 {
      GridPrefixCountsSymbols(L, n - 1, c);
      CountGridPrefix(L.Grid(), n, c);
      SymbolCountPrefix(L.lines, n, CellValue(c)[0]);
      WholeRowCountsSymbols(L, n - 1, c);
    }
  }

  lemma WholeRowCountsSymbols(L: Layout, i: int, c: Cell)
    requires L.Valid() && 0 <= i < L.height
    ensures CountRow(L.Grid()[i], c) == RowCount(L.lines[i], CellValue(c)[0])
  {
    RowCountsSymbols(L, i, L.width, c);
    assert L.Grid()[i][..L.width] == L.Grid()[i];
    assert L.lines[i][..L.width] == L.lines[i];
  }

  /** One more row of a grid adds that row's cells. */
  lemma CountGridPrefix(cells: seq<seq<Cell>>, n: nat, c: Cell)
    requires 0 < n <= |cells|
    ensures CountGrid(cells[..n], c) == CountGrid(cells[..n - 1], c) + CountRow(cells[n - 1], c)
  {
    assert cells[..n][..n - 1] == cells[..n - 1];
  }

  /** One more line of a level file adds that line's symbols. */
  lemma SymbolCountPrefix(lines: seq<string>, n: nat, ch: char)
    requires 0 < n <= |lines|
    ensures SymbolCount(lines[..n], ch) == SymbolCount(lines[..n - 1], ch) + RowCount(lines[n - 1], ch)
  {
    assert lines[..n] == lines[..n - 1] + [lines[n - 1]];
    SymbolCountSnoc(lines[..n - 1], lines[n - 1], ch);
  }

  /** Counting decoded cells of a kind gives the number of its symbols in the level file. */
  lemma GridCountsSymbols(L: Layout, c: Cell)
    requires L.Valid()
    ensures CountGrid(L.Grid(), c) == SymbolCount(L.lines, CellValue(c)[0])
  {
    GridPrefixCountsSymbols(L, L.height, c);
    assert L.Grid()[..L.height] == L.Grid();
    assert L.lines[..L.height] == L.lines;
  }
}
