/** The board the automated player plays on: the clue numbers the board
    computes for the player, flagging, the win test, and the clamping of
    custom board settings. */
module Game {
  import opened Grid

  /** One square of the board. */
  datatype Tile = Tile(isMine: bool, isRevealed: bool, isFlagged: bool, adjacentMines: int)

  /** A fresh square: no mine, hidden, unflagged, clue 0. */
  const Blank := Tile(false, false, false, 0)

  /** `max(lo, min(hi, x))`. */
  function Clamp(lo: int, hi: int, x: int): (r: int)
    ensures lo <= hi ==> lo <= r <= hi
    ensures lo <= x <= hi ==> r == x
    ensures x < lo ==> r == lo
    ensures lo <= hi < x ==> r == hi
  {
    var capped := if x < hi then x else hi;
    if capped > lo then capped else lo
  }

  /** Board dimensions and mine count, as the custom-settings menu holds them. */
  datatype Settings = Settings(rows: int, cols: int, mines: int)

  /** The settings `apply_custom_settings` adopts: rows and columns clamped to
      `[2, 30]`, the mine count to `[1, rows * cols - 1]`. */
  function Clamped(s: Settings): (r: Settings)
    ensures 2 <= r.rows <= 30 && 2 <= r.cols <= 30
    ensures 1 <= r.mines < r.rows * r.cols
    ensures 2 <= s.rows <= 30 ==> r.rows == s.rows
    ensures 2 <= s.cols <= 30 ==> r.cols == s.cols
    ensures 1 <= s.mines < r.rows * r.cols ==> r.mines == s.mines
  {
    var rows := Clamp(2, 30, s.rows);
    var cols := Clamp(2, 30, s.cols);
    assert rows * cols >= 2 * cols >= 4;
    Settings(rows, cols, Clamp(1, rows * cols - 1, s.mines))
  }

  /** Applying the settings a second time changes nothing. */
  lemma ClampedIdempotent(s: Settings)
    ensures Clamped(Clamped(s)) == Clamped(s)
  {
    var r := Clamped(s);
    assert Clamped(r).rows == r.rows && Clamped(r).cols == r.cols;
  }

  /** The win test passes exactly when every cell that is not a mine has
      been revealed, provided the revealed cells are board cells that are
      not mines and the mines lie on the board. */
  lemma WinExactly(height: nat, width: nat, mines: set<Cell>, revealed: set<Cell>)
    requires mines <= Board(height, width)
    requires revealed <= Board(height, width) - mines
    ensures |revealed| >= height * width - |mines| <==> revealed == Board(height, width) - mines
  {
    var board := Board(height, width);
    BoardSize(height, width);
    assert board == (board - mines) + mines;
    assert |board - mines| == height * width - |mines|;
    SubsetCard(revealed, board - mines);
  }

  /** Square `t` after the clue pass: a mine keeps its square, any other
      square gets clue `clue`. */
  function Clued(t: Tile, clue: int): Tile {
    if t.isMine then t else t.(adjacentMines := clue)
  }

  class Minesweeper {
    var rows: int
    var cols: int
    var totalMines: int
    var grid: array2<Tile>
    var minesFlagged: int
    var cellsRevealed: int
    var gameWon: bool
    var customRows: int
    var customCols: int
    var customMines: int

    /** The grid has `rows` rows and `cols` columns. */
    ghost predicate Valid()
      reads this
    {
      grid.Length0 == rows && grid.Length1 == cols
    }

    /** The cells that hold a mine. */
    ghost function MineCells(): set<Cell>
      reads `grid, grid
    {
      set r, c | 0 <= r < grid.Length0 && 0 <= c < grid.Length1 && grid[r, c].isMine :: (r, c)
    }

    /** The cells that carry a flag. */
    ghost function Flagged(): set<Cell>
      reads `grid, grid
    {
      set r, c | 0 <= r < grid.Length0 && 0 <= c < grid.Length1 && grid[r, c].isFlagged :: (r, c)
    }

    /** A beginner game: 9 x 9 with 10 mines, every square blank, nothing
        flagged or revealed, and the custom menu showing the same values. */
    constructor ()
      ensures Valid() && rows == 9 && cols == 9 && totalMines == 10
      ensures fresh(grid) && forall r, c :: 0 <= r < 9 && 0 <= c < 9 ==> grid[r, c] == Blank
      ensures minesFlagged == 0 && cellsRevealed == 0 && !gameWon
      ensures customRows == 9 && customCols == 9 && customMines == 10
    {
      rows, cols, totalMines := 9, 9, 10;
      grid := new Tile[9, 9]((r, c) => Blank);
      minesFlagged, cellsRevealed, gameWon := 0, 0, false;
      customRows, customCols, customMines := 9, 9, 10;
    }

    /** A new grid of blank squares with the current dimensions (a negative
        dimension gives an empty grid). */
    method CreateEmptyGrid()
      modifies this
      ensures fresh(grid) && forall r, c :: 0 <= r < grid.Length0 && 0 <= c < grid.Length1 ==> grid[r, c] == Blank
      ensures grid.Length0 == (if rows < 0 then 0 else rows) && grid.Length1 == (if cols < 0 then 0 else cols)
      ensures rows >= 0 && cols >= 0 ==> Valid()
      ensures rows == old(rows) && cols == old(cols) && totalMines == old(totalMines)
      ensures minesFlagged == old(minesFlagged) && cellsRevealed == old(cellsRevealed) && gameWon == old(gameWon)
      ensures customRows == old(customRows) && customCols == old(customCols) && customMines == old(customMines)
    {
      var height := if rows < 0 then 0 else rows;
      var width := if cols < 0 then 0 else cols;
      grid := new Tile[height, width]((r, c) => Blank);
    }

    /** `mines` holds exactly the squares of the grid that are mines (and
        perhaps cells off the grid). */
    ghost predicate MinesAre(mines: set<Cell>)
      reads this, grid
      requires Valid()
    {
      forall r, c :: 0 <= r < rows && 0 <= c < cols ==> (grid[r, c].isMine <==> (r, c) in mines)
    }

    lemma MineCellsAre()
      requires Valid()
      ensures MinesAre(MineCells())
    {
    }

    /** The number of mines among the in-bounds neighbours of `(row, col)`. */
    method CountAdjacent(row: int, col: int, ghost mines: set<Cell>) returns (count: int)
      requires Valid() && MinesAre(mines)
      ensures count == |Neighbors((row, col), rows, cols) * mines|
    {
      ghost var c := (row, col);
      count := 0;
      for dr := -1 to 2
        invariant count == MinesUpTo(c, rows, cols, mines, dr)
      {
        var found := CountRow(row, col, dr, mines);
        count := count + found;
      }
      MinesAround(c, rows, cols, mines);
    }

    /** One row of the scan: the mines at offsets `(dr, -1)` .. `(dr, 1)`. */
    method CountRow(row: int, col: int, dr: int, ghost mines: set<Cell>) returns (count: int)
      requires Valid() && MinesAre(mines)
      ensures count == RowMines((row, col), rows, cols, mines, dr, 2)
    {
      count := 0;
      for dc := -1 to 2
        invariant count == RowMines((row, col), rows, cols, mines, dr, dc)
      {
        if dr == 0 && dc == 0 {
          continue;
        }
        var newRow, newCol := row + dr, col + dc;
        MineHitAt((row, col), mines, dr, dc);
        if 0 <= newRow < rows && 0 <= newCol < cols && grid[newRow, newCol].isMine {
          count := count + 1;
        }
      }
    }

    /** Offset `(dr, dc)` from `c` holds a counted mine exactly when it is on
        the grid, is not `c` and its square is a mine. */
    lemma MineHitAt(c: Cell, mines: set<Cell>, dr: int, dc: int)
      requires Valid() && MinesAre(mines) && (dr, dc) != (0, 0)
      ensures MineHit(c, rows, cols, mines, dr, dc)
              == if 0 <= c.0 + dr < rows && 0 <= c.1 + dc < cols && grid[c.0 + dr, c.1 + dc].isMine then 1 else 0
    {
    }

    /** Every square that is not a mine gets as clue the number of mines
        among its neighbours; nothing else changes. */
    method CalculateAdjacentMines()
      requires Valid()
      modifies grid
      ensures forall r, c :: 0 <= r < rows && 0 <= c < cols ==>
                grid[r, c] == Clued(old(grid[r, c]), |Neighbors((r, c), rows, cols) * old(MineCells())|)
    {
      ghost var mines := MineCells();
      MineCellsAre();
      for row := 0 to rows
        invariant MinesAre(mines)
        invariant forall r, c :: 0 <= r < rows && 0 <= c < cols ==>
                    grid[r, c] == if r < row then Clued(old(grid[r, c]), |Neighbors((r, c), rows, cols) * mines|)
                                  else old(grid[r, c])
      {
        for col := 0 to cols
          invariant MinesAre(mines)
          invariant forall r, c :: 0 <= r < rows && 0 <= c < cols ==>
                      grid[r, c] == if Before((r, c), row, col) then Clued(old(grid[r, c]), |Neighbors((r, c), rows, cols) * mines|)
                                    else old(grid[r, c])
        {
          LabelSquare(row, col, mines);
        }
      }
    }

    /** One step of the clue pass: a square that is not a mine gets the
        number of mines among its neighbours; nothing else changes. */
    method LabelSquare(row: int, col: int, ghost mines: set<Cell>)
      requires Valid() && 0 <= row < rows && 0 <= col < cols && MinesAre(mines)
      modifies grid
      ensures grid[row, col] == Clued(old(grid[row, col]), |Neighbors((row, col), rows, cols) * mines|)
      ensures forall r, c :: 0 <= r < rows && 0 <= c < cols && (r != row || c != col) ==> grid[r, c] == old(grid[r, c])
      ensures MinesAre(mines)
    {
      if !grid[row, col].isMine {
        var count := CountAdjacent(row, col, mines);
        grid[row, col] := grid[row, col].(adjacentMines := count);
      }
    }

    /** A hidden square gains or loses its flag and the flag counter follows;
        a revealed square is left alone. The counter keeps matching the
        number of flags. */
    method ToggleFlag(row: int, col: int)
      requires Valid() && 0 <= row < rows && 0 <= col < cols
      modifies this, grid
      ensures grid == old(grid) && Valid()
      ensures old(grid[row, col]).isRevealed ==>
                grid[row, col] == old(grid[row, col]) && minesFlagged == old(minesFlagged)
      ensures !old(grid[row, col]).isRevealed ==>
                && grid[row, col] == old(grid[row, col]).(isFlagged := !old(grid[row, col]).isFlagged)
                && minesFlagged == old(minesFlagged) + (if old(grid[row, col]).isFlagged then -1 else 1)
      ensures forall r, c :: 0 <= r < rows && 0 <= c < cols && (r != row || c != col) ==> grid[r, c] == old(grid[r, c])
      ensures old(minesFlagged == |Flagged()|) ==> minesFlagged == |Flagged()|
      ensures rows == old(rows) && cols == old(cols) && totalMines == old(totalMines)
      ensures cellsRevealed == old(cellsRevealed) && gameWon == old(gameWon)
      ensures customRows == old(customRows) && customCols == old(customCols) && customMines == old(customMines)
    {
      if grid[row, col].isRevealed {
        return;
      }
      minesFlagged := if grid[row, col].isFlagged then minesFlagged - 1 else minesFlagged + 1;
      FlipFlag(row, col);
    }

    /** Square `(row, col)` gains or loses its flag; the number of flags
        follows, and no other square changes. */
    method FlipFlag(row: int, col: int)
      requires Valid() && 0 <= row < rows && 0 <= col < cols
      modifies grid
      ensures grid[row, col] == old(grid[row, col]).(isFlagged := !old(grid[row, col]).isFlagged)
      ensures forall r, c :: 0 <= r < rows && 0 <= c < cols && (r != row || c != col) ==> grid[r, c] == old(grid[r, c])
      ensures |Flagged()| == old(|Flagged()|) + if old(grid[row, col]).isFlagged then -1 else 1
    {
      ghost var before := Flagged();
      if grid[row, col].isFlagged {
        grid[row, col] := grid[row, col].(isFlagged := false);
        assert Flagged() == before - {(row, col)};
      } else {
        grid[row, col] := grid[row, col].(isFlagged := true);
        assert Flagged() == before + {(row, col)};
      }
    }

    /** The game is won once at least `rows * cols - totalMines` squares
        have been revealed (see `WinExactly`). */
    method CheckWin()
      modifies this
      ensures gameWon == (old(gameWon) || cellsRevealed >= rows * cols - totalMines)
      ensures grid == old(grid) && rows == old(rows) && cols == old(cols) && totalMines == old(totalMines)
      ensures minesFlagged == old(minesFlagged) && cellsRevealed == old(cellsRevealed)
      ensures customRows == old(customRows) && customCols == old(customCols) && customMines == old(customMines)
    {
      var cellsToReveal := rows * cols - totalMines;
      if cellsRevealed >= cellsToReveal {
        gameWon := true;
      }
    }

    /** Adopt the custom settings, clamped, and show the clamped values in
        the menu. */
    method ApplyCustomSettings()
      modifies this
      ensures Settings(rows, cols, totalMines) == Clamped(old(Settings(customRows, customCols, customMines)))
      ensures customRows == rows && customCols == cols && customMines == totalMines
      ensures grid == old(grid) && minesFlagged == old(minesFlagged)
      ensures cellsRevealed == old(cellsRevealed) && gameWon == old(gameWon)
    {
      rows := if 30 < customRows then 30 else customRows;
      rows := if 2 < rows then rows else 2;
      cols := if 30 < customCols then 30 else customCols;
      cols := if 2 < cols then cols else 2;
      var maxMines := rows * cols - 1;
      totalMines := if maxMines < customMines then maxMines else customMines;
      totalMines := if 1 < totalMines then totalMines else 1;
      customRows, customCols, customMines := rows, cols, totalMines;
    }
  }
}
