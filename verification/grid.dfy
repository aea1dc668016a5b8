/** Board coordinates shared by the inference engine and the board.
    A cell is a `(row, col)` pair; a board of `height` rows and `width`
    columns holds the cells with `0 <= row < height` and `0 <= col < width`. */
module Grid {

  type Cell = (int, int)

  predicate InBoard(c: Cell, height: int, width: int) {
    0 <= c.0 < height && 0 <= c.1 < width
  }

  /** Every cell of a `height` x `width` board. */
  function Board(height: int, width: int): (r: set<Cell>)
    ensures forall c :: c in r <==> InBoard(c, height, width)
  {
    set i, j | 0 <= i < height && 0 <= j < width :: (i, j)
  }

  /** `a` is one of the eight cells surrounding `b` (a king's move away). */
  predicate Adjacent(a: Cell, b: Cell) {
    a != b && -1 <= a.0 - b.0 <= 1 && -1 <= a.1 - b.1 <= 1
  }

  /** The 3x3 block of cells centred on `c`. */
  function Block(c: Cell): set<Cell> {
    {(c.0 - 1, c.1 - 1), (c.0 - 1, c.1), (c.0 - 1, c.1 + 1),
     (c.0, c.1 - 1), c, (c.0, c.1 + 1),
     (c.0 + 1, c.1 - 1), (c.0 + 1, c.1), (c.0 + 1, c.1 + 1)}
  }

  /** The in-bounds cells of the 3x3 block centred on `c`, without `c` itself:
      the cells whose mines a revealed cell's clue counts. */
  function Neighbors(c: Cell, height: int, width: int): (r: set<Cell>)
    ensures c !in r && r <= Board(height, width)
  {
    set p | p in Block(c) && p != c && InBoard(p, height, width)
  }

  /** The neighbours of `c` are exactly the on-board cells adjacent to it. */
  lemma NeighborsExactly(c: Cell, height: int, width: int)
    ensures forall p :: p in Neighbors(c, height, width) <==> Adjacent(p, c) && InBoard(p, height, width)
  {
  }

  /** Adjacency on the board is symmetric: if `a` is counted by `b`'s clue,
      then `b` is counted by `a`'s. */
  lemma NeighborsSymmetric(a: Cell, b: Cell, height: int, width: int)
    requires InBoard(b, height, width)
    ensures a in Neighbors(b, height, width) ==> b in Neighbors(a, height, width)
  {
    NeighborsExactly(a, height, width);
    NeighborsExactly(b, height, width);
  }

  /** Cell `p` comes before row `i`, column `j` in row-major order. */
  predicate Before(p: Cell, i: int, j: int) {
    p.0 < i || (p.0 == i && p.1 < j)
  }

  /** The cell at offset `(dr, dc)` from `c`, when it is an on-board mine
      other than `c`. */
  function Hit(c: Cell, height: int, width: int, mines: set<Cell>, dr: int, dc: int): set<Cell> {
    var here := (c.0 + dr, c.1 + dc);
    if (dr, dc) != (0, 0) && InBoard(here, height, width) && here in mines then {here} else {}
  }

  /** The mines a scan of row offset `dr` finds at column offsets `-1 .. dc - 1`. */
  function RowFound(c: Cell, height: int, width: int, mines: set<Cell>, dr: int, dc: int): set<Cell>
    decreases dc + 1
  {
    if dc <= -1 then {} else RowFound(c, height, width, mines, dr, dc - 1) + Hit(c, height, width, mines, dr, dc - 1)
  }

  /** The mines a scan of the row offsets `-1 .. dr - 1` finds. */
  function FoundUpTo(c: Cell, height: int, width: int, mines: set<Cell>, dr: int): set<Cell>
    decreases dr + 1
  {
    if dr <= -1 then {} else FoundUpTo(c, height, width, mines, dr - 1) + RowFound(c, height, width, mines, dr - 1, 2)
  }

  /** 1 when offset `(dr, dc)` from `c` is an on-board mine other than `c`,
      else 0. */
  function MineHit(c: Cell, height: int, width: int, mines: set<Cell>, dr: int, dc: int): int {
    if (dr, dc) != (0, 0) && InBoard((c.0 + dr, c.1 + dc), height, width)
       && (c.0 + dr, c.1 + dc) in mines then 1 else 0
  }

  /** The number of mines among offsets `(dr, -1)` .. `(dr, dc - 1)`. */
  function RowMines(c: Cell, height: int, width: int, mines: set<Cell>, dr: int, dc: int): int
    decreases dc + 1
  {
    if dc <= -1 then 0 else RowMines(c, height, width, mines, dr, dc - 1) + MineHit(c, height, width, mines, dr, dc - 1)
  }

  /** The number of mines among the offsets of rows `-1` .. `dr - 1`. */
  function MinesUpTo(c: Cell, height: int, width: int, mines: set<Cell>, dr: int): int
    decreases dr + 1
  {
    if dr <= -1 then 0 else MinesUpTo(c, height, width, mines, dr - 1) + RowMines(c, height, width, mines, dr - 1, 2)
  }

  /** What a scan of one row finds. */
  lemma {:induction false} RowFoundExactly(c: Cell, height: int, width: int, mines: set<Cell>, dr: int, dc: int)
    ensures forall p :: p in RowFound(c, height, width, mines, dr, dc) <==>
              p in mines && InBoard(p, height, width) && p != c && p.0 == c.0 + dr && c.1 - 1 <= p.1 < c.1 + dc
  {
    if dc > -1 {
      RowFoundExactly(c, height, width, mines, dr, dc - 1);
    }
  }

  /** The scan of a row counts what it finds. */
  lemma {:induction false} RowFoundSize(c: Cell, height: int, width: int, mines: set<Cell>, dr: int, dc: int)
    ensures |RowFound(c, height, width, mines, dr, dc)| == RowMines(c, height, width, mines, dr, dc)
  {
    if dc > -1 {
      RowFoundSize(c, height, width, mines, dr, dc - 1);
      RowFoundExactly(c, height, width, mines, dr, dc - 1);
      var before, hit := RowFound(c, height, width, mines, dr, dc - 1), Hit(c, height, width, mines, dr, dc - 1);
      assert before !! hit;
      assert |before + hit| == |before| + |hit|;
    }
  }

  /** What a scan of the rows before `dr` finds. */
  lemma {:induction false} FoundUpToExactly(c: Cell, height: int, width: int, mines: set<Cell>, dr: int)
    ensures forall p :: p in FoundUpTo(c, height, width, mines, dr) <==>
              p in mines && InBoard(p, height, width) && p != c && c.0 - 1 <= p.0 < c.0 + dr && c.1 - 1 <= p.1 <= c.1 + 1
  {
    if dr > -1 {
      FoundUpToExactly(c, height, width, mines, dr - 1);
      RowFoundExactly(c, height, width, mines, dr - 1, 2);
    }
  }

  /** The scan of the rows before `dr` counts what it finds. */
  lemma {:induction false} FoundUpToSize(c: Cell, height: int, width: int, mines: set<Cell>, dr: int)
    ensures |FoundUpTo(c, height, width, mines, dr)| == MinesUpTo(c, height, width, mines, dr)
  {
    if dr > -1 {
      FoundUpToSize(c, height, width, mines, dr - 1);
      RowFoundSize(c, height, width, mines, dr - 1, 2);
      FoundUpToExactly(c, height, width, mines, dr - 1);
      RowFoundExactly(c, height, width, mines, dr - 1, 2);
      var before, row := FoundUpTo(c, height, width, mines, dr - 1), RowFound(c, height, width, mines, dr - 1, 2);
      assert before !! row;
      assert |before + row| == |before| + |row|;
    }
  }

  /** A full scan finds the on-board mines adjacent to `c`. */
  lemma FoundAround(c: Cell, height: int, width: int, mines: set<Cell>)
    ensures forall p :: p in FoundUpTo(c, height, width, mines, 2) <==> p in mines && Adjacent(p, c) && InBoard(p, height, width)
  {
    FoundUpToExactly(c, height, width, mines, 2);
  }

  /** The on-board mines adjacent to `c` are the mines among its neighbours. */
  lemma NeighborMines(c: Cell, height: int, width: int, mines: set<Cell>, found: set<Cell>)
    requires forall p :: p in found <==> p in mines && Adjacent(p, c) && InBoard(p, height, width)
    ensures found == Neighbors(c, height, width) * mines
  {
    NeighborsExactly(c, height, width);
  }

  /** The offset-by-offset count over the 3x3 block is the number of
      mines among the neighbours of `c`. */
  lemma MinesAround(c: Cell, height: int, width: int, mines: set<Cell>)
    ensures MinesUpTo(c, height, width, mines, 2) == |Neighbors(c, height, width) * mines|
  {
    FoundUpToSize(c, height, width, mines, 2);
    FoundAround(c, height, width, mines);
    NeighborMines(c, height, width, mines, FoundUpTo(c, height, width, mines, 2));
  }

  /** Adding one cell to a set adds one to its mine count exactly when the
      cell is a mine. */
  lemma CountStep(done: set<Cell>, cl: Cell, mines: set<Cell>)
    requires cl !in done
    ensures |(done + {cl}) * mines| == |done * mines| + if cl in mines then 1 else 0
  {
    if cl in mines {
      assert (done + {cl}) * mines == done * mines + {cl};
    } else {
      assert (done + {cl}) * mines == done * mines;
    }
  }

  /** A set of cells is no larger than a set containing it. */
  lemma SubsetCard(a: set<Cell>, b: set<Cell>)
    requires a <= b
    ensures |a| <= |b|
    ensures |a| == |b| ==> a == b
  {
    assert b == a + (b - a);
    assert a !! (b - a);
    if |a| == |b| {
      assert |b - a| == 0;
    }
  }

  /** The cells of row `row` in columns `0 .. width - 1`. */
  function RowSet(row: int, width: int): (r: set<Cell>)
    ensures forall c :: c in r <==> c.0 == row && 0 <= c.1 < width
  {
    set j | 0 <= j < width :: (row, j)
  }

  /** A row of `width` columns has `width` cells. */
  lemma {:induction false} RowSetSize(row: int, width: nat)
    ensures |RowSet(row, width)| == width
  {
    if width > 0 {
      RowSetSize(row, width - 1);
      RowLastCell(row, width);
    } else {
      assert RowSet(row, width) == {};
    }
  }

  /** A row is the row one column shorter plus its last cell. */
  lemma RowLastCell(row: int, width: int)
    requires width > 0
    ensures RowSet(row, width) == RowSet(row, width - 1) + {(row, width - 1)}
    ensures (row, width - 1) !in RowSet(row, width - 1)
  {
  }

  /** A board is the board one row shorter plus its last row. */
  lemma BoardLastRow(height: int, width: int)
    requires height > 0
    ensures Board(height, width) == Board(height - 1, width) + RowSet(height - 1, width)
    ensures Board(height - 1, width) !! RowSet(height - 1, width)
  {
  }

  /** A `height` x `width` board has `height * width` cells. */
  lemma {:induction false} BoardSize(height: nat, width: nat)
    ensures |Board(height, width)| == height * width
  {
    if height > 0 {
      BoardSize(height - 1, width);
      RowSetSize(height - 1, width);
      BoardLastRow(height, width);
      assert (height - 1) * width + width == height * width;
    } else {
      assert Board(height, width) == {};
    }
  }
}
