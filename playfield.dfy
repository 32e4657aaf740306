/** The playfield: a flat, row-major array of cell values, `Width` cells per
    row and `TotalHeight` rows (the visible rows plus a hidden buffer above
    them). The game keeps no separate record of the falling piece: its cells
    hold its value on the grid like any locked cell. */
module Playfield {
  import opened Wrappers

  const Width: nat := 10          // GRID_WIDTH
  const Height: nat := 20         // GRID_HEIGHT
  const BufferHeight: nat := 4    // GRID_BUFFER_HEIGHT
  const TotalHeight: nat := Height + BufferHeight
  const Size: nat := Width * TotalHeight

  /** GridValue: EMPTY, CURRENT (never written by the game), then one value
      per piece kind, which doubles as the colour of its cells. */
  datatype GridValue = Empty | Current | Straight | Square | T | L | J | S | Z

  /** The contents of the grid array. */
  type Board = b: seq<GridValue> | |b| == Size witness seq(Size, _ => Empty)

  /** What reading `grid[index]` gives: a value inside the array, JavaScript's
      `undefined` outside it. */
  datatype Read = Undefined | Value(v: GridValue)

  /** getValue, which does no bounds check. */
  function Get(b: Board, index: int): (r: Read)
    ensures r.Value? <==> 0 <= index < Size
    ensures r.Value? ==> r.v == b[index]
  {
    if 0 <= index < |b| then Value(b[index]) else Undefined
  }

  /** `getValue(index) != EMPTY`: true for a filled cell and for every index
      outside the array, so the edges of the array act as filled cells. */
  predicate Occupied(b: Board, index: int)
  {
    Get(b, index) != Value(Empty)
  }

  /** setValue within the array. A JavaScript write outside the array would
      grow it; this model drops such a write (see README, "Left out"). */
  function Put(b: Board, index: int, v: GridValue): (r: Board)
    ensures forall k | 0 <= k < Size :: r[k] == (if k == index then v else b[k])
  {
    if 0 <= index < |b| then b[index := v] else b
  }

  /** The grid right after initializeGrid. */
  function EmptyBoard(): Board { seq(Size, _ => Empty) }

  /** The cell at `row`, `col`. */
  function Cell(b: Board, row: int, col: int): GridValue
    requires 0 <= row < TotalHeight && 0 <= col < Width
  {
    b[row * Width + col]
  }

  lemma DecomposeRow(row: int, col: int)
    requires 0 <= row && 0 <= col < Width
    ensures (row * Width + col) / Width == row && (row * Width + col) % Width == col
  {
  }

  /** Writing one cell through its flat index changes that cell only. */
  lemma PutCell(b: Board, row: int, col: int, v: GridValue)
    requires 0 <= row < TotalHeight && 0 <= col < Width
    ensures Cell(Put(b, row * Width + col, v), row, col) == v
    ensures forall r, c | 0 <= r < TotalHeight && 0 <= c < Width && (r != row || c != col) ::
      Cell(Put(b, row * Width + col, v), r, c) == Cell(b, r, c)
  {
    forall r, c | 0 <= r < TotalHeight && 0 <= c < Width && (r != row || c != col)
      ensures Cell(Put(b, row * Width + col, v), r, c) == Cell(b, r, c)
    {
      DecomposeRow(r, c);
      DecomposeRow(row, col);
      assert r * Width + c != row * Width + col;
    }
  }

  /** Two grids that agree on every row and column are equal. */
  lemma CellsEqual(a: Board, b: Board)
    requires forall r, c | 0 <= r < TotalHeight && 0 <= c < Width :: Cell(a, r, c) == Cell(b, r, c)
    ensures a == b
  {
    forall k | 0 <= k < Size ensures a[k] == b[k] {
      var r, c := k / Width, k % Width;
      assert Cell(a, r, c) == Cell(b, r, c);
    }
  }

  /** Every cell of `row` is filled (isFullRow). */
  predicate RowFull(b: Board, row: int)
    requires 0 <= row < TotalHeight
  {
    forall col | 0 <= col < Width :: Cell(b, row, col) != Empty
  }

  /** Every cell of `row` is empty. */
  predicate RowEmpty(b: Board, row: int)
    requires 0 <= row < TotalHeight
  {
    forall col | 0 <= col < Width :: Cell(b, row, col) == Empty
  }

  // ---------------------------------------------------------------------
  // clearLine, clearLines and reset on the contents of the grid
  // ---------------------------------------------------------------------

  /** The grid after clearLine(r): row r is emptied, then every row i from r
      down to 1 receives a copy of row i - 1. Row 0 is not emptied again
      afterwards, so when r > 0 it keeps its old content. */
  function ClearedLine(b: Board, r: int): Board
    requires 0 <= r < TotalHeight
  {
    seq(Size, k requires 0 <= k < Size =>
      var row := k / Width;
      if row > r then b[k]
      else if row >= 1 then b[k - Width]
      else if r == 0 then Empty
      else b[k])
  }

  /** What clearLine(r) leaves in one cell (see ClearedLineRows). */
  function ShiftedCell(b: Board, r: int, row: int, col: int): GridValue
    requires 0 <= r < TotalHeight && 0 <= row < TotalHeight && 0 <= col < Width
  {
    if row > r then Cell(b, row, col)
    else if row >= 1 then Cell(b, row - 1, col)
    else if r == 0 then Empty
    else Cell(b, 0, col)
  }

  /** clearLine(r) row by row: the rows below r do not change, row i takes old
      row i - 1 for 1 <= i <= r, and row 0 is kept when r > 0 and emptied when
      r = 0. */
  lemma ClearedLineRows(b: Board, r: int)
    requires 0 <= r < TotalHeight
    ensures forall row, col | 0 <= row < TotalHeight && 0 <= col < Width ::
      Cell(ClearedLine(b, r), row, col) == ShiftedCell(b, r, row, col)
  {
    forall row, col | 0 <= row < TotalHeight && 0 <= col < Width
      ensures Cell(ClearedLine(b, r), row, col) == ShiftedCell(b, r, row, col)
    {
      DecomposeRow(row, col);
    }
  }

  /** When r > 0 the top row is duplicated rather than emptied: after
      clearLine(r), rows 0 and 1 both hold the old row 0. */
  lemma ClearedLineDuplicatesTopRow(b: Board, r: int)
    requires 0 < r < TotalHeight
    ensures forall col | 0 <= col < Width ::
      Cell(ClearedLine(b, r), 0, col) == Cell(b, 0, col) &&
      Cell(ClearedLine(b, r), 1, col) == Cell(b, 0, col)
  {
    ClearedLineRows(b, r);
  }

  /** clearLine(r) on a board whose rows above r are not full leaves rows
      0..r not full. */
  lemma ClearedLineKeepsPrefixNotFull(b: Board, r: int)
    requires 0 <= r < TotalHeight
    requires forall row | 0 <= row < r :: !RowFull(b, row)
    ensures forall row | 0 <= row <= r :: !RowFull(ClearedLine(b, r), row)
  {
    var c := ClearedLine(b, r);
    ClearedLineRows(b, r);
    forall row | 0 <= row <= r ensures !RowFull(c, row) {
      if row >= 1 {
        assert !RowFull(b, row - 1);
        var col :| 0 <= col < Width && Cell(b, row - 1, col) == Empty;
        assert Cell(c, row, col) == Empty;
      } else if r == 0 {
        assert Cell(c, 0, 0) == Empty;
      } else {
        assert !RowFull(b, 0);
        var col :| 0 <= col < Width && Cell(b, 0, col) == Empty;
        assert Cell(c, 0, col) == Empty;
      }
    }
  }

  /** clearLine(r) on a board whose rows above r are empty leaves rows 0..r
      empty. */
  lemma ClearedLineKeepsPrefixEmpty(b: Board, r: int)
    requires 0 <= r < TotalHeight
    requires forall row | 0 <= row < r :: RowEmpty(b, row)
    ensures forall row | 0 <= row <= r :: RowEmpty(ClearedLine(b, r), row)
  {
    var c := ClearedLine(b, r);
    ClearedLineRows(b, r);
    forall row, col | 0 <= row <= r && 0 <= col < Width
      ensures Cell(c, row, col) == Empty
    {
      if row >= 1 {
        assert RowEmpty(b, row - 1);
      } else if r > 0 {
        assert RowEmpty(b, 0);
      }
    }
  }

  /** clearLines from `row` on: every row from `row` to the bottom, top to
      bottom, is cleared when it is full at the moment the scan reaches it. */
  function ClearedLinesFrom(b: Board, row: nat): Board
    requires row <= TotalHeight
    decreases TotalHeight - row
  {
    if row == TotalHeight then b
    else ClearedLinesFrom(if RowFull(b, row) then ClearedLine(b, row) else b, row + 1)
  }

  /** After clearLines no row of the grid is full. */
  lemma {:induction false} ClearedLinesNoFullRow(b: Board, row: nat)
    requires row <= TotalHeight
    requires forall i | 0 <= i < row :: !RowFull(b, i)
    ensures forall i | 0 <= i < TotalHeight :: !RowFull(ClearedLinesFrom(b, row), i)
    decreases TotalHeight - row
  {
    if row < TotalHeight {
      var next := if RowFull(b, row) then ClearedLine(b, row) else b;
      if RowFull(b, row) {
        ClearedLineKeepsPrefixNotFull(b, row);
      }
      ClearedLinesNoFullRow(next, row + 1);
    }
  }

  // ---------------------------------------------------------------------
  // The grid object
  // ---------------------------------------------------------------------

  /** Grid: owns the cell array; its geometry is fixed by the constants above. */
  class Grid {
    const cells: array<GridValue>

    ghost predicate Valid()
    {
      cells.Length == Size
    }

    /** The current contents of the array. */
    ghost function Contents(): Board
      reads cells
      requires Valid()
    {
      cells[..]
    }

    /** The constructor with initializeGrid: every cell starts EMPTY. */
    constructor ()
      ensures Valid() && fresh(cells)
      ensures Contents() == EmptyBoard()
    {
      var a := new GridValue[Size];
      for i := 0 to Size
        invariant forall k | 0 <= k < i :: a[k] == Empty
      {
        a[i] := Empty;
      }
      cells := a;
    }

    /** getValue, which does no bounds check. */
    function GetValue(index: int): (r: Read)
      reads cells
      requires Valid()
      ensures r == Get(Contents(), index)
      ensures r.Undefined? <==> index < 0 || Size <= index
    {
      if 0 <= index < cells.Length then Value(cells[index]) else Undefined
    }

    /** setValue, which does no bounds check; a write outside the array is
        dropped. */
    method SetValue(index: int, value: GridValue)
      requires Valid()
      modifies cells
      ensures Contents() == Put(old(Contents()), index, value)
    {
      if 0 <= index < cells.Length {
        cells[index] := value;
      }
    }
  }
}
