/** Tile masks: a piece's shape is a 4x4 grid of booleans stored row-major
    in 16 cells, and the game turns shapes with three rotations. */
module Masks {

  /** Side of a mask (TETROMINO_MAX_SIZE). */
  const MaxSize: nat := 4
  /** The pivot cell handed to the 3x3 rotation (ROTATION_PIVOT): row 1, column 1. */
  const RotationPivot: nat := 5

  type Mask = m: seq<bool> | |m| == 16 witness seq(16, _ => false)

  /** The cell at row `r`, column `c` of a mask. */
  function Tile(m: Mask, r: int, c: int): bool
    requires 0 <= r < 4 && 0 <= c < 4
  {
    m[r * 4 + c]
  }

  /** Cell `k` sits at row `k / 4` and column `k % 4`; this is the converse. */
  lemma Decompose(r: int, c: int)
    requires 0 <= r && 0 <= c < 4
    ensures (r * 4 + c) / 4 == r && (r * 4 + c) % 4 == c
  {
  }

  // ---------------------------------------------------------------------
  // Quarter turns of the whole 4x4 mask (used for the I piece)
  // ---------------------------------------------------------------------

  /** Clockwise quarter turn: new (r, c) is old (3 - c, r). */
  function Clockwise(m: Mask): Mask
  {
    seq(16, k requires 0 <= k < 16 => m[(3 - k % 4) * 4 + k / 4])
  }

  /** Counter-clockwise quarter turn: new (r, c) is old (c, 3 - r). */
  function CounterClockwise(m: Mask): Mask
  {
    seq(16, k requires 0 <= k < 16 => m[(k % 4) * 4 + (3 - k / 4)])
  }

  /** lRotate4x4: builds the counter-clockwise turn column by column,
      from the last column to the first. */
  method LRotate4x4(matrix: Mask) returns (result: Mask)
    ensures result == CounterClockwise(matrix)
    ensures forall r, c | 0 <= r < 4 && 0 <= c < 4 :: Tile(result, r, c) == Tile(matrix, c, 3 - r)
  {
    var acc: seq<bool> := [];
    var i := 3;
    while i >= 0
      invariant -1 <= i <= 3
      invariant |acc| == 4 * (3 - i)
      invariant forall k :: 0 <= k < |acc| ==> acc[k] == CounterClockwise(matrix)[k]
    {
      var j := 0;
      while j < 4
        invariant 0 <= j <= 4
        invariant |acc| == 4 * (3 - i) + j
        invariant forall k :: 0 <= k < |acc| ==> acc[k] == CounterClockwise(matrix)[k]
      {
        Decompose(3 - i, j);
        acc := acc + [matrix[j * 4 + i]];
        j := j + 1;
      }
      i := i - 1;
    }
    result := acc;
    forall r, c | 0 <= r < 4 && 0 <= c < 4
      ensures Tile(result, r, c) == Tile(matrix, c, 3 - r)
    {
      Decompose(r, c);
    }
  }

  /** rRotate4x4: builds the clockwise turn column by column, each column
      read from the bottom row up. */
  method RRotate4x4(tiles: Mask) returns (result: Mask)
    ensures result == Clockwise(tiles)
    ensures forall r, c | 0 <= r < 4 && 0 <= c < 4 :: Tile(result, r, c) == Tile(tiles, 3 - c, r)
  {
    var acc: seq<bool> := [];
    var i := 0;
    while i < 4
      invariant 0 <= i <= 4
      invariant |acc| == 4 * i
      invariant forall k :: 0 <= k < |acc| ==> acc[k] == Clockwise(tiles)[k]
    {
      var j := 3;
      while j >= 0
        invariant -1 <= j <= 3
        invariant |acc| == 4 * i + (3 - j)
        invariant forall k :: 0 <= k < |acc| ==> acc[k] == Clockwise(tiles)[k]
      {
        Decompose(i, 3 - j);
        acc := acc + [tiles[j * 4 + i]];
        j := j - 1;
      }
      i := i + 1;
    }
    result := acc;
    forall r, c | 0 <= r < 4 && 0 <= c < 4
      ensures Tile(result, r, c) == Tile(tiles, 3 - c, r)
    {
      Decompose(r, c);
    }
  }

  // ---------------------------------------------------------------------
  // Tile count
  // ---------------------------------------------------------------------

  function Bit(b: bool): nat { if b then 1 else 0 }

  /** Number of true cells in row `r`. */
  function RowCount(m: Mask, r: int): nat
    requires 0 <= r < 4
  {
    Bit(m[4 * r]) + Bit(m[4 * r + 1]) + Bit(m[4 * r + 2]) + Bit(m[4 * r + 3])
  }

  /** Number of true cells of the mask, i.e. the number of tiles of a piece. */
  function TileCount(m: Mask): nat
  {
    RowCount(m, 0) + RowCount(m, 1) + RowCount(m, 2) + RowCount(m, 3)
  }

  // ---------------------------------------------------------------------
  // Properties of the quarter turns
  // ---------------------------------------------------------------------

  /** The two quarter turns undo each other. */
  lemma ClockwiseInverse(m: Mask)
    ensures CounterClockwise(Clockwise(m)) == m
    ensures Clockwise(CounterClockwise(m)) == m
  {
    forall k | 0 <= k < 16
      ensures CounterClockwise(Clockwise(m))[k] == m[k]
      ensures Clockwise(CounterClockwise(m))[k] == m[k]
    {
      Decompose(k / 4, k % 4);
      Decompose(k % 4, 3 - k / 4);
      Decompose(3 - k % 4, k / 4);
    }
  }

  /** Two clockwise turns are the half turn: cell k goes to cell 15 - k. */
  lemma ClockwiseTwice(m: Mask)
    ensures forall k | 0 <= k < 16 :: Clockwise(Clockwise(m))[k] == m[15 - k]
  {
    forall k | 0 <= k < 16
      ensures Clockwise(Clockwise(m))[k] == m[15 - k]
    {
      Decompose(k / 4, k % 4);
      Decompose(3 - k % 4, k / 4);
    }
  }

  /** Four clockwise turns give back the original mask. */
  lemma ClockwiseFourTimes(m: Mask)
    ensures Clockwise(Clockwise(Clockwise(Clockwise(m)))) == m
  {
    var h := Clockwise(Clockwise(m));
    ClockwiseTwice(m);
    ClockwiseTwice(h);
  }

  /** A clockwise quarter turn keeps the number of tiles. */
  lemma ClockwiseCountOne(m: Mask)
    ensures TileCount(Clockwise(m)) == TileCount(m)
  {
    var cw := Clockwise(m);
    assert cw[0] == m[12] && cw[1] == m[8] && cw[2] == m[4] && cw[3] == m[0];
    assert cw[4] == m[13] && cw[5] == m[9] && cw[6] == m[5] && cw[7] == m[1];
    assert cw[8] == m[14] && cw[9] == m[10] && cw[10] == m[6] && cw[11] == m[2];
    assert cw[12] == m[15] && cw[13] == m[11] && cw[14] == m[7] && cw[15] == m[3];
  }

  /** A quarter turn moves tiles around but never adds or loses one. */
  lemma ClockwiseCount(m: Mask)
    ensures TileCount(Clockwise(m)) == TileCount(m)
    ensures TileCount(CounterClockwise(m)) == TileCount(m)
  {
    ClockwiseCountOne(m);
    ClockwiseCountOne(CounterClockwise(m));
    ClockwiseInverse(m);
  }

  // ---------------------------------------------------------------------
  // rotateMatrix about the pivot cell (used for every piece but I)
  // ---------------------------------------------------------------------

  /** Where rotateMatrix writes input cell `i`: row `pivotRow + (col - pivotCol)`,
      column `pivotCol - (row - pivotRow)`, flattened with the mask's side.
      For the pivot (1, 1) this is (r, c) -> (c, 2 - r); a row-3 input gets
      column -1, which flattens into the previous row's last cell, or to -1
      for column 0. */
  function Target(i: int): int
  {
    var pivotRow, pivotCol := RotationPivot / MaxSize, RotationPivot % MaxSize;
    var row, col := i / MaxSize, i % MaxSize;
    (pivotRow + (col - pivotCol)) * MaxSize + (pivotCol - (row - pivotRow))
  }

  /** The input cell that rotateMatrix writes into cell `k`, or -1 when no
      input lands there (the cell stays a hole, which reads as false). */
  function Source(k: int): int
  {
    var r, c := k / 4, k % 4;
    if c <= 2 then (2 - c) * 4 + r
    else if r <= 2 then 12 + r + 1
    else -1
  }

  lemma TargetSource(i: int, k: int)
    requires 0 <= i < 16 && 0 <= k < 16
    ensures -1 <= Target(i) < 16
    ensures Target(i) == k <==> Source(k) == i
  {
    Decompose(i / 4, i % 4);
    Decompose(k / 4, k % 4);
  }

  /** The mask rotateMatrix(m, ROTATION_PIVOT) produces. */
  function PivotRotation(m: Mask): Mask
  {
    seq(16, k requires 0 <= k < 16 => 0 <= Source(k) && m[Source(k)])
  }

  /** rotateMatrix(matrix, ROTATION_PIVOT): copies every cell to its target
      in a fresh 16-cell array; a write to index -1 lands outside the 16
      cells and is lost, and cells nothing is written to stay holes. */
  method RotateMatrix(matrix: Mask) returns (result: Mask)
    ensures result == PivotRotation(matrix)
  {
    var size := MaxSize;
    var pivotRow, pivotCol := RotationPivot / size, RotationPivot % size;
    var newMatrix := new bool[16](_ => false);
    for i := 0 to 16
      invariant forall k :: 0 <= k < 16 ==>
        newMatrix[k] == (0 <= Source(k) < i && matrix[Source(k)])
    {
      var row, col := i / size, i % size;
      var newRow := pivotRow + (col - pivotCol);
      var newCol := pivotCol - (row - pivotRow);
      var newIndex := newRow * size + newCol;
      assert newIndex == Target(i);
      forall k | 0 <= k < 16 ensures Target(i) == k <==> Source(k) == i {
        TargetSource(i, k);
      }
      if newIndex >= 0 {
        newMatrix[newIndex] := matrix[i];
      }
    }
    result := newMatrix[..];
  }

  /** rotateMatrix cell by cell. */
  lemma PivotRotationCells(m: Mask)
    ensures var p := PivotRotation(m);
      && p[0] == m[8] && p[1] == m[4] && p[2] == m[0] && p[3] == m[13]
      && p[4] == m[9] && p[5] == m[5] && p[6] == m[1] && p[7] == m[14]
      && p[8] == m[10] && p[9] == m[6] && p[10] == m[2] && p[11] == m[15]
      && p[12] == m[11] && p[13] == m[7] && p[14] == m[3] && !p[15]
  {
    assert Source(0) == 8 && Source(1) == 4 && Source(2) == 0 && Source(3) == 13;
    assert Source(4) == 9 && Source(5) == 5 && Source(6) == 1 && Source(7) == 14;
    assert Source(8) == 10 && Source(9) == 6 && Source(10) == 2 && Source(11) == 15;
    assert Source(12) == 11 && Source(13) == 7 && Source(14) == 3 && Source(15) == -1;
  }

  /** Every true cell lies in rows and columns 0..2, as in every mask but
      I's: column 3 (cells 3, 7, 11) and row 3 (cells 12..15) are empty. */
  predicate Confined(m: Mask)
  {
    !m[3] && !m[7] && !m[11] && !m[12] && !m[13] && !m[14] && !m[15]
  }

  /** On a confined mask rotateMatrix is a clockwise quarter turn of the
      3x3 block: (r, c) goes to (c, 2 - r), and the block stays confined. */
  lemma PivotRotationConfined(m: Mask)
    requires Confined(m)
    ensures Confined(PivotRotation(m))
    ensures forall r, c | 0 <= r <= 2 && 0 <= c <= 2 ::
      Tile(PivotRotation(m), c, 2 - r) == Tile(m, r, c)
  {
    var p := PivotRotation(m);
    PivotRotationCells(m);
    forall r, c | 0 <= r <= 2 && 0 <= c <= 2
      ensures Tile(p, c, 2 - r) == Tile(m, r, c)
    {
      Decompose(c, 2 - r);
    }
  }

  /** rotateMatrix keeps the tile count of a confined mask. */
  lemma PivotRotationCount(m: Mask)
    requires Confined(m)
    ensures TileCount(PivotRotation(m)) == TileCount(m)
  {
    var p := PivotRotation(m);
    PivotRotationCells(m);
    assert RowCount(p, 0) == Bit(m[8]) + Bit(m[4]) + Bit(m[0]);
    assert RowCount(p, 1) == Bit(m[9]) + Bit(m[5]) + Bit(m[1]);
    assert RowCount(p, 2) == Bit(m[10]) + Bit(m[6]) + Bit(m[2]);
    assert RowCount(p, 3) == 0;
    assert RowCount(m, 0) == Bit(m[0]) + Bit(m[1]) + Bit(m[2]);
    assert RowCount(m, 1) == Bit(m[4]) + Bit(m[5]) + Bit(m[6]);
    assert RowCount(m, 2) == Bit(m[8]) + Bit(m[9]) + Bit(m[10]);
    assert RowCount(m, 3) == 0;
  }

  /** Four applications of rotateMatrix give back a confined mask. */
  lemma PivotRotationFourTimes(m: Mask)
    requires Confined(m)
    ensures PivotRotation(PivotRotation(PivotRotation(PivotRotation(m)))) == m
  {
    var p1 := PivotRotation(m);
    var p2 := PivotRotation(p1);
    var p3 := PivotRotation(p2);
    var p4 := PivotRotation(p3);
    PivotRotationCells(m);
    PivotRotationCells(p1);
    PivotRotationCells(p2);
    PivotRotationCells(p3);
    forall k | 0 <= k < 16 ensures p4[k] == m[k] {
      CellCases(k);
    }
  }

  /** The sixteen cells one by one, for proofs that go cell by cell. */
  lemma CellCases(k: int)
    requires 0 <= k < 16
    ensures || k == 0 || k == 1 || k == 2 || k == 3 || k == 4 || k == 5 || k == 6 || k == 7
            || k == 8 || k == 9 || k == 10 || k == 11 || k == 12 || k == 13 || k == 14 || k == 15
  {
  }
}
