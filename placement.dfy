/** How a piece sits on the grid: the cells its tiles land on, stamping and
    erasing them, the collision tests, and the moves and rotations as
    functions of the piece. */
module Placement {
  import opened Masks
  import opened Playfield
  import opened Pieces

  /** JavaScript's `%`: the remainder takes the sign of the dividend. */
  function JsRem(a: int, n: int): (r: int)
    requires n > 0
    ensures -n < r < n
    ensures 0 <= a ==> r == a % n
    ensures a < 0 ==> r <= 0 && r == -((-a) % n)
  {
    if a >= 0 then a % n else -((-a) % n)
  }

  lemma ModSmall(a: int, n: int)
    requires 0 <= a < n
    ensures a % n == a
  {
  }

  /** A dividend strictly between -n and n is its own remainder. */
  lemma JsRemSmall(a: int, n: int)
    requires -n < a < n
    ensures JsRem(a, n) == a
  {
    if a >= 0 { ModSmall(a, n); } else { ModSmall(-a, n); }
  }

  /** mapTileToGrid: tile `i` of a mask anchored at `anchor` lands at
      `anchor + width * floor(i / 4) + i % 4`. */
  function TileCell(anchor: int, i: int): int
    requires 0 <= i
  {
    Width * (i / MaxSize) + i % MaxSize + anchor
  }

  /** Grid index `k` lies in the 4x4 window of cells a mask anchored at
      `anchor` can reach. */
  predicate InWindow(anchor: int, k: int)
  {
    var d := k - anchor;
    0 <= d && d / Width < 4 && d % Width < 4
  }

  /** The tile of the window that lands on grid index `k`. */
  function WindowTile(anchor: int, k: int): int
    requires InWindow(anchor, k)
  {
    var d := k - anchor;
    (d / Width) * 4 + d % Width
  }

  /** Tiles land on distinct cells, and WindowTile finds the tile back. */
  lemma TileCellWindow(anchor: int, i: int)
    requires 0 <= i < 16
    ensures InWindow(anchor, TileCell(anchor, i))
    ensures WindowTile(anchor, TileCell(anchor, i)) == i
  {
    Decompose(i / 4, i % 4);
    DecomposeRow(i / 4, i % 4);
  }

  lemma WindowTileCell(anchor: int, k: int)
    requires InWindow(anchor, k)
    ensures 0 <= WindowTile(anchor, k) < 16
    ensures TileCell(anchor, WindowTile(anchor, k)) == k
  {
    var d := k - anchor;
    Decompose(d / Width, d % Width);
  }

  /** The piece has a tile on grid index `k`. */
  predicate Covers(p: Piece, k: int)
  {
    InWindow(p.index, k) && p.tiles[WindowTile(p.index, k)]
  }

  lemma CoversTile(p: Piece, i: int)
    requires 0 <= i < 16
    ensures Covers(p, TileCell(p.index, i)) == p.tiles[i]
  {
    TileCellWindow(p.index, i);
  }

  // ---------------------------------------------------------------------
  // place and clear
  // ---------------------------------------------------------------------

  /** The grid after writing `v` at every tile cell of `p` (place writes the
      piece's value, clear writes EMPTY); cells outside the array are
      dropped. */
  function Stamp(b: Board, p: Piece, v: GridValue): Board
  {
    seq(Size, k requires 0 <= k < Size => if Covers(p, k) then v else b[k])
  }

  /** place or clear part way: tiles 0..n-1 written. */
  function StampPrefix(b: Board, p: Piece, v: GridValue, n: int): Board
  {
    seq(Size, k requires 0 <= k < Size =>
      if Covers(p, k) && WindowTile(p.index, k) < n then v else b[k])
  }

  lemma StampPrefixEmpty(b: Board, p: Piece, v: GridValue)
    ensures StampPrefix(b, p, v, 0) == b
  {
    forall k | 0 <= k < Size ensures StampPrefix(b, p, v, 0)[k] == b[k] {
      if Covers(p, k) {
        WindowTileCell(p.index, k);
      }
    }
  }

  /** Writing tile i (when the mask has it) extends the prefix by one. */
  lemma StampPrefixStep(b: Board, p: Piece, v: GridValue, i: int)
    requires 0 <= i < 16
    ensures StampPrefix(b, p, v, i + 1) ==
      if p.tiles[i] then Put(StampPrefix(b, p, v, i), TileCell(p.index, i), v) else StampPrefix(b, p, v, i)
  {
    var before, after := StampPrefix(b, p, v, i), StampPrefix(b, p, v, i + 1);
    var expected := if p.tiles[i] then Put(before, TileCell(p.index, i), v) else before;
    TileCellWindow(p.index, i);
    forall k | 0 <= k < Size ensures after[k] == expected[k] {
      if Covers(p, k) {
        WindowTileCell(p.index, k);
      }
    }
  }

  lemma StampPrefixFull(b: Board, p: Piece, v: GridValue)
    ensures StampPrefix(b, p, v, 16) == Stamp(b, p, v)
  {
    forall k | 0 <= k < Size ensures StampPrefix(b, p, v, 16)[k] == Stamp(b, p, v)[k] {
      if Covers(p, k) {
        WindowTileCell(p.index, k);
      }
    }
  }

  function Erase(b: Board, p: Piece): Board
  {
    Stamp(b, p, Empty)
  }

  /** Every tile cell of `p` inside the array holds the piece's value. */
  predicate Holds(b: Board, p: Piece)
  {
    forall k | 0 <= k < Size && Covers(p, k) :: b[k] == p.value
  }

  /** The grid after clear() followed by place(), which every collision
      query does around its test. */
  function Bracketed(b: Board, p: Piece): Board
  {
    Stamp(Erase(b, p), p, p.value)
  }

  /** After place the piece's cells hold its value and nothing else changed. */
  lemma StampHolds(b: Board, p: Piece)
    ensures Holds(Stamp(b, p, p.value), p)
    ensures forall k | 0 <= k < Size && !Covers(p, k) :: Stamp(b, p, p.value)[k] == b[k]
  {
  }

  /** A collision query leaves the grid as it was when the piece's cells held
      its value beforehand, and in any case leaves them holding it. */
  lemma BracketRestores(b: Board, p: Piece)
    requires Holds(b, p)
    ensures Bracketed(b, p) == b
  {
    var r := Bracketed(b, p);
    forall k | 0 <= k < Size ensures r[k] == b[k] {
    }
  }

  /** Erasing after stamping is just erasing; so a second query sees the
      same grid as the first. */
  lemma EraseStamp(b: Board, p: Piece, v: GridValue)
    ensures Erase(Stamp(b, p, v), p) == Erase(b, p)
  {
    var l, r := Erase(Stamp(b, p, v), p), Erase(b, p);
    forall k | 0 <= k < Size ensures l[k] == r[k] {
    }
  }

  // ---------------------------------------------------------------------
  // Collision tests, each on the grid with the piece already cleared
  // ---------------------------------------------------------------------

  /** isCollidingMoveDown: some tile's cell one row below is filled or lies
      outside the array. There is no explicit floor test. */
  predicate DownBlocked(b: Board, p: Piece)
  {
    exists i | 0 <= i < 16 :: p.tiles[i] && Occupied(b, TileCell(p.index, i) + Width)
  }

  /** isCollidingMoveLeft: some tile sits in column 0 (JavaScript `%`), or
      the cell to its left is filled or outside the array. */
  predicate LeftBlocked(b: Board, p: Piece)
  {
    exists i | 0 <= i < 16 :: p.tiles[i] &&
      (JsRem(TileCell(p.index, i), Width) - 1 < 0 || Occupied(b, TileCell(p.index, i) - 1))
  }

  /** isCollidingMoveRight: some tile sits in the last column, or the cell to
      its right is filled or outside the array. */
  predicate RightBlocked(b: Board, p: Piece)
  {
    exists i | 0 <= i < 16 :: p.tiles[i] &&
      (JsRem(TileCell(p.index, i), Width) + 1 >= Width || Occupied(b, TileCell(p.index, i) + 1))
  }

  /** The mask both rotation checks test: lRotate4x4 for I, rotateMatrix for
      every other kind (O included). */
  function RotationProbe(p: Piece): Mask
  {
    if p.value == Straight then CounterClockwise(p.tiles) else PivotRotation(p.tiles)
  }

  /** isCollidingLeftRotation: some tile of the probe mask lands on a filled
      cell or outside the array. */
  predicate LeftRotationBlocked(b: Board, p: Piece)
  {
    exists i | 0 <= i < 16 :: RotationProbe(p)[i] && Occupied(b, TileCell(p.index, i))
  }

  /** The bound isCollidingRightRotation tests: on the anchor, not on a tile. */
  predicate AnchorOutOfBounds(p: Piece)
  {
    JsRem(p.index, Width) > Width - MaxSize || p.index < 0
  }

  /** isCollidingRightRotation: the probe mask has a tile and the anchor is
      out of bounds, or some probe tile lands on a filled cell or outside the
      array. */
  predicate RightRotationBlocked(b: Board, p: Piece)
  {
    exists i | 0 <= i < 16 :: RotationProbe(p)[i] &&
      (AnchorOutOfBounds(p) || Occupied(b, TileCell(p.index, i)))
  }

  // ---------------------------------------------------------------------
  // Moves and rotations of the piece record
  // ---------------------------------------------------------------------

  /** moveDown, moveLeft, moveRight: the anchor moves by +width, -1 or +1 and
      is reduced with JavaScript `%` by the grid size. */
  function MovedDown(p: Piece): Piece { p.(index := JsRem(p.index + Width, Size)) }
  function MovedLeft(p: Piece): Piece { p.(index := JsRem(p.index - 1, Size)) }
  function MovedRight(p: Piece): Piece { p.(index := JsRem(p.index + 1, Size)) }

  /** What rotateLeft and rotateRight both apply: rRotate4x4 for I,
      rotateMatrix for every kind but O, nothing for O. */
  function Rotated(p: Piece): Piece
  {
    if p.value == Straight then p.(tiles := Clockwise(p.tiles))
    else if p.value != Square then p.(tiles := PivotRotation(p.tiles))
    else p
  }

  /** Moves keep the piece well formed. */
  lemma MovesWellFormed(p: Piece)
    requires WellFormed(p)
    ensures WellFormed(MovedDown(p)) && WellFormed(MovedLeft(p)) && WellFormed(MovedRight(p))
  {
  }

  /** Rotations keep the piece well formed: four tiles, and the 3x3 block
      for every kind but I. */
  lemma RotatedWellFormed(p: Piece)
    requires WellFormed(p)
    ensures WellFormed(Rotated(p))
    ensures Rotated(p).index == p.index && Rotated(p).value == p.value
  {
    if p.value == Straight {
      ClockwiseCount(p.tiles);
    } else if p.value != Square {
      PivotRotationCount(p.tiles);
      PivotRotationConfined(p.tiles);
    }
  }

  /** Four rotations in a row give back the piece. */
  lemma RotatedFourTimes(p: Piece)
    requires WellFormed(p)
    ensures Rotated(Rotated(Rotated(Rotated(p)))) == p
  {
    if p.value == Straight {
      ClockwiseFourTimes(p.tiles);
    } else if p.value != Square {
      PivotRotationFourTimes(p.tiles);
    }
  }

  /** A mask with tiles has a true cell. */
  lemma SomeTile(m: Mask) returns (i: int)
    requires TileCount(m) > 0
    ensures 0 <= i < 16 && m[i]
  {
    if m[0] { i := 0; } else if m[1] { i := 1; } else if m[2] { i := 2; }
    else if m[3] { i := 3; } else if m[4] { i := 4; } else if m[5] { i := 5; }
    else if m[6] { i := 6; } else if m[7] { i := 7; } else if m[8] { i := 8; }
    else if m[9] { i := 9; } else if m[10] { i := 10; } else if m[11] { i := 11; }
    else if m[12] { i := 12; } else if m[13] { i := 13; } else if m[14] { i := 14; }
    else { i := 15; }
  }

  /** The floor: a tile on the bottom row cannot move down, because the cell
      below it is outside the array. */
  lemma BottomRowBlocksDown(b: Board, p: Piece, i: int)
    requires 0 <= i < 16 && p.tiles[i]
    requires TileCell(p.index, i) + Width >= Size
    ensures DownBlocked(b, p)
  {
  }

  /** A tile in column 0 blocks a move left; one in the last column blocks a
      move right. */
  lemma EdgeColumnsBlock(b: Board, p: Piece, i: int)
    requires 0 <= i < 16 && p.tiles[i] && 0 <= TileCell(p.index, i)
    ensures TileCell(p.index, i) % Width == 0 ==> LeftBlocked(b, p)
    ensures TileCell(p.index, i) % Width == Width - 1 ==> RightBlocked(b, p)
  {
  }

  /** When a well-formed piece can move down, the move raises its anchor by
      exactly one row without wrapping: some tile's cell one row below is
      inside the array, and the anchor is at or above that tile. */
  lemma FallStaysInside(b: Board, p: Piece)
    requires WellFormed(p) && !DownBlocked(b, p)
    ensures p.index + Width < Size
    ensures MovedDown(p).index == p.index + Width
  {
    var i := SomeTile(p.tiles);
    assert !Occupied(b, TileCell(p.index, i) + Width);
    JsRemSmall(p.index + Width, Size);
  }

  /** Where the hard drop, `while (!isCollidingMoveDown()) moveDown()`,
      stops a piece that falls through the grid `c`, the grid with the piece
      cleared (which the drop never changes, see FallKeepsClear). */
  function Fall(c: Board, p: Piece): (r: Piece)
    requires WellFormed(p)
    ensures WellFormed(r)
    ensures r == p.(index := r.index)
    ensures r.index >= p.index && (r.index - p.index) % Width == 0
    ensures DownBlocked(c, r)
    decreases Size - p.index
  {
    if DownBlocked(c, p) then p
    else
      FallStaysInside(c, p);
      MovesWellFormed(p);
      var r := Fall(c, MovedDown(p));
      RowStep(r.index, p.index);
      r
  }

  /** The hard drop stops at the first blocked position: every position a
      whole number of rows below the start and above the landing one passes
      the down check. */
  lemma {:induction false} FallIsFirst(c: Board, p: Piece, j: nat)
    requires WellFormed(p)
    requires p.index + Width * j < Fall(c, p).index
    ensures !DownBlocked(c, p.(index := p.index + Width * j))
    decreases j
  {
    if j == 0 {
      assert p.(index := p.index) == p;
    } else {
      FallStaysInside(c, p);
      MovesWellFormed(p);
      var q := MovedDown(p);
      assert Fall(c, p) == Fall(c, q);
      assert q.index + Width * (j - 1) == p.index + Width * j;
      FallIsFirst(c, q, j - 1);
      assert q.(index := q.index + Width * (j - 1)) == p.(index := p.index + Width * j);
    }
  }

  /** While the piece can move down, the cells it moves into are empty, so
      the grid with the piece cleared is the same before and after the move. */
  lemma FallKeepsClear(c: Board, p: Piece)
    requires WellFormed(p) && Erase(c, p) == c && !DownBlocked(c, p)
    ensures Erase(c, MovedDown(p)) == c
  {
    FallStaysInside(c, p);
    var q := MovedDown(p);
    forall k | 0 <= k < Size ensures Erase(c, q)[k] == c[k] {
      if Covers(q, k) {
        var i := WindowTile(q.index, k);
        WindowTileCell(q.index, k);
        assert TileCell(q.index, i) == TileCell(p.index, i) + Width;
        assert !Occupied(c, TileCell(p.index, i) + Width);
      }
    }
  }

  /** A query leaves the piece's cells holding its value, and a second query
      sees the grid the first one saw. */
  lemma BracketedKeepsTest(b: Board, p: Piece)
    ensures Erase(Bracketed(b, p), p) == Erase(b, p)
    ensures Holds(Bracketed(b, p), p)
  {
    EraseStamp(Erase(b, p), p, p.value);
    StampHolds(Erase(b, p), p);
  }

  /** By induction on the fall: the cells the piece falls through are empty,
      so the grid with the piece cleared is also the grid with the landed
      piece cleared. */
  lemma {:induction false} FallKeepsLocked(c: Board, p: Piece)
    requires WellFormed(p) && Erase(c, p) == c
    ensures Erase(c, Fall(c, p)) == c
    decreases Size - p.index
  {
    if !DownBlocked(c, p) {
      FallStaysInside(c, p);
      MovesWellFormed(p);
      FallKeepsClear(c, p);
      FallKeepsLocked(c, MovedDown(p));
    }
  }

  /** A move left its check allows takes the anchor one column left, with no
      wrap: the cell left of some tile is inside the array. */
  lemma LeftStaysInside(b: Board, p: Piece)
    requires WellFormed(p) && !LeftBlocked(b, p)
    ensures MovedLeft(p).index == p.index - 1
  {
    var i := SomeTile(p.tiles);
    assert !Occupied(b, TileCell(p.index, i) - 1);
    JsRemSmall(p.index - 1, Size);
  }

  /** A move right its check allows takes the anchor one column right. */
  lemma RightStaysInside(b: Board, p: Piece)
    requires WellFormed(p) && !RightBlocked(b, p)
    ensures MovedRight(p).index == p.index + 1
  {
    var i := SomeTile(p.tiles);
    assert !Occupied(b, TileCell(p.index, i) + 1);
    JsRemSmall(p.index + 1, Size);
  }

  /** moveLeft after a passed check lands on empty cells only, so it never
      overwrites a locked cell. */
  lemma LeftKeepsLocked(c: Board, p: Piece)
    requires WellFormed(p) && Erase(c, p) == c && !LeftBlocked(c, p)
    ensures Erase(c, MovedLeft(p)) == c
  {
    LeftStaysInside(c, p);
    var q := MovedLeft(p);
    forall k | 0 <= k < Size ensures Erase(c, q)[k] == c[k] {
      if Covers(q, k) {
        var i := WindowTile(q.index, k);
        WindowTileCell(q.index, k);
        assert TileCell(q.index, i) == TileCell(p.index, i) - 1;
        assert !Occupied(c, TileCell(p.index, i) - 1);
      }
    }
  }

  /** moveRight after a passed check never overwrites a locked cell. */
  lemma RightKeepsLocked(c: Board, p: Piece)
    requires WellFormed(p) && Erase(c, p) == c && !RightBlocked(c, p)
    ensures Erase(c, MovedRight(p)) == c
  {
    RightStaysInside(c, p);
    var q := MovedRight(p);
    forall k | 0 <= k < Size ensures Erase(c, q)[k] == c[k] {
      if Covers(q, k) {
        var i := WindowTile(q.index, k);
        WindowTileCell(q.index, k);
        assert TileCell(q.index, i) == TileCell(p.index, i) + 1;
        assert !Occupied(c, TileCell(p.index, i) + 1);
      }
    }
  }

  /** For every kind but I, the mask the rotation checks test is the mask the
      rotation applies (or O, which does not turn), so a rotation its check
      allows never overwrites a locked cell. The right-rotation check tests
      more than the left one, so this covers both keys. */
  lemma RotationKeepsLocked(c: Board, p: Piece)
    requires WellFormed(p) && p.value != Straight && Erase(c, p) == c
    requires !LeftRotationBlocked(c, p) || !RightRotationBlocked(c, p)
    ensures Erase(c, Rotated(p)) == c
  {
    var q := Rotated(p);
    if p.value != Square {
      forall k | 0 <= k < Size ensures Erase(c, q)[k] == c[k] {
        if Covers(q, k) {
          var i := WindowTile(q.index, k);
          WindowTileCell(q.index, k);
          assert RotationProbe(p)[i];
          assert !Occupied(c, TileCell(p.index, i));
        }
      }
    }
  }

  /** The I piece's checks test lRotate4x4 while its rotation applies
      rRotate4x4: with the spawn mask at anchor 100 (cells 110..113) and a
      locked T block at 102, both checks pass, and the rotated mask then
      covers 102, so the locked block is overwritten and lost. */
  lemma StraightRotationOverwrites()
    ensures var b := EmptyBoard()[102 := T];
      var p := Piece(100, Straight, StraightTiles);
      && WellFormed(p) && Erase(b, p) == b
      && !LeftRotationBlocked(b, p) && !RightRotationBlocked(b, p)
      && Erase(b, Rotated(p))[102] == Empty && b[102] == T
  {
    var b := EmptyBoard()[102 := T];
    var p := Piece(100, Straight, StraightTiles);
    CatalogShapes(Straight);
    forall k | 0 <= k < Size ensures Erase(b, p)[k] == b[k] {
      if Covers(p, k) {
        var i := WindowTile(p.index, k);
        WindowTileCell(p.index, k);
        CellCases(i);
      }
    }
    var probe := RotationProbe(p);
    forall i | 0 <= i < 16 && probe[i] ensures !Occupied(b, TileCell(p.index, i)) {
      CellCases(i);
    }
    assert Clockwise(p.tiles)[2] == p.tiles[6];
    CoversTile(Rotated(p), 2);
  }

  lemma RowStep(a: int, b: int)
    requires (a - (b + Width)) % Width == 0
    ensures (a - b) % Width == 0
  {
  }

  /** The I piece's check and its rotation differ: at anchor 208 the
      lRotate4x4 probe of the spawn mask fits on an empty grid, but the
      rRotate4x4 mask that rotateLeft applies puts a tile on index 240, one
      past the end of the array. */
  lemma StraightLeftRotationEscapes()
    ensures var p := Piece(208, Straight, StraightTiles);
      && WellFormed(p)
      && !LeftRotationBlocked(Erase(EmptyBoard(), p), p)
      && Rotated(p).tiles[14] && TileCell(p.index, 14) == Size
  {
    var p := Piece(208, Straight, StraightTiles);
    CatalogShapes(Straight);
    var probe := RotationProbe(p);
    var b := Erase(EmptyBoard(), p);
    assert forall i | 0 <= i < 16 :: probe[i] == (i % 4 == 1) by {
      forall i | 0 <= i < 16 ensures probe[i] == (i % 4 == 1) {
        CellCases(i);
      }
    }
    forall i | 0 <= i < 16 && probe[i] ensures !Occupied(b, TileCell(p.index, i)) {
      CellCases(i);
    }
    assert Clockwise(p.tiles)[14] == p.tiles[5];
  }
}
