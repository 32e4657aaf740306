/** The Game class: owns the grid, the queue, the falling piece and the
    hold slot, and changes them in place. Every method is proved against
    the functions of Placement and Rules. */
module Engine {
  import opened Wrappers
  import opened Masks
  import opened Playfield
  import opened Pieces
  import opened Placement
  import opened Rules

  // What the grid holds part way through clearLine(row), as cell values.

  /** During the first loop: the first `n` cells of `row` emptied. */
  ghost function EmptiedCell(b: Board, row: int, n: int, r: int, c: int): GridValue
    requires 0 <= r < TotalHeight && 0 <= c < Width
  {
    if r == row && c < n then Empty else Cell(b, r, c)
  }

  /** Between passes of the second loop: rows i+1..row hold their upper
      neighbours, row `row` is empty when i = row. */
  ghost function ShiftingCell(b: Board, row: int, i: int, r: int, c: int): GridValue
    requires 0 <= r < TotalHeight && 0 <= c < Width && 0 <= row < TotalHeight && 0 <= i
  {
    if r > row then Cell(b, r, c)
    else if r > i then Cell(b, r - 1, c)
    else if r == row then Empty
    else Cell(b, r, c)
  }

  /** Within a pass: the first `j` cells of row i copied from row i - 1. */
  ghost function CopyingCell(b: Board, row: int, i: int, j: int, r: int, c: int): GridValue
    requires 0 <= r < TotalHeight && 0 <= c < Width && 0 <= row < TotalHeight && 1 <= i
  {
    if r == i && c < j then Cell(b, i - 1, c) else ShiftingCell(b, row, i, r, c)
  }

  class Game {
    const grid: Grid
    const queue: PieceQueue
    var current: Piece
    var hold: Option<Piece>
    var swapped: bool

    ghost predicate Valid()
      reads this, queue
    {
      && grid.Valid()
      && WellFormed(current)
      && (hold.Some? ==> WellFormed(hold.value))
      && |queue.items| == QueueLength
      && forall i | 0 <= i < |queue.items| :: WellFormed(queue.items[i])
    }

    /** The grid's contents. */
    ghost function Board(): Board
      reads grid.cells
      requires grid.Valid()
    {
      grid.Contents()
    }

    /** The whole state of the game. */
    ghost function Snapshot(): (s: State)
      reads this, grid.cells, queue
      requires Valid()
      ensures Consistent(s)
    {
      State(Board(), current, hold, swapped, queue.items)
    }

    /** The constructor: an empty grid, a queue of five random pieces, and
        the first of them taken as the falling piece (the queue refills
        with the draw `k`). The piece is not placed until setup. */
    constructor (draws: seq<Draw>, k: nat)
      requires |draws| == QueueLength
      requires k < 7
      ensures Valid() && fresh(grid) && fresh(grid.cells) && fresh(queue)
      ensures Board() == EmptyBoard()
      ensures current == RandomPiece(draws[0]) && hold == None && !swapped
      ensures |queue.items| == QueueLength && queue.items[QueueLength - 1] == RandomPiece(k)
      ensures forall i | 0 <= i < QueueLength - 1 :: queue.items[i] == RandomPiece(draws[i + 1])
    {
      var g := new Grid();
      var q := new PieceQueue(QueueLength, draws);
      var front := q.Next(k);
      RandomPieceWellFormed(draws[0]);
      forall i | 0 <= i < QueueLength ensures WellFormed(q.items[i]) {
        if i < QueueLength - 1 {
          RandomPieceWellFormed(draws[i + 1]);
        } else {
          RandomPieceWellFormed(k);
        }
      }
      grid := g;
      queue := q;
      current := front.value;
      hold := None;
      swapped := false;
    }

    /** place and clear: write `v` at every tile cell of the piece. */
    method StampTiles(v: GridValue)
      requires grid.Valid()
      modifies grid.cells
      ensures Board() == Stamp(old(Board()), current, v)
    {
      var p := current;
      ghost var b := Board();
      StampPrefixEmpty(b, p, v);
      for i := 0 to 16
        invariant Board() == StampPrefix(b, p, v, i)
      {
        if p.tiles[i] {
          grid.SetValue(TileCell(p.index, i), v);
        }
        StampPrefixStep(b, p, v, i);
      }
      StampPrefixFull(b, p, v);
    }

    /** place: the piece's cells take its value. */
    method Place()
      requires grid.Valid()
      modifies grid.cells
      ensures Board() == Stamp(old(Board()), current, current.value)
      ensures Holds(Board(), current)
    {
      StampTiles(current.value);
      StampHolds(old(Board()), current);
    }

    /** clear: the piece's cells become EMPTY. */
    method Clear()
      requires grid.Valid()
      modifies grid.cells
      ensures Board() == Erase(old(Board()), current)
    {
      StampTiles(Empty);
    }

    /** setup: the first piece is placed (the key listeners are not part of
        the model). */
    method Setup()
      requires grid.Valid()
      modifies grid.cells
      ensures Board() == Stamp(old(Board()), current, current.value)
    {
      Place();
    }
    /** isCollidingMoveDown: clear, look one row below every tile, place. */
    method IsCollidingMoveDown() returns (colliding: bool)
      requires grid.Valid()
      modifies grid.cells
      ensures colliding == DownBlocked(Erase(old(Board()), current), current)
      ensures Board() == Bracketed(old(Board()), current)
      ensures Valid() ==> Snapshot() == Query(old(Snapshot()))
    {
      Clear();
      ghost var c := Board();
      var p := current;
      for i := 0 to 16
        invariant Board() == c
        invariant forall j | 0 <= j < i :: !(p.tiles[j] && Occupied(c, TileCell(p.index, j) + Width))
      {
        var index := TileCell(p.index, i);
        var occupied := grid.GetValue(index + Width) != Value(Empty);
        if p.tiles[i] && occupied {
          Place();
          return true;
        }
      }
      Place();
      return false;
    }

    /** isCollidingMoveLeft: clear, test the column and the cell left of
        every tile, place. */
    method IsCollidingMoveLeft() returns (colliding: bool)
      requires grid.Valid()
      modifies grid.cells
      ensures colliding == LeftBlocked(Erase(old(Board()), current), current)
      ensures Board() == Bracketed(old(Board()), current)
      ensures Valid() ==> Snapshot() == Query(old(Snapshot()))
    {
      Clear();
      ghost var c := Board();
      var p := current;
      for i := 0 to 16
        invariant Board() == c
        invariant forall j | 0 <= j < i ::
                    !(p.tiles[j] && (JsRem(TileCell(p.index, j), Width) - 1 < 0 || Occupied(c, TileCell(p.index, j) - 1)))
      {
        var index := TileCell(p.index, i);
        var outOfBounds := JsRem(index, Width) - 1 < 0;
        var occupied := grid.GetValue(index - 1) != Value(Empty);
        if p.tiles[i] && (outOfBounds || occupied) {
          Place();
          return true;
        }
      }
      Place();
      return false;
    }

    /** isCollidingMoveRight: clear, test the column and the cell right of
        every tile, place. */
    method IsCollidingMoveRight() returns (colliding: bool)
      requires grid.Valid()
      modifies grid.cells
      ensures colliding == RightBlocked(Erase(old(Board()), current), current)
      ensures Board() == Bracketed(old(Board()), current)
      ensures Valid() ==> Snapshot() == Query(old(Snapshot()))
    {
      Clear();
      ghost var c := Board();
      var p := current;
      for i := 0 to 16
        invariant Board() == c
        invariant forall j | 0 <= j < i ::
                    !(p.tiles[j] && (JsRem(TileCell(p.index, j), Width) + 1 >= Width || Occupied(c, TileCell(p.index, j) + 1)))
      {
        var index := TileCell(p.index, i);
        var outOfBounds := JsRem(index, Width) + 1 >= Width;
        var occupied := grid.GetValue(index + 1) != Value(Empty);
        if p.tiles[i] && (outOfBounds || occupied) {
          Place();
          return true;
        }
      }
      Place();
      return false;
    }

    /** The mask both rotation checks test. */
    method Probe(p: Piece) returns (rotated: Mask)
      ensures rotated == RotationProbe(p)
    {
      if p.value == Straight {
        rotated := LRotate4x4(p.tiles);
      } else {
        rotated := RotateMatrix(p.tiles);
      }
    }

    /** isCollidingLeftRotation: clear, test the cells of the probe mask,
        place. */
    method IsCollidingLeftRotation() returns (colliding: bool)
      requires grid.Valid()
      modifies grid.cells
      ensures colliding == LeftRotationBlocked(Erase(old(Board()), current), current)
      ensures Board() == Bracketed(old(Board()), current)
      ensures Valid() ==> Snapshot() == Query(old(Snapshot()))
    {
      Clear();
      ghost var c := Board();
      var p := current;
      var rotated := Probe(p);
      for i := 0 to 16
        invariant Board() == c
        invariant forall j | 0 <= j < i :: !(rotated[j] && Occupied(c, TileCell(p.index, j)))
      {
        var index := TileCell(p.index, i);
        var occupied := grid.GetValue(index) != Value(Empty);
        if rotated[i] && occupied {
          Place();
          return true;
        }
      }
      Place();
      return false;
    }

    /** isCollidingRightRotation: as the left check, with the anchor bound
        added. */
    method IsCollidingRightRotation() returns (colliding: bool)
      requires grid.Valid()
      modifies grid.cells
      ensures colliding == RightRotationBlocked(Erase(old(Board()), current), current)
      ensures Board() == Bracketed(old(Board()), current)
      ensures Valid() ==> Snapshot() == Query(old(Snapshot()))
    {
      Clear();
      ghost var c := Board();
      var p := current;
      var rotated := Probe(p);
      for i := 0 to 16
        invariant Board() == c
        invariant forall j | 0 <= j < i :: !(rotated[j] && (AnchorOutOfBounds(p) || Occupied(c, TileCell(p.index, j))))
      {
        var index := TileCell(p.index, i);
        var outOfBounds := JsRem(p.index, Width) > Width - MaxSize || p.index < 0;
        var occupied := grid.GetValue(index) != Value(Empty);
        if rotated[i] && (outOfBounds || occupied) {
          Place();
          return true;
        }
      }
      Place();
      return false;
    }
    /** moveDown: clear, anchor one row down (JavaScript `%` by the grid
        size), place. */
    method MoveDown()
      requires Valid()
      modifies this, grid.cells
      ensures Valid()
      ensures Snapshot() == MoveTo(old(Snapshot()), MovedDown(old(current)))
    {
      Clear();
      current := current.(index := JsRem(current.index + Width, Size));
      MovesWellFormed(old(current));
      Place();
    }

    /** moveLeft: clear, anchor one cell left, place. */
    method MoveLeft()
      requires Valid()
      modifies this, grid.cells
      ensures Valid()
      ensures Snapshot() == MoveTo(old(Snapshot()), MovedLeft(old(current)))
    {
      Clear();
      current := current.(index := JsRem(current.index - 1, Size));
      MovesWellFormed(old(current));
      Place();
    }

    /** moveRight: clear, anchor one cell right, place. */
    method MoveRight()
      requires Valid()
      modifies this, grid.cells
      ensures Valid()
      ensures Snapshot() == MoveTo(old(Snapshot()), MovedRight(old(current)))
    {
      Clear();
      current := current.(index := JsRem(current.index + 1, Size));
      MovesWellFormed(old(current));
      Place();
    }

    /** rotateLeft: clear, turn the mask (rRotate4x4 for I, rotateMatrix
        for every kind but O), place. */
    method RotateLeft()
      requires Valid()
      modifies this, grid.cells
      ensures Valid()
      ensures Snapshot() == MoveTo(old(Snapshot()), Rotated(old(current)))
    {
      Clear();
      if current.value == Straight {
        var tiles := RRotate4x4(current.tiles);
        current := current.(tiles := tiles);
      } else if current.value != Square {
        var tiles := RotateMatrix(current.tiles);
        current := current.(tiles := tiles);
      }
      RotatedWellFormed(old(current));
      Place();
    }

    /** rotateRight: the same body as rotateLeft, so it turns the same way. */
    method RotateRight()
      requires Valid()
      modifies this, grid.cells
      ensures Valid()
      ensures Snapshot() == MoveTo(old(Snapshot()), Rotated(old(current)))
    {
      Clear();
      if current.value == Straight {
        var tiles := RRotate4x4(current.tiles);
        current := current.(tiles := tiles);
      } else if current.value != Square {
        var tiles := RotateMatrix(current.tiles);
        current := current.(tiles := tiles);
      }
      RotatedWellFormed(old(current));
      Place();
    }

    /** The hold block of handleInput, entered only while hold is allowed. */
    method Hold(k: nat)
      requires Valid() && k < 7 && !swapped
      modifies this, grid.cells, queue
      ensures Valid()
      ensures Snapshot() == Held(old(Snapshot()), k)
    {
      swapped := true;
      Clear();
      if hold == None {
        hold := Some(current);
        ShiftedWellFormed(queue.items, k);
        var front := queue.Next(k);
        current := front.value;
      } else {
        var temp := current;
        current := hold.value;
        hold := Some(temp);
      }
      current := current.(index := 0);
      Place();
    }

    /** The hard drop of handleInput: `while (!isCollidingMoveDown())
        moveDown()`. The piece lands where Fall says, on the locked cells
        the drop started from. */
    method HardDrop()
      requires Valid()
      modifies this, grid.cells
      ensures Valid()
      ensures Snapshot() == MoveTo(old(Snapshot()), Fall(Locked(old(Snapshot())), old(current)))
    {
      ghost var c := Erase(Board(), current);
      EraseStamp(Board(), current, Empty);
      var colliding := IsCollidingMoveDown();
      while !colliding
        invariant Valid()
        invariant hold == old(hold) && swapped == old(swapped)
        invariant current.value == old(current).value
        invariant Erase(c, current) == c
        invariant Board() == Stamp(c, current, current.value)
        invariant colliding == DownBlocked(c, current)
        invariant Fall(c, current) == Fall(c, old(current))
        decreases Size - current.index
      {
        ghost var before := current;
        FallStaysInside(c, before);
        FallKeepsClear(c, before);
        EraseStamp(c, before, before.value);
        MoveDown();
        EraseStamp(c, current, current.value);
        colliding := IsCollidingMoveDown();
      }
    }
    /** clearLine: empty the row, then copy every row above it one row
        down, from the row itself up to row 1. */
    method ClearLine(row: int)
      requires grid.Valid() && 0 <= row < TotalHeight
      modifies grid.cells
      ensures Board() == ClearedLine(old(Board()), row)
    {
      ghost var b := Board();
      for i := 0 to Width
        invariant forall r, c | 0 <= r < TotalHeight && 0 <= c < Width :: Cell(Board(), r, c) == EmptiedCell(b, row, i, r, c)
      {
        ghost var before := Board();
        PutCell(before, row, i, Empty);
        grid.SetValue(row * Width + i, Empty);
        forall r, c | 0 <= r < TotalHeight && 0 <= c < Width
          ensures Cell(Board(), r, c) == EmptiedCell(b, row, i + 1, r, c)
        {
          if r != row || c != i {
            assert Cell(Board(), r, c) == Cell(before, r, c);
          }
        }
      }
      var i := row;
      while i > 0
        invariant 0 <= i <= row
        invariant forall r, c | 0 <= r < TotalHeight && 0 <= c < Width :: Cell(Board(), r, c) == ShiftingCell(b, row, i, r, c)
      {
        for j := 0 to Width
          invariant forall r, c | 0 <= r < TotalHeight && 0 <= c < Width :: Cell(Board(), r, c) == CopyingCell(b, row, i, j, r, c)
        {
          var previousRowValue := grid.GetValue((i - 1) * Width + j);
          ghost var before := Board();
          assert previousRowValue == Value(Cell(before, i - 1, j));
          PutCell(before, i, j, previousRowValue.v);
          grid.SetValue(i * Width + j, previousRowValue.v);
          forall r, c | 0 <= r < TotalHeight && 0 <= c < Width
            ensures Cell(Board(), r, c) == CopyingCell(b, row, i, j + 1, r, c)
          {
            if r != i || c != j {
              assert Cell(Board(), r, c) == Cell(before, r, c);
            }
          }
        }
        i := i - 1;
      }
      ClearedLineRows(b, row);
      CellsEqual(Board(), ClearedLine(b, row));
    }

    /** isFullRow: no cell of the row is EMPTY. */
    method IsFullRow(row: int) returns (full: bool)
      requires grid.Valid() && 0 <= row < TotalHeight
      ensures full == RowFull(Board(), row)
    {
      for i := 0 to Width
        invariant forall c | 0 <= c < i :: Cell(Board(), row, c) != Empty
      {
        if grid.GetValue(row * Width + i) == Value(Empty) {
          assert Cell(Board(), row, i) == Empty;
          return false;
        }
      }
      return true;
    }

    /** clearLines: scan the rows top to bottom and clear each one that is
        full when the scan reaches it. Afterwards no row is full. */
    method ClearLines()
      requires grid.Valid()
      modifies grid.cells
      ensures Board() == ClearedLinesFrom(old(Board()), 0)
      ensures forall r | 0 <= r < TotalHeight :: !RowFull(Board(), r)
    {
      ghost var b := Board();
      for row := 0 to TotalHeight
        invariant ClearedLinesFrom(Board(), row) == ClearedLinesFrom(b, 0)
      {
        var full := IsFullRow(row);
        if full {
          ClearLine(row);
        }
      }
      ClearedLinesNoFullRow(b, 0);
    }

    /** reset: clearLine on every row, top to bottom, which empties the
        whole grid. */
    method Reset()
      requires grid.Valid()
      modifies grid.cells
      ensures Board() == EmptyBoard()
    {
      for i := 0 to TotalHeight
        invariant forall r | 0 <= r < i :: RowEmpty(Board(), r)
      {
        ghost var before := Board();
        ClearLine(i);
        ClearedLineKeepsPrefixEmpty(before, i);
      }
      forall r, c | 0 <= r < TotalHeight && 0 <= c < Width
        ensures Cell(Board(), r, c) == Cell(EmptyBoard(), r, c)
      {
        assert RowEmpty(Board(), r);
      }
      CellsEqual(Board(), EmptyBoard());
    }

    /** handleInput from the ArrowUp test on. */
    method HandleMoveKeys(tick: real, limit: real, keys: Keys) returns (next: real)
      requires Valid()
      modifies this, grid.cells
      ensures Valid()
      ensures (next, Snapshot()) == MoveKeys(old(Snapshot()), tick, limit, keys)
    {
      ghost var s := Snapshot();
      if keys.rotateRight {
        var colliding := IsCollidingRightRotation();
        assert Snapshot() == Query(s);
        if !colliding {
          QueryKeeps(s, Rotated(s.current));
          RotateRight();
          assert Snapshot() == MoveTo(s, Rotated(s.current));
          return limit * 2.5;
        }
        assert RightRotationBlocked(Locked(s), s.current);
      }
      ghost var s1 := Snapshot();
      assert s1 == if keys.rotateRight then Query(s) else s;
      next := HandleDropKey(tick, limit, keys);
      assert (next, Snapshot()) == DropKey(s1, tick, limit, keys);
    }

    /** The space bar: the hard drop. */
    method HandleDropKey(tick: real, limit: real, keys: Keys) returns (next: real)
      requires Valid()
      modifies this, grid.cells
      ensures Valid()
      ensures (next, Snapshot()) == DropKey(old(Snapshot()), tick, limit, keys)
    {
      ghost var s := Snapshot();
      if keys.hardDrop {
        HardDrop();
        assert Snapshot() == MoveTo(s, Fall(Locked(s), s.current));
        return limit * 2.5;
      }
      next := HandleDownKey(tick, limit, keys);
    }

    method HandleDownKey(tick: real, limit: real, keys: Keys) returns (next: real)
      requires Valid()
      modifies this, grid.cells
      ensures Valid()
      ensures (next, Snapshot()) == DownKey(old(Snapshot()), tick, limit, keys)
    {
      ghost var s := Snapshot();
      if keys.down {
        var colliding := IsCollidingMoveDown();
        assert Snapshot() == Query(s);
        if !colliding {
          QueryKeeps(s, MovedDown(s.current));
          MoveDown();
          return limit;
        }
      }
      next := HandleLeftKey(tick, limit, keys);
    }

    method HandleLeftKey(tick: real, limit: real, keys: Keys) returns (next: real)
      requires Valid()
      modifies this, grid.cells
      ensures Valid()
      ensures (next, Snapshot()) == LeftKey(old(Snapshot()), tick, limit, keys)
    {
      ghost var s := Snapshot();
      if keys.left {
        var colliding := IsCollidingMoveLeft();
        assert Snapshot() == Query(s);
        if !colliding {
          QueryKeeps(s, MovedLeft(s.current));
          MoveLeft();
          return limit;
        }
      }
      next := HandleRightKey(tick, limit, keys);
    }

    method HandleRightKey(tick: real, limit: real, keys: Keys) returns (next: real)
      requires Valid()
      modifies this, grid.cells
      ensures Valid()
      ensures (next, Snapshot()) == RightKey(old(Snapshot()), tick, limit, keys)
    {
      ghost var s := Snapshot();
      next := tick;
      if keys.right {
        var colliding := IsCollidingMoveRight();
        assert Snapshot() == Query(s);
        assert colliding == RightBlocked(Locked(s), s.current);
        if !colliding {
          QueryKeeps(s, MovedRight(s.current));
          MoveRight();
          assert Snapshot() == MoveTo(Query(s), MovedRight(s.current));
          next := limit;
        }
      }
    }

    /** handleInput: returns the new input tick. */
    method HandleInput(tick: real, limit: real, keys: Keys, k: nat) returns (next: real)
      requires Valid() && k < 7
      modifies this, grid.cells, queue
      ensures Valid()
      ensures (next, Snapshot()) == InputStep(old(Snapshot()), tick, limit, keys, k)
    {
      if tick <= 0.0 {
        ghost var s := Snapshot();
        QueryKeeps(s, Rotated(current));
        if keys.rotateLeft {
          var colliding := IsCollidingLeftRotation();
          if !colliding {
            RotateLeft();
            return limit * 2.5;
          }
        }
        if keys.hold && !swapped {
          Hold(k);
        }
        next := HandleMoveKeys(tick, limit, keys);
        return;
      }
      return tick;
    }

    /** autoMoveDown: returns the new fall tick. */
    method AutoMoveDown(tick: real, limit: real, k: nat) returns (next: real)
      requires Valid() && k < 7
      modifies this, grid.cells, queue
      ensures Valid()
      ensures (next, Snapshot()) == AutoStep(old(Snapshot()), tick, limit, k)
    {
      ghost var s := Snapshot();
      QueryKeeps(s, MovedDown(s.current));
      if tick <= 0.0 {
        var colliding := IsCollidingMoveDown();
        assert Snapshot() == Query(s);
        if !colliding {
          MoveDown();
          assert Snapshot() == MoveTo(s, MovedDown(s.current));
          return limit;
        }
      }
      var grounded := IsCollidingMoveDown();
      assert Snapshot() == Query(s);
      assert grounded == DownBlocked(Locked(s), s.current);
      if grounded {
        if current.index < TotalHeight {
          Reset();
        }
        assert Board() == if s.current.index < TotalHeight then EmptyBoard() else Bracketed(s.board, s.current);
        ShiftedWellFormed(queue.items, k);
        var front := queue.Next(k);
        current := front.value;
        swapped := false;
      }
      return tick;
    }

    /** One pass of the update loop's `loop` (drawing and the next
        animation frame request are not part of the model). Afterwards no
        row is full. */
    method Loop(inputTick: real, fallTick: real, keys: Keys, k1: nat, k2: nat) returns (nextInput: real, nextFall: real)
      requires Valid() && k1 < 7 && k2 < 7
      modifies this, grid.cells, queue
      ensures Valid()
      ensures (nextInput, nextFall, Snapshot()) == Frame(old(Snapshot()), inputTick, fallTick, keys, k1, k2)
      ensures forall r | 0 <= r < TotalHeight :: !RowFull(Board(), r)
    {
      var input, fall := inputTick, fallTick;
      if input > 0.0 {
        input := input - 1.0;
      }
      if fall > 0.0 {
        fall := fall - 1.0;
      }
      ghost var s := Snapshot();
      assert input == CountDown(inputTick) && fall == CountDown(fallTick);
      nextInput := HandleInput(input, InputLimit, keys, k1);
      ghost var s1 := Snapshot();
      assert (nextInput, s1) == InputStep(s, input, InputLimit, keys, k1);
      nextFall := AutoMoveDown(fall, FallLimit, k2);
      ghost var s2 := Snapshot();
      assert (nextFall, s2) == AutoStep(s1, fall, FallLimit, k2);
      ClearLines();
      assert Snapshot() == LinesCleared(s2);
    }
  }
}
