/** The game's rules on whole states: what one call of handleInput,
    autoMoveDown, clearLines and one frame of the update loop do to the
    grid, the falling piece, the hold slot and the queue. The class in
    engine.dfy is proved to follow these functions step for step. */
module Rules {
  import opened Wrappers
  import opened Masks
  import opened Playfield
  import opened Pieces
  import opened Placement

  /** Everything a step of the game reads and writes. */
  datatype State = State(board: Board, current: Piece, hold: Option<Piece>, swapped: bool, queue: seq<Piece>)

  /** The keys held down, as the key listeners record them; a key never
      pressed reads as `undefined`, which counts as not held. */
  datatype Keys = Keys(
    rotateLeft: bool,   // "z"
    hold: bool,         // "c"
    rotateRight: bool,  // "ArrowUp"
    hardDrop: bool,     // " "
    down: bool,         // "ArrowDown"
    left: bool,         // "ArrowLeft"
    right: bool)        // "ArrowRight"

  /** What holds of the pieces in every state of the game: all well formed,
      and five pieces waiting in the queue. */
  predicate Consistent(s: State)
  {
    && WellFormed(s.current)
    && (s.hold.Some? ==> WellFormed(s.hold.value))
    && |s.queue| == QueueLength
    && forall i | 0 <= i < |s.queue| :: WellFormed(s.queue[i])
  }

  /** The grid with the falling piece cleared: the locked cells. */
  function Locked(s: State): Board
  {
    Erase(s.board, s.current)
  }

  /** A collision query: clear, test, place. */
  function Query(s: State): State
  {
    s.(board := Bracketed(s.board, s.current))
  }

  /** clear, give the piece a new position or mask, place. */
  function MoveTo(s: State, q: Piece): State
  {
    s.(board := Stamp(Locked(s), q, q.value), current := q)
  }

  /** A query leaves the locked cells as they were and the piece placed. */
  lemma QueryKeeps(s: State, q: Piece)
    ensures Locked(Query(s)) == Locked(s)
    ensures Query(Query(s)) == Query(s)
    ensures MoveTo(Query(s), q) == MoveTo(s, q)
  {
    BracketedKeepsTest(s.board, s.current);
  }

  /** The hold block of handleInput: clear the piece, put it in the hold
      slot, take the held piece back (or the front of the queue when the
      slot was empty), move it to anchor 0 and place it. */
  function Held(s: State, k: nat): (r: State)
    requires k < 7 && |s.queue| > 0
    ensures r.swapped && r.hold == Some(s.current) && r.current.index == 0
    ensures s.hold.Some? ==> r.current == s.hold.value.(index := 0) && r.queue == s.queue
    ensures s.hold.None? ==> r.current == s.queue[0].(index := 0) && r.queue == s.queue[1..] + [RandomPiece(k)]
    ensures r.board == Stamp(Locked(s), r.current, r.current.value)
  {
    var taken := if s.hold.None? then s.queue[0] else s.hold.value;
    var queue := if s.hold.None? then s.queue[1..] + [RandomPiece(k)] else s.queue;
    var q := taken.(index := 0);
    State(Stamp(Locked(s), q, q.value), q, Some(s.current), true, queue)
  }

  /** The hold keeps the pieces consistent. */
  lemma HeldConsistent(s: State, k: nat)
    requires Consistent(s) && k < 7
    ensures Consistent(Held(s, k))
  {
    ShiftedWellFormed(s.queue, k);
  }

  /** The swap branch of the hold block: once a first hold has put the
      current piece in the slot, a hold with the slot filled gives that
      piece back at anchor 0, holds the piece taken in its place, and
      leaves the queue alone. */
  lemma HeldTwice(s: State, k1: nat, k2: nat)
    requires k1 < 7 && k2 < 7 && |s.queue| > 0
    ensures var t := Held(s, k1).(swapped := false);
      var u := Held(t, k2);
      && u.current == s.current.(index := 0)
      && u.hold == Some(t.current)
      && u.queue == t.queue
  {
  }

  /** The arrow keys and the space bar, in handleInput's order, once the
      rotate-left and hold keys have had their turn. Each test is made
      only when its key is held (a test is a query, which places the
      piece), and the first action taken ends the call. */
  function MoveKeys(s: State, tick: real, limit: real, keys: Keys): (r: (real, State))
    requires WellFormed(s.current)
    ensures r.0 == tick || r.0 == limit || r.0 == limit * 2.5
    ensures r.1.queue == s.queue && r.1.hold == s.hold && r.1.swapped == s.swapped
  {
    if !keys.rotateRight then DropKey(s, tick, limit, keys)
    else if !RightRotationBlocked(Locked(s), s.current) then (limit * 2.5, MoveTo(s, Rotated(s.current)))
    else DropKey(Query(s), tick, limit, keys)
  }

  /** The space bar: drop the piece as far as it falls. */
  function DropKey(s: State, tick: real, limit: real, keys: Keys): (r: (real, State))
    requires WellFormed(s.current)
    ensures r.0 == tick || r.0 == limit || r.0 == limit * 2.5
    ensures r.1.queue == s.queue && r.1.hold == s.hold && r.1.swapped == s.swapped
  {
    if keys.hardDrop then (limit * 2.5, MoveTo(s, Fall(Locked(s), s.current)))
    else DownKey(s, tick, limit, keys)
  }

  function DownKey(s: State, tick: real, limit: real, keys: Keys): (r: (real, State))
    ensures r.0 == tick || r.0 == limit
    ensures r.1.queue == s.queue && r.1.hold == s.hold && r.1.swapped == s.swapped
  {
    if !keys.down then LeftKey(s, tick, limit, keys)
    else if !DownBlocked(Locked(s), s.current) then (limit, MoveTo(s, MovedDown(s.current)))
    else LeftKey(Query(s), tick, limit, keys)
  }

  function LeftKey(s: State, tick: real, limit: real, keys: Keys): (r: (real, State))
    ensures r.0 == tick || r.0 == limit
    ensures r.1.queue == s.queue && r.1.hold == s.hold && r.1.swapped == s.swapped
  {
    if !keys.left then RightKey(s, tick, limit, keys)
    else if !LeftBlocked(Locked(s), s.current) then (limit, MoveTo(s, MovedLeft(s.current)))
    else RightKey(Query(s), tick, limit, keys)
  }

  function RightKey(s: State, tick: real, limit: real, keys: Keys): (r: (real, State))
    ensures r.0 == tick || r.0 == limit
    ensures r.1.queue == s.queue && r.1.hold == s.hold && r.1.swapped == s.swapped
  {
    if !keys.right then (tick, s)
    else if !RightBlocked(Locked(s), s.current) then (limit, MoveTo(s, MovedRight(s.current)))
    else (tick, Query(s))
  }

  /** handleInput: nothing happens while the tick is positive; otherwise
      z rotates (when its check passes) and ends the call, c holds once per
      piece and does not end the call, then the remaining keys are tried.
      The result is the new input tick: 2.5 times the limit after a
      rotation or hard drop, the limit after a move, else the old tick. */
  function InputStep(s: State, tick: real, limit: real, keys: Keys, k: nat): (r: (real, State))
    requires Consistent(s) && k < 7
    ensures tick > 0.0 ==> r == (tick, s)
    ensures r.0 == tick || r.0 == limit || r.0 == limit * 2.5
    ensures |r.1.queue| == |s.queue|
    ensures s.swapped ==> r.1.swapped && r.1.hold == s.hold && r.1.queue == s.queue
    ensures (tick <= 0.0 && keys.hold && !s.swapped &&
             !(keys.rotateLeft && !LeftRotationBlocked(Locked(s), s.current))) ==>
      r.1.swapped && r.1.hold == Some(s.current)
  {
    var p := s.current;
    if tick > 0.0 then (tick, s)
    else if keys.rotateLeft && !LeftRotationBlocked(Locked(s), p) then (limit * 2.5, MoveTo(s, Rotated(p)))
    else
      var s1 := if keys.rotateLeft then Query(s) else s;
      var s2 := if keys.hold && !s1.swapped then Held(s1, k) else s1;
      MoveKeys(s2, tick, limit, keys)
  }

  /** autoMoveDown: when the tick has run out and the piece can fall it
      falls one row and the tick is reset; when it cannot fall it locks:
      the grid is wiped if its anchor is above index TotalHeight (the
      top-out test compares a flat index with a row count), the next piece
      comes off the queue, unplaced, and hold is allowed again. */
  function AutoStep(s: State, tick: real, limit: real, k: nat): (r: (real, State))
    requires |s.queue| > 0 && k < 7
    ensures r.0 == (if tick <= 0.0 && !DownBlocked(Locked(s), s.current) then limit else tick)
    ensures r.1.hold == s.hold
    ensures DownBlocked(Locked(s), s.current) ==>
      r.1.current == s.queue[0] && !r.1.swapped && r.1.queue == s.queue[1..] + [RandomPiece(k)]
    ensures DownBlocked(Locked(s), s.current) && s.current.index < TotalHeight ==> r.1.board == EmptyBoard()
    ensures DownBlocked(Locked(s), s.current) && s.current.index >= TotalHeight ==>
      Holds(r.1.board, s.current) && Erase(r.1.board, s.current) == Locked(s)
    ensures tick <= 0.0 && !DownBlocked(Locked(s), s.current) ==> r.1 == MoveTo(s, MovedDown(s.current))
    ensures tick > 0.0 && !DownBlocked(Locked(s), s.current) ==> r.1 == Query(s)
  {
    BracketedKeepsTest(s.board, s.current);
    var p := s.current;
    var c := Locked(s);
    if tick <= 0.0 && !DownBlocked(c, p) then (limit, MoveTo(s, MovedDown(p)))
    else if DownBlocked(c, p) then
      var board := if p.index < TotalHeight then EmptyBoard() else Bracketed(s.board, p);
      (tick, State(board, s.queue[0], s.hold, false, s.queue[1..] + [RandomPiece(k)]))
    else (tick, Query(s))
  }

  /** clearLines on the state's grid. */
  function LinesCleared(s: State): State
  {
    s.(board := ClearedLinesFrom(s.board, 0))
  }

  /** A tick that is still running counts down by one. */
  function CountDown(tick: real): real
  {
    if tick > 0.0 then tick - 1.0 else tick
  }

  /** The input and fall limits the update loop passes. */
  const InputLimit: real := 5.0
  const FallLimit: real := 50.0

  /** One pass of the update loop: count both ticks down, handle input,
      let gravity act, clear full lines. `k1` and `k2` are the random draws
      a hold and a lock may make. */
  function Frame(s: State, inputTick: real, fallTick: real, keys: Keys, k1: nat, k2: nat): (r: (real, real, State))
    requires Consistent(s) && k1 < 7 && k2 < 7
  {
    var (i, s1) := InputStep(s, CountDown(inputTick), InputLimit, keys, k1);
    var (f, s2) := AutoStep(s1, CountDown(fallTick), FallLimit, k2);
    (i, f, LinesCleared(s2))
  }

  // ---------------------------------------------------------------------
  // What the steps preserve
  // ---------------------------------------------------------------------

  /** Every move and rotation keeps the pieces consistent. */
  lemma MoveToConsistent(s: State, q: Piece)
    requires Consistent(s)
    requires q == Rotated(s.current) || q == MovedDown(s.current) || q == MovedLeft(s.current) || q == MovedRight(s.current)
    ensures Consistent(MoveTo(s, q))
  {
    RotatedWellFormed(s.current);
    MovesWellFormed(s.current);
  }

  /** The arrow-key stages keep the pieces consistent and, for every
      kind but I, the locked cells: each move happens only after its check
      found the target cells empty, and a hard drop falls through empty
      cells only. */
  lemma RightKeyKeeps(s: State, tick: real, limit: real, keys: Keys)
    requires Consistent(s)
    ensures Consistent(RightKey(s, tick, limit, keys).1)
    ensures Locked(RightKey(s, tick, limit, keys).1) == Locked(s)
  {
    var p, c := s.current, Locked(s);
    QueryKeeps(s, p);
    if keys.right && !RightBlocked(c, p) {
      MoveToConsistent(s, MovedRight(p));
      EraseStamp(s.board, p, Empty);
      RightKeepsLocked(c, p);
      EraseStamp(c, MovedRight(p), p.value);
    }
  }

  lemma LeftKeyKeeps(s: State, tick: real, limit: real, keys: Keys)
    requires Consistent(s)
    ensures Consistent(LeftKey(s, tick, limit, keys).1)
    ensures Locked(LeftKey(s, tick, limit, keys).1) == Locked(s)
  {
    var p, c := s.current, Locked(s);
    QueryKeeps(s, p);
    RightKeyKeeps(s, tick, limit, keys);
    RightKeyKeeps(Query(s), tick, limit, keys);
    if keys.left && !LeftBlocked(c, p) {
      MoveToConsistent(s, MovedLeft(p));
      EraseStamp(s.board, p, Empty);
      LeftKeepsLocked(c, p);
      EraseStamp(c, MovedLeft(p), p.value);
    }
  }

  lemma DownKeyKeeps(s: State, tick: real, limit: real, keys: Keys)
    requires Consistent(s)
    ensures Consistent(DownKey(s, tick, limit, keys).1)
    ensures Locked(DownKey(s, tick, limit, keys).1) == Locked(s)
  {
    var p, c := s.current, Locked(s);
    QueryKeeps(s, p);
    LeftKeyKeeps(s, tick, limit, keys);
    LeftKeyKeeps(Query(s), tick, limit, keys);
    if keys.down && !DownBlocked(c, p) {
      MoveToConsistent(s, MovedDown(p));
      EraseStamp(s.board, p, Empty);
      FallKeepsClear(c, p);
      EraseStamp(c, MovedDown(p), p.value);
    }
  }

  lemma DropKeyKeeps(s: State, tick: real, limit: real, keys: Keys)
    requires Consistent(s)
    ensures Consistent(DropKey(s, tick, limit, keys).1)
    ensures Locked(DropKey(s, tick, limit, keys).1) == Locked(s)
  {
    var p, c := s.current, Locked(s);
    DownKeyKeeps(s, tick, limit, keys);
    if keys.hardDrop {
      EraseStamp(s.board, p, Empty);
      FallKeepsLocked(c, p);
      EraseStamp(c, Fall(c, p), p.value);
    }
  }

  /** The whole arrow-key part keeps the pieces consistent, and keeps the
      locked cells of every kind but I (see StraightRotationOverwrites). */
  lemma MoveKeysKeeps(s: State, tick: real, limit: real, keys: Keys)
    requires Consistent(s)
    ensures Consistent(MoveKeys(s, tick, limit, keys).1)
    ensures s.current.value != Straight ==> Locked(MoveKeys(s, tick, limit, keys).1) == Locked(s)
  {
    var p, c := s.current, Locked(s);
    QueryKeeps(s, p);
    DropKeyKeeps(s, tick, limit, keys);
    DropKeyKeeps(Query(s), tick, limit, keys);
    if keys.rotateRight && !RightRotationBlocked(c, p) {
      MoveToConsistent(s, Rotated(p));
      if p.value != Straight {
        EraseStamp(s.board, p, Empty);
        RotationKeepsLocked(c, p);
        EraseStamp(c, Rotated(p), p.value);
      }
    }
  }

  /** handleInput keeps every piece well formed and the queue at five. */
  lemma InputStepConsistent(s: State, tick: real, limit: real, keys: Keys, k: nat)
    requires Consistent(s) && k < 7
    ensures Consistent(InputStep(s, tick, limit, keys, k).1)
  {
    if tick <= 0.0 {
      var p := s.current;
      if keys.rotateLeft && !LeftRotationBlocked(Locked(s), p) {
        MoveToConsistent(s, Rotated(p));
      } else {
        var s1 := if keys.rotateLeft then Query(s) else s;
        assert Consistent(s1);
        if keys.hold && !s1.swapped {
          HeldConsistent(s1, k);
          MoveKeysKeeps(Held(s1, k), tick, limit, keys);
        } else {
          MoveKeysKeeps(s1, tick, limit, keys);
        }
      }
    }
  }

  /** autoMoveDown keeps every piece well formed and the queue at five. */
  lemma AutoStepConsistent(s: State, tick: real, limit: real, k: nat)
    requires Consistent(s) && k < 7
    ensures Consistent(AutoStep(s, tick, limit, k).1)
  {
    if DownBlocked(Locked(s), s.current) {
      ShiftedWellFormed(s.queue, k);
    } else {
      MoveToConsistent(s, MovedDown(s.current));
    }
  }

  /** A piece that gravity moves falls exactly one row, no locked cell
      changes, and the falling piece's cells hold its value. */
  lemma AutoStepFalls(s: State, tick: real, limit: real, k: nat)
    requires Consistent(s) && k < 7 && tick <= 0.0 && !DownBlocked(Locked(s), s.current)
    ensures var t := AutoStep(s, tick, limit, k).1;
      && t.current.index == s.current.index + Width
      && Locked(t) == Locked(s)
      && Holds(t.board, t.current)
  {
    var p, c := s.current, Locked(s);
    FallStaysInside(c, p);
    EraseStamp(s.board, p, Empty);
    FallKeepsClear(c, p);
    EraseStamp(c, MovedDown(p), p.value);
    StampHolds(c, MovedDown(p));
  }

  /** After a frame every piece is well formed, the queue holds five
      pieces and no row of the grid is full. */
  lemma FrameConsistent(s: State, inputTick: real, fallTick: real, keys: Keys, k1: nat, k2: nat)
    requires Consistent(s) && k1 < 7 && k2 < 7
    ensures var r := Frame(s, inputTick, fallTick, keys, k1, k2);
      Consistent(r.2) && forall row | 0 <= row < TotalHeight :: !RowFull(r.2.board, row)
  {
    var (i, s1) := InputStep(s, CountDown(inputTick), InputLimit, keys, k1);
    InputStepConsistent(s, CountDown(inputTick), InputLimit, keys, k1);
    AutoStepConsistent(s1, CountDown(fallTick), FallLimit, k2);
    var (f, s2) := AutoStep(s1, CountDown(fallTick), FallLimit, k2);
    ClearedLinesNoFullRow(s2.board, 0);
  }

  /** handleInput without the hold key never changes the locked cells of a
      game whose falling piece is not I. */
  lemma InputStepKeepsLocked(s: State, tick: real, limit: real, keys: Keys, k: nat)
    requires Consistent(s) && k < 7 && s.current.value != Straight && !keys.hold
    ensures Locked(InputStep(s, tick, limit, keys, k).1) == Locked(s)
  {
    if tick <= 0.0 {
      var p := s.current;
      var c := Locked(s);
      EraseStamp(s.board, p, Empty);
      if keys.rotateLeft && !LeftRotationBlocked(c, p) {
        RotationKeepsLocked(c, p);
        EraseStamp(c, Rotated(p), p.value);
      } else {
        QueryKeeps(s, p);
        var s1 := if keys.rotateLeft then Query(s) else s;
        MoveKeysKeeps(s1, tick, limit, keys);
      }
    }
  }
}
