/** Tetrominoes: the seven shapes, the piece record (anchor index, value,
    mask) and the queue of upcoming pieces. */
module Pieces {
  import opened Wrappers
  import opened Masks
  import opened Playfield

  const StraightTiles: Mask := [false, false, false, false, true, true, true, true,
                                false, false, false, false, false, false, false, false]
  const SquareTiles: Mask := [false, false, false, false, false, true, true, false,
                              false, true, true, false, false, false, false, false]
  const TTiles: Mask := [false, true, false, false, true, true, true, false,
                         false, false, false, false, false, false, false, false]
  const LTiles: Mask := [false, false, true, false, true, true, true, false,
                         false, false, false, false, false, false, false, false]
  const JTiles: Mask := [true, false, false, false, true, true, true, false,
                         false, false, false, false, false, false, false, false]
  const STiles: Mask := [false, true, true, false, true, true, false, false,
                         false, false, false, false, false, false, false, false]
  const ZTiles: Mask := [true, true, false, false, false, true, true, false,
                         false, false, false, false, false, false, false, false]

  /** A tetromino: the flat grid index of its mask's top-left cell, the value
      its cells are stamped with, and its current (possibly rotated) mask. */
  datatype Piece = Piece(index: int, value: GridValue, tiles: Mask)

  /** The seven values a piece can carry (STRAIGHT..Z). */
  predicate IsPieceValue(v: GridValue)
  {
    v != Empty && v != Current
  }

  /** The spawn mask of each piece kind. */
  function MaskOf(v: GridValue): Mask
    requires IsPieceValue(v)
  {
    match v
    case Straight => StraightTiles
    case Square => SquareTiles
    case T => TTiles
    case L => LTiles
    case J => JTiles
    case S => STiles
    case Z => ZTiles
  }

  /** Every shape has four tiles, and every shape but I's fits the 3x3
      block that rotateMatrix turns. */
  lemma CatalogShapes(v: GridValue)
    requires IsPieceValue(v)
    ensures TileCount(MaskOf(v)) == 4
    ensures v != Straight ==> Confined(MaskOf(v))
  {
    match v
    case Straight => assert TileCount(StraightTiles) == 4;
    case Square => assert TileCount(SquareTiles) == 4;
    case T => assert TileCount(TTiles) == 4;
    case L => assert TileCount(LTiles) == 4;
    case J => assert TileCount(JTiles) == 4;
    case S => assert TileCount(STiles) == 4;
    case Z => assert TileCount(ZTiles) == 4;
  }

  /** What every piece of the game satisfies: a piece value, four tiles, a
      mask confined to rows and columns 0..2 for every kind but I, and an
      anchor strictly between -size and size (every move reduces it with
      JavaScript's `%`). */
  predicate WellFormed(p: Piece)
  {
    && IsPieceValue(p.value)
    && TileCount(p.tiles) == 4
    && (p.value != Straight ==> Confined(p.tiles))
    && -(Size as int) < p.index < Size
  }

  /** GridValue by its enum number (EMPTY = 0, ..., Z = 8). */
  function ValueOfCode(code: int): GridValue
  {
    match code
    case 0 => Empty
    case 1 => Current
    case 2 => Straight
    case 3 => Square
    case 4 => T
    case 5 => L
    case 6 => J
    case 7 => S
    case _ => Z
  }

  /** One draw of `Math.floor(Math.random() * 7)`. */
  type Draw = k: nat | k < 7

  /** randomTetromino with the draw of `Math.random` given as `k`: the value
      is enum number k + 2, the mask is picked by a switch on that number. */
  function RandomPiece(k: nat): (p: Piece)
    requires k < 7
    ensures p.index == 0 && p.value == ValueOfCode(k + 2) && IsPieceValue(p.value)
    ensures p.tiles == MaskOf(p.value)
  {
    var randomValue := k + 2;
    var randomTiles := match randomValue
      case 2 => StraightTiles
      case 3 => SquareTiles
      case 4 => TTiles
      case 5 => LTiles
      case 6 => JTiles
      case 7 => STiles
      case _ => ZTiles;
    Piece(0, ValueOfCode(randomValue), randomTiles)
  }

  /** Every drawn piece is well formed. */
  lemma RandomPieceWellFormed(k: nat)
    requires k < 7
    ensures WellFormed(RandomPiece(k))
  {
    CatalogShapes(RandomPiece(k).value);
  }

  /** The draw that yields a piece kind. */
  function DrawOf(v: GridValue): int
  {
    match v
    case Straight => 0
    case Square => 1
    case T => 2
    case L => 3
    case J => 4
    case S => 5
    case Z => 6
    case _ => -1
  }

  /** Every piece kind is drawn by exactly one value of the oracle. */
  lemma RandomPieceKinds(v: GridValue)
    requires IsPieceValue(v)
    ensures exists k :: 0 <= k < 7 && RandomPiece(k).value == v
    ensures forall k1, k2 | 0 <= k1 < 7 && 0 <= k2 < 7 ::
      RandomPiece(k1).value == RandomPiece(k2).value ==> k1 == k2
  {
    forall k | 0 <= k < 7 ensures DrawOf(RandomPiece(k).value) == k {
      assert DrawOf(ValueOfCode(k + 2)) == k;
    }
    var k := DrawOf(v);
    assert RandomPiece(k).value == v;
  }

  /** Shifting the front off a queue of well-formed pieces and pushing a
      fresh one keeps every piece well formed. */
  lemma ShiftedWellFormed(items: seq<Piece>, k: nat)
    requires k < 7 && |items| > 0
    requires forall i | 0 <= i < |items| :: WellFormed(items[i])
    ensures forall i | 0 <= i < |items| :: WellFormed((items[1..] + [RandomPiece(k)])[i])
  {
    var shifted := items[1..] + [RandomPiece(k)];
    RandomPieceWellFormed(k);
    forall i | 0 <= i < |items| ensures WellFormed(shifted[i]) {
      if i < |items| - 1 {
        assert shifted[i] == items[i + 1];
      }
    }
  }

  /** The length of the preview queue the game creates. */
  const QueueLength: nat := 5

  /** TetrominoQueue: the upcoming pieces, front first. */
  class PieceQueue {
    var items: seq<Piece>

    /** Fills the queue with `size` random pieces, one per draw. */
    constructor (size: nat, draws: seq<Draw>)
      requires |draws| == size
      ensures |items| == size && forall i | 0 <= i < size :: items[i] == RandomPiece(draws[i])
    {
      var queue: seq<Piece> := [];
      for i := 0 to size
        invariant |queue| == i && forall j | 0 <= j < i :: queue[j] == RandomPiece(draws[j])
      {
        queue := queue + [RandomPiece(draws[i])];
      }
      items := queue;
    }

    /** The `next` getter: shifts the front off (undefined on an empty queue)
        and pushes a fresh random piece drawn with `k` onto the tail. */
    method Next(k: nat) returns (front: Option<Piece>)
      requires k < 7
      modifies this
      ensures front == if old(items) == [] then None else Some(old(items)[0])
      ensures items == (if old(items) == [] then [] else old(items)[1..]) + [RandomPiece(k)]
    {
      if items == [] {
        front := None;
      } else {
        front := Some(items[0]);
        items := items[1..];
      }
      items := items + [RandomPiece(k)];
    }
  }
}
