/** Data model of the falling-block game: positions, pieces, boards and the
    game-state snapshot that every transition replaces wholesale. */
module Types {

  /** The conventional Some/None datatype, used where the source has `T | null`. */
  datatype Option<+T> = None | Some(value: T) {
    function GetOr(default: T): T {
      match this
      case Some(v) => v
      case None => default
    }
  }

  /** An opaque colour token such as "#00f5ff"; only its presence matters to the rules. */
  type Color = string

  /** A board cell: empty (`null` in the source) or the colour of a locked piece. */
  type Cell = Option<Color>

  type Row = seq<Cell>

  /** Rows from top (index 0) to bottom. */
  type Board = seq<Row>

  /** An occupancy matrix; the source's 0/1 entries become booleans. */
  type Shape = seq<seq<bool>>

  /** A grid position; `x` is the column, `y` the row, both signed. */
  datatype Position = Position(x: int, y: int)

  /** An entry of the shape table. */
  datatype Template = Template(shape: Shape, color: Color)

  /** A falling piece: its shape, its colour and the board position of its top-left corner. */
  datatype Piece = Piece(shape: Shape, color: Color, position: Position)

  /** The whole snapshot the game hook keeps. */
  datatype GameState = GameState(
    board: Board,
    currentPiece: Option<Piece>,
    nextPiece: Option<Piece>,
    score: int,
    level: int,
    lines: int,
    isPlaying: bool,
    isPaused: bool,
    isGameOver: bool
  )

  /** Shape cell (dy, dx) exists and is filled. */
  predicate Filled(shape: Shape, dy: int, dx: int) {
    0 <= dy < |shape| && 0 <= dx < |shape[dy]| && shape[dy][dx]
  }

  /** The shape has at least one filled cell. */
  ghost predicate HasFilledCell(shape: Shape) {
    exists dy, dx :: Filled(shape, dy, dx)
  }

  /** The shape is a rows-by-cols matrix. */
  predicate IsRect(shape: Shape, rows: nat, cols: nat) {
    |shape| == rows && forall dy :: 0 <= dy < rows ==> |shape[dy]| == cols
  }

  /** The shapes the game ever holds: square, at most 4 wide, with a filled cell. */
  ghost predicate WellShaped(shape: Shape) {
    && 1 <= |shape| <= 4
    && IsRect(shape, |shape|, |shape|)
    && HasFilledCell(shape)
  }
}
