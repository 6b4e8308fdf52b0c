/** The pure rules on a 10-by-20 board: board creation, the move validator,
    rotation, locking a piece, line clearing and the scoring policy. */
module GameLogic {
  import opened Types
  import Tetrominoes

  const BoardWidth: nat := 10
  const BoardHeight: nat := 20

  /** A board of the game's dimensions: 20 rows of 10 cells. */
  predicate IsBoard(b: Board) {
    |b| == BoardHeight && forall y :: 0 <= y < |b| ==> |b[y]| == BoardWidth
  }

  /** A row with no occupied cell. */
  function EmptyRow(): (r: Row)
    ensures |r| == BoardWidth && !Full(r)
    ensures forall x :: 0 <= x < |r| ==> r[x] == None
  {
    var r := seq(BoardWidth, _ => None);
    assert r[0] == None;
    r
  }

  /** Every cell of the board is empty. */
  predicate IsEmptyBoard(b: Board) {
    IsBoard(b) && forall y, x :: 0 <= y < |b| && 0 <= x < |b[y]| ==> b[y][x] == None
  }

  // ---------------------------------------------------------------------------
  // Board creation

  function CreateEmptyBoard(): (b: Board)
    ensures IsEmptyBoard(b)
  {
    seq(BoardHeight, _ => EmptyRow())
  }

  // ---------------------------------------------------------------------------
  // Move validation

  /** The validator treats a cell as occupied when it is truthy: a colour that
      is not the empty string. */
  predicate Occupied(c: Cell) {
    c.Some? && c.value != ""
  }

  /** A single shape cell may sit at column `x`, row `y`: inside the side walls,
      above the floor, and on an unoccupied cell unless it is above the board's
      top. */
  predicate Allowed(board: Board, x: int, y: int)
    requires IsBoard(board)
  {
    0 <= x < BoardWidth && y < BoardHeight && (y >= 0 ==> !Occupied(board[y][x]))
  }

  /** Reference meaning of a valid move: every filled cell of `shape`, placed with
      its top-left corner at `pos`, is allowed. */
  ghost predicate Fits(board: Board, shape: Shape, pos: Position)
    requires IsBoard(board)
  {
    forall dy, dx :: Filled(shape, dy, dx) ==> Allowed(board, pos.x + dx, pos.y + dy)
  }

  /** Scans row `y` of the shape from column `x` on, stopping at the first
      filled cell that is not allowed. */
  function CellsValid(board: Board, shape: Shape, pos: Position, y: nat, x: nat): (r: bool)
    requires IsBoard(board)
    requires y < |shape| && x <= |shape[y]|
    ensures r <==> forall dx :: x <= dx && Filled(shape, y, dx) ==> Allowed(board, pos.x + dx, pos.y + y)
    decreases |shape[y]| - x
  {
    if x == |shape[y]| then true
    else
      assert shape[y][x] == Filled(shape, y, x);
      (!shape[y][x] || Allowed(board, pos.x + x, pos.y + y)) && CellsValid(board, shape, pos, y, x + 1)
  }

  /** Scans the shape's rows from row `y` on. */
  function RowsValid(board: Board, shape: Shape, pos: Position, y: nat): (r: bool)
    requires IsBoard(board)
    requires y <= |shape|
    ensures r <==> forall dy, dx :: y <= dy && Filled(shape, dy, dx) ==> Allowed(board, pos.x + dx, pos.y + dy)
    decreases |shape| - y
  {
    if y == |shape| then true
    else CellsValid(board, shape, pos, y, 0) && RowsValid(board, shape, pos, y + 1)
  }

  /** Whether `piece`'s shape may stand at `newPosition`: false exactly when some
      filled cell lands left of column 0, right of column 9, below row 19, or on
      an occupied cell of a visible row. Cells above row 0 are only checked
      against the side walls. */
  function IsValidMove(board: Board, piece: Piece, newPosition: Position): (r: bool)
    requires IsBoard(board)
    ensures r <==> Fits(board, piece.shape, newPosition)
  {
    RowsValid(board, piece.shape, newPosition, 0)
  }

  /** Every filled cell at `pos` that lands on a visible row (row 0 or below)
      is inside the side walls and above the floor; cells above the top are not
      constrained, since placing skips them. What placing a piece needs. */
  ghost predicate InFrame(shape: Shape, pos: Position) {
    forall dy, dx :: Filled(shape, dy, dx) && pos.y + dy >= 0 ==>
      0 <= pos.x + dx < BoardWidth && pos.y + dy < BoardHeight
  }

  lemma FitsIsInFrame(board: Board, shape: Shape, pos: Position)
    requires IsBoard(board)
    requires Fits(board, shape, pos)
    ensures InFrame(shape, pos)
  {
  }

  /** A position where a shape with a filled cell fits is above the floor. */
  lemma FitsIsAboveFloor(board: Board, shape: Shape, pos: Position)
    requires IsBoard(board)
    requires HasFilledCell(shape)
    requires Fits(board, shape, pos)
    ensures pos.y < BoardHeight
  {
    var dy, dx :| Filled(shape, dy, dx);
    assert Allowed(board, pos.x + dx, pos.y + dy);
  }

  // ---------------------------------------------------------------------------
  // Rotation

  /** Reads entry `i` of a shape row; an entry past the row's end reads as
      empty, as `undefined` does in the source. */
  function Entry(row: seq<bool>, i: int): bool {
    0 <= i < |row| && row[i]
  }

  /** Column `i` of a shape, from the top row down. */
  function Column(shape: Shape, i: nat): (c: seq<bool>)
    ensures |c| == |shape|
    ensures forall j :: 0 <= j < |shape| ==> c[j] == Entry(shape[j], i)
  {
    seq(|shape|, j requires 0 <= j < |shape| => Entry(shape[j], i))
  }

  function Reverse<T>(s: seq<T>): (r: seq<T>)
    ensures |r| == |s|
    ensures forall k :: 0 <= k < |s| ==> r[k] == s[|s| - 1 - k]
  {
    if |s| == 0 then [] else Reverse(s[1..]) + [s[0]]
  }

  /** Rotates the shape 90 degrees clockwise: row `i` of the result is column `i`
      of the original read bottom-up. Colour and position are kept. The source
      reads the width from the first row, so the shape must have one. */
  function RotatePiece(piece: Piece): (r: Piece)
    requires |piece.shape| > 0
    ensures r.color == piece.color && r.position == piece.position
    ensures |r.shape| == |piece.shape[0]|
    ensures forall i :: 0 <= i < |r.shape| ==> |r.shape[i]| == |piece.shape|
    ensures forall i, j :: 0 <= i < |r.shape| && 0 <= j < |piece.shape| ==>
      r.shape[i][j] == Entry(piece.shape[|piece.shape| - 1 - j], i)
  {
    var shape := piece.shape;
    piece.(shape := seq(|shape[0]|, i requires 0 <= i < |shape[0]| => Reverse(Column(shape, i))))
  }

  /** `a` is `b` turned upside down and mirrored. */
  ghost predicate HalfTurn(a: Shape, b: Shape, rows: nat, cols: nat)
    requires IsRect(a, rows, cols) && IsRect(b, rows, cols)
  {
    forall i, j :: 0 <= i < rows && 0 <= j < cols ==> a[i][j] == b[rows - 1 - i][cols - 1 - j]
  }

  /** Rotating a rows-by-cols shape gives a cols-by-rows shape whose cell
      (i, j) is the original's cell (rows-1-j, i). */
  lemma RotateRect(piece: Piece, rows: nat, cols: nat)
    requires rows > 0 && IsRect(piece.shape, rows, cols)
    ensures var r := RotatePiece(piece).shape;
      && IsRect(r, cols, rows)
      && forall i, j :: 0 <= i < cols && 0 <= j < rows ==> r[i][j] == piece.shape[rows - 1 - j][i]
  {
  }

  /** Two rotations turn a rectangular shape upside down and mirror it. */
  lemma RotateTwice(piece: Piece, rows: nat, cols: nat)
    requires rows > 0 && cols > 0
    requires IsRect(piece.shape, rows, cols)
    ensures var r := RotatePiece(RotatePiece(piece));
      && r.color == piece.color && r.position == piece.position
      && IsRect(r.shape, rows, cols)
      && HalfTurn(r.shape, piece.shape, rows, cols)
  {
    var r1 := RotatePiece(piece);
    RotateRect(piece, rows, cols);
    var r2 := RotatePiece(r1);
    RotateRect(r1, cols, rows);
    forall i, j | 0 <= i < rows && 0 <= j < cols
      ensures r2.shape[i][j] == piece.shape[rows - 1 - i][cols - 1 - j]
    {
      assert r2.shape[i][j] == r1.shape[cols - 1 - j][i];
    }
  }

  /** Two half turns give back the shape. */
  lemma HalfTurnTwice(a: Shape, b: Shape, c: Shape, rows: nat, cols: nat)
    requires IsRect(a, rows, cols) && IsRect(b, rows, cols) && IsRect(c, rows, cols)
    requires HalfTurn(a, b, rows, cols) && HalfTurn(b, c, rows, cols)
    ensures a == c
  {
    forall i | 0 <= i < rows
      ensures a[i] == c[i]
    {
      forall j | 0 <= j < cols
        ensures a[i][j] == c[i][j]
      {
        assert a[i][j] == b[rows - 1 - i][cols - 1 - j];
      }
    }
  }

  /** Four clockwise rotations give back the original rectangular piece. */
  lemma RotateFourTimes(piece: Piece, rows: nat, cols: nat)
    requires rows > 0 && cols > 0
    requires IsRect(piece.shape, rows, cols)
    ensures RotatePiece(RotatePiece(RotatePiece(RotatePiece(piece)))) == piece
  {
    RotateTwice(piece, rows, cols);
    var r2 := RotatePiece(RotatePiece(piece));
    RotateTwice(r2, rows, cols);
    var r4 := RotatePiece(RotatePiece(r2));
    HalfTurnTwice(r4.shape, r2.shape, piece.shape, rows, cols);
  }

  /** Rotation keeps a square shape square of the same size and keeps its filled
      cells: cell (dy, dx) moves to (dx, n-1-dy). */
  lemma RotateKeepsWellShaped(piece: Piece)
    requires WellShaped(piece.shape)
    ensures WellShaped(RotatePiece(piece).shape)
    ensures |RotatePiece(piece).shape| == |piece.shape|
  {
    var s := piece.shape;
    var n := |s|;
    var r := RotatePiece(piece).shape;
    var dy, dx :| Filled(s, dy, dx);
    assert r[dx][n - 1 - dy] == Entry(s[dy], dx);
    assert Filled(r, dx, n - 1 - dy);
  }

  // ---------------------------------------------------------------------------
  // Locking a piece into the board

  /** The board cell at row `y`, column `x` is covered by a filled cell of `piece`. */
  predicate Covers(piece: Piece, y: int, x: int) {
    Filled(piece.shape, y - piece.position.y, x - piece.position.x)
  }

  /** Writes one colour into one board cell. */
  function Write(b: Board, y: nat, x: nat, c: Color): (r: Board)
    requires IsBoard(b) && y < BoardHeight && x < BoardWidth
    ensures IsBoard(r)
    ensures forall i, j :: 0 <= i < BoardHeight && 0 <= j < BoardWidth ==>
      r[i][j] == if i == y && j == x then Some(c) else b[i][j]
  {
    b[y := b[y][x := Some(c)]]
  }

  /** Writes the piece's colour under the filled cells of shape row `dy`, from
      column `dx` on, skipping cells above the board's top. */
  function PlaceRow(b: Board, piece: Piece, dy: nat, dx: nat): (r: Board)
    requires IsBoard(b) && InFrame(piece.shape, piece.position)
    requires dy < |piece.shape| && dx <= |piece.shape[dy]|
    ensures IsBoard(r)
    ensures forall y, x :: 0 <= y < BoardHeight && 0 <= x < BoardWidth ==>
      r[y][x] == if y - piece.position.y == dy && dx <= x - piece.position.x && Covers(piece, y, x)
                 then Some(piece.color) else b[y][x]
    decreases |piece.shape[dy]| - dx
  {
    if dx == |piece.shape[dy]| then b
    else
      var y := piece.position.y + dy;
      var x := piece.position.x + dx;
      var b' := if piece.shape[dy][dx] && y >= 0 then assert Filled(piece.shape, dy, dx); Write(b, y, x, piece.color) else b;
      PlaceRow(b', piece, dy, dx + 1)
  }

  /** Places shape rows `dy` onwards. */
  function PlaceRows(b: Board, piece: Piece, dy: nat): (r: Board)
    requires IsBoard(b) && InFrame(piece.shape, piece.position)
    requires dy <= |piece.shape|
    ensures IsBoard(r)
    ensures forall y, x :: 0 <= y < BoardHeight && 0 <= x < BoardWidth ==>
      r[y][x] == if dy <= y - piece.position.y && Covers(piece, y, x) then Some(piece.color) else b[y][x]
    decreases |piece.shape| - dy
  {
    if dy == |piece.shape| then b
    else PlaceRows(PlaceRow(b, piece, dy, 0), piece, dy + 1)
  }

  /** Locks `piece` into a copy of the board: every visible cell under a filled
      shape cell takes the piece's colour, every other cell is unchanged, and
      filled cells above the top row are dropped. The source would index past the
      bottom row, or outside a row, for a piece that is not in frame. */
  function PlacePiece(board: Board, piece: Piece): (r: Board)
    requires IsBoard(board) && InFrame(piece.shape, piece.position)
    ensures IsBoard(r)
    ensures forall y, x :: 0 <= y < BoardHeight && 0 <= x < BoardWidth && Covers(piece, y, x) ==>
      r[y][x] == Some(piece.color)
    ensures forall y, x :: 0 <= y < BoardHeight && 0 <= x < BoardWidth && !Covers(piece, y, x) ==>
      r[y][x] == board[y][x]
  {
    PlaceRows(board, piece, 0)
  }

  // ---------------------------------------------------------------------------
  // Line clearing

  /** Every cell of the row holds a colour. The clearing test compares against
      "no cell", not truthiness, so an empty-string colour counts. */
  predicate Full(row: Row) {
    forall x :: 0 <= x < |row| ==> row[x].Some?
  }

  /** The source's short-circuit `every` scan from cell `i` on: it stops at the
      first empty cell, and is true exactly when the row from `i` on is full. */
  function EveryCellSet(row: Row, i: nat): (r: bool)
    requires i <= |row|
    ensures r <==> Full(row[i..])
    decreases |row| - i
  {
    if i == |row| then true
    else row[i] != None && EveryCellSet(row, i + 1)
  }

  predicate NoFullRows(rows: seq<Row>) {
    forall y :: 0 <= y < |rows| ==> !Full(rows[y])
  }

  /** The number of full rows. */
  function FullCount(rows: seq<Row>): (n: nat)
    ensures n <= |rows|
  {
    if |rows| == 0 then 0
    else FullCount(rows[..|rows| - 1]) + (if Full(rows[|rows| - 1]) then 1 else 0)
  }

  /** The rows that are not full, in their original order. */
  function NonFull(rows: seq<Row>): (r: seq<Row>)
    ensures |r| + FullCount(rows) == |rows|
    ensures forall i :: 0 <= i < |r| ==> !Full(r[i])
  {
    if |rows| == 0 then []
    else NonFull(rows[..|rows| - 1]) + (if Full(rows[|rows| - 1]) then [] else [rows[|rows| - 1]])
  }

  /** The rows that survive the filter are rows of the input. */
  lemma {:induction false} NonFullFromInput(rows: seq<Row>)
    ensures forall i :: 0 <= i < |NonFull(rows)| ==> NonFull(rows)[i] in rows
  {
    if |rows| > 0 {
      var init := rows[..|rows| - 1];
      NonFullFromInput(init);
      var r := NonFull(rows);
      forall i | 0 <= i < |r|
        ensures r[i] in rows
      {
        if i < |NonFull(init)| {
          assert r[i] == NonFull(init)[i];
          var j :| 0 <= j < |init| && init[j] == r[i];
          assert rows[j] == r[i];
        } else {
          assert r[i] == rows[|rows| - 1];
        }
      }
    }
  }

  /** `k` empty rows. */
  function Empties(k: nat): (r: seq<Row>)
    ensures |r| == k
    ensures forall i :: 0 <= i < k ==> r[i] == EmptyRow()
  {
    seq(k, i => EmptyRow())
  }

  lemma {:induction false} FullCountCons(r: Row, rows: seq<Row>)
    ensures FullCount([r] + rows) == (if Full(r) then 1 else 0) + FullCount(rows)
    ensures NonFull([r] + rows) == (if Full(r) then [] else [r]) + NonFull(rows)
    decreases |rows|
  {
    if |rows| > 0 {
      var s := [r] + rows;
      assert s[..|s| - 1] == [r] + rows[..|rows| - 1];
      assert s[|s| - 1] == rows[|rows| - 1];
      FullCountCons(r, rows[..|rows| - 1]);
      assert NonFull(s) == NonFull(s[..|s| - 1]) + (if Full(s[|s| - 1]) then [] else [s[|s| - 1]]);
    } else {
      assert [r] + rows == [r];
      assert [r][..0] == [];
    }
  }

  /** The rows down to `y` after compaction, followed by the rows below `y`. */
  function Compacted(b: seq<Row>, y: int): seq<Row>
    requires -1 <= y < |b|
  {
    Empties(FullCount(b[..y + 1])) + NonFull(b[..y + 1]) + b[y + 1..]
  }

  /** One more empty row on the bottom of a block of empty rows. */
  lemma EmptiesSnoc(k: nat)
    ensures Empties(k) + [EmptyRow()] == Empties(k + 1)
  {
  }

  /** Counting and filtering the rows down to `y` extend those down to `y - 1`
      by row `y`. */
  lemma {:induction false} ExtendTop(b: seq<Row>, y: nat)
    requires y < |b|
    ensures FullCount(b[..y + 1]) == FullCount(b[..y]) + (if Full(b[y]) then 1 else 0)
    ensures NonFull(b[..y + 1]) == NonFull(b[..y]) + (if Full(b[y]) then [] else [b[y]])
  {
    var top := b[..y + 1];
    assert top[..|top| - 1] == b[..y];
    assert top[|top| - 1] == b[y];
  }

  /** Slicing a spliced sequence at the splice point. */
  lemma SpliceParts<T>(e: T, above: seq<T>, below: seq<T>)
    ensures ([e] + above + below)[..|above| + 1] == [e] + above
    ensures ([e] + above + below)[|above| + 1..] == below
  {
  }

  /** Splicing out a full row `y` and putting an empty row on top leaves one
      full row fewer down to `y` and the same compacted form. */
  lemma SpliceFullRow(b: seq<Row>, y: nat)
    requires y < |b| && Full(b[y])
    ensures var b' := [EmptyRow()] + b[..y] + b[y + 1..];
      && |b'| == |b|
      && FullCount(b'[..y + 1]) + 1 == FullCount(b[..y + 1])
      && Compacted(b', y) == Compacted(b, y)
  {
    var e := EmptyRow();
    var above, below := b[..y], b[y + 1..];
    var b' := [e] + above + below;
    SpliceParts(e, above, below);
    FullCountCons(e, above);
    ExtendTop(b, y);
    var k, rest := FullCount(above), NonFull(above);
    EmptiesSnoc(k);
    calc {
      Compacted(b', y);
      Empties(k) + ([e] + rest) + below;
      { assert Empties(k) + ([e] + rest) == (Empties(k) + [e]) + rest; }
      Empties(k + 1) + rest + below;
      Compacted(b, y);
    }
  }

  /** Passing over a row that is not full keeps the compacted form. */
  lemma SkipRow(b: seq<Row>, y: nat)
    requires y < |b| && !Full(b[y])
    ensures FullCount(b[..y]) == FullCount(b[..y + 1])
    ensures Compacted(b, y - 1) == Compacted(b, y)
  {
    assert b[..y + 1][..y] == b[..y];
    assert b[y..] == [b[y]] + b[y + 1..];
  }

  /** The scan of the source's clearing loop, from row `y` upwards: a full row at
      `y` is spliced out, an empty row is put on top and row `y` is checked
      again; otherwise the scan moves one row up. The result compacts the rows
      down to `y`: their full rows become empty rows on top, the others follow
      in order, and the rows below `y` are untouched. */
  function Scan(b: seq<Row>, y: int, cleared: nat): (r: (seq<Row>, nat))
    requires -1 <= y < |b|
    ensures r.0 == Compacted(b, y)
    ensures r.1 == cleared + FullCount(b[..y + 1])
    decreases y + 1, FullCount(b[..y + 1])
  {
    if y < 0 then
      assert b[..0] == [] && b[0..] == b;
      (b, cleared)
    else if (assert b[y][0..] == b[y]; EveryCellSet(b[y], 0)) then
      SpliceFullRow(b, y);
      Scan([EmptyRow()] + b[..y] + b[y + 1..], y, cleared + 1)
    else
      SkipRow(b, y);
      Scan(b, y - 1, cleared)
  }

  /** Removes every full row: the result has the full rows' count of empty rows
      on top, then the input's other rows in their original order, so it is a
      board again with no full row; the count is the number of full input rows. */
  function ClearLines(board: Board): (r: (Board, nat))
    requires IsBoard(board)
    ensures r.1 == FullCount(board)
    ensures r.0 == Empties(r.1) + NonFull(board)
    ensures IsBoard(r.0)
    ensures NoFullRows(r.0)
  {
    var r := Scan(board, BoardHeight - 1, 0);
    assert board[..BoardHeight] == board;
    var rows := r.0;
    NonFullFromInput(board);
    assert forall y :: 0 <= y < |rows| ==> rows[y] == EmptyRow() || rows[y] in board;
    r
  }

  /** Clearing a board without full rows changes nothing, so clearing is idempotent. */
  lemma {:induction false} NoFullRowsCompact(rows: seq<Row>)
    requires NoFullRows(rows)
    ensures FullCount(rows) == 0 && NonFull(rows) == rows
    decreases |rows|
  {
    if |rows| > 0 {
      NoFullRowsCompact(rows[..|rows| - 1]);
      assert rows[..|rows| - 1] + [rows[|rows| - 1]] == rows;
    }
  }

  lemma ClearLinesIdempotent(board: Board)
    requires IsBoard(board)
    ensures ClearLines(ClearLines(board).0) == (ClearLines(board).0, 0)
  {
    var once := ClearLines(board).0;
    NoFullRowsCompact(once);
    assert Empties(0) + NonFull(once) == once;
  }

  /** Rows that are full are the only ones counted; if they all lie in
      `lo..hi-1`, there are at most as many as that range holds below `|rows|`. */
  lemma {:induction false} FullCountWithin(rows: seq<Row>, lo: nat, hi: nat)
    requires lo <= hi
    requires forall i :: 0 <= i < |rows| && Full(rows[i]) ==> lo <= i < hi
    ensures FullCount(rows) <= if |rows| <= lo then 0 else if |rows| <= hi then |rows| - lo else hi - lo
    decreases |rows|
  {
    if |rows| > 0 {
      var init := rows[..|rows| - 1];
      assert forall i :: 0 <= i < |init| ==> init[i] == rows[i];
      FullCountWithin(init, lo, hi);
    }
  }

  /** Rows of the board that the piece's shape does not span are left as they were. */
  lemma PlaceKeepsOtherRows(board: Board, piece: Piece)
    requires IsBoard(board) && InFrame(piece.shape, piece.position)
    ensures var placed := PlacePiece(board, piece);
      forall y :: 0 <= y < BoardHeight && !(piece.position.y <= y < piece.position.y + |piece.shape|) ==>
        placed[y] == board[y]
  {
    var placed := PlacePiece(board, piece);
    forall y | 0 <= y < BoardHeight && !(piece.position.y <= y < piece.position.y + |piece.shape|)
      ensures placed[y] == board[y]
    {
      assert forall x :: 0 <= x < BoardWidth ==> placed[y][x] == board[y][x];
    }
  }

  /** Locking a piece of at most four rows into a board without full rows
      completes at most four rows, so the score table is never indexed past
      its end. */
  lemma LockClearsAtMostFour(board: Board, piece: Piece)
    requires IsBoard(board) && NoFullRows(board)
    requires InFrame(piece.shape, piece.position) && |piece.shape| <= 4
    ensures ClearLines(PlacePiece(board, piece)).1 <= |piece.shape| <= 4
  {
    var placed := PlacePiece(board, piece);
    PlaceKeepsOtherRows(board, piece);
    var top := piece.position.y;
    var lo: nat := if top < 0 then 0 else top;
    var hi: nat := if top + |piece.shape| < lo then lo else top + |piece.shape|;
    FullCountWithin(placed, lo, hi);
  }

  /** A shape of at most four rows and columns spawned at column 3, row 0 fits
      on the empty board. */
  lemma SmallShapeFitsAtSpawn(board: Board, shape: Shape)
    requires IsEmptyBoard(board)
    requires |shape| <= 4 && forall dy :: 0 <= dy < |shape| ==> |shape[dy]| <= 4
    ensures Fits(board, shape, Tetrominoes.SpawnPosition)
  {
  }

  /** Every freshly spawned piece is valid on the empty board. */
  lemma SpawnFitsEmptyBoard(index: nat)
    requires index < 7
    ensures var p := Tetrominoes.GetTetromino(index);
      IsValidMove(CreateEmptyBoard(), p, p.position)
  {
    Tetrominoes.SpawnedPiecesAreWellShaped(index);
    SmallShapeFitsAtSpawn(CreateEmptyBoard(), Tetrominoes.GetTetromino(index).shape);
  }

  // ---------------------------------------------------------------------------
  // Scoring and levels

  /** Points per number of lines cleared at once, before the level multiplier. */
  const BaseScore: seq<int> := [0, 40, 100, 300, 1200]

  /** Score for clearing `linesCleared` lines at `level`. The source indexes a
      five-entry table, so at most four lines can be scored at once. */
  function CalculateScore(linesCleared: int, level: int): (r: int)
    requires 0 <= linesCleared <= 4
    ensures level >= 0 ==> r >= 0
    ensures linesCleared == 0 ==> r == 0
    ensures level >= 0 ==> (r == 0 <==> linesCleared == 0)
    ensures level >= 0 && linesCleared > 0 ==> r >= 40 * (level + 1)
  {
    BaseScore[linesCleared] * (level + 1)
  }

  /** Clearing more lines, or the same lines at a higher level, never scores less. */
  lemma ScoreMonotone(l1: int, l2: int, lvl1: int, lvl2: int)
    requires 0 <= l1 <= l2 <= 4 && 0 <= lvl1 <= lvl2
    ensures CalculateScore(l1, lvl1) <= CalculateScore(l2, lvl2)
  {
    var b1, b2 := BaseScore[l1], BaseScore[l2];
    assert 0 <= b1 <= b2;
    assert b1 * (lvl1 + 1) <= b2 * (lvl1 + 1);
    assert b2 * (lvl1 + 1) <= b2 * (lvl2 + 1);
  }

  /** Three values of the scoring table. */
  lemma ScoreExamples()
    ensures CalculateScore(1, 0) == 40 && CalculateScore(4, 0) == 1200 && CalculateScore(2, 2) == 300
  {
  }

  /** The level for a total line count: the count divided by ten, rounded down. */
  function CalculateLevel(lines: int): (r: int)
    ensures 10 * r <= lines < 10 * r + 10
  {
    lines / 10
  }

  lemma LevelMonotone(a: int, b: int)
    requires a <= b
    ensures CalculateLevel(a) <= CalculateLevel(b)
  {
  }

  /** Milliseconds between automatic drops: 1000 at level 0, 50 less per level,
      never below 50. */
  function CalculateDropTime(level: int): (r: int)
    ensures r >= 50 && r >= 1000 - level * 50
    ensures r == 50 || r == 1000 - level * 50
  {
    if 1000 - level * 50 > 50 then 1000 - level * 50 else 50
  }

  lemma DropTimeNonIncreasing(a: int, b: int)
    requires a <= b
    ensures CalculateDropTime(b) <= CalculateDropTime(a)
  {
  }

  // ---------------------------------------------------------------------------
  // A fresh game

  /** A fresh, not yet started game; the two indices stand for the source's two
      random draws, current piece first. */
  function InitializeGame(first: nat, second: nat): (s: GameState)
    requires first < 7 && second < 7
    ensures IsEmptyBoard(s.board)
    ensures s.currentPiece == Some(Tetrominoes.GetTetromino(first))
    ensures s.nextPiece == Some(Tetrominoes.GetTetromino(second))
    ensures s.score == 0 && s.level == 0 && s.lines == 0
    ensures !s.isPlaying && !s.isPaused && !s.isGameOver
  {
    GameState(
      board := CreateEmptyBoard(),
      currentPiece := Some(Tetrominoes.GetTetromino(first)),
      nextPiece := Some(Tetrominoes.GetTetromino(second)),
      score := 0,
      level := 0,
      lines := 0,
      isPlaying := false,
      isPaused := false,
      isGameOver := false
    )
  }
}
