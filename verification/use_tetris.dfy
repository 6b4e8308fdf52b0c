/** The game hook's state transitions: each `setGameState(prev => ...)` body
    as a pure function from the previous snapshot to the next one, together
    with the sounds it asks for. Random draws are index parameters. */
module UseTetris {
  import opened Types
  import opened GameLogic
  import Tetrominoes

  /** The sound cues the hook plays. */
  datatype Sound = MoveSound | RotateSound | DropSound | LineSound | GameOverSound

  /** A transition's result: the next snapshot and the sounds played on the way. */
  datatype Step = Step(state: GameState, sounds: seq<Sound>)

  /** Player and tick commands take effect only with a current piece, while
      playing and not paused. */
  predicate Active(s: GameState) {
    s.currentPiece.Some? && s.isPlaying && !s.isPaused
  }

  /** `pos` moved down by `k` rows. */
  function Below(pos: Position, k: int): Position {
    Position(pos.x, pos.y + k)
  }

  /** `pos` moved sideways by `dx` columns. */
  function Beside(pos: Position, dx: int): Position {
    Position(pos.x + dx, pos.y)
  }

  /** The shared body of moveLeft and moveRight. */
  function Slide(s: GameState, dx: int): Step
    requires Active(s) ==> IsBoard(s.board)
  {
    if !Active(s) then Step(s, [])
    else
      var p := s.currentPiece.value;
      var np := Beside(p.position, dx);
      if IsValidMove(s.board, p, np) then Step(s.(currentPiece := Some(p.(position := np))), [MoveSound])
      else Step(s, [])
  }

  /** Moves the current piece one column left when that position is valid;
      only the piece's column changes, otherwise nothing does. */
  function MoveLeft(s: GameState): (r: Step)
    requires Active(s) ==> IsBoard(s.board)
    ensures r.state == s.(currentPiece := r.state.currentPiece)
    ensures r.state != s <==>
      Active(s) && IsValidMove(s.board, s.currentPiece.value, Beside(s.currentPiece.value.position, -1))
    ensures r.state != s ==>
      var p := s.currentPiece.value;
      r.state.currentPiece == Some(p.(position := Beside(p.position, -1)))
      && r.sounds == [MoveSound]
    ensures r.state == s ==> r.sounds == []
  {
    Slide(s, -1)
  }

  /** Moves the current piece one column right when that position is valid;
      only the piece's column changes, otherwise nothing does. */
  function MoveRight(s: GameState): (r: Step)
    requires Active(s) ==> IsBoard(s.board)
    ensures r.state == s.(currentPiece := r.state.currentPiece)
    ensures r.state != s <==>
      Active(s) && IsValidMove(s.board, s.currentPiece.value, Beside(s.currentPiece.value.position, 1))
    ensures r.state != s ==>
      var p := s.currentPiece.value;
      r.state.currentPiece == Some(p.(position := Beside(p.position, 1)))
      && r.sounds == [MoveSound]
    ensures r.state == s ==> r.sounds == []
  {
    Slide(s, 1)
  }

  /** Rotates the current piece clockwise when the rotated piece is valid at the
      same position; a rotation that collides is rejected outright, with no
      sideways retry. Only the current piece's shape can change. */
  function Rotate(s: GameState): (r: Step)
    requires Active(s) ==> IsBoard(s.board) && |s.currentPiece.value.shape| > 0
    ensures r.state == s.(currentPiece := r.state.currentPiece)
    ensures !Active(s) ==> r == Step(s, [])
    ensures Active(s) ==>
      var p := s.currentPiece.value;
      if IsValidMove(s.board, RotatePiece(p), p.position)
      then r.state.currentPiece == Some(p.(shape := RotatePiece(p).shape)) && r.sounds == [RotateSound]
      else r == Step(s, [])
  {
    if !Active(s) then Step(s, [])
    else
      var rotated := RotatePiece(s.currentPiece.value);
      if IsValidMove(s.board, rotated, rotated.position) then Step(s.(currentPiece := Some(rotated)), [RotateSound])
      else Step(s, [])
  }

  /** A lock may only clear what the score table covers: the board has no full
      row and the shape spans at most four rows. */
  predicate LockSafe(board: Board, shape: Shape) {
    NoFullRows(board) && |shape| <= 4
  }

  /** The piece that follows a lock: the queued one, or draw `fallback` when
      nothing is queued. */
  function NextPiece(s: GameState, fallback: nat): (p: Piece)
    requires fallback < 7
    ensures s.nextPiece.Some? ==> p == s.nextPiece.value
    ensures s.nextPiece.None? ==> p == Tetrominoes.GetTetromino(fallback)
  {
    s.nextPiece.GetOr(Tetrominoes.GetTetromino(fallback))
  }

  /** The landing sequence shared by moveDown and hardDrop: lock `piece` into the
      board, clear full lines, add the line score at the old level plus `bonus`,
      recompute the level, then either promote the queued piece (drawing index
      `refill` as the new queued piece) or, when the queued piece does not fit,
      stop with the game over. A missing queued piece is replaced by draw
      `fallback` first. */
  function Lock(s: GameState, piece: Piece, bonus: int, fallback: nat, refill: nat): (r: Step)
    requires IsBoard(s.board) && LockSafe(s.board, piece.shape) && InFrame(piece.shape, piece.position)
    requires fallback < 7 && refill < 7
    ensures var c := ClearLines(PlacePiece(s.board, piece));
      && c.1 <= 4
      && r.state.board == c.0
      && r.state.score == s.score + CalculateScore(c.1, s.level) + bonus
      && r.state.lines == s.lines + c.1
      && r.state.level == CalculateLevel(r.state.lines)
      && r.state.isPaused == s.isPaused
      && |r.sounds| >= 1
      && r.sounds[0] == (if c.1 > 0 then LineSound else DropSound)
    ensures var next := NextPiece(s, fallback);
      IsValidMove(r.state.board, next, next.position) ==>
        && r.state.currentPiece == Some(next)
        && r.state.nextPiece == Some(Tetrominoes.GetTetromino(refill))
        && r.state.isPlaying == s.isPlaying && r.state.isGameOver == s.isGameOver
        && |r.sounds| == 1
    ensures var next := NextPiece(s, fallback);
      !IsValidMove(r.state.board, next, next.position) ==>
        && r.state.currentPiece == s.currentPiece && r.state.nextPiece == s.nextPiece
        && !r.state.isPlaying && r.state.isGameOver
        && r.sounds == [r.sounds[0], GameOverSound]
  {
    var placed := PlacePiece(s.board, piece);
    LockClearsAtMostFour(s.board, piece);
    var c := ClearLines(placed);
    var cleared, linesCleared := c.0, c.1;
    var newScore := s.score + CalculateScore(linesCleared, s.level) + bonus;
    var newLines := s.lines + linesCleared;
    var newLevel := CalculateLevel(newLines);
    var sound := if linesCleared > 0 then LineSound else DropSound;
    var next := NextPiece(s, fallback);
    if !IsValidMove(cleared, next, next.position) then
      Step(s.(board := cleared, isPlaying := false, isGameOver := true,
              score := newScore, lines := newLines, level := newLevel),
           [sound, GameOverSound])
    else
      Step(s.(board := cleared, currentPiece := Some(next),
              nextPiece := Some(Tetrominoes.GetTetromino(refill)),
              score := newScore, lines := newLines, level := newLevel),
           [sound])
  }

  /** Moves the current piece one row down when that position is valid, and
      otherwise locks it where it stands. */
  function MoveDown(s: GameState, fallback: nat, refill: nat): (r: Step)
    requires fallback < 7 && refill < 7
    requires Active(s) ==>
      var p := s.currentPiece.value;
      && IsBoard(s.board)
      && (IsValidMove(s.board, p, Below(p.position, 1))
          || (LockSafe(s.board, p.shape) && InFrame(p.shape, p.position)))
    ensures !Active(s) ==> r == Step(s, [])
    ensures Active(s) ==>
      var p := s.currentPiece.value;
      if IsValidMove(s.board, p, Below(p.position, 1))
      then r == Step(s.(currentPiece := Some(p.(position := Below(p.position, 1)))), [])
      else r == Lock(s, p, 0, fallback, refill)
  {
    if !Active(s) then Step(s, [])
    else
      var p := s.currentPiece.value;
      var np := Below(p.position, 1);
      if IsValidMove(s.board, p, np) then Step(s.(currentPiece := Some(p.(position := np))), [])
      else Lock(s, p, 0, fallback, refill)
  }

  /** Valid positions below `pos` one row further down are valid positions
      below `pos`, one step further. */
  lemma ShiftDown(board: Board, piece: Piece, pos: Position, rest: nat)
    requires IsBoard(board) && IsValidMove(board, piece, Below(pos, 1))
    requires forall k :: 1 <= k <= rest ==> IsValidMove(board, piece, Below(Below(pos, 1), k))
    requires !IsValidMove(board, piece, Below(Below(pos, 1), rest + 1))
    ensures forall k :: 1 <= k <= rest + 1 ==> IsValidMove(board, piece, Below(pos, k))
    ensures !IsValidMove(board, piece, Below(pos, rest + 2))
  {
    forall k | 1 <= k <= rest + 1
      ensures IsValidMove(board, piece, Below(pos, k))
    {
      if k > 1 {
        assert Below(pos, k) == Below(Below(pos, 1), k - 1);
      }
    }
    assert Below(pos, rest + 2) == Below(Below(pos, 1), rest + 1);
  }

  /** How many rows `piece` can fall straight down from `pos`: every row on the
      way is valid and the next one is not. The source's loop would not end for
      a shape without a filled cell. */
  function DropDistance(board: Board, piece: Piece, pos: Position): (d: nat)
    requires IsBoard(board) && HasFilledCell(piece.shape)
    ensures forall k :: 1 <= k <= d ==> IsValidMove(board, piece, Below(pos, k))
    ensures !IsValidMove(board, piece, Below(pos, d + 1))
    decreases BoardHeight - pos.y
  {
    if IsValidMove(board, piece, Below(pos, 1)) then
      FitsIsAboveFloor(board, piece.shape, Below(pos, 1));
      var rest := DropDistance(board, piece, Below(pos, 1));
      ShiftDown(board, piece, pos, rest);
      1 + rest
    else 0
  }

  /** The position a drop of `d` rows reaches is valid, so the piece lies
      inside the frame there. */
  lemma LandedInFrame(board: Board, piece: Piece, d: nat)
    requires IsBoard(board) && HasFilledCell(piece.shape)
    requires 0 < d == DropDistance(board, piece, piece.position)
    ensures IsValidMove(board, piece, Below(piece.position, d))
    ensures InFrame(piece.shape, Below(piece.position, d))
  {
    FitsIsInFrame(board, piece.shape, Below(piece.position, d));
  }

  /** Drops the current piece to the lowest row it can reach straight down and
      locks it there with two bonus points per row dropped. A drop of zero rows
      leaves the state as it was, without locking. */
  function HardDrop(s: GameState, fallback: nat, refill: nat): (r: Step)
    requires fallback < 7 && refill < 7
    requires Active(s) ==>
      var p := s.currentPiece.value;
      && IsBoard(s.board) && HasFilledCell(p.shape)
      && (DropDistance(s.board, p, p.position) > 0 ==> LockSafe(s.board, p.shape))
    ensures !Active(s) ==> r == Step(s, [])
    ensures Active(s) ==>
      var p := s.currentPiece.value;
      var d := DropDistance(s.board, p, p.position);
      && (d == 0 ==> r == Step(s, []))
      && (d > 0 ==> IsValidMove(s.board, p, Below(p.position, d))
                    && r == Lock(s, p.(position := Below(p.position, d)), d * 2, fallback, refill))
  {
    if !Active(s) then Step(s, [])
    else
      var p := s.currentPiece.value;
      var dropDistance := DropDistance(s.board, p, p.position);
      if dropDistance > 0 then
        var landed := p.(position := Below(p.position, dropDistance));
        LandedInFrame(s.board, p, dropDistance);
        Lock(s, landed, dropDistance * 2, fallback, refill)
      else Step(s, [])
  }

  /** Starts a fresh game, whatever the previous state: an empty board, zero
      score, lines and level, two new pieces, and playing. */
  function StartGame(s: GameState, first: nat, second: nat): (r: GameState)
    requires first < 7 && second < 7
    ensures IsEmptyBoard(r.board)
    ensures r.score == 0 && r.lines == 0 && r.level == 0
    ensures r.currentPiece == Some(Tetrominoes.GetTetromino(first))
    ensures r.nextPiece == Some(Tetrominoes.GetTetromino(second))
    ensures r.isPlaying && !r.isPaused && !r.isGameOver
  {
    InitializeGame(first, second).(isPlaying := true)
  }

  /** Flips the pause flag and nothing else, whether or not a game is running. */
  function PauseGame(s: GameState): (r: GameState)
    ensures r.isPaused != s.isPaused
    ensures r == s.(isPaused := r.isPaused)
  {
    s.(isPaused := !s.isPaused)
  }

  /** Pausing twice gives back the original snapshot. */
  lemma PauseTwice(s: GameState)
    ensures PauseGame(PauseGame(s)) == s
  {
  }

  /** Replaces the state by a fresh game that is not yet playing. */
  function ResetGame(first: nat, second: nat): (r: GameState)
    requires first < 7 && second < 7
    ensures IsEmptyBoard(r.board)
    ensures r.score == 0 && r.lines == 0 && r.level == 0
    ensures r.currentPiece == Some(Tetrominoes.GetTetromino(first))
    ensures r.nextPiece == Some(Tetrominoes.GetTetromino(second))
    ensures !r.isPlaying && !r.isPaused && !r.isGameOver
  {
    InitializeGame(first, second)
  }
}
