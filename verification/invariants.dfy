/** What every transition of the game hook preserves: the board keeps its
    dimensions and has no full row between moves, a current piece is valid
    while playing, level follows lines, a game that is over is not playing,
    and score and lines only grow during play. */
module Invariants {
  import opened Types
  import opened GameLogic
  import opened UseTetris
  import Tetrominoes

  /** The commands the hook exposes. */
  datatype Command = Left | Right | Down | Turn | Drop | Start | Pause | Reset

  /** The game-state invariant. */
  ghost predicate Inv(s: GameState) {
    && IsBoard(s.board)
    && NoFullRows(s.board)
    && s.score >= 0
    && s.lines >= 0
    && s.level == CalculateLevel(s.lines)
    && (s.isGameOver ==> !s.isPlaying)
    && (s.currentPiece.Some? ==> WellShaped(s.currentPiece.value.shape))
    && (s.nextPiece.Some? ==> WellShaped(s.nextPiece.value.shape))
    && (s.isPlaying && s.currentPiece.Some? ==>
          IsValidMove(s.board, s.currentPiece.value, s.currentPiece.value.position))
  }

  /** Play keeps score and lines from going down. */
  predicate Grows(s: GameState, t: GameState) {
    t.score >= s.score && t.lines >= s.lines
  }

  /** The invariant gives every transition what it requires of its state. */
  lemma InvEnables(s: GameState)
    requires Inv(s)
    ensures Active(s) ==> var p := s.currentPiece.value;
      && IsBoard(s.board) && |p.shape| > 0 && HasFilledCell(p.shape)
      && LockSafe(s.board, p.shape) && InFrame(p.shape, p.position)
  {
    if Active(s) {
      var p := s.currentPiece.value;
      FitsIsInFrame(s.board, p.shape, p.position);
    }
  }

  /** Runs one command; `a` and `b` are the random draws it may consume. */
  function Apply(s: GameState, cmd: Command, a: nat, b: nat): Step
    requires Inv(s) && a < 7 && b < 7
  {
    InvEnables(s);
    match cmd
    case Left => MoveLeft(s)
    case Right => MoveRight(s)
    case Down => MoveDown(s, a, b)
    case Turn => Rotate(s)
    case Drop => HardDrop(s, a, b)
    case Start => Step(StartGame(s, a, b), [])
    case Pause => Step(PauseGame(s), [])
    case Reset => Step(ResetGame(a, b), [])
  }

  /** A fresh game satisfies the invariant, whether started or not. */
  lemma FreshGameInv(a: nat, b: nat)
    requires a < 7 && b < 7
    ensures Inv(ResetGame(a, b))
    ensures Inv(StartGame(ResetGame(a, b), a, b))
  {
    Tetrominoes.SpawnedPiecesAreWellShaped(a);
    Tetrominoes.SpawnedPiecesAreWellShaped(b);
    SpawnFitsEmptyBoard(a);
    var board := CreateEmptyBoard();
    assert NoFullRows(board) by {
      forall y | 0 <= y < |board|
        ensures !Full(board[y])
      {
        assert board[y][0] == None;
      }
    }
  }

  /** The landing sequence keeps the invariant, and only adds to score and lines. */
  lemma LockPreservesInv(s: GameState, piece: Piece, bonus: int, a: nat, b: nat)
    requires Inv(s) && a < 7 && b < 7 && bonus >= 0
    requires WellShaped(piece.shape) && InFrame(piece.shape, piece.position)
    ensures var r := Lock(s, piece, bonus, a, b).state;
      Inv(r) && Grows(s, r)
  {
    Tetrominoes.SpawnedPiecesAreWellShaped(a);
    Tetrominoes.SpawnedPiecesAreWellShaped(b);
    var r := Lock(s, piece, bonus, a, b).state;
    assert CalculateScore(r.lines - s.lines, s.level) >= 0;
  }

  /** Every command keeps the invariant; every command except start and reset
      leaves score and lines no lower than before. */
  lemma StepPreservesInv(s: GameState, cmd: Command, a: nat, b: nat)
    requires Inv(s) && a < 7 && b < 7
    ensures Inv(Apply(s, cmd, a, b).state)
    ensures cmd != Start && cmd != Reset ==> Grows(s, Apply(s, cmd, a, b).state)
  {
    InvEnables(s);
    match cmd
    case Left =>
    case Right =>
    case Down =>
      if Active(s) {
        var p := s.currentPiece.value;
        if !IsValidMove(s.board, p, Below(p.position, 1)) {
          LockPreservesInv(s, p, 0, a, b);
        }
      }
    case Turn =>
      if Active(s) {
        RotateKeepsWellShaped(s.currentPiece.value);
      }
    case Drop =>
      if Active(s) {
        var p := s.currentPiece.value;
        var d := DropDistance(s.board, p, p.position);
        if d > 0 {
          FitsIsInFrame(s.board, p.shape, Below(p.position, d));
          LockPreservesInv(s, p.(position := Below(p.position, d)), d * 2, a, b);
        }
      }
    case Start => FreshGameInv(a, b);
    case Pause =>
    case Reset => FreshGameInv(a, b);
  }

  /** Once the game is over, no move, rotation or drop changes anything. */
  lemma GameOverIsFinal(s: GameState, cmd: Command, a: nat, b: nat)
    requires Inv(s) && a < 7 && b < 7
    requires s.isGameOver && cmd in {Left, Right, Down, Turn, Drop}
    ensures Apply(s, cmd, a, b) == Step(s, [])
  {
  }
}
