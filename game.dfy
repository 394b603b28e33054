/** The game-state holder: the board, whose turn it is and the recorded winner,
    with the moves, resets and computer turns that update them. Each method is
    one state transition; React's scheduling and the "thinking" delay are not
    part of it. */
module Game {
  import opened Types
  import opened Outcome
  import opened Strategy

  class GameLogic {
    var board: Board
    var currentPlayer: Player
    var winner: Option<WinnerInfo>
    var gameMode: GameMode
    var difficulty: Difficulty

    /** The player who made the last move: the winner once the game is won, the
        player not on turn otherwise (O before the first move). */
    ghost function LastMover(): Player
      reads this
    {
      if winner.Some? then currentPlayer else Other(currentPlayer)
    }

    /** The recorded winner is the winner of the board, a winner is the player still
        on turn (the turn is not handed over after a winning move), and the marks
        alternate: X has one mark more than O exactly when X moved last. */
    ghost predicate Valid()
      reads this
    {
      winner == CalculateWinner(board) &&
      (winner.Some? ==> winner.value.player == currentPlayer) &&
      Count(board, Some(X)) == Count(board, Some(O)) + (if LastMover() == X then 1 else 0)
    }

    /** The status shown to the players. In a valid state it is Won exactly when the
        board itself has a winner. */
    function Status(): (s: GameStatus)
      reads this
      ensures s == Won <==> winner.Some?
      ensures s == Draw <==> winner.None? && Full(board)
      ensures Valid() ==> (s == Won <==> CalculateWinner(board).Some?)
    {
      GameStatusOf(board, winner)
    }

    constructor ()
      ensures Valid()
      ensures board == InitialBoard && currentPlayer == X && winner == None
      ensures gameMode == PVP && difficulty == Easy
    {
      board := InitialBoard;
      currentPlayer := X;
      winner := None;
      gameMode := PVP;
      difficulty := Easy;
      CountZero(InitialBoard, Some(X));
      CountZero(InitialBoard, Some(O));
    }

    /** Back to the empty board with X to move and no winner; mode and difficulty stay. */
    method ResetGame()
      modifies this
      ensures Valid()
      ensures board == InitialBoard && currentPlayer == X && winner == None
      ensures gameMode == old(gameMode) && difficulty == old(difficulty)
    {
      board := InitialBoard;
      currentPlayer := X;
      winner := None;
      CountZero(InitialBoard, Some(X));
      CountZero(InitialBoard, Some(O));
    }

    method ChangeGameMode(mode: GameMode)
      modifies this
      ensures Valid()
      ensures board == InitialBoard && currentPlayer == X && winner == None
      ensures gameMode == mode && difficulty == old(difficulty)
    {
      gameMode := mode;
      ResetGame();
    }

    method ChangeDifficulty(level: Difficulty)
      modifies this
      ensures Valid()
      ensures board == InitialBoard && currentPlayer == X && winner == None
      ensures gameMode == old(gameMode) && difficulty == level
    {
      difficulty := level;
      ResetGame();
    }

    /** A click on cell `index`. Ignored when the cell is taken, the game is won or the
        status is not Playing; otherwise the player on turn marks the cell, and the turn
        passes to the other player unless that move won. */
    method HandleTileClick(index: int)
      requires Valid() && 0 <= index < 9
      modifies this
      ensures Valid()
      ensures gameMode == old(gameMode) && difficulty == old(difficulty)
      ensures old(board[index].Some? || winner.Some? || Status() != Playing) ==>
        board == old(board) && currentPlayer == old(currentPlayer) && winner == old(winner)
      ensures !old(board[index].Some? || winner.Some? || Status() != Playing) ==>
        board == old(board)[index := Some(old(currentPlayer))] &&
        winner == CalculateWinner(board) &&
        currentPlayer == (if winner.Some? then old(currentPlayer) else Other(old(currentPlayer)))
    {
      if board[index].Some? || winner.Some? || Status() != Playing {
        return;
      }
      var newBoard := board[index := Some(currentPlayer)];
      FillCell(board, index, currentPlayer);
      board := newBoard;
      var newWinner := CalculateWinner(newBoard);
      if newWinner.Some? {
        MoveWinsForMover(old(board), index, currentPlayer);
        winner := newWinner;
      } else {
        currentPlayer := Other(currentPlayer);
      }
    }

    /** The computer's turn: with no empty cell nothing happens; otherwise a cell is
        chosen as the difficulty prescribes and clicked for the player on turn. */
    method ComputerMove()
      requires Valid()
      modifies this
      ensures Valid()
      ensures gameMode == old(gameMode) && difficulty == old(difficulty)
      ensures Full(old(board)) || old(winner).Some? ==>
        board == old(board) && currentPlayer == old(currentPlayer) && winner == old(winner)
      ensures !Full(old(board)) && old(winner).None? ==>
        (exists m :: ChoiceFor(old(board), difficulty, m) &&
          0 <= m < 9 && board == old(board)[m := Some(old(currentPlayer))]) &&
        currentPlayer == (if winner.Some? then old(currentPlayer) else Other(old(currentPlayer)))
    {
      var availableIndices := AvailableIndices(board);
      if |availableIndices| == 0 {
        return;
      }
      var moveIndex: int;
      match difficulty {
        case Easy =>
          moveIndex := EasyMove(availableIndices);
        case Medium =>
          moveIndex := MediumMove(board, availableIndices);
        case Hard =>
          moveIndex := FindBestMove(board);
      }
      assert ChoiceFor(board, difficulty, moveIndex) && 0 <= moveIndex < 9;
      HandleTileClick(moveIndex);
    }

    /** The effect that runs after each change: in player-versus-computer mode, when it
        is O's turn and the game is still on, the computer moves. */
    method ComputerTurn()
      requires Valid()
      modifies this
      ensures Valid()
      ensures gameMode == old(gameMode) && difficulty == old(difficulty)
      ensures !old(gameMode == PVC && currentPlayer == O && Status() == Playing) ==>
        unchanged(this)
      ensures old(gameMode == PVC && currentPlayer == O && Status() == Playing) ==>
        (exists m :: ChoiceFor(old(board), old(difficulty), m) &&
          0 <= m < 9 && board == old(board)[m := Some(O)]) &&
        winner == CalculateWinner(board) &&
        currentPlayer == (if winner.Some? then O else X)
    {
      if gameMode == PVC && currentPlayer == O && Status() == Playing {
        ComputerMove();
      }
    }
  }
}
