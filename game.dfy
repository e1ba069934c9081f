/** The game engine: the four pieces of mutable state of the original (the
    board, whose turn it is, whether the game is still on, and the number of
    moves made) as the fields of one object, with the operations that
    update them in place. */
module TicTacToe {
  import opened Rules
  import opened Opponent

  class Game {
    var board: Board
    var currentPlayer: Player
    var gameActive: bool
    var moveCount: int

    /** The object invariant: the counter equals the number of marks, and the
        game is on exactly when no line is complete and fewer than nine
        moves have been made. */
    ghost predicate Valid()
      reads this
    {
      moveCount == MarkCount(board) &&
      (gameActive <==> Evaluate(board, moveCount) == Ongoing)
    }

    /** Strict alternation, the human first: it is the computer's turn only
        in a running game, and in a running game the human has made as many
        moves as the computer, plus one while the computer is to move. */
    ghost predicate TurnOrder()
      reads this
    {
      (currentPlayer == X ==> gameActive) &&
      (gameActive ==>
        CountOf(board, O) == CountOf(board, X) + (if currentPlayer == X then 1 else 0))
    }

    /** In a running game with strict alternation, the number of moves made
        is twice the computer's moves, plus one while the computer is to
        move: it is odd exactly on the computer's turn. */
    lemma MoveCountParity()
      requires Valid() && TurnOrder() && gameActive
      ensures moveCount == 2 * CountOf(board, X) + (if currentPlayer == X then 1 else 0)
    {
      MarkCountSplit(board);
    }

    /** The initial values of the four variables. */
    constructor ()
      ensures board == EmptyBoard && currentPlayer == O && gameActive && moveCount == 0
      ensures Valid() && TurnOrder()
    {
      board := EmptyBoard;
      currentPlayer := O;
      gameActive := true;
      moveCount := 0;
      new;
      EmptyBoardOngoing();
    }

    /** Writes `player`'s mark into cell `index`, counts the move, and runs
        the end-of-move check. The cell is not checked: callers only pass
        empty cells, and then the object invariant is kept. */
    method MakeMove(index: Index, player: Player)
      modifies this
      ensures board == old(board)[index := Mark(player)]
      ensures moveCount == old(moveCount) + 1
      ensures currentPlayer == old(currentPlayer)
      ensures gameActive == (old(gameActive) && Evaluate(board, moveCount) == Ongoing)
      ensures old(Valid()) && old(board)[index] == Empty ==> Valid()
    {
      ghost var before, count := board, moveCount;
      board := board[index := Mark(player)];
      moveCount := moveCount + 1;
      var _ := CheckResult();
      if before[index] == Empty && count == MarkCount(before) {
        MarkCountPlace(before, index, player);
        if Evaluate(before, count) != Ongoing {
          StaysDecided(before, count, index, player);
        }
      }
    }

    /** The end-of-move check: scans the winning lines in table order and
        stops at the first complete one. A complete line or a ninth move
        ends the game; the outcome is what the status line announces. */
    method CheckResult() returns (outcome: Outcome)
      modifies this`gameActive
      ensures outcome == Evaluate(board, moveCount)
      ensures gameActive == (old(gameActive) && outcome == Ongoing)
    {
      var roundWon := false;
      var winningLine: LineId := 0;
      var i := 0;
      while i < |WinningConditions|
        invariant 0 <= i <= |WinningConditions|
        invariant !roundWon
        invariant forall j: LineId :: j < i ==> !Complete(board, j)
      {
        var (a, b, c) := WinningConditions[i];
        if board[a] == Empty || board[b] == Empty || board[c] == Empty {
          i := i + 1;
          continue;
        }
        if board[a] == board[b] && board[b] == board[c] {
          roundWon := true;
          winningLine := i;
          break;
        }
        i := i + 1;
      }

      if roundWon {
        EvaluateFirstLine(board, moveCount, winningLine);
        var (a, _, _) := WinningConditions[winningLine];
        outcome := Won(board[a].owner);
        gameActive := false;
        return;
      }

      EvaluateNoLine(board, moveCount);
      if moveCount == 9 {
        outcome := Drawn;
        gameActive := false;
        return;
      }
      outcome := Ongoing;
    }

    /** A click of the human on cell `index`. The click is ignored when the
        cell is taken, the game is over, or it is not the human's turn;
        otherwise the human's mark is played and, if the game goes on, the
        turn passes to the computer. The original does not range-check the
        index, but a non-cell index reads no cell and fails the emptiness
        test, so such a click is ignored there too; here it must be a cell
        index. */
    method HandleCellClick(index: int)
      requires 0 <= index < 9
      requires Valid()
      modifies this
      ensures Valid()
      ensures old(board[index] != Empty || !gameActive || currentPlayer != O) ==>
        board == old(board) && moveCount == old(moveCount) &&
        currentPlayer == old(currentPlayer) && gameActive == old(gameActive)
      ensures old(board[index] == Empty && gameActive && currentPlayer == O) ==>
        board == old(board)[index := Mark(O)] && moveCount == old(moveCount) + 1 &&
        gameActive == (Evaluate(board, moveCount) == Ongoing) &&
        currentPlayer == (if gameActive then X else O)
      ensures old(TurnOrder()) ==> TurnOrder()
    {
      if board[index] != Empty || !gameActive || currentPlayer != O {
        return;
      }
      CountOfPlace(board, index, O, O);
      CountOfPlace(board, index, O, X);
      MakeMove(index, O);
      if gameActive {
        currentPlayer := X;
      }
    }

    /** The computer's turn. Nothing happens when no cell is empty or the game
        is over; otherwise the policy picks an empty cell, the computer's
        mark is played there, and the turn passes back to the human.
        `played` names the cell for the contract. Whose turn it is is not
        checked, so the turn order is kept only when it was the computer's
        turn (see `ResetBeforeComputerMove`). */
    method ComputerMove() returns (ghost played: Option<Index>)
      requires Valid()
      modifies this
      ensures Valid()
      ensures played.None? <==> !old(gameActive)
      ensures played.None? ==>
        board == old(board) && moveCount == old(moveCount) &&
        currentPlayer == old(currentPlayer) && gameActive == old(gameActive)
      ensures played.Some? ==>
        old(board)[played.value] == Empty &&
        board == old(board)[played.value := Mark(X)] && moveCount == old(moveCount) + 1 &&
        gameActive == (Evaluate(board, moveCount) == Ongoing) && currentPlayer == O
      ensures played.Some? ==>
        LeavesHumanWin(old(board), played.value) &&
        DeclinesOwnWin(old(board), played.value) &&
        CornerOpening(old(board), old(moveCount), played.value)
      ensures old(TurnOrder() && currentPlayer == X) ==> TurnOrder()
    {
      var availableMoves := AvailableMoves(board);
      AvailableCount(board);
      if |availableMoves| == 0 || !gameActive {
        return None;
      }
      ghost var before := board;
      var moveIndex := ChooseMove(board, moveCount);
      MakeMove(moveIndex, X);
      currentPlayer := O;
      played := Some(moveIndex);
      CountOfPlace(before, moveIndex, X, O);
      CountOfPlace(before, moveIndex, X, X);
    }

    /** The computer's turn guarded by whose turn it is: a delayed call that
        finds the human to move, as after a reset, does nothing. This keeps
        the turn order in every state. */
    method ComputerTurn() returns (ghost played: Option<Index>)
      requires Valid()
      modifies this
      ensures Valid()
      ensures played.None? <==> !old(gameActive && currentPlayer == X)
      ensures played.None? ==>
        board == old(board) && moveCount == old(moveCount) &&
        currentPlayer == old(currentPlayer) && gameActive == old(gameActive)
      ensures played.Some? ==>
        old(board)[played.value] == Empty &&
        board == old(board)[played.value := Mark(X)] && moveCount == old(moveCount) + 1 &&
        gameActive == (Evaluate(board, moveCount) == Ongoing) && currentPlayer == O
      ensures played.Some? ==>
        LeavesHumanWin(old(board), played.value) &&
        DeclinesOwnWin(old(board), played.value) &&
        CornerOpening(old(board), old(moveCount), played.value)
      ensures old(TurnOrder()) ==> TurnOrder()
    {
      if currentPlayer != X {
        return None;
      }
      played := ComputerMove();
    }

    /** Back to the initial values of the four variables. */
    method ResetGame()
      modifies this
      ensures board == EmptyBoard && currentPlayer == O && gameActive && moveCount == 0
      ensures Valid() && TurnOrder()
    {
      board := EmptyBoard;
      gameActive := true;
      currentPlayer := O;
      moveCount := 0;
      EmptyBoardOngoing();
    }
  }

  /** The human clicks cell 0 and resets the game before the 500 ms delay
      runs out; the pending callback finds the game on and the computer
      moves first on the fresh board. The human then has no mark against
      the computer's one, and the turn order is broken. */
  method ResetBeforeComputerMove() returns (g: Game)
    ensures g.Valid() && g.gameActive && g.currentPlayer == O
    ensures CountOf(g.board, O) == 0 && CountOf(g.board, X) == 1
    ensures !g.TurnOrder()
  {
    g := new Game();
    g.HandleCellClick(0);
    g.ResetGame();
    ghost var played := g.ComputerMove();
    CountOfPlace(EmptyBoard, played.value, X, O);
    CountOfPlace(EmptyBoard, played.value, X, X);
  }

  /** The same sequence with the guarded computer turn: the delayed call does
      nothing, and the fresh game keeps its turn order. */
  method ResetBeforeComputerTurn() returns (g: Game)
    ensures g.Valid() && g.TurnOrder()
    ensures g.board == EmptyBoard && g.currentPlayer == O && g.gameActive
  {
    g := new Game();
    g.HandleCellClick(0);
    g.ResetGame();
    ghost var _ := g.ComputerTurn();
  }
}
