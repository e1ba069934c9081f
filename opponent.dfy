/** The computer's move policy. It deliberately plays badly: it leaves the
    human's winning cell open, passes over its own winning cell, and
    otherwise prefers corners and edges to the centre. Each random draw of
    the original is a nondeterministic choice (`:|`) from the list it draws
    from, so every property below holds whatever the draws are. */
module Opponent {
  import opened Rules

  const Centre: Index := 4
  const CornerCells: seq<Index> := [0, 2, 6, 8]
  const EdgeCells: seq<Index> := [1, 3, 5, 7]

  /** The empty cells at index `k` or later, in ascending order. */
  function EmptyCellsFrom(b: Board, k: nat): (r: seq<Index>)
    requires k <= 9
    decreases 9 - k
    ensures forall m: Index :: m in r <==> k <= m && b[m] == Empty
    ensures forall i, j :: 0 <= i < j < |r| ==> r[i] < r[j]
  {
    if k == 9 then []
    else
      var rest := EmptyCellsFrom(b, k + 1);
      if b[k] == Empty then
        assert forall j :: 0 <= j < |rest| ==> rest[j] in rest;
        [k as Index] + rest
      else rest
  }

  /** The indices of the empty cells, in ascending order. */
  function AvailableMoves(b: Board): seq<Index>
  {
    EmptyCellsFrom(b, 0)
  }

  /** The suffix from `k` on holds as many marks as it has cells minus the
      empty cells listed from `k` on. */
  lemma {:induction false} EmptyCellsCount(b: Board, k: nat)
    requires k <= 9
    decreases 9 - k
    ensures |EmptyCellsFrom(b, k)| + MarkCount(b[k..]) == 9 - k
  {
    if k < 9 {
      EmptyCellsCount(b, k + 1);
      assert b[k..][1..] == b[k + 1..];
    }
  }

  /** There are as many available moves as there are unmarked cells. */
  lemma AvailableCount(b: Board)
    ensures |AvailableMoves(b)| == 9 - MarkCount(b)
  {
    EmptyCellsCount(b, 0);
    assert b[0..] == b;
  }

  /** The elements of `s` other than `x`, in their order. */
  function Without(s: seq<Index>, x: Index): (r: seq<Index>)
    ensures forall m :: m in r <==> m in s && m != x
  {
    if s == [] then []
    else if s[0] == x then Without(s[1..], x)
    else [s[0]] + Without(s[1..], x)
  }

  /** The elements of `candidates` that are also in `available`, in their order. */
  function KeepAvailable(candidates: seq<Index>, available: seq<Index>): (r: seq<Index>)
    ensures forall m :: m in r <==> m in candidates && m in available
  {
    if candidates == [] then []
    else if candidates[0] in available then [candidates[0]] + KeepAvailable(candidates[1..], available)
    else KeepAvailable(candidates[1..], available)
  }

  /** Some empty cell other than `x` exists. */
  predicate OtherEmpty(b: Board, x: Index)
  {
    exists k: Index :: k != x && b[k] == Empty
  }

  /** If the human has a winning cell and there is anywhere else to play,
      the move is not that cell. */
  predicate LeavesHumanWin(b: Board, m: Index)
  {
    match WinningMove(b, O)
    case Some(h) => OtherEmpty(b, h) ==> m != h
    case None => true
  }

  /** If the human has no winning cell, the search reports one for the
      computer, and there is anywhere else to play, the move is not that
      cell. Only the first winning cell the search reports is avoided. */
  predicate DeclinesOwnWin(b: Board, m: Index)
  {
    WinningMove(b, O).None? ==>
      match WinningMove(b, X)
      case Some(c) => OtherEmpty(b, c) ==> m != c
      case None => true
  }

  /** On the computer's first move, with no winning cell for either side and
      the centre free, the move is a corner. */
  predicate CornerOpening(b: Board, moveCount: int, m: Index)
  {
    (moveCount == 1 && WinningMove(b, O).None? && WinningMove(b, X).None? && b[Centre] == Empty)
      ==> m in CornerCells
  }

  /** The decision part of the computer's turn: the cell it will mark. */
  method ChooseMove(b: Board, moveCount: int) returns (m: Index)
    requires moveCount == MarkCount(b)
    requires AvailableMoves(b) != []
    ensures b[m] == Empty
    ensures LeavesHumanWin(b, m)
    ensures DeclinesOwnWin(b, m)
    ensures CornerOpening(b, moveCount, m)
  {
    var availableMoves := AvailableMoves(b);
    assert availableMoves[0] in availableMoves;
    var userWinningMove := FindWinningMove(b, O);
    var computerWinningMove := FindWinningMove(b, X);
    if userWinningMove.Some? {
      var nonBlockingMoves := Without(availableMoves, userWinningMove.value);
      if |nonBlockingMoves| > 0 {
        assert nonBlockingMoves[0] in nonBlockingMoves;
        m :| m in nonBlockingMoves;
      } else {
        m :| m in availableMoves;
      }
    } else if computerWinningMove.Some? {
      var nonWinningMoves := Without(availableMoves, computerWinningMove.value);
      if |nonWinningMoves| > 0 {
        assert nonWinningMoves[0] in nonWinningMoves;
        m :| m in nonWinningMoves;
      } else {
        m :| m in availableMoves;
      }
    } else {
      var corners := KeepAvailable(CornerCells, availableMoves);
      var edges := KeepAvailable(EdgeCells, availableMoves);
      if moveCount == 1 && Centre in availableMoves {
        if b[0] != Empty && b[2] != Empty {
          MarkCountTwo(b, 0, 2);
          assert false;
        }
        assert 0 in corners || 2 in corners;
        m :| m in corners;
      } else {
        // the draw of Math.random() against 0.3
        var cornerDraw: bool :| true;
        if |corners| > 0 && cornerDraw {
          assert corners[0] in corners;
          m :| m in corners;
        } else {
          // the draw of Math.random() against 0.5
          var edgeDraw: bool :| true;
          if |edges| > 0 && edgeDraw {
            assert edges[0] in edges;
            m :| m in edges;
          } else {
            m :| m in availableMoves;
          }
        }
      }
    }
  }

  /** Leaving the human's winning cell open keeps the human's win one move away. */
  lemma NotBlockingKeepsWin(b: Board, m: Index)
    requires WinningMove(b, O).Some? && b[m] == Empty
    requires m != WinningMove(b, O).value
    ensures b[m := Mark(X)][WinningMove(b, O).value] == Empty
    ensures HasLine(b[m := Mark(X)][WinningMove(b, O).value := Mark(O)], O)
  {
    var h := WinningMove(b, O).value;
    var i := FirstThreatFrom(b, O, 0).value;
    assert h == FirstEmptyOn(b, i);
    var b' := b[m := Mark(X)];
    var (x, y, z) := WinningConditions[i];
    assert x != y && y != z && x != z by {
      assert i == 0 || i == 1 || i == 2 || i == 3 || i == 4 || i == 5 || i == 6 || i == 7;
    }
    assert m != x && m != y && m != z;
    assert Threat(b', i, O);
    assert FirstEmptyOn(b', i) == h;
    ThreatCompletes(b', i, O);
  }

  /** The policy does not rule out a computer win: on the board reached by
      O0, X2, O3, X5, O1 the human threatens cell 6, and cell 8, which does
      not block it, completes the computer's right column. */
  lemma NonBlockingMoveMayWin()
    ensures var b: Board := [Mark(O), Mark(O), Mark(X), Mark(O), Empty, Mark(X), Empty, Empty, Empty];
      WinningMove(b, O) == Some(6) && b[8] == Empty &&
      LeavesHumanWin(b, 8) && DeclinesOwnWin(b, 8) && HasLine(b[8 := Mark(X)], X)
  {
    var b: Board := [Mark(O), Mark(O), Mark(X), Mark(O), Empty, Mark(X), Empty, Empty, Empty];
    assert Threat(b, 3, O);
    WinningMoveIsFirst(b, O, 3);
    assert Owns(b[8 := Mark(X)], 5, X);
  }

  /** The policy avoids only the first of the computer's winning cells: here,
      on the computer's fourth move, the search reports cell 0 (the main
      diagonal), and cell 2, which the policy allows, completes the other
      diagonal. */
  lemma SecondOwnWinAllowed()
    ensures var b: Board := [Empty, Mark(O), Empty, Mark(O), Mark(X), Mark(O), Mark(X), Mark(O), Mark(X)];
      b[2] == Empty && WinningMove(b, X) == Some(0) &&
      LeavesHumanWin(b, 2) && DeclinesOwnWin(b, 2) && HasLine(b[2 := Mark(X)], X)
  {
    var b: Board := [Empty, Mark(O), Empty, Mark(O), Mark(X), Mark(O), Mark(X), Mark(O), Mark(X)];
    assert Threat(b, 6, X);
    WinningMoveIsFirst(b, X, 6);
    assert Owns(b[2 := Mark(X)], 7, X);
  }
}
