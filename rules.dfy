/** The board of the game, the fixed table of winning lines, and the rules
    that read them: who has won, whether the game is drawn, and which cell
    would complete a line for a player. Everything here is a value; the
    game's mutable state lives in the class of module TicTacToe. */
module Rules {

  datatype Option<T> = None | Some(value: T)

  /** The two players by their marks: the human plays 'O', the computer 'X'. */
  datatype Player = O | X

  /** One cell: the empty string of the original board, or a player's mark. */
  datatype Cell = Empty | Mark(owner: Player)

  /** A cell index, 0 to 8 in row-major order. */
  type Index = i: int | 0 <= i < 9

  /** A position in the table of winning lines. */
  type LineId = i: int | 0 <= i < 8

  /** The nine cells of the board. */
  type Board = b: seq<Cell> | |b| == 9
    witness [Empty, Empty, Empty, Empty, Empty, Empty, Empty, Empty, Empty]

  const EmptyBoard: Board := [Empty, Empty, Empty, Empty, Empty, Empty, Empty, Empty, Empty]

  /** The three rows, the three columns and the two diagonals, in the order
      in which every scan of the board visits them. */
  const WinningConditions: seq<(Index, Index, Index)> :=
    [(0, 1, 2), (3, 4, 5), (6, 7, 8),
     (0, 3, 6), (1, 4, 7), (2, 5, 8),
     (0, 4, 8), (2, 4, 6)]

  /** The other player. */
  function Other(p: Player): (q: Player)
    ensures q != p
  {
    if p == O then X else O
  }

  // ---------------------------------------------------------------------
  // Complete lines, winners and the evaluation of a position
  // ---------------------------------------------------------------------

  /** Line `i` holds three equal marks (no cell of it is empty). */
  predicate Complete(b: Board, i: LineId)
  {
    var (x, y, z) := WinningConditions[i];
    b[x] != Empty && b[x] == b[y] && b[y] == b[z]
  }

  /** All three cells of line `i` hold `p`'s mark. */
  predicate Owns(b: Board, i: LineId, p: Player)
  {
    var (x, y, z) := WinningConditions[i];
    b[x] == Mark(p) && b[y] == Mark(p) && b[z] == Mark(p)
  }

  /** Player `p` has three in a row somewhere on the board. */
  predicate HasLine(b: Board, p: Player)
  {
    exists i: LineId :: Owns(b, i, p)
  }

  /** The first complete line at position `k` or later in the table. */
  function FirstCompleteFrom(b: Board, k: nat): (r: Option<LineId>)
    requires k <= 8
    decreases 8 - k
    ensures r.Some? ==> k <= r.value && Complete(b, r.value)
    ensures forall j: LineId :: k <= j && (r.None? || j < r.value) ==> !Complete(b, j)
  {
    if k == 8 then None
    else if Complete(b, k) then Some(k)
    else FirstCompleteFrom(b, k + 1)
  }

  /** The first complete line of the table, if any. */
  function FirstCompleteLine(b: Board): Option<LineId>
  {
    FirstCompleteFrom(b, 0)
  }

  /** What the end-of-move check concludes: a win for the owner of the first
      complete line, otherwise a draw once nine moves have been made. */
  datatype Outcome = Ongoing | Won(winner: Player) | Drawn

  function Evaluate(b: Board, moveCount: int): Outcome
  {
    match FirstCompleteLine(b)
    case Some(i) => Won(b[WinningConditions[i].0].owner)
    case None => if moveCount == 9 then Drawn else Ongoing
  }

  /** A win is reported exactly when some line is complete. */
  lemma EvaluateWonIff(b: Board, moveCount: int)
    ensures Evaluate(b, moveCount).Won? <==> exists i: LineId :: Complete(b, i)
  {
  }

  /** The reported winner is the owner of the first complete line in table order. */
  lemma EvaluateFirstLine(b: Board, moveCount: int, i: LineId)
    requires Complete(b, i)
    requires forall j: LineId :: j < i ==> !Complete(b, j)
    ensures Evaluate(b, moveCount) == Won(b[WinningConditions[i].0].owner)
    ensures Owns(b, i, Evaluate(b, moveCount).winner)
  {
  }

  /** The winner really has three in a row. */
  lemma WinnerHasLine(b: Board, moveCount: int)
    requires Evaluate(b, moveCount).Won?
    ensures HasLine(b, Evaluate(b, moveCount).winner)
  {
    var i := FirstCompleteLine(b).value;
    assert Owns(b, i, Evaluate(b, moveCount).winner);
  }

  /** When only one player has three in a row, that player is the winner. */
  lemma SoleLineWins(b: Board, moveCount: int, p: Player)
    requires HasLine(b, p) && !HasLine(b, Other(p))
    ensures Evaluate(b, moveCount) == Won(p)
  {
    var i: LineId :| Owns(b, i, p);
    assert Complete(b, i);
    var r := FirstCompleteLine(b);
    assert r.Some?;
    var w := b[WinningConditions[r.value].0].owner;
    assert Owns(b, r.value, w);
    assert HasLine(b, w);
  }

  /** With no complete line, the position is drawn exactly when nine moves
      have been made, and otherwise the game goes on. */
  lemma EvaluateNoLine(b: Board, moveCount: int)
    requires forall i: LineId :: !Complete(b, i)
    ensures Evaluate(b, moveCount) == (if moveCount == 9 then Drawn else Ongoing)
  {
  }

  /** The empty board has no mark and the game on it is still on. */
  lemma EmptyBoardOngoing()
    ensures MarkCount(EmptyBoard) == 0
    ensures CountOf(EmptyBoard, O) == 0 && CountOf(EmptyBoard, X) == 0
    ensures Evaluate(EmptyBoard, 0) == Ongoing
  {
  }

  // ---------------------------------------------------------------------
  // Counting marks
  // ---------------------------------------------------------------------

  /** The number of non-empty cells. */
  function MarkCount(s: seq<Cell>): (n: nat)
    ensures n <= |s|
  {
    if s == [] then 0
    else (if s[0] == Empty then 0 else 1) + MarkCount(s[1..])
  }

  /** The number of cells holding `p`'s mark. */
  function CountOf(s: seq<Cell>, p: Player): (n: nat)
    ensures n <= MarkCount(s)
  {
    if s == [] then 0
    else (if s[0] == Mark(p) then 1 else 0) + CountOf(s[1..], p)
  }

  /** Writing `p`'s mark into an empty cell adds one to `p`'s count and
      leaves the other player's count alone. */
  lemma {:induction false} CountOfPlace(s: seq<Cell>, i: nat, p: Player, q: Player)
    requires i < |s| && s[i] == Empty
    ensures CountOf(s[i := Mark(p)], q) == CountOf(s, q) + (if p == q then 1 else 0)
  {
    if i == 0 {
      assert s[i := Mark(p)][1..] == s[1..];
    } else {
      CountOfPlace(s[1..], i - 1, p, q);
      assert s[i := Mark(p)][1..] == s[1..][i - 1 := Mark(p)];
    }
  }

  /** Every mark belongs to one of the two players. */
  lemma {:induction false} MarkCountSplit(s: seq<Cell>)
    ensures MarkCount(s) == CountOf(s, O) + CountOf(s, X)
  {
    if s != [] {
      MarkCountSplit(s[1..]);
      match s[0]
      case Empty =>
      case Mark(p) => assert p == O || p == X;
    }
  }

  /** Writing a mark into an empty cell adds exactly one mark. */
  lemma {:induction false} MarkCountPlace(s: seq<Cell>, i: nat, p: Player)
    requires i < |s| && s[i] == Empty
    ensures MarkCount(s[i := Mark(p)]) == MarkCount(s) + 1
  {
    if i == 0 {
      assert s[i := Mark(p)][1..] == s[1..];
    } else {
      MarkCountPlace(s[1..], i - 1, p);
      assert s[i := Mark(p)][1..] == s[1..][i - 1 := Mark(p)];
    }
  }

  /** Every cell is marked exactly when the count reaches the length. */
  lemma {:induction false} MarkCountFull(s: seq<Cell>)
    ensures MarkCount(s) == |s| <==> forall k :: 0 <= k < |s| ==> s[k] != Empty
  {
    if s != [] {
      MarkCountFull(s[1..]);
      if forall k :: 0 <= k < |s| ==> s[k] != Empty {
        forall k | 0 <= k < |s[1..]| ensures s[1..][k] != Empty {
          assert s[1..][k] == s[k + 1];
        }
      }
      if MarkCount(s) == |s| {
        forall k | 0 <= k < |s| ensures s[k] != Empty {
          if k > 0 { assert s[k] == s[1..][k - 1]; }
        }
      }
    }
  }

  /** Two marked cells make a count of at least two. */
  lemma {:induction false} MarkCountTwo(s: seq<Cell>, i: nat, j: nat)
    requires i < j < |s|
    requires s[i] != Empty && s[j] != Empty
    ensures MarkCount(s) >= 2
  {
    if i == 0 {
      MarkCountOne(s[1..], j - 1);
    } else {
      MarkCountTwo(s[1..], i - 1, j - 1);
    }
  }

  /** One marked cell makes a count of at least one. */
  lemma {:induction false} MarkCountOne(s: seq<Cell>, j: nat)
    requires j < |s| && s[j] != Empty
    ensures MarkCount(s) >= 1
  {
    if j > 0 {
      MarkCountOne(s[1..], j - 1);
    }
  }

  /** A mark written into an empty cell cannot break a complete line, and
      once the position is decided it stays decided. */
  lemma StaysDecided(b: Board, moveCount: int, m: Index, p: Player)
    requires moveCount == MarkCount(b) && b[m] == Empty
    requires Evaluate(b, moveCount) != Ongoing
    ensures Evaluate(b[m := Mark(p)], moveCount + 1) != Ongoing
  {
    var b' := b[m := Mark(p)];
    match FirstCompleteLine(b)
    case Some(i) =>
      assert Complete(b', i);
      assert FirstCompleteLine(b').Some?;
    case None =>
      MarkCountFull(b);
      assert false;
  }

  // ---------------------------------------------------------------------
  // Immediate winning cells
  // ---------------------------------------------------------------------

  /** How many of the three cells of line `i` hold `p`'s mark. */
  function MarksOn(b: Board, i: LineId, p: Player): nat
  {
    var (x, y, z) := WinningConditions[i];
    (if b[x] == Mark(p) then 1 else 0) + (if b[y] == Mark(p) then 1 else 0) + (if b[z] == Mark(p) then 1 else 0)
  }

  /** Some cell of line `i` is empty. */
  predicate HasEmptyOn(b: Board, i: LineId)
  {
    var (x, y, z) := WinningConditions[i];
    b[x] == Empty || b[y] == Empty || b[z] == Empty
  }

  /** Line `i` holds two of `p`'s marks and an empty cell. */
  predicate Threat(b: Board, i: LineId, p: Player)
  {
    MarksOn(b, i, p) == 2 && HasEmptyOn(b, i)
  }

  /** The first empty cell of line `i` in the order of its triple. */
  function FirstEmptyOn(b: Board, i: LineId): (m: Index)
    requires HasEmptyOn(b, i)
    ensures b[m] == Empty
  {
    var (x, y, z) := WinningConditions[i];
    if b[x] == Empty then x else if b[y] == Empty then y else z
  }

  /** The first threat line for `p` at position `k` or later in the table. */
  function FirstThreatFrom(b: Board, p: Player, k: nat): (r: Option<LineId>)
    requires k <= 8
    decreases 8 - k
    ensures r.Some? ==> k <= r.value && Threat(b, r.value, p)
    ensures forall j: LineId :: k <= j && (r.None? || j < r.value) ==> !Threat(b, j, p)
  {
    if k == 8 then None
    else if Threat(b, k, p) then Some(k)
    else FirstThreatFrom(b, p, k + 1)
  }

  /** The cell that would complete a line for `p`: the first empty cell of
      the first threat line, or None when no line is a threat. */
  function WinningMove(b: Board, p: Player): (r: Option<Index>)
    ensures r.Some? ==> b[r.value] == Empty
    ensures r.None? <==> forall i: LineId :: !Threat(b, i, p)
  {
    match FirstThreatFrom(b, p, 0)
    case Some(i) => Some(FirstEmptyOn(b, i))
    case None => None
  }

  /** The winning move is the first empty cell of the first threat line. */
  lemma WinningMoveIsFirst(b: Board, p: Player, i: LineId)
    requires Threat(b, i, p)
    requires forall j: LineId :: j < i ==> !Threat(b, j, p)
    ensures WinningMove(b, p) == Some(FirstEmptyOn(b, i))
  {
  }

  /** Playing the winning move gives `p` three in a row. */
  lemma WinningMoveCompletes(b: Board, p: Player)
    requires WinningMove(b, p).Some?
    ensures HasLine(b[WinningMove(b, p).value := Mark(p)], p)
  {
    var i := FirstThreatFrom(b, p, 0).value;
    var m := WinningMove(b, p).value;
    assert m == FirstEmptyOn(b, i);
    ThreatCompletes(b, i, p);
  }

  /** Filling the first empty cell of a threat line completes it. */
  lemma ThreatCompletes(b: Board, i: LineId, p: Player)
    requires Threat(b, i, p)
    ensures Owns(b[FirstEmptyOn(b, i) := Mark(p)], i, p)
  {
  }

  /** Completeness: a player who has no line yet and can make one by writing
      into some empty cell gets a winning move from the search. */
  lemma WinningMoveExists(b: Board, p: Player, m: Index)
    requires !HasLine(b, p) && b[m] == Empty
    requires HasLine(b[m := Mark(p)], p)
    ensures WinningMove(b, p).Some?
  {
    var b' := b[m := Mark(p)];
    var i: LineId :| Owns(b', i, p);
    assert !Owns(b, i, p);
    var (x, y, z) := WinningConditions[i];
    assert m == x || m == y || m == z;
    assert x != y && y != z && x != z by {
      assert i == 0 || i == 1 || i == 2 || i == 3 || i == 4 || i == 5 || i == 6 || i == 7;
    }
    assert Threat(b, i, p);
  }

  /** The search loop over the table: scans the lines in order and returns the
      first empty cell of the first line holding two of `player`'s marks and
      an empty cell. */
  method FindWinningMove(b: Board, player: Player) returns (r: Option<Index>)
    ensures r == WinningMove(b, player)
  {
    var i := 0;
    while i < |WinningConditions|
      invariant 0 <= i <= |WinningConditions|
      invariant forall j: LineId :: j < i ==> !Threat(b, j, player)
    {
      var (x, y, z) := WinningConditions[i];
      var mine := (if b[x] == Mark(player) then 1 else 0)
                + (if b[y] == Mark(player) then 1 else 0)
                + (if b[z] == Mark(player) then 1 else 0);
      if mine == 2 && (b[x] == Empty || b[y] == Empty || b[z] == Empty) {
        WinningMoveIsFirst(b, player, i);
        if b[x] == Empty {
          return Some(x);
        } else if b[y] == Empty {
          return Some(y);
        } else {
          return Some(z);
        }
      }
      i := i + 1;
    }
    return None;
  }
}
