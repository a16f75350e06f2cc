/** The game state machine of the App component: the dimension, the board, the
    player to move and the status, changed only by starting a new game, playing a
    cell and ending the game. */
module TicTacToe {
  import opened Markers
  import opened Outcomes

  /** The status the original keeps in one field, overloading the empty marker as
      "no game yet": here a tagged value. */
  datatype Status = NotStarted | Pending | Won(winner: Marker) | Tie | Ended

  /** `Array(len)` throws a RangeError unless len is below 2^32. */
  const MaxArrayLength: nat := 0x1_0000_0000

  /** initializeBoard: a board of size cells, all empty. */
  function InitializeBoard(size: nat): (b: seq<Marker>)
    ensures |b| == size && forall i :: 0 <= i < size ==> b[i] == Empty
  {
    seq(size, _ => Empty)
  }

  /** The number of cells holding m. */
  function Count(board: seq<Marker>, m: Marker): nat
  {
    if board == [] then 0 else (if board[0] == m then 1 else 0) + Count(board[1..], m)
  }

  /** x moves first and the players alternate, so x has moved as often as o when
      x is to move, and once more when o is to move. */
  ghost predicate TurnBalanced(board: seq<Marker>, p: Marker)
  {
    (p == X && Count(board, X) == Count(board, O)) ||
    (p == O && Count(board, X) == Count(board, O) + 1)
  }

  /** Neither player holds a line. */
  ghost predicate NoLines(board: seq<Marker>, n: nat)
    requires n >= 1
  {
    !HasLine(board, n, X) && !HasLine(board, n, O)
  }

  class Game {
    var n: nat
    var board: seq<Marker>
    var currentPlayer: Marker
    var status: Status

    /** What holds in every state the three handlers can reach. */
    ghost predicate Valid()
      reads this
    {
      (status == NotStarted ==> n == 0 && board == InitializeBoard(9) && currentPlayer == Empty) &&
      (status != NotStarted ==> n >= 1 && |board| == n * n) &&
      (status == Pending ==> TurnBalanced(board, currentPlayer) && !Full(board) && NoLines(board, n)) &&
      (status != Pending ==> currentPlayer == Empty) &&
      (status.Won? ==>
         status.winner.IsPlayer() && HasLine(board, n, status.winner) &&
         !HasLine(board, n, Next(status.winner))) &&
      (status == Status.Tie ==> Full(board) && NoLines(board, n)) &&
      (status == Ended ==> NoLines(board, n))
    }

    /** The initial state: a default 9-cell board, no dimension, no player, no game. */
    constructor ()
      ensures Valid()
      ensures n == 0 && board == InitializeBoard(9) && currentPlayer == Empty && status == NotStarted
    {
      n := 0;
      board := InitializeBoard(9);
      currentPlayer := Empty;
      status := NotStarted;
    }

    /** handleNewGame: a dimension of 0 (the falsy form value) changes nothing. A
        board too long for a JavaScript array makes `Array(formN * formN)` throw
        before any state is set, so it changes nothing either. Any other dimension
        starts a new game on an empty board with x to move. */
    method NewGame(formN: nat)
      requires Valid()
      modifies this
      ensures Valid()
      ensures formN == 0 || formN * formN >= MaxArrayLength ==>
                n == old(n) && board == old(board) && currentPlayer == old(currentPlayer) &&
                status == old(status)
      ensures formN != 0 && formN * formN < MaxArrayLength ==>
                n == formN && board == InitializeBoard(formN * formN) && currentPlayer == X &&
                status == Pending
    {
      if formN == 0 || formN * formN >= MaxArrayLength {
        return;
      }
      var cleared := InitializeBoard(formN * formN);
      EmptyBoardHasNoLine(cleared, formN, X);
      EmptyBoardHasNoLine(cleared, formN, O);
      CountEmpty(cleared, X);
      CountEmpty(cleared, O);
      assert cleared[0] == Empty;
      board := cleared;
      currentPlayer := X;
      status := Pending;
      n := formN;
    }

    /** handleEndGame, offered only while a game is in progress. */
    method EndGame()
      requires Valid() && status == Pending
      modifies this
      ensures Valid()
      ensures n == old(n) && board == old(board) && currentPlayer == Empty && status == Ended
    {
      currentPlayer := Empty;
      status := Ended;
    }

    /** handleClick on an empty cell of a game in progress: the current player takes
        the cell; a win or a tie ends the game, otherwise the turn passes. */
    method Click(idx: nat)
      requires Valid() && status == Pending && idx < n * n && board[idx] == Empty
      modifies this
      ensures Valid() && n == old(n)
      ensures board == old(board)[idx := old(currentPlayer)]
      ensures match CheckOutcome(board, idx, old(currentPlayer), n)
              case Win(p) => status == Won(p) && currentPlayer == Empty
              case Tie => status == Status.Tie && currentPlayer == Empty
              case NoOutcome => status == Pending && currentPlayer == Next(old(currentPlayer))
      ensures status == Won(old(currentPlayer)) <==> HasLine(board, n, old(currentPlayer))
      ensures status == Status.Tie <==> !HasLine(board, n, old(currentPlayer)) && Full(board)
      ensures status == Pending <==> !HasLine(board, n, old(currentPlayer)) && !Full(board)
    {
      var mover := currentPlayer;
      ghost var before := board;
      var nextBoard := board[idx := mover];
      board := nextBoard;
      OutcomeOfMove(before, idx, mover, n);
      NoLineForOthers(before, idx, mover, Next(mover), n);
      var outcome := CheckOutcome(nextBoard, idx, mover, n);
      if outcome != Outcome.NoOutcome {
        status := if outcome == Outcome.Tie then Status.Tie else Won(mover);
        currentPlayer := Empty;
        return;
      }
      CountWrite(before, idx, mover, X);
      CountWrite(before, idx, mover, O);
      currentPlayer := if mover == X then O else X;
    }
  }

  // Lemmas about boards

  /** Writing a player into an empty cell adds one to that player's count and
      leaves the other player's count alone. */
  lemma {:induction false} CountWrite(b: seq<Marker>, i: nat, m: Marker, p: Marker)
    requires i < |b| && b[i] == Empty && m.IsPlayer() && p.IsPlayer()
    ensures Count(b[i := m], p) == Count(b, p) + (if p == m then 1 else 0)
    decreases |b|
  {
    if i == 0 {
      assert b[i := m][1..] == b[1..];
    } else {
      assert b[i := m][1..] == b[1..][i - 1 := m];
      CountWrite(b[1..], i - 1, m, p);
    }
  }

  /** No player has been counted on an empty board. */
  lemma {:induction false} CountEmpty(b: seq<Marker>, p: Marker)
    requires p.IsPlayer() && forall i :: 0 <= i < |b| ==> b[i] == Empty
    ensures Count(b, p) == 0
    decreases |b|
  {
    if b != [] {
      CountEmpty(b[1..], p);
    }
  }

  /** An empty board holds no line of a player: every row, column and diagonal
      has at least one cell, and it is empty. */
  lemma EmptyBoardHasNoLine(b: seq<Marker>, n: nat, m: Marker)
    requires n >= 1 && |b| == n * n && m.IsPlayer()
    requires forall i :: 0 <= i < |b| ==> b[i] == Empty
    ensures !HasLine(b, n, m)
  {
    forall r | 0 <= r < n
      ensures r * n in RowOf(n, r)
    {
      Arith.Cell(r, 0, n);
    }
    forall c | 0 <= c < n
      ensures c in ColOf(n, c)
    {
      Arith.Cell(0, c, n);
    }
    Arith.Cell(0, 0, n);
    assert 0 in MainDiagonal(n);
    Arith.Cell(0, n - 1, n);
    assert n - 1 in AntiDiagonal(n);
  }
}
