/** Whole games on the 3-by-3 board: the outcome CheckOutcome reports after each
    move, which by the contract of Game.Click decides the status after it. Each
    board is the one handleClick passes to checkOutcome, with the move written. */
module Scenarios {
  import opened Markers
  import opened Lines
  import opened Outcomes

  /** A line with one cell not held by m is not all m. */
  lemma Blocked(board: seq<Marker>, line: seq<int>, m: Marker, k: nat)
    requires k < |line| && 0 <= line[k] < |board| && board[line[k]] != m
    ensures !AllAre(board, line, m)
  {
  }

  /** A line of three cells all held by m is all m. */
  lemma Completed(board: seq<Marker>, line: seq<int>, m: Marker)
    requires |line| == 3
    requires 0 <= line[0] < |board| && board[line[0]] == m
    requires 0 <= line[1] < |board| && board[line[1]] == m
    requires 0 <= line[2] < |board| && board[line[2]] == m
    ensures AllAre(board, line, m)
  {
  }

  /** A 3-by-3 board with no empty cell is full. */
  lemma NineFull(board: seq<Marker>)
    requires |board| == 9
    requires board[0] != Empty && board[1] != Empty && board[2] != Empty
    requires board[3] != Empty && board[4] != Empty && board[5] != Empty
    requires board[6] != Empty && board[7] != Empty && board[8] != Empty
    ensures Full(board)
  {
  }

  // The first two moves, shared by both games: x on 0, o on 1.

  /** x opens in the corner: nothing yet. */
  lemma CornerOpening()
    ensures CheckOutcome([X, Empty, Empty, Empty, Empty, Empty, Empty, Empty, Empty], 0, X, 3) == NoOutcome
  {
    RowsOfThree();
    ColsOfThree();
    DiagsOfThree();
    var b := [X, Empty, Empty, Empty, Empty, Empty, Empty, Empty, Empty];
    Blocked(b, Row(0, 3), X, 1);
    Blocked(b, Col(0, 3), X, 1);
    Blocked(b, Ltr(3), X, 1);
    assert b[1] == Empty;
  }

  /** o answers on the edge beside it: nothing yet. Both games continue from here. */
  lemma EdgeReply()
    ensures CheckOutcome([X, O, Empty, Empty, Empty, Empty, Empty, Empty, Empty], 1, O, 3) == NoOutcome
  {
    RowsOfThree();
    ColsOfThree();
    DiagsOfThree();
    var b := [X, O, Empty, Empty, Empty, Empty, Empty, Empty, Empty];
    Blocked(b, Row(1, 3), O, 1);
    Blocked(b, Col(1, 3), O, 1);
    assert b[2] == Empty;
  }

  // Column win: x goes on with 3 and 6, o with 4.

  /** x plays below the corner: two of the left column, nothing yet. */
  lemma ColumnWinMove3()
    ensures CheckOutcome([X, O, Empty, X, Empty, Empty, Empty, Empty, Empty], 3, X, 3) == NoOutcome
  {
    RowsOfThree();
    ColsOfThree();
    DiagsOfThree();
    var b := [X, O, Empty, X, Empty, Empty, Empty, Empty, Empty];
    Blocked(b, Row(3, 3), X, 1);
    Blocked(b, Col(3, 3), X, 2);
    assert b[2] == Empty;
  }

  /** o takes the centre: nothing yet. */
  lemma ColumnWinMove4()
    ensures CheckOutcome([X, O, Empty, X, O, Empty, Empty, Empty, Empty], 4, O, 3) == NoOutcome
  {
    RowsOfThree();
    ColsOfThree();
    DiagsOfThree();
    var b := [X, O, Empty, X, O, Empty, Empty, Empty, Empty];
    Blocked(b, Row(4, 3), O, 1);
    Blocked(b, Col(4, 3), O, 2);
    Blocked(b, Ltr(3), O, 0);
    Blocked(b, Rtl(3), O, 0);
    assert b[2] == Empty;
  }

  /** x completes the left column 0, 3, 6 and wins. */
  lemma ColumnWinMove5()
    ensures CheckOutcome([X, O, Empty, X, O, Empty, X, Empty, Empty], 6, X, 3) == Win(X)
  {
    RowsOfThree();
    ColsOfThree();
    var b := [X, O, Empty, X, O, Empty, X, Empty, Empty];
    Blocked(b, Row(6, 3), X, 1);
    Completed(b, Col(6, 3), X);
  }

  // Tie: x ends up on 0, 2, 3, 7 and 8, o on 1, 4, 5 and 6.

  /** x plays 2. */
  lemma TieMove3()
    ensures CheckOutcome([X, O, X, Empty, Empty, Empty, Empty, Empty, Empty], 2, X, 3) == NoOutcome
  {
    RowsOfThree();
    ColsOfThree();
    DiagsOfThree();
    var b := [X, O, X, Empty, Empty, Empty, Empty, Empty, Empty];
    Blocked(b, Row(2, 3), X, 1);
    Blocked(b, Col(2, 3), X, 1);
    Blocked(b, Rtl(3), X, 1);
    assert b[3] == Empty;
  }

  /** o takes the centre. */
  lemma TieMove4()
    ensures CheckOutcome([X, O, X, Empty, O, Empty, Empty, Empty, Empty], 4, O, 3) == NoOutcome
  {
    RowsOfThree();
    ColsOfThree();
    DiagsOfThree();
    var b := [X, O, X, Empty, O, Empty, Empty, Empty, Empty];
    Blocked(b, Row(4, 3), O, 1);
    Blocked(b, Col(4, 3), O, 2);
    Blocked(b, Ltr(3), O, 0);
    Blocked(b, Rtl(3), O, 0);
    assert b[3] == Empty;
  }

  /** x plays 3. */
  lemma TieMove5()
    ensures CheckOutcome([X, O, X, X, O, Empty, Empty, Empty, Empty], 3, X, 3) == NoOutcome
  {
    RowsOfThree();
    ColsOfThree();
    DiagsOfThree();
    var b := [X, O, X, X, O, Empty, Empty, Empty, Empty];
    Blocked(b, Row(3, 3), X, 1);
    Blocked(b, Col(3, 3), X, 2);
    assert b[5] == Empty;
  }

  /** o plays 5. */
  lemma TieMove6()
    ensures CheckOutcome([X, O, X, X, O, O, Empty, Empty, Empty], 5, O, 3) == NoOutcome
  {
    RowsOfThree();
    ColsOfThree();
    DiagsOfThree();
    var b := [X, O, X, X, O, O, Empty, Empty, Empty];
    Blocked(b, Row(5, 3), O, 2);
    Blocked(b, Col(5, 3), O, 1);
    assert b[6] == Empty;
  }

  /** x plays 7. */
  lemma TieMove7()
    ensures CheckOutcome([X, O, X, X, O, O, Empty, X, Empty], 7, X, 3) == NoOutcome
  {
    RowsOfThree();
    ColsOfThree();
    DiagsOfThree();
    var b := [X, O, X, X, O, O, Empty, X, Empty];
    Blocked(b, Row(7, 3), X, 1);
    Blocked(b, Col(7, 3), X, 1);
    assert b[6] == Empty;
  }

  /** o plays 6, blocking the anti-diagonal. */
  lemma TieMove8()
    ensures CheckOutcome([X, O, X, X, O, O, O, X, Empty], 6, O, 3) == NoOutcome
  {
    RowsOfThree();
    ColsOfThree();
    DiagsOfThree();
    var b := [X, O, X, X, O, O, O, X, Empty];
    Blocked(b, Row(6, 3), O, 1);
    Blocked(b, Col(6, 3), O, 1);
    Blocked(b, Rtl(3), O, 0);
    assert b[8] == Empty;
  }

  /** x fills the last cell without a line: a tie. */
  lemma TieMove9()
    ensures CheckOutcome([X, O, X, X, O, O, O, X, X], 8, X, 3) == Tie
  {
    RowsOfThree();
    ColsOfThree();
    DiagsOfThree();
    var b := [X, O, X, X, O, O, O, X, X];
    Blocked(b, Row(8, 3), X, 2);
    Blocked(b, Col(8, 3), X, 1);
    Blocked(b, Ltr(3), X, 1);
    NineFull(b);
  }
}
