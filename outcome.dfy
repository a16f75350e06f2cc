/** The outcome evaluator: after a move, does the mover complete a line through the
    cell just played, or is the board full?

    CheckOutcome follows the original's checks in their order (row, column,
    left-to-right diagonal, right-to-left diagonal, full board). The geometric
    definition of a line (HasLine) is stated independently, by rows and columns of
    cells, and the lemmas below show that the local check is sound, and complete
    whenever the mover had no line before the move. */
module Outcomes {
  import opened Markers
  import opened Lines
  import opened Arith

  /** A winner, a tie, or nothing yet (the original returns undefined). */
  datatype Outcome = Win(player: Marker) | Tie | NoOutcome

  /** Every index of the line names a cell of the board holding m. An index
      outside the board names no cell, so it never holds a marker. */
  predicate AllAre(board: seq<Marker>, line: seq<int>, m: Marker)
  {
    forall k | 0 <= k < |line| :: 0 <= line[k] < |board| && board[line[k]] == m
  }

  /** Every cell of the board holds a player's marker. */
  predicate Full(board: seq<Marker>)
  {
    forall i | 0 <= i < |board| :: board[i] != Empty
  }

  /** checkOutcome for the move just written at index move by mover. */
  function CheckOutcome(board: seq<Marker>, move: nat, mover: Marker, n: nat): (o: Outcome)
    requires n >= 1 && |board| == n * n && move < |board| && board[move] == mover
    ensures o.Win? ==> o.player == mover
    ensures o == Tie ==> Full(board)
    ensures o == NoOutcome ==> !Full(board)
    ensures n == 1 ==> o == Win(mover)
  {
    if AllAre(board, Row(move, n), mover) then Win(mover)
    else if AllAre(board, Col(move, n), mover) then Win(mover)
    else
      assert n >= 2 by {
        if n == 1 {
          OneCellRow(board, move, mover);
        }
      }
      var ltr := Ltr(n);
      var rtl := Rtl(n);
      if move in ltr && AllAre(board, ltr, mover) then Win(mover)
      else if move in rtl && AllAre(board, rtl, mover) then Win(mover)
      else if Full(board) then Tie
      else NoOutcome
  }

  /** On a 1-by-1 board the row of the only cell is that cell, so the row check
      fires as soon as the cell holds the mover. */
  lemma OneCellRow(board: seq<Marker>, move: nat, mover: Marker)
    requires |board| == 1 && move < 1 && board[move] == mover
    ensures AllAre(board, Row(move, 1), mover)
  {
    assert Row(move, 1) == [0];
  }

  // The geometry of the board, stated independently of the line builders

  /** The cells of row r. */
  ghost function RowOf(n: nat, r: int): set<int>
    requires n >= 1
  {
    set x | 0 <= x < n * n && x / n == r
  }

  /** The cells of column c. */
  ghost function ColOf(n: nat, c: int): set<int>
    requires n >= 1
  {
    set x | 0 <= x < n * n && x % n == c
  }

  /** The cells whose row equals their column. */
  ghost function MainDiagonal(n: nat): set<int>
    requires n >= 1
  {
    set x | 0 <= x < n * n && x / n == x % n
  }

  /** The cells whose row and column add up to n - 1. */
  ghost function AntiDiagonal(n: nat): set<int>
    requires n >= 1
  {
    set x | 0 <= x < n * n && x / n + x % n == n - 1
  }

  /** Every cell of the set holds m. */
  ghost predicate Filled(board: seq<Marker>, cells: set<int>, m: Marker)
  {
    forall x | x in cells :: 0 <= x < |board| && board[x] == m
  }

  /** m holds a whole row, column or diagonal. */
  ghost predicate HasLine(board: seq<Marker>, n: nat, m: Marker)
    requires n >= 1
  {
    (exists r | 0 <= r < n :: Filled(board, RowOf(n, r), m)) ||
    (exists c | 0 <= c < n :: Filled(board, ColOf(n, c), m)) ||
    Filled(board, MainDiagonal(n), m) ||
    Filled(board, AntiDiagonal(n), m)
  }

  // Each check of CheckOutcome tests exactly one geometric line

  /** A check over a list of indices tests exactly the cells the list covers. */
  lemma AllAreCells(board: seq<Marker>, line: seq<int>, cells: set<int>, m: Marker)
    requires forall x :: x in line <==> x in cells
    ensures AllAre(board, line, m) <==> Filled(board, cells, m)
  {
    if AllAre(board, line, m) {
      forall x | x in cells
        ensures 0 <= x < |board| && board[x] == m
      {
        var k :| 0 <= k < |line| && line[k] == x;
      }
    }
    if Filled(board, cells, m) {
      forall k | 0 <= k < |line|
        ensures 0 <= line[k] < |board| && board[line[k]] == m
      {
        assert line[k] in line;
      }
    }
  }

  /** The row check tests the row of the move. */
  lemma RowCheck(board: seq<Marker>, move: nat, n: nat, m: Marker)
    requires n >= 1 && move < n * n
    ensures AllAre(board, Row(move, n), m) <==> Filled(board, RowOf(n, move / n), m)
  {
    RowCells(move, n);
    AllAreCells(board, Row(move, n), RowOf(n, move / n), m);
  }

  /** The column check tests the column of the move. */
  lemma ColCheck(board: seq<Marker>, move: nat, n: nat, m: Marker)
    requires n >= 1 && move < n * n
    ensures AllAre(board, Col(move, n), m) <==> Filled(board, ColOf(n, move % n), m)
  {
    ColCells(move, n);
    AllAreCells(board, Col(move, n), ColOf(n, move % n), m);
  }

  /** The left-to-right check tests the main diagonal, when the move is on it. */
  lemma LtrCheck(board: seq<Marker>, move: nat, n: nat, m: Marker)
    requires n >= 1 && move < n * n
    ensures move in Ltr(n) <==> move in MainDiagonal(n)
    ensures AllAre(board, Ltr(n), m) <==> Filled(board, MainDiagonal(n), m)
  {
    LtrCells(n);
    AllAreCells(board, Ltr(n), MainDiagonal(n), m);
  }

  /** The right-to-left check tests the anti-diagonal, when the move is on it. */
  lemma RtlCheck(board: seq<Marker>, move: nat, n: nat, m: Marker)
    requires n >= 2 && move < n * n
    ensures move in Rtl(n) <==> move in AntiDiagonal(n)
    ensures AllAre(board, Rtl(n), m) <==> Filled(board, AntiDiagonal(n), m)
  {
    RtlCells(n);
    AllAreCells(board, Rtl(n), AntiDiagonal(n), m);
  }

  // Soundness and completeness of the local check

  /** A line the move filled either was already filled, or runs through the move
      and is filled with the mover. */
  lemma FilledAfterMove(before: seq<Marker>, move: nat, mover: Marker, cells: set<int>, m: Marker)
    requires move < |before|
    ensures Filled(before[move := mover], cells, m) ==>
              Filled(before, cells, m) || (move in cells && m == mover)
  {
    if Filled(before[move := mover], cells, m) && move !in cells {
      forall x | x in cells
        ensures 0 <= x < |before| && before[x] == m
      {
        assert before[move := mover][x] == before[x];
      }
    }
  }

  /** A reported win is a line of the mover, through the move. */
  lemma WinIsLine(board: seq<Marker>, move: nat, mover: Marker, n: nat)
    requires n >= 1 && |board| == n * n && move < |board| && board[move] == mover
    ensures CheckOutcome(board, move, mover, n).Win? ==>
              CheckOutcome(board, move, mover, n) == Win(mover) && HasLine(board, n, mover)
  {
    Uncell(move, n);
    RowCheck(board, move, n, mover);
    ColCheck(board, move, n, mover);
    LtrCheck(board, move, n, mover);
    if n >= 2 {
      RtlCheck(board, move, n, mover);
    }
  }

  /** A filled row through the move is reported as a win. */
  lemma RowWin(board: seq<Marker>, move: nat, mover: Marker, n: nat)
    requires n >= 1 && |board| == n * n && move < |board| && board[move] == mover
    requires Filled(board, RowOf(n, move / n), mover)
    ensures CheckOutcome(board, move, mover, n) == Win(mover)
  {
    RowCheck(board, move, n, mover);
  }

  /** A filled column through the move is reported as a win. */
  lemma ColWin(board: seq<Marker>, move: nat, mover: Marker, n: nat)
    requires n >= 1 && |board| == n * n && move < |board| && board[move] == mover
    requires Filled(board, ColOf(n, move % n), mover)
    ensures CheckOutcome(board, move, mover, n) == Win(mover)
  {
    ColCheck(board, move, n, mover);
  }

  /** A filled main diagonal through the move is reported as a win. */
  lemma LtrWin(board: seq<Marker>, move: nat, mover: Marker, n: nat)
    requires n >= 1 && |board| == n * n && move < |board| && board[move] == mover
    requires move in MainDiagonal(n) && Filled(board, MainDiagonal(n), mover)
    ensures CheckOutcome(board, move, mover, n) == Win(mover)
  {
    LtrCheck(board, move, n, mover);
  }

  /** A filled anti-diagonal through the move is reported as a win. */
  lemma RtlWin(board: seq<Marker>, move: nat, mover: Marker, n: nat)
    requires n >= 1 && |board| == n * n && move < |board| && board[move] == mover
    requires move in AntiDiagonal(n) && Filled(board, AntiDiagonal(n), mover)
    ensures CheckOutcome(board, move, mover, n) == Win(mover)
  {
    if n == 1 {
      OneCellRow(board, move, mover);
    } else {
      RtlCheck(board, move, n, mover);
    }
  }

  /** If the mover had no line before the move, every line of the mover after it
      runs through the move, and CheckOutcome finds it. */
  lemma LineIsWin(before: seq<Marker>, move: nat, mover: Marker, n: nat)
    requires n >= 1 && |before| == n * n && move < n * n && !HasLine(before, n, mover)
    ensures HasLine(before[move := mover], n, mover) ==>
              CheckOutcome(before[move := mover], move, mover, n) == Win(mover)
  {
    var board := before[move := mover];
    if exists r | 0 <= r < n :: Filled(board, RowOf(n, r), mover) {
      var r :| 0 <= r < n && Filled(board, RowOf(n, r), mover);
      FilledAfterMove(before, move, mover, RowOf(n, r), mover);
      RowWin(board, move, mover, n);
    } else if exists c | 0 <= c < n :: Filled(board, ColOf(n, c), mover) {
      var c :| 0 <= c < n && Filled(board, ColOf(n, c), mover);
      FilledAfterMove(before, move, mover, ColOf(n, c), mover);
      ColWin(board, move, mover, n);
    } else if Filled(board, MainDiagonal(n), mover) {
      FilledAfterMove(before, move, mover, MainDiagonal(n), mover);
      LtrWin(board, move, mover, n);
    } else if Filled(board, AntiDiagonal(n), mover) {
      FilledAfterMove(before, move, mover, AntiDiagonal(n), mover);
      RtlWin(board, move, mover, n);
    }
  }

  /** After a move by mover into a board where no player has a line yet, the
      outcome is a win exactly when the mover now has a line, a tie exactly when
      there is no line and the board is full, and nothing otherwise. */
  lemma OutcomeOfMove(before: seq<Marker>, move: nat, mover: Marker, n: nat)
    requires n >= 1 && |before| == n * n && move < n * n && !HasLine(before, n, mover)
    ensures var board := before[move := mover];
            var o := CheckOutcome(board, move, mover, n);
            (o == Win(mover) <==> HasLine(board, n, mover)) &&
            (o == Tie <==> !HasLine(board, n, mover) && Full(board)) &&
            (o == NoOutcome <==> !HasLine(board, n, mover) && !Full(board))
  {
    var board := before[move := mover];
    WinIsLine(board, move, mover, n);
    LineIsWin(before, move, mover, n);
  }

  /** A move gives no line to any player other than the mover. */
  lemma NoLineForOthers(before: seq<Marker>, move: nat, mover: Marker, p: Marker, n: nat)
    requires n >= 1 && |before| == n * n && move < n * n && p != mover && !HasLine(before, n, p)
    ensures !HasLine(before[move := mover], n, p)
  {
    var board := before[move := mover];
    forall cells | Filled(board, cells, p)
      ensures Filled(before, cells, p)
    {
      FilledAfterMove(before, move, mover, cells, p);
    }
  }

  /** Example: the one-cell first-move board, the only first move a 1-by-1 game
      has; it is the n == 1 clause of CheckOutcome's contract on that board. */
  lemma OneByOneFirstMoveWins(m: Marker)
    requires m.IsPlayer()
    ensures CheckOutcome([Empty][0 := m], 0, m, 1) == Win(m)
  {
    OneCellRow([m], 0, m);
  }
}
