/** Line index builders: the cell indices of a move's row and column and of the two
    diagonals, on an n-by-n board flattened row-major (index = row * n + col).

    Row gives the exact sequence getRow builds, position by position. The column
    and diagonal loops are mirrored by two recursive functions, Down and Up, that
    push exactly what the loops push; the methods are proved to build those
    sequences, and the lemmas give their closed forms and the cells they cover. */
module Lines {
  import opened Arith

  /** No index occurs twice. */
  predicate Distinct(s: seq<int>) {
    forall a, b :: 0 <= a < b < |s| ==> s[a] != s[b]
  }

  /** The row of idx as getRow pushes it: idx, then leftwards down to the first cell
      of the row (idx % n cells), then rightwards from idx + 1 up to the last cell. */
  function Row(idx: nat, n: nat): seq<int>
    requires n >= 1
  {
    seq(n, k => if k <= idx % n then idx - k else idx + k - idx % n)
  }

  /** The indices from i downwards in steps of n, for as long as they are not
      negative: what the upward walk of the column collects. */
  function Down(i: int, n: nat): seq<int>
    requires n >= 1
    decreases i + n
  {
    if i >= 0 then [i] + Down(i - n, n) else []
  }

  /** The indices from j upwards in steps of step, for as long as they stay below
      bound: what the downward walk of the column and the two diagonal walks
      collect. */
  function Up(j: int, step: int, bound: int): seq<int>
    requires step >= 1
    decreases bound - j
  {
    if j < bound then [j] + Up(j + step, step, bound) else []
  }

  /** The column of idx as getCol pushes it: idx, then upwards one row at a time,
      then downwards one row at a time. */
  function Col(idx: nat, n: nat): seq<int>
    requires n >= 1
  {
    [idx as int] + Down(idx - n, n) + Up(idx + n, n, n * n)
  }

  /** The left-to-right diagonal: 0, n + 1, 2 * (n + 1), ... while below n * n. */
  function Ltr(n: nat): seq<int>
  {
    Up(0, n + 1, n * n)
  }

  /** The right-to-left diagonal: n - 1, 2 * (n - 1), ... while at most n * n - n.
      The step is n - 1, so the loop it mirrors only terminates for n >= 2. */
  function Rtl(n: nat): seq<int>
    requires n >= 2
  {
    Up(n - 1, n - 1, n * n - n + 1)
  }

  /** getRow: two counting loops, one to the left of idx and one to its right. */
  method GetRow(idx: nat, n: nat) returns (row: seq<int>)
    requires n >= 1
    ensures row == Row(idx, n)
  {
    ghost var c := idx % n;
    ghost var start := idx - c;
    row := [idx];
    var i := idx;
    var j := idx + 1;
    while i % n != 0
      invariant start <= i <= idx
      invariant |row| == 1 + (idx - i) && row[0] == idx
      invariant forall k :: 1 <= k < |row| ==> row[k] == idx - k
      decreases i
    {
      RowOffset(i, idx, n);
      i := i - 1;
      row := row + [i];
    }
    RowOffset(i, idx, n);
    assert i == start;
    while j % n != 0
      invariant idx + 1 <= j <= start + n
      invariant |row| == 1 + c + (j - idx - 1) && row[0] == idx
      invariant forall k :: 1 <= k <= c ==> row[k] == idx - k
      invariant forall k :: c < k < |row| ==> row[k] == idx + k - c
      decreases start + n - j
    {
      if j == start + n {
        NextRowStart(idx, n);
      }
      row := row + [j];
      j := j + 1;
    }
    if j < start + n {
      RowOffset(j, idx, n);
    }
    RowFromPositions(idx, n, c, row);
  }

  /** A sequence holding, at each position, what Row puts there is Row. */
  lemma RowFromPositions(idx: nat, n: nat, c: int, row: seq<int>)
    requires n >= 1 && c == idx % n && |row| == n && row[0] == idx
    requires forall k :: 1 <= k <= c ==> row[k] == idx - k
    requires forall k :: c < k < |row| ==> row[k] == idx + k - c
    ensures row == Row(idx, n)
  {
    assert forall k :: 0 <= k < n ==> row[k] == Row(idx, n)[k];
  }

  /** getCol: walks up from idx - n while non-negative, then down from idx + n while
      below n * n. */
  method GetCol(idx: nat, n: nat) returns (col: seq<int>)
    requires n >= 1
    ensures col == Col(idx, n)
  {
    col := [idx];
    var i := idx - n;
    var j := idx + n;
    while i >= 0
      invariant col + Down(i, n) == [idx] + Down(idx - n, n)
      decreases i + n
    {
      col := col + [i];
      i := i - n;
    }
    while j < n * n
      invariant col + Up(j, n, n * n) == Col(idx, n)
      decreases n * n - j
    {
      col := col + [j];
      j := j + n;
    }
  }

  /** getDiags: the two diagonals; requires n >= 2 because the right-to-left loop
      steps by n - 1. */
  method GetDiags(n: nat) returns (ltr: seq<int>, rtl: seq<int>)
    requires n >= 2
    ensures ltr == Ltr(n) && rtl == Rtl(n)
  {
    ltr := [];
    var i := 0;
    while i < n * n
      invariant ltr + Up(i, n + 1, n * n) == Ltr(n)
      decreases n * n - i
    {
      ltr := ltr + [i];
      i := i + n + 1;
    }
    rtl := [];
    var j := n - 1;
    while j <= n * n - n
      invariant rtl + Up(j, n - 1, n * n - n + 1) == Rtl(n)
      decreases n * n - n - j
    {
      rtl := rtl + [j];
      j := j + n - 1;
    }
  }

  // Closed forms of the loop sequences

  /** Down from i pushes m values i, i - n, ..., i - (m - 1) * n, where m counts the
      non-negative ones. */
  lemma {:induction false} DownClosed(i: int, n: nat, m: nat)
    requires n >= 1 && i < m * n && (m > 0 ==> (m - 1) * n <= i)
    ensures Down(i, n) == seq(m, k => i - k * n)
    decreases m
  {
    if m > 0 {
      assert (m - 1) * n == m * n - n;
      if m > 1 {
        assert (m - 2) * n == (m - 1) * n - n;
      }
      DownClosed(i - n, n, m - 1);
      forall k | 1 <= k < m
        ensures i - n - (k - 1) * n == i - k * n
      {
        assert (k - 1) * n == k * n - n;
      }
    }
  }

  /** Up from j pushes m values j, j + step, ..., j + (m - 1) * step, where m counts
      the ones below the bound. */
  lemma {:induction false} UpClosed(j: int, step: int, bound: int, m: nat)
    requires step >= 1 && bound <= j + m * step && (m > 0 ==> j + (m - 1) * step < bound)
    ensures Up(j, step, bound) == seq(m, k => j + k * step)
    decreases m
  {
    if m > 0 {
      assert (m - 1) * step == m * step - step;
      if m > 1 {
        assert (m - 2) * step == (m - 1) * step - step;
      }
      UpClosed(j + step, step, bound, m - 1);
      forall k | 1 <= k < m
        ensures j + step + (k - 1) * step == j + k * step
      {
        assert (k - 1) * step == k * step - step;
      }
    } else {
      assert bound <= j;
    }
  }

  // The cells each line covers

  /** getRow returns exactly the n cells of idx's row, each once, idx first. */
  lemma RowCells(idx: nat, n: nat)
    requires n >= 1 && idx < n * n
    ensures |Row(idx, n)| == n && Row(idx, n)[0] == idx && Distinct(Row(idx, n))
    ensures forall x :: x in Row(idx, n) <==> 0 <= x < n * n && x / n == idx / n
  {
    var q, c := SplitCell(idx, n);
    DivModInBlock(idx, n, q);
    MulMono(q + 1, n, n);
    MulMono(0, q, n);
    RowBlock(idx, n, q * n, c);
    forall x
      ensures x in Row(idx, n) <==> 0 <= x < n * n && x / n == q
    {
      if q * n <= x < q * n + n {
        DivModInBlock(x, n, q);
      } else if 0 <= x < n * n && x / n == q {
        BlockOf(x, n);
        assert false;
      }
    }
  }

  /** The row of idx = start + c, for a row starting at start, is the block
      [start, start + n) without repeats. */
  lemma RowBlock(idx: nat, n: nat, start: int, c: int)
    requires n >= 1 && 0 <= c < n && c == idx % n && idx == start + c
    ensures Distinct(Row(idx, n))
    ensures forall x :: x in Row(idx, n) <==> start <= x < start + n
  {
    var row := Row(idx, n);
    forall x | start <= x < start + n
      ensures x in row
    {
      var k := if x <= idx then idx - x else x - start;
      assert row[k] == x;
    }
  }

  /** The upward walk of getCol from the cell at row q and column c visits rows
      q - 1, q - 2, ..., 0. */
  lemma ColWalkUp(idx: nat, n: nat, q: int, c: int)
    requires n >= 1 && 0 <= q < n && 0 <= c < n && idx == q * n + c
    ensures Down(idx - n, n) == seq(q, k => (q - 1 - k) * n + c)
  {
    assert (q - 1) * n == q * n - n;
    DownClosed(idx - n, n, q);
    forall k | 0 <= k < q
      ensures idx - n - k * n == (q - 1 - k) * n + c
    {
      assert (q - 1 - k) * n == q * n - n - k * n;
    }
  }

  /** Walking down a column from row r visits rows r, r + 1, ..., n - 1. */
  lemma {:induction false} ColWalkFrom(r: int, c: int, n: nat)
    requires 0 <= r <= n && 0 <= c < n
    ensures Up(r * n + c, n, n * n) == seq(n - r, k => (r + k) * n + c)
    decreases n - r
  {
    BlockLess(r, c, n, n);
    if r < n {
      assert r * n + c + n == (r + 1) * n + c;
      ColWalkFrom(r + 1, c, n);
    }
  }

  /** The downward walk of getCol from the cell at row q and column c visits rows
      q + 1, q + 2, ..., n - 1. */
  lemma ColWalkDown(idx: nat, n: nat, q: int, c: int)
    requires n >= 1 && 0 <= q < n && 0 <= c < n && idx == q * n + c
    ensures Up(idx + n, n, n * n) == seq(n - 1 - q, k => (q + 1 + k) * n + c)
  {
    assert idx + n == (q + 1) * n + c;
    ColWalkFrom(q + 1, c, n);
  }

  /** The board row of the k-th entry of the column list of a cell in row q. */
  function RowOfColEntry(k: int, q: int): int
  {
    if k <= q then q - k else k
  }

  /** Position k of the column list of the cell at row q, column c is the cell at
      row RowOfColEntry(k, q), column c. */
  lemma ColClosed(idx: nat, n: nat, q: int, c: int)
    requires n >= 1 && 0 <= q < n && 0 <= c < n && idx == q * n + c
    ensures |Col(idx, n)| == n
    ensures forall k :: 0 <= k < n ==> Col(idx, n)[k] == RowOfColEntry(k, q) * n + c
  {
    ColWalkUp(idx, n, q, c);
    ColWalkDown(idx, n, q, c);
  }

  /** getCol returns exactly the n cells of idx's column, each once, idx first. */
  lemma ColCells(idx: nat, n: nat)
    requires n >= 1 && idx < n * n
    ensures |Col(idx, n)| == n && Col(idx, n)[0] == idx && Distinct(Col(idx, n))
    ensures forall x :: x in Col(idx, n) <==> 0 <= x < n * n && x % n == idx % n
  {
    Uncell(idx, n);
    var q, c := idx / n, idx % n;
    ColClosed(idx, n, q, c);
    var col := Col(idx, n);
    forall x
      ensures x in col <==> 0 <= x < n * n && x % n == c
    {
      if x in col {
        var k :| 0 <= k < n && col[k] == x;
        Cell(RowOfColEntry(k, q), c, n);
      }
      if 0 <= x < n * n && x % n == c {
        Uncell(x, n);
        var r := x / n;
        assert col[if r <= q then q - r else r] == x;
      }
    }
    forall a, b | 0 <= a < b < n
      ensures col[a] != col[b]
    {
      Cell(RowOfColEntry(a, q), c, n);
      Cell(RowOfColEntry(b, q), c, n);
    }
  }

  /** Position k of the left-to-right diagonal is the cell at row k, column k. */
  lemma LtrClosed(n: nat)
    requires n >= 1
    ensures Ltr(n) == seq(n, k => k * n + k)
  {
    assert n * (n + 1) == n * n + n;
    assert (n - 1) * (n + 1) == n * n - 1;
    UpClosed(0, n + 1, n * n, n);
    forall k | 0 <= k < n
      ensures k * (n + 1) == k * n + k
    {
    }
  }

  /** A cell on the main diagonal is a multiple of n + 1. */
  lemma MainDiagonalIsMultiple(k: int, n: nat)
    requires 0 <= k < n
    ensures (k * n + k) % (n + 1) == 0
  {
    assert k * n + k == k * (n + 1);
    DivModInBlock(k * n + k, n + 1, k);
  }

  /** A multiple of n + 1 below n * n lies on the main diagonal. */
  lemma MultipleIsOnMainDiagonal(x: int, n: nat)
    requires n >= 1 && 0 <= x < n * n && x % (n + 1) == 0
    ensures x / n == x % n
  {
    BlockOf(x, n + 1);
    var k := x / (n + 1);
    if k >= n {
      MulMono(n, k, n + 1);
    }
    assert x == k * n + k;
    Cell(k, k, n);
  }

  /** A cell below n * n is a multiple of n + 1 exactly when its row equals its column. */
  lemma MainDiagonalByModulus(x: int, n: nat)
    requires n >= 1 && 0 <= x < n * n
    ensures x % (n + 1) == 0 <==> x / n == x % n
  {
    Uncell(x, n);
    if x / n == x % n {
      assert x == (x / n) * n + x / n;
      MainDiagonalIsMultiple(x / n, n);
    }
    if x % (n + 1) == 0 {
      MultipleIsOnMainDiagonal(x, n);
    }
  }

  /** The left-to-right diagonal holds the n cells whose row equals their column,
      from 0 to n * n - 1, each once; equivalently the cells below n * n that are
      multiples of n + 1. */
  lemma LtrCells(n: nat)
    requires n >= 1
    ensures |Ltr(n)| == n && Ltr(n)[0] == 0 && Ltr(n)[n - 1] == n * n - 1 && Distinct(Ltr(n))
    ensures forall x :: x in Ltr(n) <==> 0 <= x < n * n && x / n == x % n
    ensures forall x :: x in Ltr(n) <==> 0 <= x < n * n && x % (n + 1) == 0
  {
    LtrClosed(n);
    var d := Ltr(n);
    assert d[n - 1] == n * n - 1 by {
      assert (n - 1) * n == n * n - n;
    }
    forall a, b | 0 <= a < b < n
      ensures d[a] != d[b]
    {
      Cell(a, a, n);
      Cell(b, b, n);
    }
    forall x
      ensures x in d <==> 0 <= x < n * n && x / n == x % n
    {
      if x in d {
        var k :| 0 <= k < n && d[k] == x;
        Cell(k, k, n);
      }
      if 0 <= x < n * n && x / n == x % n {
        Uncell(x, n);
        assert d[x / n] == x;
      }
    }
    forall x | 0 <= x < n * n
      ensures x % (n + 1) == 0 <==> x / n == x % n
    {
      MainDiagonalByModulus(x, n);
    }
  }

  /** Position k of the right-to-left diagonal is the cell at row k, column n - 1 - k. */
  lemma RtlClosed(n: nat)
    requires n >= 2
    ensures Rtl(n) == seq(n, k => k * n + (n - 1 - k))
  {
    assert n * (n - 1) == n * n - n;
    assert (n - 1) * (n - 1) == n * n - 2 * n + 1;
    UpClosed(n - 1, n - 1, n * n - n + 1, n);
    forall k | 0 <= k < n
      ensures n - 1 + k * (n - 1) == k * n + (n - 1 - k)
    {
      assert k * (n - 1) == k * n - k;
    }
  }

  /** The right-to-left diagonal holds the n cells whose row and column add up to
      n - 1, from n - 1 to n * n - n, each once. */
  lemma RtlCells(n: nat)
    requires n >= 2
    ensures |Rtl(n)| == n && Rtl(n)[0] == n - 1 && Rtl(n)[n - 1] == n * n - n && Distinct(Rtl(n))
    ensures forall x :: x in Rtl(n) <==> 0 <= x < n * n && x / n + x % n == n - 1
  {
    RtlClosed(n);
    var d := Rtl(n);
    assert d[n - 1] == n * n - n by {
      assert (n - 1) * n == n * n - n;
    }
    forall a, b | 0 <= a < b < n
      ensures d[a] != d[b]
    {
      Cell(a, n - 1 - a, n);
      Cell(b, n - 1 - b, n);
    }
    forall x
      ensures x in d <==> 0 <= x < n * n && x / n + x % n == n - 1
    {
      if x in d {
        var k :| 0 <= k < n && d[k] == x;
        Cell(k, n - 1 - k, n);
      }
      if 0 <= x < n * n && x / n + x % n == n - 1 {
        Uncell(x, n);
        assert d[x / n] == x;
      }
    }
  }

  // The lines of the classic 3-by-3 board

  /** The rows getRow builds on a 3-by-3 board: the played cell, the cells to its
      left walking back, then the cells to its right. */
  lemma RowsOfThree()
    ensures Row(0, 3) == [0, 1, 2] && Row(1, 3) == [1, 0, 2] && Row(2, 3) == [2, 1, 0]
    ensures Row(3, 3) == [3, 4, 5] && Row(4, 3) == [4, 3, 5] && Row(5, 3) == [5, 4, 3]
    ensures Row(6, 3) == [6, 7, 8] && Row(7, 3) == [7, 6, 8] && Row(8, 3) == [8, 7, 6]
  {
  }

  /** The columns getCol builds on a 3-by-3 board: the played cell, the cells above
      it walking up, then the cells below it. */
  lemma ColsOfThree()
    ensures Col(0, 3) == [0, 3, 6] && Col(1, 3) == [1, 4, 7] && Col(2, 3) == [2, 5, 8]
    ensures Col(3, 3) == [3, 0, 6] && Col(4, 3) == [4, 1, 7] && Col(5, 3) == [5, 2, 8]
    ensures Col(6, 3) == [6, 3, 0] && Col(7, 3) == [7, 4, 1] && Col(8, 3) == [8, 5, 2]
  {
    assert Down(-3, 3) == [] && Down(-2, 3) == [] && Down(-1, 3) == [];
    assert Up(9, 3, 9) == [] && Up(10, 3, 9) == [] && Up(11, 3, 9) == [];
  }

  /** The diagonals getDiags builds on a 3-by-3 board. */
  lemma DiagsOfThree()
    ensures Ltr(3) == [0, 4, 8] && Rtl(3) == [2, 4, 6]
  {
  }
}
