/** Facts about Euclidean division that the row-major board layout relies on:
    for a board of side n, the cell at row q and column c has index q * n + c. */
module Arith {

  /** Multiplication by a non-negative factor is monotonic. */
  lemma MulMono(a: int, b: int, n: int)
    requires n >= 0 && a <= b
    ensures a * n <= b * n
  {
    assert b * n - a * n == (b - a) * n;
  }

  /** An index lying in the block [q * n, q * n + n) has quotient q and remainder x - q * n. */
  lemma DivModInBlock(x: int, n: int, q: int)
    requires n >= 1 && q * n <= x < q * n + n
    ensures x / n == q && x % n == x - q * n
  {
    var d := x / n;
    assert x == d * n + x % n;
    if d > q {
      MulMono(q + 1, d, n);
      assert false;
    } else if d < q {
      MulMono(d + 1, q, n);
      assert false;
    }
  }

  /** Every non-negative index lies in the block of its own quotient. */
  lemma BlockOf(x: int, n: int)
    requires n >= 1
    ensures x == (x / n) * n + x % n && 0 <= x % n < n
  {
  }

  /** Comparing q * n + c (with 0 <= c < n) against a multiple p * n compares q against p. */
  lemma BlockLess(q: int, c: int, p: int, n: int)
    requires n >= 1 && 0 <= c < n
    ensures q * n + c < p * n <==> q < p
  {
    if q < p {
      MulMono(q + 1, p, n);
    } else {
      MulMono(p, q, n);
    }
  }

  /** An index below n * n has a quotient below n. */
  lemma QuotientBelowSide(x: int, n: int)
    requires n >= 1 && 0 <= x < n * n
    ensures 0 <= x / n < n
  {
    BlockOf(x, n);
    BlockLess(x / n, x % n, n, n);
    if x / n < 0 {
      MulMono(x / n, -1, n);
    }
  }

  /** The row and column of a cell of an n-by-n board. */
  lemma SplitCell(x: int, n: int) returns (q: int, c: int)
    requires n >= 1 && 0 <= x < n * n
    ensures x == q * n + c && 0 <= q < n && 0 <= c < n
  {
    q, c := x / n, x % n;
    QuotientBelowSide(x, n);
  }

  /** Within the row of idx, the remainder of a cell is its offset from the row's start. */
  lemma RowOffset(x: int, idx: int, n: int)
    requires n >= 1 && idx - idx % n <= x < idx - idx % n + n
    ensures x % n == x - (idx - idx % n)
  {
    BlockOf(idx, n);
    DivModInBlock(x, n, idx / n);
  }

  /** The cell just past the row of idx starts a new row. */
  lemma NextRowStart(idx: int, n: int)
    requires n >= 1
    ensures (idx - idx % n + n) % n == 0
  {
    BlockOf(idx, n);
    DivModInBlock(idx - idx % n + n, n, idx / n + 1);
  }

  /** The cell at row r and column c of an n-by-n board. */
  lemma Cell(r: int, c: int, n: int)
    requires 0 <= r < n && 0 <= c < n
    ensures 0 <= r * n + c < n * n && (r * n + c) / n == r && (r * n + c) % n == c
  {
    DivModInBlock(r * n + c, n, r);
    BlockLess(r, c, n, n);
  }

  /** Every index of an n-by-n board is the cell at its row x / n and column x % n. */
  lemma Uncell(x: int, n: int)
    requires n >= 1 && 0 <= x < n * n
    ensures 0 <= x / n < n && 0 <= x % n < n && x == (x / n) * n + x % n
  {
    QuotientBelowSide(x, n);
  }
}
