/** The row-major N x N board and the living-cell count. */
module Grid {
  import opened Cells

  /** The board side accepted on the command line (src/main.cpp:241). */
  const MinBoardSize := 7
  const MaxBoardSize := 1024

  predicate ValidSize(n: int)
  {
    MinBoardSize <= n <= MaxBoardSize
  }

  /** Position of the first cell of row y: y rows of n cells come before it
      (y * n, written as repeated addition). */
  function RowStart(n: int, y: int): (r: int)
    ensures 0 <= n ==> 0 <= r
    decreases y
  {
    if y <= 0 then 0 else RowStart(n, y - 1) + n
  }

  /** Row-major position of (x, y) on a board of side n: y * n + x. */
  function Idx(n: int, x: int, y: int): int
  {
    RowStart(n, y) + x
  }

  /** The row start is the product of row and side. */
  lemma {:induction false} RowStartIsProduct(n: int, y: int)
    requires 0 <= y
    ensures RowStart(n, y) == y * n
  {
    if y > 0 {
      RowStartIsProduct(n, y - 1);
      assert y * n == (y - 1) * n + n;
    }
  }

  /** Later rows start at least one whole row further on. */
  lemma {:induction false} RowStartMono(n: int, y: int, z: int)
    requires 0 <= n && 0 <= y < z
    ensures RowStart(n, y) + n <= RowStart(n, z)
    decreases z
  {
    if y < z - 1 {
      RowStartMono(n, y, z - 1);
    }
  }

  /** Row y < n of the board occupies the n positions from RowStart(n, y) on. */
  lemma RowBounds(n: int, y: int)
    requires 0 <= y < n
    ensures 0 <= RowStart(n, y) && RowStart(n, y) + n <= n * n
  {
    RowStartMono(n, y, n);
    RowStartIsProduct(n, n);
  }

  /** Every on-board coordinate pair has a position inside the board. */
  lemma IdxBounds(n: int, x: int, y: int)
    requires 0 <= x < n && 0 <= y < n
    ensures 0 <= Idx(n, x, y) < n * n
  {
    RowBounds(n, y);
  }

  /** Row of position i: the number of whole rows of n cells before it
      (i / n for the non-negative i of a board). */
  function Row(n: int, i: int): int
    requires 0 < n && 0 <= i
    decreases i
  {
    if i < n then 0 else Row(n, i - n) + 1
  }

  /** Column of position i: what is left of i after its whole rows (i % n). */
  function Col(n: int, i: int): int
    requires 0 < n && 0 <= i
    decreases i
  {
    if i < n then i else Col(n, i - n)
  }

  /** Row and column of i are coordinates whose position is i. */
  lemma {:induction false} RowColIdx(n: int, i: int)
    requires 0 < n && 0 <= i
    ensures 0 <= Col(n, i) < n && 0 <= Row(n, i)
    ensures Idx(n, Col(n, i), Row(n, i)) == i
    decreases i
  {
    if i >= n {
      RowColIdx(n, i - n);
    }
  }

  /** The position of (x, y) gives x and y back as its column and row. */
  lemma {:induction false} IdxRowCol(n: int, x: int, y: int)
    requires 0 <= x < n && 0 <= y
    ensures Row(n, Idx(n, x, y)) == y && Col(n, Idx(n, x, y)) == x
    decreases y
  {
    if y > 0 {
      IdxRowCol(n, x, y - 1);
    }
  }

  /** Every position of the board is the position of exactly one on-board pair. */
  lemma FlatCoords(n: int, i: int)
    requires 0 < n && 0 <= i < n * n
    ensures 0 <= Col(n, i) < n && 0 <= Row(n, i) < n
    ensures Idx(n, Col(n, i), Row(n, i)) == i
    ensures forall x, y :: 0 <= x < n && 0 <= y < n && Idx(n, x, y) == i ==> x == Col(n, i) && y == Row(n, i)
  {
    RowColIdx(n, i);
    RowStartIsProduct(n, n);
    var r := Row(n, i);
    if r > n {
      RowStartMono(n, n, r);
      assert false;
    } else if r == n {
      assert false;
    }
    forall x, y | 0 <= x < n && 0 <= y < n && Idx(n, x, y) == i
      ensures x == Col(n, i) && y == Row(n, i)
    {
      IdxRowCol(n, x, y);
    }
  }

  /** Number of alive cells in a sequence of cells. */
  function LiveCount(s: seq<Cell>): (c: nat)
    ensures c <= |s|
  {
    if s == [] then 0
    else LiveCount(s[..|s| - 1]) + (if s[|s| - 1].alive then 1 else 0)
  }

  /** No cell is alive exactly when the count is zero (both directions). */
  lemma {:induction false} LiveCountZero(s: seq<Cell>)
    ensures LiveCount(s) == 0 <==> forall i :: 0 <= i < |s| ==> !s[i].alive
  {
    if s != [] {
      var t := s[..|s| - 1];
      LiveCountZero(t);
      assert forall i :: 0 <= i < |t| ==> t[i] == s[i];
    }
  }

  /** count_living_cells: scans the board row by row. */
  method CountLivingCells(n: int, board: array<Cell>) returns (living: int)
    requires 0 <= n && board.Length == n * n
    ensures living == LiveCount(board[..])
    ensures 0 <= living <= n * n
  {
    living := 0;
    var i := 0;
    for y := 0 to n
      invariant i == RowStart(n, y) && 0 <= i <= board.Length
      invariant living == LiveCount(board[..i])
    {
      RowBounds(n, y);
      for x := 0 to n
        invariant i == RowStart(n, y) + x
        invariant living == LiveCount(board[..i])
      {
        assert board[..i + 1][..i] == board[..i];
        if board[i].alive {
          living := living + 1;
        }
        i := i + 1;
      }
    }
    RowStartIsProduct(n, n);
    assert board[..i] == board[..];
  }
}
