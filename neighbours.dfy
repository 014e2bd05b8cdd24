/** Neighbour counting (get_neighbour_count): the live cells in the 3 x 3
    window around a cell, clipped at the board edge (no wrap-around), and the
    largest age among them. */
module Neighbours {
  import opened Cells
  import opened Grid

  /** (cx, cy) is on the board and its cell is alive. */
  predicate AliveAt(n: int, b: seq<Cell>, cx: int, cy: int)
  {
    0 <= cx < n && 0 <= cy < n && Idx(n, cx, cy) < |b| && b[Idx(n, cx, cy)].alive
  }

  /** Reported age of (cx, cy), 0 off the board. */
  function AgeAt(n: int, b: seq<Cell>, cx: int, cy: int): int
  {
    if 0 <= cx < n && 0 <= cy < n && Idx(n, cx, cy) < |b| then b[Idx(n, cx, cy)].Age() else 0
  }

  /** (cx, cy) is one of the up to eight on-board cells around (x, y). */
  predicate IsNeighbour(n: int, x: int, y: int, cx: int, cy: int)
  {
    0 <= cx < n && 0 <= cy < n && x - 1 <= cx <= x + 1 && y - 1 <= cy <= y + 1 && (cx != x || cy != y)
  }

  /** (cx, cy) contributes to the count around (x, y): not the centre, on the board, alive. */
  predicate Counted(n: int, b: seq<Cell>, x: int, y: int, cx: int, cy: int)
  {
    (cx != x || cy != y) && AliveAt(n, b, cx, cy)
  }

  /** Live cells in columns lo .. hi-1 of row cy, the centre (x, y) excluded. */
  function RowCount(n: int, b: seq<Cell>, x: int, y: int, cy: int, lo: int, hi: int): nat
    decreases hi - lo
  {
    if hi <= lo then 0
    else RowCount(n, b, x, y, cy, lo, hi - 1) + (if Counted(n, b, x, y, hi - 1, cy) then 1 else 0)
  }

  /** Live cells in rows ylo .. yhi-1 and columns xlo .. xhi-1, the centre excluded. */
  function WindowCount(n: int, b: seq<Cell>, x: int, y: int, ylo: int, yhi: int, xlo: int, xhi: int): nat
    decreases yhi - ylo
  {
    if yhi <= ylo then 0
    else WindowCount(n, b, x, y, ylo, yhi - 1, xlo, xhi) + RowCount(n, b, x, y, yhi - 1, xlo, xhi)
  }

  /** The number of live neighbours of (x, y): the full 3 x 3 window in
      which off-board positions are simply absent. */
  function NeighbourCount(n: int, b: seq<Cell>, x: int, y: int): nat
  {
    WindowCount(n, b, x, y, y - 1, y + 2, x - 1, x + 2)
  }

  /** One step of the running maximum: a counted cell older than m replaces it. */
  function Raise(n: int, b: seq<Cell>, x: int, y: int, cx: int, cy: int, m: int): int
  {
    if Counted(n, b, x, y, cx, cy) && m < AgeAt(n, b, cx, cy) then AgeAt(n, b, cx, cy) else m
  }

  /** The running maximum from m over columns lo .. hi-1 of row cy, left to right. */
  function RowMax(n: int, b: seq<Cell>, x: int, y: int, cy: int, lo: int, hi: int, m: int): int
    decreases hi - lo
  {
    if hi <= lo then m
    else Raise(n, b, x, y, hi - 1, cy, RowMax(n, b, x, y, cy, lo, hi - 1, m))
  }

  /** The running maximum from m over rows ylo .. yhi-1, top to bottom. */
  function WindowMax(n: int, b: seq<Cell>, x: int, y: int, ylo: int, yhi: int, xlo: int, xhi: int, m: int): int
    decreases yhi - ylo
  {
    if yhi <= ylo then m
    else RowMax(n, b, x, y, yhi - 1, xlo, xhi, WindowMax(n, b, x, y, ylo, yhi - 1, xlo, xhi, m))
  }

  /** The value left in *max_generation: its initial value m raised to the age
      of every live neighbour. */
  function MaxNeighbourAge(n: int, b: seq<Cell>, x: int, y: int, m: int): int
  {
    WindowMax(n, b, x, y, y - 1, y + 2, x - 1, x + 2, m)
  }

  /** First row (column) scanned around row (column) v: v itself on the
      board's first row (column), the one before it otherwise. */
  function WindowStart(v: int): int
  {
    if v == 0 then v else v - 1
  }

  /** Last row (column) scanned around v on a board of side n. */
  function WindowEnd(n: int, v: int): int
  {
    if v == n - 1 then v else v + 1
  }

  /** A row entirely off the board contributes nothing. */
  lemma {:induction false} OffBoardRow(n: int, b: seq<Cell>, x: int, y: int, cy: int, lo: int, hi: int, m: int)
    requires cy < 0 || cy >= n
    ensures RowCount(n, b, x, y, cy, lo, hi) == 0
    ensures RowMax(n, b, x, y, cy, lo, hi, m) == m
    decreases hi - lo
  {
    if lo < hi {
      OffBoardRow(n, b, x, y, cy, lo, hi - 1, m);
    }
  }

  /** Dropping a clipped-off column on either side of a row changes nothing. */
  lemma ClampedRow(n: int, b: seq<Cell>, x: int, y: int, cy: int, m: int)
    requires 0 <= x < n
    ensures var lo, hi := WindowStart(x), WindowEnd(n, x) + 1;
      RowCount(n, b, x, y, cy, lo, hi) == RowCount(n, b, x, y, cy, x - 1, x + 2) &&
      RowMax(n, b, x, y, cy, lo, hi, m) == RowMax(n, b, x, y, cy, x - 1, x + 2, m)
  {
    assert RowCount(n, b, x, y, cy, x - 1, x - 1) == 0;
    assert RowCount(n, b, x, y, cy, x - 1, x) == RowCount(n, b, x, y, cy, x - 1, x - 1) + (if Counted(n, b, x, y, x - 1, cy) then 1 else 0);
    assert RowCount(n, b, x, y, cy, x, x) == 0;
    assert RowMax(n, b, x, y, cy, x - 1, x, m) == Raise(n, b, x, y, x - 1, cy, m);
    assert RowMax(n, b, x, y, cy, x, x, m) == m;
    if x == n - 1 {
      assert RowCount(n, b, x, y, cy, x - 1, x + 2) == RowCount(n, b, x, y, cy, x - 1, x + 1);
      assert RowCount(n, b, x, y, cy, x, x + 2) == RowCount(n, b, x, y, cy, x, x + 1);
    }
  }

  /** Clipping the columns of every row of a window changes nothing. */
  lemma {:induction false} ClampedColumns(n: int, b: seq<Cell>, x: int, y: int, ylo: int, yhi: int, m: int)
    requires 0 <= x < n
    ensures var xlo, xhi := WindowStart(x), WindowEnd(n, x) + 1;
      WindowCount(n, b, x, y, ylo, yhi, xlo, xhi) == WindowCount(n, b, x, y, ylo, yhi, x - 1, x + 2) &&
      WindowMax(n, b, x, y, ylo, yhi, xlo, xhi, m) == WindowMax(n, b, x, y, ylo, yhi, x - 1, x + 2, m)
    decreases yhi - ylo
  {
    if ylo < yhi {
      ClampedColumns(n, b, x, y, ylo, yhi - 1, m);
      ClampedRow(n, b, x, y, yhi - 1, WindowMax(n, b, x, y, ylo, yhi - 1, x - 1, x + 2, m));
    }
  }

  /** Clipping off-board rows above and below the window changes nothing. */
  lemma ClampedRows(n: int, b: seq<Cell>, x: int, y: int, xlo: int, xhi: int, m: int)
    requires 0 <= y < n
    ensures var ylo, yhi := WindowStart(y), WindowEnd(n, y) + 1;
      WindowCount(n, b, x, y, ylo, yhi, xlo, xhi) == WindowCount(n, b, x, y, y - 1, y + 2, xlo, xhi) &&
      WindowMax(n, b, x, y, ylo, yhi, xlo, xhi, m) == WindowMax(n, b, x, y, y - 1, y + 2, xlo, xhi, m)
  {
    var m1 := WindowMax(n, b, x, y, y - 1, y, xlo, xhi, m);
    var m2 := WindowMax(n, b, x, y, y - 1, y + 1, xlo, xhi, m);
    assert WindowCount(n, b, x, y, y - 1, y - 1, xlo, xhi) == 0;
    assert WindowCount(n, b, x, y, y, y, xlo, xhi) == 0;
    assert WindowMax(n, b, x, y, y, y, xlo, xhi, m) == m;
    assert WindowMax(n, b, x, y, y - 1, y - 1, xlo, xhi, m) == m;
    assert m1 == RowMax(n, b, x, y, y - 1, xlo, xhi, m);
    if y == 0 {
      OffBoardRow(n, b, x, y, y - 1, xlo, xhi, m);
      assert WindowCount(n, b, x, y, y - 1, y + 1, xlo, xhi) == WindowCount(n, b, x, y, y, y + 1, xlo, xhi);
      assert m2 == WindowMax(n, b, x, y, y, y + 1, xlo, xhi, m);
      assert WindowCount(n, b, x, y, y - 1, y + 2, xlo, xhi) == WindowCount(n, b, x, y, y, y + 2, xlo, xhi);
    }
    if y == n - 1 {
      OffBoardRow(n, b, x, y, y + 1, xlo, xhi, m2);
    }
  }

  /** The clipped window scanned by get_neighbour_count yields the same count
      and maximum as the full 3 x 3 window. */
  lemma ClampedWindow(n: int, b: seq<Cell>, x: int, y: int, m: int)
    requires 0 <= x < n && 0 <= y < n
    ensures var xlo, xhi := WindowStart(x), WindowEnd(n, x) + 1;
      var ylo, yhi := WindowStart(y), WindowEnd(n, y) + 1;
      WindowCount(n, b, x, y, ylo, yhi, xlo, xhi) == NeighbourCount(n, b, x, y) &&
      WindowMax(n, b, x, y, ylo, yhi, xlo, xhi, m) == MaxNeighbourAge(n, b, x, y, m)
  {
    var xlo, xhi := WindowStart(x), WindowEnd(n, x) + 1;
    ClampedRows(n, b, x, y, xlo, xhi, m);
    ClampedColumns(n, b, x, y, y - 1, y + 2, m);
  }

  /** The running maximum of a row is at least its start, at least the age of
      every counted cell, and is either the start or one of those ages. */
  lemma {:induction false} RowMaxIsMax(n: int, b: seq<Cell>, x: int, y: int, cy: int, lo: int, hi: int, m: int)
    ensures var r := RowMax(n, b, x, y, cy, lo, hi, m);
      && m <= r
      && (forall cx :: lo <= cx < hi && Counted(n, b, x, y, cx, cy) ==> AgeAt(n, b, cx, cy) <= r)
      && (r == m || exists cx :: lo <= cx < hi && Counted(n, b, x, y, cx, cy) && AgeAt(n, b, cx, cy) == r)
    decreases hi - lo
  {
    if lo < hi {
      RowMaxIsMax(n, b, x, y, cy, lo, hi - 1, m);
    }
  }

  /** The same for a window of rows. */
  lemma {:induction false} WindowMaxIsMax(n: int, b: seq<Cell>, x: int, y: int, ylo: int, yhi: int, xlo: int, xhi: int, m: int)
    ensures var r := WindowMax(n, b, x, y, ylo, yhi, xlo, xhi, m);
      && m <= r
      && (forall cx, cy :: ylo <= cy < yhi && xlo <= cx < xhi && Counted(n, b, x, y, cx, cy) ==> AgeAt(n, b, cx, cy) <= r)
      && (r == m || exists cx, cy :: ylo <= cy < yhi && xlo <= cx < xhi && Counted(n, b, x, y, cx, cy) && AgeAt(n, b, cx, cy) == r)
    decreases yhi - ylo
  {
    if ylo < yhi {
      var prev := WindowMax(n, b, x, y, ylo, yhi - 1, xlo, xhi, m);
      WindowMaxIsMax(n, b, x, y, ylo, yhi - 1, xlo, xhi, m);
      RowMaxIsMax(n, b, x, y, yhi - 1, xlo, xhi, prev);
    }
  }

  /** get_neighbour_count leaves in *max_generation the maximum of its initial
      value and the ages of the live neighbours. */
  lemma MaxNeighbourAgeIsMax(n: int, b: seq<Cell>, x: int, y: int, m: int)
    ensures var r := MaxNeighbourAge(n, b, x, y, m);
      && m <= r
      && (forall cx, cy :: IsNeighbour(n, x, y, cx, cy) && AliveAt(n, b, cx, cy) ==> AgeAt(n, b, cx, cy) <= r)
      && (r == m || exists cx, cy :: IsNeighbour(n, x, y, cx, cy) && AliveAt(n, b, cx, cy) && AgeAt(n, b, cx, cy) == r)
  {
    WindowMaxIsMax(n, b, x, y, y - 1, y + 2, x - 1, x + 2, m);
  }

  /** A row count is zero exactly when no cell of the row is counted. */
  lemma {:induction false} RowCountZero(n: int, b: seq<Cell>, x: int, y: int, cy: int, lo: int, hi: int)
    ensures RowCount(n, b, x, y, cy, lo, hi) == 0 <==> forall cx :: lo <= cx < hi ==> !Counted(n, b, x, y, cx, cy)
    decreases hi - lo
  {
    if lo < hi {
      RowCountZero(n, b, x, y, cy, lo, hi - 1);
    }
  }

  /** A window count is zero exactly when no cell of the window is counted. */
  lemma {:induction false} WindowCountZero(n: int, b: seq<Cell>, x: int, y: int, ylo: int, yhi: int, xlo: int, xhi: int)
    ensures WindowCount(n, b, x, y, ylo, yhi, xlo, xhi) == 0 <==>
      forall cx, cy :: ylo <= cy < yhi && xlo <= cx < xhi ==> !Counted(n, b, x, y, cx, cy)
    decreases yhi - ylo
  {
    if ylo < yhi {
      WindowCountZero(n, b, x, y, ylo, yhi - 1, xlo, xhi);
      RowCountZero(n, b, x, y, yhi - 1, xlo, xhi);
    }
  }

  /** (x, y) has no live neighbour exactly when its count is zero. */
  lemma NeighbourCountZero(n: int, b: seq<Cell>, x: int, y: int)
    ensures NeighbourCount(n, b, x, y) == 0 <==>
      forall cx, cy :: IsNeighbour(n, x, y, cx, cy) ==> !AliveAt(n, b, cx, cy)
  {
    WindowCountZero(n, b, x, y, y - 1, y + 2, x - 1, x + 2);
    if NeighbourCount(n, b, x, y) == 0 {
      forall cx, cy | IsNeighbour(n, x, y, cx, cy)
        ensures !AliveAt(n, b, cx, cy)
      {
        assert !Counted(n, b, x, y, cx, cy);
      }
    } else {
      var cx, cy :| y - 1 <= cy < y + 2 && x - 1 <= cx < x + 2 && Counted(n, b, x, y, cx, cy);
      assert IsNeighbour(n, x, y, cx, cy) && AliveAt(n, b, cx, cy);
    }
  }

  /** Contribution of one position to the count around (x, y). */
  function Term(n: int, b: seq<Cell>, x: int, y: int, cx: int, cy: int): (t: nat)
    ensures t <= 1
    ensures (cx == x && cy == y) || cx < 0 || cx >= n || cy < 0 || cy >= n ==> t == 0
  {
    if Counted(n, b, x, y, cx, cy) then 1 else 0
  }

  /** The full window count, position by position. */
  lemma WindowTerms(n: int, b: seq<Cell>, x: int, y: int)
    ensures NeighbourCount(n, b, x, y) ==
      Term(n, b, x, y, x - 1, y - 1) + Term(n, b, x, y, x, y - 1) + Term(n, b, x, y, x + 1, y - 1) +
      Term(n, b, x, y, x - 1, y) + Term(n, b, x, y, x + 1, y) +
      Term(n, b, x, y, x - 1, y + 1) + Term(n, b, x, y, x, y + 1) + Term(n, b, x, y, x + 1, y + 1)
  {
    forall cy | y - 1 <= cy <= y + 1
      ensures RowCount(n, b, x, y, cy, x - 1, x + 2)
        == Term(n, b, x, y, x - 1, cy) + Term(n, b, x, y, x, cy) + Term(n, b, x, y, x + 1, cy)
    {
      assert RowCount(n, b, x, y, cy, x - 1, x) == Term(n, b, x, y, x - 1, cy);
      assert RowCount(n, b, x, y, cy, x - 1, x + 1) == RowCount(n, b, x, y, cy, x - 1, x) + Term(n, b, x, y, x, cy);
      assert RowCount(n, b, x, y, cy, x - 1, x + 2) == RowCount(n, b, x, y, cy, x - 1, x + 1) + Term(n, b, x, y, x + 1, cy);
    }
    assert WindowCount(n, b, x, y, y - 1, y, x - 1, x + 2) == RowCount(n, b, x, y, y - 1, x - 1, x + 2);
    assert WindowCount(n, b, x, y, y - 1, y + 1, x - 1, x + 2)
        == WindowCount(n, b, x, y, y - 1, y, x - 1, x + 2) + RowCount(n, b, x, y, y, x - 1, x + 2);
    assert Term(n, b, x, y, x, y) == 0;
  }

  /** The neighbour count is at most 8; at most 5 on an edge and at most 3 in
      a corner, where part of the window lies off the board. */
  lemma NeighbourCountBounds(n: int, b: seq<Cell>, x: int, y: int)
    requires 0 <= x < n && 0 <= y < n
    ensures NeighbourCount(n, b, x, y) <= 8
    ensures (x == 0 || x == n - 1 || y == 0 || y == n - 1) ==> NeighbourCount(n, b, x, y) <= 5
    ensures (x == 0 || x == n - 1) && (y == 0 || y == n - 1) ==> NeighbourCount(n, b, x, y) <= 3
  {
    WindowTerms(n, b, x, y);
    if x == 0 {
      assert Term(n, b, x, y, x - 1, y - 1) == Term(n, b, x, y, x - 1, y) == Term(n, b, x, y, x - 1, y + 1) == 0;
    }
    if x == n - 1 {
      assert Term(n, b, x, y, x + 1, y - 1) == Term(n, b, x, y, x + 1, y) == Term(n, b, x, y, x + 1, y + 1) == 0;
    }
    if y == 0 {
      assert Term(n, b, x, y, x - 1, y - 1) == Term(n, b, x, y, x, y - 1) == Term(n, b, x, y, x + 1, y - 1) == 0;
    }
    if y == n - 1 {
      assert Term(n, b, x, y, x - 1, y + 1) == Term(n, b, x, y, x, y + 1) == Term(n, b, x, y, x + 1, y + 1) == 0;
    }
  }

  /** One column of the scan: how the count and the maximum of a row grow. */
  lemma ScanStep(n: int, b: seq<Cell>, x: int, y: int, cy: int, lo: int, cx: int, m: int)
    requires lo <= cx && 0 <= cx < n && 0 <= cy < n
    ensures var counted := (cx != x || cy != y) && AliveAt(n, b, cx, cy);
      RowCount(n, b, x, y, cy, lo, cx + 1) == RowCount(n, b, x, y, cy, lo, cx) + (if counted then 1 else 0) &&
      RowMax(n, b, x, y, cy, lo, cx + 1, m) ==
        (var prev := RowMax(n, b, x, y, cy, lo, cx, m);
         if counted && prev < AgeAt(n, b, cx, cy) then AgeAt(n, b, cx, cy) else prev)
  {
  }

  /** The inner loop of get_neighbour_count: scans columns lo .. hi-1 of row
      dy, counting its live cells other than (x, y) and raising the maximum. */
  method ScanNeighbourRow(n: int, board: array<Cell>, x: int, y: int, dy: int, lo: int, hi: int,
                          countBefore: int, maxBefore: int, ghost b: seq<Cell>)
    returns (count: int, maxGen: int)
    requires board.Length == n * n && board[..] == b && 0 <= lo <= hi <= n && 0 <= dy < n
    ensures count == countBefore + RowCount(n, b, x, y, dy, lo, hi)
    ensures maxGen == RowMax(n, b, x, y, dy, lo, hi, maxBefore)
  {
    count, maxGen := countBefore, maxBefore;
    for dx := lo to hi
      invariant count == countBefore + RowCount(n, b, x, y, dy, lo, dx)
      invariant maxGen == RowMax(n, b, x, y, dy, lo, dx, maxBefore)
    {
      ScanStep(n, b, x, y, dy, lo, dx, maxBefore);
      if !(x == dx && y == dy) {
        IdxBounds(n, dx, dy);
        RowStartIsProduct(n, dy);
        var cell := board[dy * n + dx];
        assert cell.alive == AliveAt(n, b, dx, dy) && cell.Age() == AgeAt(n, b, dx, dy);
        if cell.alive {
          count := count + 1;
          if maxGen < cell.Age() {
            maxGen := cell.Age();
          }
        }
      }
    }
  }

  /** get_neighbour_count, as called by run_generation (with a max_generation
      pointer): scans the clipped window and raises maxGeneration. */
  method GetNeighbourCount(n: int, board: array<Cell>, x: int, y: int, maxGeneration: int)
    returns (neighbours: int, maxGen: int)
    requires board.Length == n * n && 0 <= x < n && 0 <= y < n
    ensures neighbours == NeighbourCount(n, board[..], x, y)
    ensures maxGen == MaxNeighbourAge(n, board[..], x, y, maxGeneration)
  {
    var startX, endX := WindowStart(x), WindowEnd(n, x);
    var startY, endY := WindowStart(y), WindowEnd(n, y);
    ghost var b := board[..];
    neighbours, maxGen := 0, maxGeneration;
    for dy := startY to endY + 1
      invariant neighbours == WindowCount(n, b, x, y, startY, dy, startX, endX + 1)
      invariant maxGen == WindowMax(n, b, x, y, startY, dy, startX, endX + 1, maxGeneration)
    {
      neighbours, maxGen := ScanNeighbourRow(n, board, x, y, dy, startX, endX + 1, neighbours, maxGen, b);
    }
    ClampedWindow(n, b, x, y, maxGeneration);
  }
}
