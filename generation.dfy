/** One generation of the automaton (run_generation): survival, death by
    crowding, isolation or age, birth, and the central killzone. */
module Generation {
  import opened Cells
  import opened Grid
  import opened Neighbours
  import opened Histograms

  /** Side of the central killzone (src/main.cpp:15). */
  const KillzoneSize := 3
  /** Age at which a live cell dies whatever its neighbours. */
  const DeathAge := 60

  /** (x, y) lies in the killzone: row and column both within
      n/2 - KillzoneSize/2 .. n/2 + KillzoneSize/2, bounds included. */
  predicate InKillzone(n: int, x: int, y: int)
  {
    && n / 2 - KillzoneSize / 2 <= y <= n / 2 + KillzoneSize / 2
    && n / 2 - KillzoneSize / 2 <= x <= n / 2 + KillzoneSize / 2
  }

  /** The next state of cell (x, y), computed from the old board only. */
  function NextCell(n: int, b: seq<Cell>, x: int, y: int): Cell
    requires |b| == n * n && 0 <= x < n && 0 <= y < n
  {
    IdxBounds(n, x, y);
    var cell := b[Idx(n, x, y)];
    var count := NeighbourCount(n, b, x, y);
    if cell.alive then
      var stepped := if count < 2 || count > 3 || cell.Age() >= DeathAge then cell.SetAlive(false) else cell.Aged();
      if InKillzone(n, x, y) then stepped.SetAlive(false) else stepped
    else if count == 3 then LiveCell(MaxNeighbourAge(n, b, x, y, 0) + 1)
    else cell
  }

  /** The next state of the cell at flat position i. */
  function NextCellAt(n: int, b: seq<Cell>, i: int): Cell
    requires 0 < n && |b| == n * n && 0 <= i < n * n
  {
    FlatCoords(n, i);
    NextCell(n, b, Col(n, i), Row(n, i))
  }

  /** The first k cells of the next board, in row-major order. */
  function NextPrefix(n: int, b: seq<Cell>, k: int): (r: seq<Cell>)
    requires 0 < n && |b| == n * n && 0 <= k <= n * n
    ensures |r| == k
    decreases k
  {
    if k == 0 then [] else NextPrefix(n, b, k - 1) + [NextCellAt(n, b, k - 1)]
  }

  /** The whole next board, in row-major order. */
  function NextBoard(n: int, b: seq<Cell>): (r: seq<Cell>)
    requires 0 < n && |b| == n * n
    ensures |r| == n * n
  {
    NextPrefix(n, b, n * n)
  }

  /** Position j of a prefix of the next board is that cell's next state. */
  lemma {:induction false} NextPrefixIndex(n: int, b: seq<Cell>, k: int, j: int)
    requires 0 < n && |b| == n * n && 0 <= j < k <= n * n
    ensures NextPrefix(n, b, k)[j] == NextCellAt(n, b, j)
    decreases k
  {
    if j < k - 1 {
      NextPrefixIndex(n, b, k - 1, j);
    }
  }

  /** Position i holds a cell that was alive in the killzone: it is killed there. */
  predicate KilledAt(n: int, b: seq<Cell>, i: int)
    requires 0 < n && |b| == n * n && 0 <= i < |b|
  {
    b[i].alive && InKillzone(n, Col(n, i), Row(n, i))
  }

  /** Position i holds a cell killed in the killzone at the given age. */
  predicate KilledWithAge(n: int, b: seq<Cell>, i: int, age: int)
    requires 0 < n && |b| == n * n && 0 <= i < |b|
  {
    KilledAt(n, b, i) && b[i].Age() == age
  }

  /** Positions below k whose cell is killed in the killzone. */
  function KilledBelow(n: int, b: seq<Cell>, k: int): set<int>
    requires 0 < n && |b| == n * n && 0 <= k <= |b|
  {
    set i | 0 <= i < k && KilledAt(n, b, i)
  }

  /** Positions below k whose cell is killed in the killzone at the given age. */
  function KilledBelowWithAge(n: int, b: seq<Cell>, k: int, age: int): set<int>
    requires 0 < n && |b| == n * n && 0 <= k <= |b|
  {
    set i | 0 <= i < k && KilledWithAge(n, b, i, age)
  }

  /** Pre-step ages of the cells killed in the killzone among positions 0 .. k-1. */
  function KillsUpTo(n: int, b: seq<Cell>, k: int): seq<int>
    requires 0 < n && |b| == n * n && 0 <= k <= |b|
  {
    if k == 0 then []
    else KillsUpTo(n, b, k - 1) + (if KilledAt(n, b, k - 1) then [b[k - 1].Age()] else [])
  }

  /** Pre-step ages of all killzone kills of one generation, in scan order. */
  function Kills(n: int, b: seq<Cell>): seq<int>
    requires 0 < n && |b| == n * n
  {
    KillsUpTo(n, b, |b|)
  }

  /** A live cell outside the killzone survives exactly with 2 or 3 live
      neighbours and an age below DeathAge, and then ages by one. */
  lemma SurvivalRule(n: int, b: seq<Cell>, x: int, y: int)
    requires |b| == n * n && 0 <= x < n && 0 <= y < n
    requires AliveAt(n, b, x, y) && !InKillzone(n, x, y)
    ensures var count := NeighbourCount(n, b, x, y);
      NextCell(n, b, x, y).alive <==> (count == 2 || count == 3) && AgeAt(n, b, x, y) < DeathAge
    ensures NextCell(n, b, x, y).alive ==> NextCell(n, b, x, y).Age() == AgeAt(n, b, x, y) + 1
  {
  }

  /** A live cell of age DeathAge or more is dead after the step. */
  lemma DeathByAge(n: int, b: seq<Cell>, x: int, y: int)
    requires |b| == n * n && 0 <= x < n && 0 <= y < n
    requires AliveAt(n, b, x, y) && AgeAt(n, b, x, y) >= DeathAge
    ensures !NextCell(n, b, x, y).alive
  {
  }

  /** A live cell in the killzone is dead after the step, whatever its neighbours. */
  lemma KillzoneDeath(n: int, b: seq<Cell>, x: int, y: int)
    requires |b| == n * n && 0 <= x < n && 0 <= y < n
    requires AliveAt(n, b, x, y) && InKillzone(n, x, y)
    ensures !NextCell(n, b, x, y).alive
  {
  }

  /** A dead cell is born exactly with 3 live neighbours, also in the killzone;
      its age is one more than the oldest live neighbour's, and at least 1. */
  lemma BirthRule(n: int, b: seq<Cell>, x: int, y: int)
    requires |b| == n * n && 0 <= x < n && 0 <= y < n
    requires !AliveAt(n, b, x, y)
    ensures NextCell(n, b, x, y).alive <==> NeighbourCount(n, b, x, y) == 3
    ensures var c := NextCell(n, b, x, y);
      c.alive ==>
        && c.Age() >= 1
        && (forall cx, cy :: IsNeighbour(n, x, y, cx, cy) && AliveAt(n, b, cx, cy) ==> AgeAt(n, b, cx, cy) < c.Age())
        && (c.Age() == 1 || exists cx, cy :: IsNeighbour(n, x, y, cx, cy) && AliveAt(n, b, cx, cy) && AgeAt(n, b, cx, cy) == c.Age() - 1)
  {
    IdxBounds(n, x, y);
    MaxNeighbourAgeIsMax(n, b, x, y, 0);
  }

  /** Kills up to k hold each age once per killed cell of that age. */
  lemma {:induction false} KillsUpToCount(n: int, b: seq<Cell>, k: int, age: int)
    requires 0 < n && |b| == n * n && 0 <= k <= |b|
    ensures Occurrences(KillsUpTo(n, b, k), age) == |KilledBelowWithAge(n, b, k, age)|
  {
    if k > 0 {
      KillsUpToCount(n, b, k - 1, age);
      var front := KillsUpTo(n, b, k - 1);
      var prev, cur := KilledBelowWithAge(n, b, k - 1, age), KilledBelowWithAge(n, b, k, age);
      if KilledAt(n, b, k - 1) {
        OccurrencesSnoc(front, b[k - 1].Age(), age);
      } else {
        assert KillsUpTo(n, b, k) == front;
      }
      if KilledWithAge(n, b, k - 1, age) {
        assert cur == prev + {k - 1};
      } else {
        assert cur == prev;
      }
    }
  }

  /** Kills up to k hold one entry per killed cell. */
  lemma {:induction false} KillsUpToLength(n: int, b: seq<Cell>, k: int)
    requires 0 < n && |b| == n * n && 0 <= k <= |b|
    ensures |KillsUpTo(n, b, k)| == |KilledBelow(n, b, k)|
  {
    if k > 0 {
      KillsUpToLength(n, b, k - 1);
      var prev := KilledBelow(n, b, k - 1);
      var cur := KilledBelow(n, b, k);
      if KilledAt(n, b, k - 1) {
        assert cur == prev + {k - 1};
        assert k - 1 !in prev;
      } else {
        assert cur == prev;
      }
    }
  }

  /** The killzone kills of one generation are exactly the cells alive in the
      killzone: one entry per such cell, with that cell's pre-step age. */
  lemma KillsAreKillzoneCells(n: int, b: seq<Cell>, age: int)
    requires 0 < n && |b| == n * n
    ensures Occurrences(Kills(n, b), age) == |KilledBelowWithAge(n, b, |b|, age)|
    ensures |Kills(n, b)| == |KilledBelow(n, b, |b|)|
  {
    KillsUpToCount(n, b, |b|, age);
    KillsUpToLength(n, b, |b|);
  }

  /** With no cell killed before k, the kills up to k are empty. */
  lemma {:induction false} NoKillsUpTo(n: int, b: seq<Cell>, k: int)
    requires 0 < n && |b| == n * n && 0 <= k <= |b|
    requires forall i :: 0 <= i < k ==> !b[i].alive
    ensures KillsUpTo(n, b, k) == []
  {
    if k > 0 {
      NoKillsUpTo(n, b, k - 1);
    }
  }

  /** An all-dead board is a fixed point of the step with no killzone kills:
      no cell appears from nothing. */
  lemma ExtinctIsFixedPoint(n: int, b: seq<Cell>)
    requires 0 < n && |b| == n * n
    requires LiveCount(b) == 0
    ensures NextBoard(n, b) == b
    ensures Kills(n, b) == []
  {
    LiveCountZero(b);
    NoKillsUpTo(n, b, |b|);
    forall i | 0 <= i < n * n
      ensures NextBoard(n, b)[i] == b[i]
    {
      NextPrefixIndex(n, b, n * n, i);
      FlatCoords(n, i);
      var x, y := Col(n, i), Row(n, i);
      NeighbourCountZero(n, b, x, y);
      forall cx, cy | IsNeighbour(n, x, y, cx, cy)
        ensures !AliveAt(n, b, cx, cy)
      {
        IdxBounds(n, cx, cy);
      }
    }
  }

  /** One cell of the scan: the next state of position i and the kills it adds. */
  lemma ScanCell(n: int, b: seq<Cell>, x: int, y: int)
    requires |b| == n * n && 0 <= x < n && 0 <= y < n
    ensures 0 <= Idx(n, x, y) < n * n
    ensures var i := Idx(n, x, y);
      && NextPrefix(n, b, i + 1) == NextPrefix(n, b, i) + [NextCell(n, b, x, y)]
      && KillsUpTo(n, b, i + 1) == KillsUpTo(n, b, i) + (if b[i].alive && InKillzone(n, x, y) then [b[i].Age()] else [])
  {
    IdxBounds(n, x, y);
    IdxRowCol(n, x, y);
  }

  /** One Bump after a recorded run is recording the longer run. */
  lemma RecordSnoc(m: map<int, int>, s: seq<int>, age: int)
    ensures Record(m, s + [age]) == Bump(Record(m, s), age)
  {
    assert (s + [age])[..|s|] == s;
  }

  /** The body of run_generation's scan for one cell (src/main.cpp:177-202):
      the new state of (x, y), read from the old board only, and whether the
      cell was killed in the killzone (the histogram update is the caller's). */
  method StepCell(n: int, board: array<Cell>, x: int, y: int) returns (newCell: Cell, killedInKillzone: bool)
    requires board.Length == n * n && 0 <= x < n && 0 <= y < n
    ensures newCell == NextCell(n, board[..], x, y)
    ensures killedInKillzone <==> AliveAt(n, board[..], x, y) && InKillzone(n, x, y)
  {
    IdxBounds(n, x, y);
    RowStartIsProduct(n, y);
    var cell := board[y * n + x];
    newCell := cell;
    killedInKillzone := false;
    var count, maxGeneration := GetNeighbourCount(n, board, x, y, 0);
    if cell.alive {
      if count < 2 || count > 3 || cell.Age() >= DeathAge {
        newCell := newCell.SetAlive(false);
      } else if count == 2 || count == 3 {
        newCell := newCell.Aged();
      }
      if InKillzone(n, x, y) {
        newCell := newCell.SetAlive(false);
        killedInKillzone := true;
      }
    } else if count == 3 {
      newCell := LiveCell(maxGeneration + 1);
    }
  }

  /** One iteration of run_generation's inner loop (src/main.cpp:177-202):
      writes the next state of position i into new_board and, for a killzone
      death, bumps the histogram at the cell's pre-step age and the count. */
  method UpdateCell(n: int, board: array<Cell>, newBoard: array<Cell>, histogram: KillHistogram,
                    x: int, y: int, i: int, ghost b: seq<Cell>, ghost h0: map<int, int>, killedBefore: int) returns (killedAfter: int)
    requires board.Length == n * n && newBoard.Length == n * n && newBoard != board && board[..] == b
    requires 0 <= x < n && 0 <= y < n && i == Idx(n, x, y) && 0 <= i < n * n
    requires histogram.counts == Record(h0, KillsUpTo(n, b, i))
    requires killedBefore == |KillsUpTo(n, b, i)|
    modifies newBoard, histogram
    ensures newBoard[..] == old(newBoard[..])[i := NextCell(n, b, x, y)]
    ensures newBoard[..i + 1] == old(newBoard[..i]) + [NextCell(n, b, x, y)]
    ensures histogram.counts == Record(h0, KillsUpTo(n, b, i + 1))
    ensures killedAfter == |KillsUpTo(n, b, i + 1)|
  {
    ScanCell(n, b, x, y);
    ghost var kills := KillsUpTo(n, b, i);
    var cell := board[i];
    var newCell, killed := StepCell(n, board, x, y);
    killedAfter := killedBefore;
    if killed {
      RecordSnoc(h0, kills, cell.Age());
      histogram.Add(cell.Age());
      killedAfter := killedAfter + 1;
      assert KillsUpTo(n, b, i + 1) == kills + [cell.Age()];
    } else {
      assert KillsUpTo(n, b, i + 1) == kills;
    }
    newBoard[i] := newCell;
  }

  /** One row y of run_generation's scan (src/main.cpp:176-203): fills row y of
      new_board from the old board and adds that row's killzone deaths to the
      histogram and to the running count. */
  method ScanRow(n: int, board: array<Cell>, newBoard: array<Cell>, histogram: KillHistogram,
                 y: int, ghost b: seq<Cell>, ghost h0: map<int, int>, killedBefore: int) returns (killedAfter: int)
    requires board.Length == n * n && newBoard.Length == n * n && newBoard != board && 0 <= y < n
    requires board[..] == b
    requires RowStart(n, y) + n <= n * n
    requires histogram.counts == Record(h0, KillsUpTo(n, b, RowStart(n, y)))
    requires killedBefore == |KillsUpTo(n, b, RowStart(n, y))|
    requires newBoard[..RowStart(n, y)] == NextPrefix(n, b, RowStart(n, y))
    modifies newBoard, histogram
    ensures newBoard[..RowStart(n, y) + n] == NextPrefix(n, b, RowStart(n, y) + n)
    ensures newBoard[RowStart(n, y) + n..] == old(newBoard[RowStart(n, y) + n..])
    ensures histogram.counts == Record(h0, KillsUpTo(n, b, RowStart(n, y) + n))
    ensures killedAfter == |KillsUpTo(n, b, RowStart(n, y) + n)|
  {
    killedAfter := killedBefore;
    ghost var after := newBoard[RowStart(n, y) + n..];
    RowStartIsProduct(n, y);
    var i := y * n;
    for x := 0 to n
      invariant i == RowStart(n, y) + x
      invariant newBoard[..i] == NextPrefix(n, b, i)
      invariant newBoard[RowStart(n, y) + n..] == after
      invariant histogram.counts == Record(h0, KillsUpTo(n, b, i))
      invariant killedAfter == |KillsUpTo(n, b, i)|
    {
      ScanCell(n, b, x, y);
      killedAfter := UpdateCell(n, board, newBoard, histogram, x, y, i, b, h0, killedAfter);
      i := i + 1;
    }
  }

  /** run_generation: builds the next board in the copy new_board, reading only
      the old board, records each killzone death's pre-step age in the
      histogram, copies the result back and returns the number of killzone kills. */
  method RunGeneration(n: int, board: array<Cell>, histogram: KillHistogram) returns (cellsKilledInKillzone: int)
    requires 0 < n && board.Length == n * n
    modifies board, histogram
    ensures board[..] == NextBoard(n, old(board[..]))
    ensures histogram.counts == Record(old(histogram.counts), Kills(n, old(board[..])))
    ensures cellsKilledInKillzone == |Kills(n, old(board[..]))|
    ensures Sum(histogram.counts) == Sum(old(histogram.counts)) + cellsKilledInKillzone
  {
    ghost var b := board[..];
    ghost var h0 := histogram.counts;
    var newBoard := new Cell[board.Length];
    forall i | 0 <= i < board.Length {
      newBoard[i] := board[i];
    }
    cellsKilledInKillzone := 0;
    for y := 0 to n
      invariant 0 <= RowStart(n, y) <= n * n
      invariant board[..] == b
      invariant newBoard[..RowStart(n, y)] == NextPrefix(n, b, RowStart(n, y))
      invariant histogram.counts == Record(h0, KillsUpTo(n, b, RowStart(n, y)))
      invariant cellsKilledInKillzone == |KillsUpTo(n, b, RowStart(n, y))|
    {
      RowBounds(n, y);
      assert RowStart(n, y + 1) == RowStart(n, y) + n;
      cellsKilledInKillzone := ScanRow(n, board, newBoard, histogram, y, b, h0, cellsKilledInKillzone);
    }
    RowStartIsProduct(n, n);
    assert newBoard[..] == newBoard[..n * n];
    forall i | 0 <= i < board.Length {
      board[i] := newBoard[i];
    }
    RecordSum(h0, Kills(n, b));
  }
}
