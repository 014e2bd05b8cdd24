/** The simulation loop of main: count the starting cells, then run
    generations until a generation leaves no live cell, summing the
    killzone kills and keeping one histogram across generations. */
module Driver {
  import opened Cells
  import opened Grid
  import opened Histograms
  import opened Generation

  /** The board after g generations. */
  function Iterate(n: int, b: seq<Cell>, g: nat): (r: seq<Cell>)
    requires 0 < n && |b| == n * n
    ensures |r| == n * n
    decreases g
  {
    if g == 0 then b else Iterate(n, NextBoard(n, b), g - 1)
  }

  /** Generation g + 1 is one step after generation g. */
  lemma {:induction false} IterateStep(n: int, b: seq<Cell>, g: nat)
    requires 0 < n && |b| == n * n
    ensures Iterate(n, b, g + 1) == NextBoard(n, Iterate(n, b, g))
    decreases g
  {
    if g > 0 {
      IterateStep(n, NextBoard(n, b), g - 1);
    }
  }

  /** Pre-step ages of the killzone kills of the first g generations, in order. */
  function RunKills(n: int, b: seq<Cell>, g: nat): seq<int>
    requires 0 < n && |b| == n * n
  {
    if g == 0 then [] else RunKills(n, b, g - 1) + Kills(n, Iterate(n, b, g - 1))
  }

  /** A board without live cells stays as it is for all later generations,
      and no later generation kills anything: stopping there loses nothing. */
  lemma {:induction false} ExtinctStaysExtinct(n: int, b: seq<Cell>, g: nat, h: nat)
    requires 0 < n && |b| == n * n && g <= h
    requires LiveCount(Iterate(n, b, g)) == 0
    ensures Iterate(n, b, h) == Iterate(n, b, g)
    ensures RunKills(n, b, h) == RunKills(n, b, g)
    decreases h - g
  {
    if g < h {
      ExtinctStaysExtinct(n, b, g, h - 1);
      IterateStep(n, b, h - 1);
      ExtinctIsFixedPoint(n, Iterate(n, b, g));
      assert RunKills(n, b, h) == RunKills(n, b, h - 1) + [];
    }
  }

  /** One pass of main's loop body (src/main.cpp:266-274): one generation,
      its kills added to the histogram, and the live cells counted after it. */
  method Advance(n: int, board: array<Cell>, histogram: KillHistogram, ghost b: seq<Cell>, ghost g: nat)
    returns (killed: int, living: int)
    requires 0 < n && board.Length == n * n && |b| == n * n
    requires board[..] == Iterate(n, b, g)
    requires histogram.counts == Record(map[], RunKills(n, b, g))
    modifies board, histogram
    ensures board[..] == Iterate(n, b, g + 1)
    ensures histogram.counts == Record(map[], RunKills(n, b, g + 1))
    ensures |RunKills(n, b, g + 1)| == |RunKills(n, b, g)| + killed
    ensures living == LiveCount(board[..])
  {
    ghost var before := board[..];
    ghost var kills := RunKills(n, b, g);
    killed := RunGeneration(n, board, histogram);
    IterateStep(n, b, g);
    RecordAppend(map[], kills, Kills(n, before));
    living := CountLivingCells(n, board);
  }

  /** main's loop (src/main.cpp:257-275) on a loaded board, with a bound of
      `fuel` generations: returns the starting live count, the total number
      of killzone kills, the number of generations run, the kill histogram
      and whether the loop stopped because no cell was left alive. */
  method RunSimulation(n: int, board: array<Cell>, fuel: nat)
    returns (startCells: int, totalKills: int, generations: nat, histogram: KillHistogram, extinct: bool)
    requires ValidSize(n) && board.Length == n * n
    modifies board
    ensures fresh(histogram)
    ensures startCells == LiveCount(old(board[..]))
    ensures generations <= fuel
    ensures board[..] == Iterate(n, old(board[..]), generations)
    ensures histogram.counts == Record(map[], RunKills(n, old(board[..]), generations))
    ensures totalKills == |RunKills(n, old(board[..]), generations)| == Sum(histogram.counts)
    ensures extinct <==> 1 <= generations && LiveCount(board[..]) == 0
    ensures !extinct ==> generations == fuel
    ensures forall g :: 1 <= g < generations ==> LiveCount(Iterate(n, old(board[..]), g)) != 0
  {
    ghost var b := board[..];
    startCells := CountLivingCells(n, board);
    totalKills := 0;
    generations := 0;
    var done := false;
    histogram := new KillHistogram();
    while !done && generations < fuel
      invariant generations <= fuel && board.Length == n * n
      invariant board[..] == Iterate(n, b, generations)
      invariant histogram.counts == Record(map[], RunKills(n, b, generations))
      invariant totalKills == |RunKills(n, b, generations)|
      invariant done <==> 1 <= generations && LiveCount(board[..]) == 0
      invariant forall g :: 1 <= g < generations ==> LiveCount(Iterate(n, b, g)) != 0
      decreases fuel - generations
    {
      var killed, cbc := Advance(n, board, histogram, b, generations);
      totalKills := totalKills + killed;
      if cbc == 0 {
        done := true;
      }
      generations := generations + 1;
    }
    extinct := done;
    RecordSum(map[], RunKills(n, b, generations));
  }
}
