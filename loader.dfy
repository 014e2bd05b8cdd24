/** Loading a board from text (load_board): the text is cut into lines at
    '\n', and an 'X' at column x of line y makes cell (x, y) alive at age 0. */
module Loader {
  import opened Cells
  import opened Grid

  /** The pieces of s between '\n' characters, in order, empty ones included;
      s without a '\n' is a single piece. */
  function Split(s: string): (r: seq<string>)
    ensures |r| >= 1
    decreases |s|
  {
    if s == [] then [[]]
    else if s[0] == '\n' then [[]] + Split(s[1..])
    else
      var rest := Split(s[1..]);
      [[s[0]] + rest[0]] + rest[1..]
  }

  /** The inverse of Split: the pieces with '\n' between them. */
  function Join(parts: seq<string>): string
    requires |parts| >= 1
    decreases |parts|
  {
    if |parts| == 1 then parts[0] else parts[0] + "\n" + Join(parts[1..])
  }

  /** The lines util::split(s, "\n") returns: a regex token iterator with
      submatch -1 yields the text before every match and then the rest after
      the last match only when that rest is not empty. */
  function Tokens(s: string): seq<string>
  {
    var p := Split(s);
    if |p| > 1 && p[|p| - 1] == [] then p[..|p| - 1] else p
  }

  /** A character put in front of a single piece comes first in the text. */
  lemma JoinConsSingle(c: char, parts: seq<string>)
    requires |parts| == 1
    ensures Join([[c] + parts[0]] + parts[1..]) == [c] + Join(parts)
  {
    var r := [[c] + parts[0]] + parts[1..];
    assert |r| == 1;
  }

  /** Concatenation of strings is associative. */
  lemma AppendAssoc(a: string, b: string, c: string)
    ensures (a + b) + c == a + (b + c)
  {
  }

  /** A character put in front of the first of several pieces comes first
      in the text. */
  lemma JoinConsChar(c: char, parts: seq<string>)
    requires |parts| > 1
    ensures Join([[c] + parts[0]] + parts[1..]) == [c] + Join(parts)
  {
    var r := [[c] + parts[0]] + parts[1..];
    assert r[1..] == parts[1..];
    var tail := "\n" + Join(parts[1..]);
    assert Join(parts) == parts[0] + "\n" + Join(parts[1..]);
    AppendAssoc(parts[0], "\n", Join(parts[1..]));
    AppendAssoc([c] + parts[0], "\n", Join(parts[1..]));
    AppendAssoc([c], parts[0], tail);
  }

  /** Joining the pieces gives the text back. */
  lemma {:induction false} JoinSplit(s: string)
    ensures Join(Split(s)) == s
    decreases |s|
  {
    if s != [] {
      var rest := Split(s[1..]);
      JoinSplit(s[1..]);
      if s[0] == '\n' {
        assert ([[]] + rest)[1..] == rest;
      } else if |rest| == 1 {
        JoinConsSingle(s[0], rest);
      } else {
        JoinConsChar(s[0], rest);
      }
      assert s == [s[0]] + s[1..];
    }
  }

  /** No piece contains a '\n'. */
  lemma {:induction false} SplitNoNewline(s: string)
    ensures forall i :: 0 <= i < |Split(s)| ==> '\n' !in Split(s)[i]
    decreases |s|
  {
    if s != [] {
      SplitNoNewline(s[1..]);
    }
  }

  /** Splitting text that starts with a piece w free of '\n' puts w in front
      of the first piece of the rest. */
  lemma {:induction false} SplitPrefix(w: string, t: string)
    requires '\n' !in w
    ensures Split(w + t) == [w + Split(t)[0]] + Split(t)[1..]
    decreases |w|
  {
    if w != [] {
      SplitPrefix(w[1..], t);
      assert (w + t)[1..] == w[1..] + t;
      assert [w[0]] + (w[1..] + Split(t)[0]) == w + Split(t)[0];
    } else {
      var p := Split(t);
      assert w + t == t && w + p[0] == p[0];
      assert p == [p[0]] + p[1..];
    }
  }

  /** Splitting joined pieces free of '\n' gives the pieces back. */
  lemma {:induction false} SplitJoin(parts: seq<string>)
    requires |parts| >= 1
    requires forall i :: 0 <= i < |parts| ==> '\n' !in parts[i]
    ensures Split(Join(parts)) == parts
    decreases |parts|
  {
    if |parts| == 1 {
      SplitPrefix(parts[0], []);
      assert parts[0] + [] == parts[0];
    } else {
      var rest := parts[1..];
      SplitJoin(rest);
      var tail := "\n" + Join(rest);
      SplitPrefix(parts[0], tail);
      assert tail[1..] == Join(rest);
      assert Split(tail) == [[]] + rest;
      assert Join(parts) == parts[0] + tail;
      assert parts[0] + [] == parts[0];
      assert parts == [parts[0]] + rest;
    }
  }

  /** Text ending in '\n' splits into more than one piece, the last one
      empty; other non-empty text ends in a non-empty piece. */
  lemma {:induction false} SplitLast(s: string)
    ensures s != [] && s[|s| - 1] == '\n' ==> |Split(s)| > 1 && Split(s)[|Split(s)| - 1] == []
    ensures s != [] && s[|s| - 1] != '\n' ==> Split(s)[|Split(s)| - 1] != []
    decreases |s|
  {
    if |s| > 1 {
      SplitLast(s[1..]);
      assert s[1..][|s[1..]| - 1] == s[|s| - 1];
    }
  }

  /** Adding an empty last piece adds a final '\n'. */
  lemma {:induction false} JoinSnocEmpty(q: seq<string>)
    requires |q| >= 1
    ensures Join(q + [[]]) == Join(q) + "\n"
    decreases |q|
  {
    if |q| > 1 {
      JoinSnocEmpty(q[1..]);
      assert (q + [[]])[1..] == q[1..] + [[]];
    }
  }

  /** The lines of util::split are the text with its '\n' separators taken
      out: joined back they give the text, without its final '\n' if it has one. */
  lemma TokensJoin(s: string)
    ensures s != [] && s[|s| - 1] == '\n' ==> Join(Tokens(s)) + "\n" == s
    ensures !(s != [] && s[|s| - 1] == '\n') ==> Join(Tokens(s)) == s
    ensures forall i :: 0 <= i < |Tokens(s)| ==> '\n' !in Tokens(s)[i]
  {
    var p := Split(s);
    JoinSplit(s);
    SplitLast(s);
    SplitNoNewline(s);
    if |p| > 1 && p[|p| - 1] == [] {
      JoinSnocEmpty(p[..|p| - 1]);
      assert p[..|p| - 1] + [[]] == p;
    }
  }

  /** Cell (x, y) as load_board leaves it for the given lines: alive at age 0
      where line y has an 'X' at column x, dead with counter 0 elsewhere. */
  function LoadedCell(lines: seq<string>, x: int, y: int): Cell
  {
    if 0 <= y < |lines| && 0 <= x < |lines[y]| && lines[y][x] == 'X' then DeadCell().SetAlive(true)
    else DeadCell()
  }

  /** Dropping the empty final piece does not change any loaded cell. */
  lemma TokensLoadSame(s: string, x: int, y: int)
    ensures LoadedCell(Tokens(s), x, y) == LoadedCell(Split(s), x, y)
  {
  }

  /** The character operator<< writes for a cell. */
  function CellChar(c: Cell): char
  {
    if c.alive then 'X' else ' '
  }

  /** Row y of the board as operator<< writes it, without print_board's frame. */
  function RowText(n: int, b: seq<Cell>, y: int): (r: string)
    requires 0 <= y < n && |b| == n * n
    ensures |r| == n
  {
    seq(n, x requires 0 <= x < n => (IdxBounds(n, x, y); CellChar(b[Idx(n, x, y)])))
  }

  /** The board as text, one row per line. */
  function Picture(n: int, b: seq<Cell>): string
    requires 0 < n && |b| == n * n
  {
    Join(seq(n, y requires 0 <= y < n => RowText(n, b, y)))
  }

  /** Loading a board's picture brings back which cells are alive; the
      loaded cells all have age 0. */
  lemma LoadPicture(n: int, b: seq<Cell>, x: int, y: int)
    requires 0 < n && |b| == n * n && 0 <= x < n && 0 <= y < n
    ensures 0 <= Idx(n, x, y) < |b|
    ensures LoadedCell(Tokens(Picture(n, b)), x, y).alive == b[Idx(n, x, y)].alive
    ensures LoadedCell(Tokens(Picture(n, b)), x, y).Age() == 0
  {
    var rows := seq(n, y requires 0 <= y < n => RowText(n, b, y));
    forall i | 0 <= i < |rows|
      ensures '\n' !in rows[i]
    {
      assert forall x :: 0 <= x < n ==> rows[i][x] != '\n';
    }
    SplitJoin(rows);
    assert Tokens(Picture(n, b)) == rows;
    IdxBounds(n, x, y);
  }

  /** The board after load_board has handled the cells before (x, y) in
      row-major order: those are as the lines say, the rest are still dead. */
  predicate LoadedBefore(n: int, lines: seq<string>, s: seq<Cell>, x: int, y: int)
    requires 0 < n
  {
    forall i :: 0 <= i < |s| ==>
      s[i] == (if Row(n, i) < y || (Row(n, i) == y && Col(n, i) < x) then LoadedCell(lines, Col(n, i), Row(n, i))
               else DeadCell())
  }

  /** One character of line y: an 'X' within the board makes its cell alive,
      and every other character leaves the board as it is. */
  lemma LoadStep(n: int, lines: seq<string>, s: seq<Cell>, x: int, y: int)
    requires 0 < n && |s| == n * n && 0 <= y < n && y < |lines| && 0 <= x < |lines[y]|
    requires LoadedBefore(n, lines, s, x, y)
    ensures x < n ==> 0 <= Idx(n, x, y) < |s| && s[Idx(n, x, y)] == DeadCell()
    ensures lines[y][x] == 'X' && x < n ==>
      LoadedBefore(n, lines, s[Idx(n, x, y) := DeadCell().SetAlive(true)], x + 1, y)
    ensures !(lines[y][x] == 'X' && x < n) ==> LoadedBefore(n, lines, s, x + 1, y)
  {
    forall i | 0 <= i < |s|
      ensures 0 <= Col(n, i) < n && Idx(n, Col(n, i), Row(n, i)) == i
    {
      RowColIdx(n, i);
    }
    if x < n {
      IdxBounds(n, x, y);
      IdxRowCol(n, x, y);
    }
  }

  /** Once all of line y is handled, row y is complete. */
  lemma RowDone(n: int, lines: seq<string>, s: seq<Cell>, y: int)
    requires 0 < n && 0 <= y < |lines|
    requires LoadedBefore(n, lines, s, |lines[y]|, y)
    ensures LoadedBefore(n, lines, s, 0, y + 1)
  {
    forall i | 0 <= i < |s| && Row(n, i) == y
      ensures s[i] == LoadedCell(lines, Col(n, i), Row(n, i))
    {
      RowColIdx(n, i);
    }
  }

  /** load_board (src/main.cpp:114-136) on the file's text: the board is
      cleared to n * n dead cells, then each line is scanned character by
      character; an 'X' at a column inside the board makes that cell alive,
      and after n lines the rest of the text is ignored. */
  method LoadBoard(n: int, text: string) returns (board: array<Cell>)
    requires 0 < n
    ensures fresh(board) && board.Length == n * n
    ensures forall i :: 0 <= i < n * n ==> board[i] == LoadedCell(Tokens(text), Col(n, i), Row(n, i))
  {
    board := new Cell[n * n](_ => DeadCell());
    var lines := Tokens(text);
    var y := 0;
    for k := 0 to |lines|
      invariant y == k && y < n
      invariant LoadedBefore(n, lines, board[..], 0, y)
    {
      var line := lines[k];
      for x := 0 to |line|
        invariant LoadedBefore(n, lines, board[..], x, y)
      {
        LoadStep(n, lines, board[..], x, y);
        if line[x] == 'X' && x < n {
          RowStartIsProduct(n, y);
          var i := y * n + x;
          board[i] := board[i].SetAlive(true);
        }
      }
      RowDone(n, lines, board[..], y);
      y := y + 1;
      if y >= n {
        break;
      }
    }
    forall i | 0 <= i < n * n
      ensures board[i] == LoadedCell(lines, Col(n, i), Row(n, i))
    {
      FlatCoords(n, i);
    }
  }
}
