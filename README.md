# DandelifeonSim in Dafny

This project models the simulation engine of DandelifeonSim (`src/main.cpp`). DandelifeonSim is Conway's Game of Life on an N x N board stored row-major, with two extra rules:

- **Ages.** Every cell keeps a generation counter. A live cell of age 60 or more dies. A newborn cell is one older than its oldest live neighbour.
- **Killzone.** A central 3 x 3 killzone kills every cell that is alive in it. Each such death is counted in a histogram under the cell's age at death.

The driver runs generations until no cell is alive. It reports:

- the starting population;
- the total number of killzone kills;
- the number of generations;
- the histogram.

The model is split into modules:

- **Cells** (`cells.dfy`): `class Cell` as a value type. Its mutators `setAlive` and `age` are functions that return the changed cell.
- **Grid** (`grid.dfy`):
  - the row-major layout and the board-size bounds 7..1024;
  - `count_living_cells`, as a loop proved equal to the specification function `LiveCount`.
- **Neighbours** (`neighbours.dfy`): `get_neighbour_count`.
  - The method scans the clipped window exactly as the source does.
  - It is proved equal to `NeighbourCount` and `MaxNeighbourAge`. These are defined over the full 3 x 3 window, with off-board positions absent.
- **Histograms** (`histogram.dfy`): the one `std::map<int, int>` kill histogram, as the class `KillHistogram`.
  - Its contents after a sequence of kills are given by `Record`.
  - `Sum` gives the total of its counts.
- **Generation** (`generation.dfy`): `run_generation`, over two arrays, the old board and `new_board`.
  - Every decision reads only the old board.
  - The result is proved equal to `NextBoard`, the cell-by-cell rule.
  - The returned count and the histogram update are proved to be the killzone kills `Kills` of the old board.
- **Loader** (`loader.dfy`): `load_board` on the file's text.
  - `util::split(s, "\n")` is modelled by `Tokens`.
  - A round trip shows that loading the board's picture brings back which cells are alive.
- **Driver** (`driver.dfy`): the loop of `main`, bounded by a fuel parameter.
  - It is proved to compute `Iterate` (the board after g generations) and `RunKills` (all kills so far).
  - It stops exactly at the first generation that leaves no live cell.

Interfaces to the outside world are not modelled:

- The board side N is a parameter. The driver requires 7 <= N <= 1024, which `main` checks before it uses N.
- The file's text is a parameter of `LoadBoard`.
- Nothing is printed.

## Model

| member | source | states |
|---|---|---|
| Cells.DeadCell | src/main.cpp:45 | The default cell is dead, reports age 0, and still reports age 0 once set alive (the loader's cells start at age 0) |
| Cells.LiveCell | src/main.cpp:46 | `Cell(generation)` is alive and reports the given age; aging it reports one more |
| Cells.Cell.SetAlive | src/main.cpp:47-49 | Sets the flag and keeps the counter: a cell set alive reports its stored counter, a cell set dead reports 0 |
| Cells.Cell.Aged | src/main.cpp:49-50 | Aging keeps the flag; a live cell reports one more; a dead cell still reports 0 but one more once revived |
| Grid.RowStartIsProduct | src/main.cpp:151 | The row offset used for `y * board_size` equals the product |
| Grid.IdxBounds | src/main.cpp:151 | Every on-board (x, y) has its row-major position inside the n * n board |
| Grid.RowColIdx | src/main.cpp:222-224 | Each position is the position of its column and row, and the column is below n |
| Grid.IdxRowCol | src/main.cpp:222-224 | The position of (x, y) gives back column x and row y |
| Grid.FlatCoords | src/main.cpp:222-224 | Every position of the board is the position of exactly one on-board (column, row) pair |
| Grid.LiveCountZero | src/main.cpp:269-271 | The live count is 0 if and only if no cell is alive (the driver's stopping test) |
| Grid.CountLivingCells | src/main.cpp:219-231 | The row-by-row scan returns the number of live cells of the board, between 0 and n * n |
| Neighbours.ClampedWindow | src/main.cpp:140-143 | The window clipped at the board's edges gives the same count and maximum as the full 3 x 3 window |
| Neighbours.MaxNeighbourAgeIsMax | src/main.cpp:152-156 | The final maximum is at least its start and at least every live neighbour's age, and is the start or one of those ages |
| Neighbours.NeighbourCountZero | src/main.cpp:145-159 | The count is 0 if and only if no on-board neighbour is alive |
| Neighbours.WindowTerms | src/main.cpp:145-159 | The count is the sum of the eight surrounding positions; the centre is excluded (lines 148-150) |
| Neighbours.NeighbourCountBounds | src/main.cpp:140-159 | The count is at most 8; at most 5 on an edge and at most 3 in a corner |
| Neighbours.ScanNeighbourRow | src/main.cpp:146-158 | The column loop adds the live non-centre cells of one row to the count and raises the maximum to their ages |
| Neighbours.GetNeighbourCount | src/main.cpp:138-161 | Returns the number of live neighbours and the maximum of the initial value and the live neighbours' ages |
| Histograms.BumpGet | src/main.cpp:193-194 | `++map[age]` adds one at that age, makes it a key and leaves the other ages alone |
| Histograms.OccurrencesMultiplicity | src/main.cpp:193-194 | Counting an age in a list of ages is its multiplicity in their multiset |
| Histograms.RecordGet | src/main.cpp:193-194 | After recording a list of ages, each age's count has grown by the number of times it occurs in the list |
| Histograms.RecordAppend | src/main.cpp:264-266 | Recording two lists one after the other is recording their concatenation (one histogram across generations) |
| Histograms.BumpSum | src/main.cpp:193-194 | One increment raises the total of the counts by exactly one |
| Histograms.RecordSum | src/main.cpp:264-266 | Recording a list of ages raises the total of the counts by its length |
| Histograms.KillHistogram.constructor | src/main.cpp:264 | The histogram starts empty |
| Histograms.KillHistogram.Add | src/main.cpp:193-194 | One killzone death at an age bumps that age and raises the total by one |
| Generation.SurvivalRule | src/main.cpp:182-189 | A live cell outside the killzone is alive next exactly with 2 or 3 neighbours and age below 60, and then one older |
| Generation.DeathByAge | src/main.cpp:183-184 | A live cell of age 60 or more dies whatever its neighbours |
| Generation.KillzoneDeath | src/main.cpp:190-192 | A live cell in the killzone dies whatever its neighbours and age |
| Generation.BirthRule | src/main.cpp:197-201 | A dead cell (also in the killzone) is born exactly with 3 live neighbours, one older than the oldest of them and at least 1 |
| Generation.NextPrefixIndex | src/main.cpp:175-178 | Position j of the next board holds the next state of the cell at j |
| Generation.KillsAreKillzoneCells | src/main.cpp:190-195 | The kills of a generation are exactly the cells alive in the killzone: one entry per cell, each with that cell's pre-step age |
| Generation.KillsUpToCount | src/main.cpp:190-195 | A prefix of the scan holds each age once per killzone cell of that age in that prefix |
| Generation.KillsUpToLength | src/main.cpp:195 | A prefix of the scan kills one cell per live killzone cell in it |
| Generation.NoKillsUpTo | src/main.cpp:190-195 | Without live cells there are no killzone kills |
| Generation.ExtinctIsFixedPoint | src/main.cpp:163-217 | A board with no live cell steps to itself with no kills, so nothing is born from nothing |
| Generation.ScanCell | src/main.cpp:175-203 | Handling one more position in scan order adds its next state and, if it is killed in the killzone, its age |
| Generation.RecordSnoc | src/main.cpp:193-194 | One more kill bumps the recorded histogram at its age |
| Generation.StepCell | src/main.cpp:177-202 | The state written for (x, y) is the rule's next state, read from the old board; reports a killzone kill exactly for a live killzone cell |
| Generation.UpdateCell | src/main.cpp:177-202 | Writes only position i of new_board, adds that cell's killzone kill (if any) to the histogram and to the count |
| Generation.ScanRow | src/main.cpp:176-203 | After row y, new_board holds the next state of every position up to the end of that row, with their kills recorded; the positions after row y still hold the cells copied from the old board |
| Generation.RunGeneration | src/main.cpp:163-217 | The board becomes the next generation, the histogram records this generation's kills, and the result is their number, which is also how much the histogram's total grows |
| Loader.JoinSplit | src/main.cpp:33-39 | Joining the '\n'-separated pieces gives the text back |
| Loader.SplitJoin | src/main.cpp:33-39 | Splitting pieces joined by '\n' (none containing '\n') gives the pieces back |
| Loader.SplitNoNewline | src/main.cpp:33-39 | No piece contains '\n' |
| Loader.SplitPrefix | src/main.cpp:33-39 | Text before the first '\n' is the start of the first piece |
| Loader.SplitLast | src/main.cpp:33-39 | Text ending in '\n' has an empty last piece; other non-empty text has a non-empty one |
| Loader.JoinSnocEmpty | src/main.cpp:33-39 | An empty last piece puts a '\n' at the end of the text |
| Loader.TokensJoin | src/main.cpp:33-39 | The split lines, joined, give the text back without its final '\n' (if there is one), and no line contains '\n' |
| Loader.TokensLoadSame | src/main.cpp:120-135 | Dropping the empty trailing piece changes no loaded cell |
| Loader.LoadPicture | src/main.cpp:57-65 | Loading the board's picture (one 'X' or ' ' per cell, one row per line) gives back exactly which cells are alive, all at age 0 |
| Loader.LoadStep | src/main.cpp:124-130 | One character: an 'X' inside the board makes its (still dead) cell alive; any other character changes nothing |
| Loader.RowDone | src/main.cpp:122-131 | After its last character a line's row is complete |
| Loader.LoadBoard | src/main.cpp:114-136 | The board has n * n cells; cell (x, y) is alive at age 0 exactly when line y < n of the text has an 'X' at column x < n; all others are dead |
| Driver.IterateStep | src/main.cpp:265-266 | Generation g + 1 is one step after generation g |
| Driver.ExtinctStaysExtinct | src/main.cpp:263-275 | Once no cell is alive, later generations change nothing and kill nothing, so stopping loses nothing |
| Driver.Advance | src/main.cpp:266-274 | One loop pass takes the board from generation g to g + 1, adds that generation's kills to the histogram and total, and counts the live cells left |
| Driver.RunSimulation | src/main.cpp:257-275 | Returns the starting population, the number of generations run, the board after them, the histogram of all their kills and a total equal to its sum; it stops exactly at the first generation with no cell alive, or at the fuel bound |

## Left out

- `read_file` (file I/O): the file's text is a parameter of `LoadBoard`.
- `LoadBoard`: `text` holds the file's bytes, one `char` per byte, because `load_board` counts columns in bytes (src/main.cpp:124-129). Decoding the file as Unicode text is not modelled: after a non-ASCII character it would shift the columns.
- The regular-expression engine behind `util::split`. `Tokens` models `split(s, "\n")`: the pieces between '\n' characters, without a final empty piece.
- Command-line parsing: N is a parameter, and `RunSimulation` requires 7 <= N <= 1024, as `main` enforces.
- `generate_board`: it depends on a random number generator.
- `print_board` and the output of `main`: output is not modelled. `Picture`/`CellChar` model the cell characters only, for the load round trip.
- `cells_born`: `run_generation` counts it but never uses it.
- `get_neighbour_count` without a `max_generation` pointer: the program has no such call.
- The reference taken at line 125 before the `x < board_size` test. For a line longer than the board on the last row, it names a position past the end of the board. The model only takes the position when x < n.
- Overflow of `int`: Dafny integers are unbounded. The source's 32-bit ages, kill counts and generation counter grow by a bounded amount per generation, so they would wrap only after hundreds of millions of generations.
- `RunSimulation`: `main`'s loop has no bound on generations and need not terminate (an oscillator outside the killzone runs forever). The model stops after `fuel` generations and says which way it stopped.
- `Cells.Cell`: `setAlive` and `age` update the cell in place. They are modelled as functions returning the changed value, which the callers write back into the arrays.
- The loop bodies of `get_neighbour_count`, `run_generation` and `main` are separate methods (`ScanNeighbourRow`, `StepCell`, `UpdateCell`, `ScanRow`, `Advance`). Each is called at the place of the body it stands for.
- A bound on the cells of the killzone after a step. The model does not claim the killzone is empty after a step, because the program does not keep it empty:
  - The killzone is the closed range N/2 - 1 .. N/2 + 1 in both axes (`InKillzone`, src/main.cpp:190-191).
  - A dead killzone cell with exactly 3 live neighbours is born in the step and is alive until the next one (`BirthRule`).
- An age bound below 60 after a step. No such bound holds:
  - A live cell of age 59 outside the killzone with 2 or 3 live neighbours survives to age 60 (`SurvivalRule`).
  - A cell born next to that age-59 cell gets age 60 or more (`BirthRule`: one more than its oldest live neighbour).
  - `DeathByAge` states the bound the program does apply: a cell of age 60 or more dies in the next step.
