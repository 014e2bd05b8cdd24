/** The per-position state of the board: class Cell of src/main.cpp. */
module Cells {

  /** A board cell.  `generation` is the stored counter and `alive` the flag.
      The counter of a dead cell may be stale (a cell that dies keeps it);
      callers observe it only through Age(), which hides it. */
  datatype Cell = Cell(generation: int, alive: bool)
  {
    /** The reported age (getGeneration): the counter while alive, 0 otherwise. */
    function Age(): int
    {
      if alive then generation else 0
    }

    /** setAlive: changes the flag and keeps the stored counter. */
    function SetAlive(b: bool): (c: Cell)
      ensures c.alive == b
      ensures b ==> c.Age() == generation
      ensures !b ==> c.Age() == 0
    {
      Cell(generation, b)
    }

    /** age: raises the stored counter by one and keeps the flag. */
    function Aged(): (c: Cell)
      ensures c.alive == alive
      ensures alive ==> c.Age() == Age() + 1
      ensures !alive ==> c.Age() == 0
      ensures c.SetAlive(true).Age() == SetAlive(true).Age() + 1
    {
      Cell(generation + 1, alive)
    }
  }

  /** The default constructor Cell(): dead, with counter 0. */
  function DeadCell(): (c: Cell)
    ensures !c.alive && c.Age() == 0
    ensures c.SetAlive(true).Age() == 0
  {
    Cell(0, false)
  }

  /** The constructor Cell(generation): alive at the given age. */
  function LiveCell(generation: int): (c: Cell)
    ensures c.alive && c.Age() == generation
    ensures c.Aged().Age() == generation + 1
  {
    Cell(generation, true)
  }
}
