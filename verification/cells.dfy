/** A single Sudoku cell: its value (0 means empty) and whether it is a clue. */
module Cells {

  datatype Cell = Cell(value: int, isFixed: bool)

  /** What every cell keeps for its whole lifetime: a clue is never empty. */
  predicate CellInv(c: Cell)
  {
    c.isFixed ==> c.value != 0
  }

  /** Builds a cell from an initial value; a nonzero value makes it a clue. */
  function NewCell(value: int): (c: Cell)
    ensures c.value == value
    ensures c.isFixed <==> value != 0
    ensures CellInv(c)
  {
    Cell(value, value != 0)
  }

  /** A write: ignored on a clue, an unchecked overwrite otherwise. */
  function SetValue(c: Cell, newValue: int): (r: Cell)
    ensures r.isFixed == c.isFixed
    ensures c.isFixed ==> r == c
    ensures !c.isFixed ==> r.value == newValue
    ensures CellInv(c) ==> CellInv(r)
  {
    if c.isFixed then c else c.(value := newValue)
  }

  /** The cell after a whole history of writes, oldest first. */
  function ApplyWrites(c: Cell, writes: seq<int>): Cell
    decreases |writes|
  {
    if |writes| == 0 then c else ApplyWrites(SetValue(c, writes[0]), writes[1..])
  }

  /** A cell built from a clue keeps that clue through any history of writes,
      and a cell built from 0 never becomes a clue. */
  lemma {:induction false} WritesKeepClues(c: Cell, writes: seq<int>)
    requires CellInv(c)
    ensures ApplyWrites(c, writes).isFixed == c.isFixed
    ensures c.isFixed ==> ApplyWrites(c, writes) == c
    ensures CellInv(ApplyWrites(c, writes))
    decreases |writes|
  {
    if |writes| > 0 {
      WritesKeepClues(SetValue(c, writes[0]), writes[1..]);
    }
  }
}
