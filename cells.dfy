/** The state of one cell and Conway's transition rule. */
module Cells {

  /** A cell is alive or dead; the source encodes Alive as 1 and Dead as 0. */
  datatype Cell = Dead | Alive

  /** The integer encoding of a cell, summed to count live neighbours. */
  function Weight(c: Cell): (v: nat)
    ensures v <= 1
    ensures v == 1 <==> c == Alive
  {
    match c
    case Alive => 1
    case Dead => 0
  }

  /** The next state of a cell in state `current` with `n` live neighbours, tried
      arm by arm in the order of the source's `match`, with the final fallback
      keeping the current state. The postcondition is Conway's rule B3/S23:
      a live cell survives with two or three live neighbours, a dead cell is
      born with exactly three, and every other cell is dead next. */
  function Rule(current: Cell, n: nat): (next: Cell)
    ensures next == Alive <==> (current == Alive && (n == 2 || n == 3)) || (current == Dead && n == 3)
  {
    if current == Alive && n < 2 then Dead
    else if current == Alive && (n == 2 || n == 3) then Alive
    else if current == Alive && n > 3 then Dead
    else if current == Dead && n == 3 then Alive
    else current
  }

  /** The glyph that the text rendering shows for a cell. */
  function Glyph(c: Cell): (g: char)
    ensures g != '\n'
    ensures g == '◼' <==> c == Alive
    ensures g == '◻' <==> c == Dead
  {
    match c
    case Dead => '◻'
    case Alive => '◼'
  }
}
