/** Cells of the square board and the small helpers every part of the engine shares. */
module Cells {

  /** A board cell, the `[row, col]` pair the game stores for each firewall. */
  datatype Cell = Cell(row: int, col: int)

  datatype Option<T> = None | Some(value: T)

  /** `Math.abs` on integers. */
  function Abs(x: int): nat
  {
    if x < 0 then -x else x
  }

  /** Every cell of `fs` lies on the n-by-n board. */
  predicate InBoard(fs: seq<Cell>, n: int)
  {
    forall i :: 0 <= i < |fs| ==> 0 <= fs[i].row < n && 0 <= fs[i].col < n
  }
}
