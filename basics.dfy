/** Values shared by the seating simulation and the pattern measures. */
module Basics {

  datatype Option<T> = None | Some(value: T)

  /** The Python exceptions the modelled code raises. */
  datatype Error =
    | ValueError(message: string)
    | AttributeError(message: string)
    | ZeroDivisionError

  datatype Result<T> = Success(value: T) | Failure(error: Error)

  /** A grid coordinate `(x, y)`: `x` is the column (axis 0), `y` the row (axis 1). */
  datatype Pos = Pos(x: int, y: int)

  /** A two-dimensional numpy array: `rows` entries along axis 0, each of length `cols`.
      The shape is kept apart from the cells because an array with no rows still has a
      column count. */
  datatype Grid<T> = Grid(rows: nat, cols: nat, cells: seq<seq<T>>) {
    predicate Valid() {
      |cells| == rows && forall i :: 0 <= i < |cells| ==> |cells[i]| == cols
    }
  }

  /** An array of `rows` by `cols` copies of `v`. */
  function Filled<T>(rows: nat, cols: nat, v: T): (g: Grid<T>)
    ensures g.Valid() && g.rows == rows && g.cols == cols
    ensures forall i, j :: 0 <= i < rows && 0 <= j < cols ==> g.cells[i][j] == v
  {
    Grid(rows, cols, seq(rows, _ => seq(cols, _ => v)))
  }

  function SumReal(s: seq<real>): real
  {
    if s == [] then 0.0 else SumReal(s[..|s| - 1]) + s[|s| - 1]
  }

  function Min(a: int, b: int): int { if a <= b then a else b }

  function Max(a: int, b: int): int { if a >= b then a else b }

  // Division of reals, one fact at a time.

  lemma DivideAtMostOne(x: real, m: real)
    requires m > 0.0 && x <= m
    ensures x / m <= 1.0
  {
  }

  lemma DivideThenMultiply(x: real, t: real)
    requires t != 0.0
    ensures (x / t) * t == x && t / t == 1.0
  {
  }
}
