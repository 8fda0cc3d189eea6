/** The one chess relation both the solver and the board rely on. */
module Geometry {

  /** Queens on squares (r1, c1) and (r2, c2) attack each other: the squares
      share a column, a row, a diagonal (constant `row - column`) or an
      anti-diagonal (constant `row + column`). Every square shares a line
      with itself. */
  predicate SharesLine(r1: int, c1: int, r2: int, c2: int)
  {
    c1 == c2 || r1 == r2 || r1 - c1 == r2 - c2 || r1 + c1 == r2 + c2
  }
}
