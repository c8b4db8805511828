/** Geometry of the 6 x 6 garden (game.js hard-codes 6 and 36; the constant
    GRID_SIZE of line 2 is declared but never read). A cell is addressed by
    one index `r * 6 + c`; the index of a hole is converted back with
    `Math.floor(h / 6)` and `h % 6` (lines 173-174, 189-190). */
module Grid {

  function Abs(x: int): nat {
    if x < 0 then -x else x
  }

  /** `Math.floor(h / 6)`: for a positive divisor the floor quotient is Dafny's `/`. */
  function Row(h: int): int {
    h / 6
  }

  /** `h % 6`: equal to Dafny's `%` for the non-negative indices the game uses. */
  function Col(h: int): int {
    h % 6
  }

  /** The index `r*6 + c` of line 62 and line 76. */
  function Index(r: int, c: int): int {
    r * 6 + c
  }

  /** Two positions touch when they are at most one apart in both directions,
      diagonals and the same cell included (lines 54 and 193). */
  predicate Touch(r1: int, c1: int, r2: int, c2: int) {
    Abs(r1 - r2) <= 1 && Abs(c1 - c2) <= 1
  }

  /** Two cell indices touch. */
  predicate Adjacent(h: int, o: int) {
    Touch(Row(h), Col(h), Row(o), Col(o))
  }

  /** The index of an in-range position is a cell, and converts back to it. */
  lemma IndexCoordinates(r: int, c: int)
    requires 0 <= r < 6 && 0 <= c < 6
    ensures 0 <= Index(r, c) < 36
    ensures Row(Index(r, c)) == r && Col(Index(r, c)) == c
  {
  }

  /** Positions that do not touch are at Manhattan distance two or more. */
  lemma ApartIsFar(r1: int, c1: int, r2: int, c2: int)
    requires !Touch(r1, c1, r2, c2)
    ensures Abs(r1 - r2) + Abs(c1 - c2) >= 2
  {
  }
}
