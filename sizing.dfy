/** The side length of the grid for a level (`_grid.get_grid_size`). The
    source reduces the original size by `level * .10` of itself in floating
    point; here the reduction `30 * level / 10` is exact, i.e. `3 * level`. */
module Sizing {

  /** Side of the grid at level 1. */
  const OriginSize: int := 30

  /** The grid never shrinks below this side. */
  const MinimumSize: int := 10

  /** How many cells are taken off the side at a level, the source's
      `origin_size*reduction` where `reduction` is the fraction `level * .10`
      (0 at level 1): ten percent of the original side per level. */
  function CellsTakenOff(level: int): (r: int)
    ensures level == 1 ==> r == 0
    ensures level != 1 ==> r * 10 == OriginSize * level
  {
    if level == 1 then 0 else OriginSize * level / 10
  }

  /** The side of the grid at `level`: the reduced size, or MinimumSize once
      the reduced size would be at or below it. */
  function GridSize(level: int): (size: int)
    ensures size >= MinimumSize
    ensures size == MinimumSize || size == OriginSize - CellsTakenOff(level)
  {
    var reduced := OriginSize - CellsTakenOff(level);
    if reduced <= MinimumSize then MinimumSize else reduced
  }

  /** A new game starts on the full 30 by 30 grid. */
  lemma FirstLevelSize()
    ensures GridSize(1) == OriginSize
  {
  }

  /** Exact arithmetic for every level other than 1: 30 - 3 * level, clamped at 10. */
  lemma GridSizeFormula(level: int)
    requires level != 1
    ensures GridSize(level) == if 30 - 3 * level <= 10 then 10 else 30 - 3 * level
  {
  }

  /** From level 7 on the grid is at its minimum; below it, it is larger. */
  lemma MinimumReached(level: int)
    ensures GridSize(level) == MinimumSize <==> level >= 7
  {
  }

  /** A higher level never has a larger grid. */
  lemma GridSizeNonIncreasing(level: int, level': int)
    requires level <= level'
    ensures GridSize(level') <= GridSize(level)
  {
    assert CellsTakenOff(level) * 10 == OriginSize * level || level == 1;
    assert CellsTakenOff(level') * 10 == OriginSize * level' || level' == 1;
  }
}
