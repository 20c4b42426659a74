/** The stateful objects of the game: the rendered table (`_grid`) and the
    snake that lives in it (`_snake`). Every method is proved against the
    value-level functions of modules Board and Movement, so the lemmas
    proved there carry over to the state the methods leave behind. */
module Game {
  import opened Board
  import opened Sizing
  import opened Direction
  import opened Movement

  /** The table of `build_grid`: `size` rows of `size` cells; `cells[r, x]`
      is the `data-segment` of cell `x + 1` in row `r + 1`, 0 when absent. */
  class Grid {
    const size: nat
    const cells: array2<int>

    ghost predicate Valid() {
      cells.Length0 == size && cells.Length1 == size
    }

    /** The table as a value: row `r + 1` is `Rows()[r]`. */
    ghost function Rows(): (m: Matrix)
      reads cells
      ensures |m| == cells.Length0
      ensures forall r :: 0 <= r < |m| ==> |m[r]| == cells.Length1
    {
      seq(cells.Length0, r requires 0 <= r < cells.Length0 reads cells =>
        seq(cells.Length1, x requires 0 <= x < cells.Length1 reads cells => cells[r, x]))
    }

    /** A grid value that agrees with the array cell by cell is the table. */
    lemma Agree(m: Matrix)
      requires Valid() && IsGrid(m, size)
      requires forall c :: InBounds(c, size) ==> Get(m, c) == cells[c.y - 1, c.x - 1]
      ensures m == Rows()
    {
      forall r | 0 <= r < size
        ensures m[r] == Rows()[r]
      {
        forall x | 0 <= x < size
          ensures m[r][x] == Rows()[r][x]
        {
          assert InBounds(Cell(x + 1, r + 1), size);
        }
      }
    }

    /** `build_grid`: a table of side `get_grid_size()` for the level, every cell empty. */
    constructor(level: int)
      ensures Valid() && fresh(cells)
      ensures size == GridSize(level)
      ensures Rows() == Blank(size)
    {
      size := GridSize(level);
      var n := GridSize(level);
      var a := new int[n, n];
      var r := 0;
      while r < n
        invariant 0 <= r <= n
        invariant forall i, x :: 0 <= i < r && 0 <= x < n ==> a[i, x] == 0
      {
        var x := 0;
        while x < n
          invariant 0 <= x <= n
          invariant forall i, j :: 0 <= i < r && 0 <= j < n ==> a[i, j] == 0
          invariant forall j :: 0 <= j < x ==> a[r, j] == 0
        {
          a[r, x] := 0;
          x := x + 1;
        }
        r := r + 1;
      }
      cells := a;
      new;
      Agree(Blank(size));
    }

    /** The occupied cells' indices of row `r + 1`, left to right. */
    method RowIndices(r: nat) returns (segs: seq<int>)
      requires Valid() && r < size
      ensures segs == RowSegments(Rows()[r])
    {
      ghost var row := Rows()[r];
      segs := [];
      var x := 0;
      while x < size
        invariant 0 <= x <= size
        invariant segs == RowSegments(row[..x])
      {
        RowSegmentsNext(row, x);
        segs := segs + Pushed(cells[r, x]);
        x := x + 1;
      }
      assert row[..size] == row;
    }

    /** `$('.snake[data-segment]')` read into an array: the occupied cells'
        indices in document order (row by row, left to right). */
    method Collect() returns (segs: seq<int>)
      requires Valid()
      ensures segs == Segments(Rows())
    {
      ghost var g := Rows();
      segs := [];
      var r := 0;
      while r < size
        invariant 0 <= r <= size
        invariant segs == Segments(g[..r])
      {
        var s := RowIndices(r);
        SegmentsNext(g, r);
        segs := segs + s;
        r := r + 1;
      }
      assert g[..size] == g;
    }

    /** The cells of row `r + 1` holding `v`, left to right. */
    method RowSelect(r: nat, v: int) returns (ps: seq<Cell>)
      requires Valid() && r < size
      ensures ps == RowMatches(Rows()[r], r + 1, v)
    {
      ghost var row := Rows()[r];
      ps := [];
      var x := 0;
      while x < size
        invariant 0 <= x <= size
        invariant ps == RowMatches(row[..x], r + 1, v)
      {
        RowMatchesNext(row, r + 1, v, x);
        if cells[r, x] == v {
          ps := ps + [Cell(x + 1, r + 1)];
        }
        x := x + 1;
      }
      assert row[..size] == row;
    }

    /** `$('.snake[data-segment=v]')`: the cells holding `v`, in document order. */
    method Select(v: int) returns (ps: seq<Cell>)
      requires Valid()
      ensures ps == Matches(Rows(), v)
    {
      ghost var g := Rows();
      ps := [];
      var r := 0;
      while r < size
        invariant 0 <= r <= size
        invariant ps == Matches(g[..r], v)
      {
        var p := RowSelect(r, v);
        MatchesNext(g, v, r);
        ps := ps + p;
        r := r + 1;
      }
      assert g[..size] == g;
    }

    /** `.attr('data-segment', v)` on the cell at `c`, which is a no-op when
        the selector finds no such cell. */
    method Write(c: Cell, v: int)
      requires Valid()
      modifies cells
      ensures Rows() == WriteIfPresent(old(Rows()), c, v)
    {
      if 1 <= c.x <= size && 1 <= c.y <= size {
        cells[c.y - 1, c.x - 1] := v;
      }
      Agree(WriteIfPresent(old(Rows()), c, v));
    }

    /** `.removeAttr('data-segment')` on a selection: every listed cell emptied. */
    method Clear(ps: seq<Cell>)
      requires Valid()
      requires forall k :: 0 <= k < |ps| ==> InGrid(Rows(), ps[k])
      modifies cells
      ensures Rows() == ClearAll(old(Rows()), ps)
    {
      ghost var g := Rows();
      var k := 0;
      while k < |ps|
        invariant 0 <= k <= |ps|
        invariant Rows() == ClearAll(g, ps[..k])
      {
        assert ps[..k + 1][..k] == ps[..k];
        Write(ps[k], 0);
        k := k + 1;
      }
      assert ps[..|ps|] == ps;
    }

    /** The writes of one tick: `v` into cell `c`, then the cells of `tail`,
        selected as those holding `lo` before the write, emptied. */
    method Advance(c: Cell, v: int, lo: int, tail: seq<Cell>)
      requires Valid() && tail == Matches(Rows(), lo)
      modifies cells
      ensures Rows() == Movement.Advance(old(Rows()), c, v, lo)
    {
      ghost var g := Rows();
      Write(c, v);
      ClearAfterWrite(g, c, v, lo);
      Clear(tail);
    }
  }

  /** `_snake`: the movement state and the table it moves in. */
  class Snake {
    const grid: Grid
    const level: int
    const gridSize: nat
    const delta: int
    var size: int
    var plane: Plane
    var activeDelta: int
    var headX: int
    var headY: int

    ghost predicate Valid()
      reads this
    {
      grid.Valid() && gridSize == grid.size
    }

    /** The heading the next tick follows. */
    function CurrentHeading(): Heading
      reads this
    {
      Heading(plane, activeDelta)
    }

    /** `_snake.init`: moves along x by the default step of 1, and a new game
        (level 1) starts with the snake injected. */
    constructor(grid: Grid, level: int)
      requires grid.Valid()
      modifies grid.cells
      ensures Valid() && this.grid == grid && this.level == level && gridSize == grid.size
      ensures delta == 1 && plane == X && activeDelta == delta
      ensures level == 1 ==> size == SnakeSize && grid.Rows() == Injected(old(grid.Rows()))
      ensures level != 1 ==> grid.Rows() == old(grid.Rows())
    {
      this.grid := grid;
      this.level := level;
      gridSize := grid.size;
      plane := X;
      delta := 1;
      activeDelta := 1;
      new;
      if level == 1 {
        InjectSnake();
      }
    }

    /** `inject_snake`: the size becomes 5, then five segments, index 5 down
        to 1, are written right to left from column 10 of row `grid_size - 5`;
        the offset starts at twice the size and drops by one per segment. */
    method InjectSnake()
      requires Valid()
      modifies this`size, grid.cells
      ensures size == SnakeSize && grid.Rows() == Injected(old(grid.Rows()))
    {
      ghost var g := grid.Rows();
      size := 5;
      var offsetX := size * 2;
      var i := size;
      while i > 0
        invariant 0 <= i <= SnakeSize
        invariant offsetX == SnakeSize + i
        invariant grid.Rows() == InjectPrefix(g, gridSize, SnakeSize - i)
        modifies grid.cells
      {
        var c := Cell(offsetX, gridSize - size);
        assert c == Cell(SnakeSize + i, gridSize - SnakeSize);
        ghost var before := grid.Rows();
        grid.Write(c, i);
        InjectPrefixNext(g, gridSize, i, before, grid.Rows());
        offsetX := offsetX - 1;
        i := i - 1;
      }
      assert grid.Rows() == InjectPrefix(g, |g|, SnakeSize) == Injected(g);
    }

    /** `set_dir`: an arrow key sets plane and step from the key map; any other key changes nothing. */
    method SetDir(key: int)
      modifies this`plane, this`activeDelta
      ensures CurrentHeading() == Steer(old(CurrentHeading()), key, delta)
    {
      match KeyMap(key, delta)
      case Some(h) =>
        plane := h.plane;
        activeDelta := h.activeDelta;
      case None =>
    }

    /** One run of the interval callback of `move_snake`. `crashed` reports the
        callback throwing because no segment, hence no head cell, was found. */
    method Tick() returns (crashed: bool)
      requires Valid()
      modifies this`headX, this`headY, grid.cells
      ensures Valid()
      ensures var r := Movement.Tick(old(grid.Rows()), plane, activeDelta);
        && crashed == r.Crashed?
        && (r.Crashed? ==> grid.Rows() == old(grid.Rows()) && headX == old(headX) && headY == old(headY))
        && (r.Moved? ==> grid.Rows() == r.grid && headX == r.head.x && headY == r.head.y)
      ensures !crashed && Distinct(old(grid.Rows())) ==> Distinct(grid.Rows())
    {
      var segments := grid.Collect();
      if |segments| == 0 {
        return true;
      }
      Move(segments);
      crashed := false;
    }

    /** The callback past the point where the head was found: record the
        head, write the next cell, remove the tail. */
    method Move(segments: seq<int>)
      requires Valid() && |segments| > 0 && segments == Segments(grid.Rows())
      modifies this`headX, this`headY, grid.cells
      ensures var r := Movement.Tick(old(grid.Rows()), plane, activeDelta);
        r.Moved? && grid.Rows() == r.grid && headX == r.head.x && headY == r.head.y
      ensures Distinct(old(grid.Rows())) ==> Distinct(grid.Rows())
    {
      ghost var g := grid.Rows();
      var hi, lo := Max(segments), Min(segments);
      var head := grid.Select(hi);
      var tail := grid.Select(lo);
      SegmentsHeld(g, hi);
      headX, headY := head[0].x, head[0].y;
      var next := Target(head[0], plane, activeDelta);
      TickIs(g, plane, activeDelta, head, next, hi, lo);
      grid.Advance(next, hi + 1, lo, tail);
    }
  }

  /** `Snake.prototype.init`: the game manager starts at level 1, the table is
      built for that level, and the snake is injected into it. */
  method NewGame() returns (grid: Grid, snake: Snake)
    ensures fresh(grid) && fresh(grid.cells) && fresh(snake)
    ensures grid.Valid() && snake.Valid() && snake.grid == grid && snake.level == 1
    ensures grid.size == OriginSize
    ensures snake.plane == X && snake.activeDelta == snake.delta == 1 && snake.size == SnakeSize
    ensures var g := grid.Rows();
      && g == Injected(Blank(OriginSize))
      && |Segments(g)| == SnakeSize
      && Contiguous(g, 1, SnakeSize)
      && Distinct(g)
      && Head(g) == Cell(10, 25)
      && TailCell(g) == Cell(6, 25)
  {
    var currentLevel := 1;
    grid := new Grid(currentLevel);
    snake := new Snake(grid, currentLevel);
    FirstLevelSize();
    InjectOnBlank(grid.size);
    WindowDistinct(grid.Rows(), 1, SnakeSize);
  }
}
