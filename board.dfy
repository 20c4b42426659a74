/** The occupancy grid as a value: rows of cells, each cell either empty (0)
    or holding the positive index of the snake segment that occupies it (the
    `data-segment` attribute of a table cell; the model never writes anything
    else). Rows and cells are addressed 1-indexed, as the `row_<n>` and
    `cell_<n>` ids of the rendered table are. */
module Board {

  /** A grid as rows of cells; row y (1-indexed) is `g[y - 1]`. */
  type Matrix = seq<seq<int>>

  /** A cell address: `x` is the column (`cell_<x>`), `y` the row (`row_<y>`). */
  datatype Cell = Cell(x: int, y: int)

  /** `g` is a square grid of side `n`. */
  ghost predicate IsGrid(g: Matrix, n: nat) {
    |g| == n && forall r :: 0 <= r < n ==> |g[r]| == n
  }

  /** The cell exists in `g`: looking up its row and then its column finds something. */
  predicate InGrid(g: Matrix, c: Cell) {
    1 <= c.y <= |g| && 1 <= c.x <= |g[c.y - 1]|
  }

  /** The cell is one of the `n * n` cells of a grid of side `n`. */
  predicate InBounds(c: Cell, n: int) {
    1 <= c.x <= n && 1 <= c.y <= n
  }

  function Get(g: Matrix, c: Cell): int
    requires InGrid(g, c)
  {
    g[c.y - 1][c.x - 1]
  }

  predicate SameShape(g: Matrix, h: Matrix) {
    |g| == |h| && forall r :: 0 <= r < |g| ==> |g[r]| == |h[r]|
  }

  /** The grid with cell `c` set to `v`: that cell reads `v`, every other cell reads as before. */
  function Set(g: Matrix, c: Cell, v: int): (h: Matrix)
    requires InGrid(g, c)
    ensures SameShape(g, h)
    ensures Get(h, c) == v
    ensures forall p :: InGrid(g, p) && p != c ==> Get(h, p) == Get(g, p)
  {
    g[c.y - 1 := g[c.y - 1][c.x - 1 := v]]
  }

  /** The grid a freshly built table of side `n` stands for. */
  function Blank(n: nat): (g: Matrix)
    ensures IsGrid(g, n)
    ensures forall c :: InBounds(c, n) ==> Get(g, c) == 0
  {
    seq(n, _ => seq(n, _ => 0))
  }

  /** A cell value that is a segment index rather than empty. */
  predicate Occupied(v: int) { v > 0 }

  /** What one cell contributes to the list of segment indices. */
  function Pushed(v: int): seq<int> {
    if Occupied(v) then [v] else []
  }

  /** The segment indices of one row, left to right. */
  function RowSegments(row: seq<int>): (s: seq<int>)
    ensures forall v :: v in s ==> v > 0
  {
    if |row| == 0 then [] else RowSegments(row[..|row| - 1]) + Pushed(row[|row| - 1])
  }

  /** The segment indices of the whole grid in document order (row by row,
      left to right): what the tick collects from `.snake[data-segment]`. */
  function Segments(g: Matrix): (s: seq<int>)
    ensures forall v :: v in s ==> v > 0
  {
    if |g| == 0 then [] else Segments(g[..|g| - 1]) + RowSegments(g[|g| - 1])
  }

  /** The cells of row `y` holding `v`, left to right. */
  function RowMatches(row: seq<int>, y: int, v: int): (ps: seq<Cell>) {
    if |row| == 0 then []
    else RowMatches(row[..|row| - 1], y, v) + (if row[|row| - 1] == v then [Cell(|row|, y)] else [])
  }

  /** The cells holding `v`, in document order: what `.snake[data-segment=v]` selects. */
  function Matches(g: Matrix, v: int): (ps: seq<Cell>) {
    if |g| == 0 then [] else Matches(g[..|g| - 1], v) + RowMatches(g[|g| - 1], |g|, v)
  }

  // Reading the table front to back, one cell or one row at a time

  lemma RowSegmentsNext(row: seq<int>, x: nat)
    requires x < |row|
    ensures RowSegments(row[..x + 1]) == RowSegments(row[..x]) + Pushed(row[x])
  {
    assert row[..x + 1][..x] == row[..x];
  }

  lemma SegmentsNext(g: Matrix, r: nat)
    requires r < |g|
    ensures Segments(g[..r + 1]) == Segments(g[..r]) + RowSegments(g[r])
  {
    assert g[..r + 1][..r] == g[..r];
  }

  lemma RowMatchesNext(row: seq<int>, y: int, v: int, x: nat)
    requires x < |row|
    ensures RowMatches(row[..x + 1], y, v) == RowMatches(row[..x], y, v) + (if row[x] == v then [Cell(x + 1, y)] else [])
  {
    assert row[..x + 1][..x] == row[..x];
  }

  lemma MatchesNext(g: Matrix, v: int, r: nat)
    requires r < |g|
    ensures Matches(g[..r + 1], v) == Matches(g[..r], v) + RowMatches(g[r], r + 1, v)
  {
    assert g[..r + 1][..r] == g[..r];
  }

  /** The grid with every listed cell emptied, in list order. */
  function ClearAll(g: Matrix, ps: seq<Cell>): (h: Matrix)
    requires forall k :: 0 <= k < |ps| ==> InGrid(g, ps[k])
    ensures SameShape(g, h)
    ensures forall c :: InGrid(g, c) ==> Get(h, c) == if c in ps then 0 else Get(g, c)
  {
    if |ps| == 0 then g
    else
      var h := ClearAll(g, ps[..|ps| - 1]);
      assert forall c :: c in ps <==> c in ps[..|ps| - 1] || c == ps[|ps| - 1];
      Set(h, ps[|ps| - 1], 0)
  }

  /** Largest element (`Math.max.apply(Math, s)` on a non-empty array). */
  function Max(s: seq<int>): (m: int)
    requires |s| > 0
    ensures m in s && forall x :: x in s ==> x <= m
  {
    if |s| == 1 then s[0]
    else
      var m := Max(s[1..]);
      assert forall x :: x in s ==> x == s[0] || x in s[1..];
      if s[0] >= m then s[0] else m
  }

  /** Smallest element (`Math.min.apply(Math, s)` on a non-empty array). */
  function Min(s: seq<int>): (m: int)
    requires |s| > 0
    ensures m in s && forall x :: x in s ==> m <= x
  {
    if |s| == 1 then s[0]
    else
      var m := Min(s[1..]);
      assert forall x :: x in s ==> x == s[0] || x in s[1..];
      if s[0] <= m then s[0] else m
  }

  function Ind(b: bool): int { if b then 1 else 0 }

  /** No segment index is held by two cells. */
  ghost predicate Distinct(g: Matrix) {
    forall v :: v > 0 ==> |Matches(g, v)| <= 1
  }

  /** The segment indices on the grid are exactly lo..hi, each held by one cell. */
  ghost predicate Contiguous(g: Matrix, lo: int, hi: int) {
    0 < lo <= hi && forall v :: v > 0 ==> |Matches(g, v)| == Ind(lo <= v <= hi)
  }

  // ---------------------------------------------------------------------
  // The selector finds exactly the cells holding the value
  // ---------------------------------------------------------------------

  lemma {:induction false} RowMatchesExact(row: seq<int>, y: int, v: int)
    ensures forall k :: 0 <= k < |RowMatches(row, y, v)| ==>
      var c := RowMatches(row, y, v)[k]; c.y == y && 1 <= c.x <= |row| && row[c.x - 1] == v
    ensures forall x :: 1 <= x <= |row| && row[x - 1] == v ==> Cell(x, y) in RowMatches(row, y, v)
  {
    if |row| > 0 {
      RowMatchesExact(row[..|row| - 1], y, v);
    }
  }

  /** Every cell the selector returns exists and holds `v`, and every cell holding `v` is returned. */
  lemma {:induction false} MatchesExact(g: Matrix, v: int)
    ensures forall k :: 0 <= k < |Matches(g, v)| ==> InGrid(g, Matches(g, v)[k]) && Get(g, Matches(g, v)[k]) == v
    ensures forall c :: InGrid(g, c) && Get(g, c) == v ==> c in Matches(g, v)
  {
    if |g| > 0 {
      var init, last := g[..|g| - 1], g[|g| - 1];
      MatchesExact(init, v);
      RowMatchesExact(last, |g|, v);
      assert Matches(g, v) == Matches(init, v) + RowMatches(last, |g|, v);
      forall c | InGrid(init, c)
        ensures InGrid(g, c) && Get(init, c) == Get(g, c)
      {
      }
      forall c | InGrid(g, c) && Get(g, c) == v
        ensures c in Matches(g, v)
      {
        if c.y < |g| {
          assert InGrid(init, c);
        } else {
          assert Cell(c.x, |g|) in RowMatches(last, |g|, v);
        }
      }
    }
  }

  /** Read cell by cell: two cells holding the same index are one cell. */
  lemma DistinctCells(g: Matrix, c1: Cell, c2: Cell)
    requires Distinct(g)
    requires InGrid(g, c1) && InGrid(g, c2) && Occupied(Get(g, c1)) && Get(g, c1) == Get(g, c2)
    ensures c1 == c2
  {
    var v := Get(g, c1);
    MatchesExact(g, v);
    assert |Matches(g, v)| <= 1;
  }

  /** A value is among a row's segments exactly when it is positive and some cell holds it. */
  lemma {:induction false} RowSegmentsHeld(row: seq<int>, y: int, v: int)
    ensures v in RowSegments(row) <==> v > 0 && |RowMatches(row, y, v)| > 0
  {
    if |row| > 0 {
      RowSegmentsHeld(row[..|row| - 1], y, v);
    }
  }

  /** A value is among the segments exactly when it is positive and the selector finds it. */
  lemma {:induction false} SegmentsHeld(g: Matrix, v: int)
    ensures v in Segments(g) <==> v > 0 && |Matches(g, v)| > 0
  {
    if |g| > 0 {
      SegmentsHeld(g[..|g| - 1], v);
      RowSegmentsHeld(g[|g| - 1], |g|, v);
    }
  }

  /** A value held by exactly one cell is selected at that cell alone. */
  lemma UniqueMatch(g: Matrix, v: int, c: Cell)
    requires |Matches(g, v)| == 1
    requires InGrid(g, c) && Get(g, c) == v
    ensures Matches(g, v) == [c]
  {
    MatchesExact(g, v);
  }

  // ---------------------------------------------------------------------
  // Empty grids
  // ---------------------------------------------------------------------

  lemma {:induction false} EmptyRowHasNoSegments(row: seq<int>)
    requires forall i :: 0 <= i < |row| ==> row[i] == 0
    ensures RowSegments(row) == []
  {
    if |row| > 0 {
      EmptyRowHasNoSegments(row[..|row| - 1]);
    }
  }

  lemma {:induction false} EmptyHasNoSegments(g: Matrix)
    requires forall r, i :: 0 <= r < |g| && 0 <= i < |g[r]| ==> g[r][i] == 0
    ensures Segments(g) == []
  {
    if |g| > 0 {
      EmptyHasNoSegments(g[..|g| - 1]);
      EmptyRowHasNoSegments(g[|g| - 1]);
    }
  }

  /** A freshly built grid holds no segment. */
  lemma BlankHasNoSegments(n: nat)
    ensures Segments(Blank(n)) == []
  {
    EmptyHasNoSegments(Blank(n));
  }

  // ---------------------------------------------------------------------
  // Writing one cell
  // ---------------------------------------------------------------------

  /** Writing one cell of a row changes the number of segments by what it adds and removes. */
  lemma {:induction false} RowSetLength(row: seq<int>, i: nat, v: int)
    requires i < |row|
    ensures |RowSegments(row[i := v])| + Ind(Occupied(row[i])) == |RowSegments(row)| + Ind(Occupied(v))
  {
    var n := |row|;
    if i < n - 1 {
      assert row[i := v][..n - 1] == row[..n - 1][i := v];
      RowSetLength(row[..n - 1], i, v);
    } else {
      assert row[i := v][..n - 1] == row[..n - 1];
    }
  }

  /** A write above the last row leaves the last row alone and is a write to the rows above. */
  lemma SetAbove(g: Matrix, c: Cell, v: int)
    requires InGrid(g, c) && c.y < |g|
    ensures Set(g, c, v)[..|g| - 1] == Set(g[..|g| - 1], c, v)
    ensures Set(g, c, v)[|g| - 1] == g[|g| - 1]
  {
  }

  /** A write in the last row leaves the rows above alone and updates that row. */
  lemma SetInLast(g: Matrix, c: Cell, v: int)
    requires InGrid(g, c) && c.y == |g|
    ensures Set(g, c, v)[..|g| - 1] == g[..|g| - 1]
    ensures Set(g, c, v)[|g| - 1] == g[|g| - 1][c.x - 1 := v]
  {
  }

  /** A second write to the same cell overrides the first. */
  lemma SetTwice(g: Matrix, c: Cell, v: int, w: int)
    requires InGrid(g, c)
    ensures Set(Set(g, c, v), c, w) == Set(g, c, w)
  {
    assert g[c.y - 1][c.x - 1 := v][c.x - 1 := w] == g[c.y - 1][c.x - 1 := w];
  }

  /** Writing one cell changes the number of occupied cells by what it adds and removes. */
  lemma {:induction false} SetLength(g: Matrix, c: Cell, v: int)
    requires InGrid(g, c)
    ensures |Segments(Set(g, c, v))| + Ind(Occupied(Get(g, c))) == |Segments(g)| + Ind(Occupied(v))
  {
    if c.y < |g| {
      SetLength(g[..|g| - 1], c, v);
      SetLengthAbove(g, c, v);
    } else {
      SetLengthInLast(g, c, v);
    }
  }

  /** A write above the last row: the count follows from the rows above. */
  lemma SetLengthAbove(g: Matrix, c: Cell, v: int)
    requires InGrid(g, c) && c.y < |g|
    requires |Segments(Set(g[..|g| - 1], c, v))| + Ind(Occupied(Get(g[..|g| - 1], c))) == |Segments(g[..|g| - 1])| + Ind(Occupied(v))
    ensures |Segments(Set(g, c, v))| + Ind(Occupied(Get(g, c))) == |Segments(g)| + Ind(Occupied(v))
  {
    var n := |g|;
    var h := Set(g, c, v);
    SetAbove(g, c, v);
    assert Segments(h) == Segments(h[..n - 1]) + RowSegments(h[n - 1]);
    assert Segments(g) == Segments(g[..n - 1]) + RowSegments(g[n - 1]);
  }

  /** A write in the last row: the count follows from that row. */
  lemma SetLengthInLast(g: Matrix, c: Cell, v: int)
    requires InGrid(g, c) && c.y == |g|
    ensures |Segments(Set(g, c, v))| + Ind(Occupied(Get(g, c))) == |Segments(g)| + Ind(Occupied(v))
  {
    var n := |g|;
    var h := Set(g, c, v);
    SetInLast(g, c, v);
    RowSetLength(g[n - 1], c.x - 1, v);
    assert Get(g, c) == g[n - 1][c.x - 1];
    assert |Segments(h)| == |Segments(g[..n - 1])| + |RowSegments(h[n - 1])|;
  }

  lemma {:induction false} RowSetMatches(row: seq<int>, y: int, i: nat, v: int, x: int)
    requires i < |row|
    ensures |RowMatches(row[i := v], y, x)| + Ind(row[i] == x) == |RowMatches(row, y, x)| + Ind(v == x)
  {
    var n := |row|;
    if i < n - 1 {
      assert row[i := v][..n - 1] == row[..n - 1][i := v];
      RowSetMatches(row[..n - 1], y, i, v, x);
    } else {
      assert row[i := v][..n - 1] == row[..n - 1];
    }
  }

  /** Writing one cell changes how many cells hold `x` by what it adds and removes. */
  lemma {:induction false} SetMatches(g: Matrix, c: Cell, v: int, x: int)
    requires InGrid(g, c)
    ensures |Matches(Set(g, c, v), x)| + Ind(Get(g, c) == x) == |Matches(g, x)| + Ind(v == x)
  {
    var n := |g|;
    if c.y < n {
      SetAbove(g, c, v);
      SetMatches(g[..n - 1], c, v, x);
    } else {
      SetInLast(g, c, v);
      RowSetMatches(g[n - 1], n, c.x - 1, v, x);
    }
  }

  /** Emptying a list of one cell is writing 0 there. */
  lemma ClearOne(g: Matrix, c: Cell)
    requires InGrid(g, c)
    ensures ClearAll(g, [c]) == Set(g, c, 0)
  {
    assert [c][..0] == [];
  }

  /** With the indices lo..hi on the grid, the largest is hi and the smallest lo. */
  lemma ContiguousExtremes(g: Matrix, lo: int, hi: int)
    requires Contiguous(g, lo, hi)
    ensures |Segments(g)| > 0
    ensures Max(Segments(g)) == hi && Min(Segments(g)) == lo
  {
    SegmentsHeld(g, hi);
    SegmentsHeld(g, lo);
    SegmentsHeld(g, Max(Segments(g)));
    SegmentsHeld(g, Min(Segments(g)));
  }
}
