/** One movement tick and the snake injection, as functions of the grid.
    These are the specifications the methods of module Game are proved
    against, and the lemmas below state what a tick and an injection do. */
module Movement {
  import opened Board
  import opened Direction

  // ---------------------------------------------------------------------
  // Writing a cell that may not exist
  // ---------------------------------------------------------------------

  /** A write through a jQuery selection: it changes the cell when the cell
      exists and does nothing when the selection is empty. */
  function WriteIfPresent(g: Matrix, c: Cell, v: int): (h: Matrix)
    ensures SameShape(g, h)
    ensures forall p :: InGrid(g, p) ==> Get(h, p) == if p == c then v else Get(g, p)
  {
    if InGrid(g, c) then Set(g, c, v) else g
  }

  // ---------------------------------------------------------------------
  // The tick
  // ---------------------------------------------------------------------

  function Coord(c: Cell, p: Plane): int {
    match p
    case X => c.x
    case Y => c.y
  }

  function Across(p: Plane): Plane {
    match p
    case X => Y
    case Y => X
  }

  /** The cell the head moves to: `d` further along `plane`, the same across it. */
  function Target(head: Cell, plane: Plane, d: int): (t: Cell)
    ensures Coord(t, plane) == Coord(head, plane) + d
    ensures Coord(t, Across(plane)) == Coord(head, Across(plane))
  {
    if plane == X then Cell(head.x + d, head.y) else Cell(head.x, head.y + d)
  }

  /** The head: the first cell in document order holding the largest index. */
  function Head(g: Matrix): (c: Cell)
    requires |Segments(g)| > 0
    ensures InGrid(g, c) && Get(g, c) == Max(Segments(g))
  {
    var hi := Max(Segments(g));
    SegmentsHeld(g, hi);
    MatchesExact(g, hi);
    Matches(g, hi)[0]
  }

  /** The cell the head moves to on this tick. */
  function Next(g: Matrix, plane: Plane, d: int): (c: Cell)
    requires |Segments(g)| > 0
  {
    Target(Head(g), plane, d)
  }

  /** The writes of a tick: `v` into cell `c` when that cell exists, then
      every cell that held `lo` before the write emptied. */
  function Advance(g: Matrix, c: Cell, v: int, lo: int): (h: Matrix)
    ensures SameShape(g, h)
    ensures forall p :: InGrid(g, p) ==> Get(h, p) == if Get(g, p) == lo then 0 else if p == c then v else Get(g, p)
  {
    ClearAfterWrite(g, c, v, lo);
    ClearAll(WriteIfPresent(g, c, v), Matches(g, lo))
  }

  /** A tick either throws (no segment is left, so no head cell is found and
      the callback fails before writing anything) or moves. */
  datatype TickResult = Crashed | Moved(head: Cell, grid: Matrix)

  /** One tick of the interval callback: write max + 1 after the head, then
      empty every cell that held the smallest index before the write. */
  function Tick(g: Matrix, plane: Plane, d: int): (r: TickResult) {
    if |Segments(g)| == 0 then Crashed
    else
      Moved(Head(g), Advance(g, Next(g, plane, d), Max(Segments(g)) + 1, Min(Segments(g))))
  }

  /** The tick throws exactly when the grid holds no segment. */
  lemma TickCrashes(g: Matrix, plane: Plane, d: int)
    ensures Tick(g, plane, d).Crashed? <==> Segments(g) == []
  {
  }

  /** Cell by cell: a cell that held the smallest index is empty, else the
      next cell holds max + 1, else the cell is as it was. Nothing else changes. */
  lemma TickCells(g: Matrix, plane: Plane, d: int)
    requires |Segments(g)| > 0
    ensures Tick(g, plane, d).Moved?
    ensures var r := Tick(g, plane, d); var hi, lo := Max(Segments(g)), Min(Segments(g));
      && r.head == Head(g)
      && SameShape(g, r.grid)
      && forall c :: InGrid(g, c) ==>
           Get(r.grid, c) == if Get(g, c) == lo then 0 else if c == Next(g, plane, d) then hi + 1 else Get(g, c)
  {
  }

  /** A write at `c` followed by emptying every cell that held `lo` before it, cell by cell. */
  lemma ClearAfterWrite(g: Matrix, c: Cell, v: int, lo: int)
    ensures forall k :: 0 <= k < |Matches(g, lo)| ==> InGrid(WriteIfPresent(g, c, v), Matches(g, lo)[k])
    ensures var h := ClearAll(WriteIfPresent(g, c, v), Matches(g, lo));
      forall p :: InGrid(g, p) ==> Get(h, p) == if Get(g, p) == lo then 0 else if p == c then v else Get(g, p)
  {
    var w, ps := WriteIfPresent(g, c, v), Matches(g, lo);
    MatchesExact(g, lo);
    forall p | InGrid(g, p)
      ensures Get(ClearAll(w, ps), p) == if Get(g, p) == lo then 0 else if p == c then v else Get(g, p)
    {
      if p in ps {
        var k :| 0 <= k < |ps| && ps[k] == p;
      }
    }
  }

  /** The one cell holding the smallest index, when no index repeats. */
  function TailCell(g: Matrix): (c: Cell)
    requires |Segments(g)| > 0 && Distinct(g)
    ensures InGrid(g, c) && Get(g, c) == Min(Segments(g))
    ensures Matches(g, Min(Segments(g))) == [c]
  {
    var lo := Min(Segments(g));
    SegmentsHeld(g, lo);
    MatchesExact(g, lo);
    UniqueMatch(g, lo, Matches(g, lo)[0]);
    Matches(g, lo)[0]
  }

  /** Without repeated indices, the grid after a tick whose head write goes
      to cell `c`: max + 1 written at `c` if it exists, then the tail cell emptied. */
  function Stepped(g: Matrix, c: Cell): Matrix
    requires |Segments(g)| > 0 && Distinct(g)
  {
    Set(WriteIfPresent(g, c, Max(Segments(g)) + 1), TailCell(g), 0)
  }

  /** Without repeated indices a tick is two single-cell writes: the head write, then emptying the tail cell. */
  lemma TickTwoWrites(g: Matrix, plane: Plane, d: int)
    requires |Segments(g)| > 0 && Distinct(g)
    ensures Tick(g, plane, d).Moved? && Tick(g, plane, d).head == Head(g)
    ensures Tick(g, plane, d).grid == Stepped(g, Next(g, plane, d))
  {
    AdvanceOne(g, Next(g, plane, d), Max(Segments(g)) + 1, Min(Segments(g)), TailCell(g));
  }

  /** When one cell holds `lo`, the writes of a tick are two single-cell writes. */
  lemma AdvanceOne(g: Matrix, c: Cell, v: int, lo: int, t: Cell)
    requires InGrid(g, t) && Matches(g, lo) == [t]
    ensures Advance(g, c, v, lo) == Set(WriteIfPresent(g, c, v), t, 0)
  {
    ClearOne(WriteIfPresent(g, c, v), t);
  }

  /** A tick changes at most two cells: the next cell and the tail cell. */
  lemma TickFrame(g: Matrix, plane: Plane, d: int, c: Cell)
    requires |Segments(g)| > 0 && Distinct(g)
    requires InGrid(g, c) && c != Next(g, plane, d) && c != TailCell(g)
    ensures Get(Tick(g, plane, d).grid, c) == Get(g, c)
  {
    TickTwoWrites(g, plane, d);
    SteppedFrame(g, Next(g, plane, d), c);
  }

  /** Stepping changes no cell other than the written one and the tail cell. */
  lemma SteppedFrame(g: Matrix, next: Cell, c: Cell)
    requires |Segments(g)| > 0 && Distinct(g)
    requires InGrid(g, c) && c != next && c != TailCell(g)
    ensures Get(Stepped(g, next), c) == Get(g, c)
  {
  }

  // Counting through two single-cell writes

  /** Counting for a head write at `c` followed by emptying an occupied cell `t`. */
  lemma TwoWritesMatches(g: Matrix, c: Cell, v: int, t: Cell, x: int)
    requires InGrid(g, t) && Occupied(Get(g, t))
    ensures var w := InGrid(g, c) && c != t;
      |Matches(Set(WriteIfPresent(g, c, v), t, 0), x)| + Ind(x == Get(g, t)) + Ind(w && x == Get(g, c))
        == |Matches(g, x)| + Ind(x == 0) + Ind(w && x == v)
  {
    if InGrid(g, c) {
      var grown := Set(g, c, v);
      SetMatches(g, c, v, x);
      assert Get(grown, t) == if c == t then v else Get(g, t);
      SetMatches(grown, t, 0, x);
    } else {
      SetMatches(g, t, 0, x);
    }
  }

  /** Counting of occupied cells for a head write at `c` followed by emptying an occupied cell `t`. */
  lemma TwoWritesLength(g: Matrix, c: Cell, v: int, t: Cell)
    requires InGrid(g, t) && Occupied(Get(g, t)) && Occupied(v)
    ensures |Segments(Set(WriteIfPresent(g, c, v), t, 0))| == |Segments(g)| - 1 + Ind(InGrid(g, c) && !Occupied(Get(g, c)))
  {
    if InGrid(g, c) {
      var grown := Set(g, c, v);
      SetLength(g, c, v);
      assert Occupied(Get(grown, t));
      SetLength(grown, t, 0);
    } else {
      SetLength(g, t, 0);
    }
  }

  /** The tail cell is occupied, and so is a cell that receives max + 1. */
  lemma StepOccupied(g: Matrix)
    requires |Segments(g)| > 0 && Distinct(g)
    ensures Occupied(Get(g, TailCell(g))) && Occupied(Max(Segments(g)) + 1)
  {
  }

  /** No cell holds max + 1 yet. */
  lemma FreshIndex(g: Matrix)
    requires |Segments(g)| > 0
    ensures |Matches(g, Max(Segments(g)) + 1)| == 0
  {
    SegmentsHeld(g, Max(Segments(g)) + 1);
  }

  lemma SteppedMatches(g: Matrix, c: Cell, x: int)
    requires |Segments(g)| > 0 && Distinct(g)
    ensures var w := InGrid(g, c) && c != TailCell(g);
      |Matches(Stepped(g, c), x)| + Ind(x == Min(Segments(g))) + Ind(w && x == Get(g, c))
        == |Matches(g, x)| + Ind(x == 0) + Ind(w && x == Max(Segments(g)) + 1)
  {
    StepOccupied(g);
    TwoWritesMatches(g, c, Max(Segments(g)) + 1, TailCell(g), x);
  }

  lemma SteppedLength(g: Matrix, c: Cell)
    requires |Segments(g)| > 0 && Distinct(g)
    ensures |Segments(Stepped(g, c))| == |Segments(g)| - 1 + Ind(InGrid(g, c) && !Occupied(Get(g, c)))
  {
    StepOccupied(g);
    TwoWritesLength(g, c, Max(Segments(g)) + 1, TailCell(g));
  }

  lemma SteppedCells(g: Matrix, c: Cell)
    requires |Segments(g)| > 0 && Distinct(g)
    ensures InGrid(g, c) && c != TailCell(g) ==> Get(Stepped(g, c), c) == Max(Segments(g)) + 1
    ensures Get(Stepped(g, c), TailCell(g)) == 0
  {
  }

  /** Index bookkeeping of a tick without repeated indices: how many cells hold each value afterwards. */
  lemma TickMatches(g: Matrix, plane: Plane, d: int, x: int)
    requires |Segments(g)| > 0 && Distinct(g)
    ensures var next, hi, lo := Next(g, plane, d), Max(Segments(g)), Min(Segments(g));
      var w := InGrid(g, next) && next != TailCell(g);
      |Matches(Tick(g, plane, d).grid, x)| + Ind(x == lo) + Ind(w && x == Get(g, next))
        == |Matches(g, x)| + Ind(x == 0) + Ind(w && x == hi + 1)
  {
    TickTwoWrites(g, plane, d);
    SteppedMatches(g, Next(g, plane, d), x);
  }

  /** Occupied-cell bookkeeping of a tick without repeated indices: one fewer, unless the next cell was empty. */
  lemma TickLength(g: Matrix, plane: Plane, d: int)
    requires |Segments(g)| > 0 && Distinct(g)
    ensures var next := Next(g, plane, d);
      |Segments(Tick(g, plane, d).grid)| ==
        |Segments(g)| - 1 + Ind(InGrid(g, next) && !Occupied(Get(g, next)))
  {
    TickTwoWrites(g, plane, d);
    SteppedLength(g, Next(g, plane, d));
  }

  /** Moving into an empty cell: the snake keeps its length, the next cell
      holds max + 1 and the tail cell is empty. */
  lemma TickIntoEmpty(g: Matrix, plane: Plane, d: int)
    requires |Segments(g)| > 0 && Distinct(g)
    requires InGrid(g, Next(g, plane, d)) && Get(g, Next(g, plane, d)) == 0
    ensures var g' := Tick(g, plane, d).grid;
      && |Segments(g')| == |Segments(g)|
      && Get(g', Next(g, plane, d)) == Max(Segments(g)) + 1
      && Get(g', TailCell(g)) == 0
  {
    TickTwoWrites(g, plane, d);
    SteppedLength(g, Next(g, plane, d));
    SteppedCells(g, Next(g, plane, d));
  }

  /** Stepping a run lo..hi into an empty cell gives the run lo+1..hi+1. */
  lemma SteppedShiftsWindow(g: Matrix, c: Cell, lo: int, hi: int)
    requires Contiguous(g, lo, hi) && Distinct(g) && InGrid(g, c) && Get(g, c) == 0
    ensures |Segments(g)| > 0 && Contiguous(Stepped(g, c), lo + 1, hi + 1)
  {
    ContiguousExtremes(g, lo, hi);
    forall v | v > 0 ensures |Matches(Stepped(g, c), v)| == Ind(lo + 1 <= v <= hi + 1) {
      SteppedMatches(g, c, v);
    }
  }

  /** Moving into an empty cell shifts a contiguous run of indices lo..hi to lo+1..hi+1. */
  lemma TickShiftsWindow(g: Matrix, plane: Plane, d: int, lo: int, hi: int)
    requires Contiguous(g, lo, hi)
    requires |Segments(g)| > 0 && InGrid(g, Next(g, plane, d)) && Get(g, Next(g, plane, d)) == 0
    ensures Contiguous(Tick(g, plane, d).grid, lo + 1, hi + 1)
  {
    WindowDistinct(g, lo, hi);
    TickTwoWrites(g, plane, d);
    SteppedShiftsWindow(g, Next(g, plane, d), lo, hi);
  }

  /** Stepping towards a missing cell only empties the tail. */
  lemma SteppedOffGrid(g: Matrix, c: Cell)
    requires |Segments(g)| > 0 && Distinct(g) && !InGrid(g, c)
    ensures Stepped(g, c) == Set(g, TailCell(g), 0)
    ensures |Segments(Stepped(g, c))| == |Segments(g)| - 1
  {
    SteppedLength(g, c);
  }

  /** Moving off the grid writes nothing, but the tail is still emptied: the snake loses a segment. */
  lemma TickOffGrid(g: Matrix, plane: Plane, d: int)
    requires |Segments(g)| > 0 && Distinct(g)
    requires !InGrid(g, Next(g, plane, d))
    ensures var g' := Tick(g, plane, d).grid;
      && |Segments(g')| == |Segments(g)| - 1
      && g' == Set(g, TailCell(g), 0)
  {
    TickTwoWrites(g, plane, d);
    SteppedOffGrid(g, Next(g, plane, d));
  }

  /** Stepping onto the tail cell: the new head is wiped with the tail. */
  lemma SteppedOntoTail(g: Matrix)
    requires |Segments(g)| > 0 && Distinct(g)
    ensures var s := Stepped(g, TailCell(g));
      && s == Set(g, TailCell(g), 0)
      && |Segments(s)| == |Segments(g)| - 1
      && |Matches(s, Max(Segments(g)) + 1)| == 0
  {
    var t, hi := TailCell(g), Max(Segments(g));
    assert WriteIfPresent(g, t, hi + 1) == Set(g, t, hi + 1);
    SetTwice(g, t, hi + 1, 0);
    SetLength(g, t, 0);
    SegmentsHeld(g, hi + 1);
    SetMatches(g, t, 0, hi + 1);
  }

  /** Moving onto the old tail cell: the head is written there and then wiped with the tail. */
  lemma TickOntoTail(g: Matrix, plane: Plane, d: int)
    requires |Segments(g)| > 0 && Distinct(g)
    requires Next(g, plane, d) == TailCell(g)
    ensures var g' := Tick(g, plane, d).grid;
      && |Segments(g')| == |Segments(g)| - 1
      && Get(g', TailCell(g)) == 0
      && |Matches(g', Max(Segments(g)) + 1)| == 0
  {
    TickTwoWrites(g, plane, d);
    SteppedOntoTail(g);
  }

  /** Stepping onto a body cell: its index is overwritten, so it is held nowhere afterwards. */
  lemma SteppedOntoBody(g: Matrix, c: Cell)
    requires |Segments(g)| > 0 && Distinct(g)
    requires InGrid(g, c) && Occupied(Get(g, c)) && c != TailCell(g)
    ensures |Matches(Stepped(g, c), Get(g, c))| == 0
  {
    var b := Get(g, c);
    SegmentsHeld(g, b);
    MatchesExact(g, b);
    UniqueMatch(g, b, c);
    SteppedMatches(g, c, b);
  }

  /** Moving onto a body cell (occupied, not the tail): its index is overwritten by max + 1, so that segment is lost. */
  lemma TickOntoBody(g: Matrix, plane: Plane, d: int)
    requires |Segments(g)| > 0 && Distinct(g)
    requires InGrid(g, Next(g, plane, d)) && Occupied(Get(g, Next(g, plane, d))) && Next(g, plane, d) != TailCell(g)
    ensures var g', b := Tick(g, plane, d).grid, Get(g, Next(g, plane, d));
      && |Segments(g')| == |Segments(g)| - 1
      && Get(g', Next(g, plane, d)) == Max(Segments(g)) + 1
      && |Matches(g', b)| == 0
  {
    TickTwoWrites(g, plane, d);
    SteppedLength(g, Next(g, plane, d));
    SteppedCells(g, Next(g, plane, d));
    SteppedOntoBody(g, Next(g, plane, d));
  }

  /** Writing a fresh index and wiping an occupied cell keeps indices unrepeated. */
  lemma TwoWritesDistinct(g: Matrix, c: Cell, v: int, t: Cell)
    requires InGrid(g, t) && Occupied(Get(g, t)) && Distinct(g) && |Matches(g, v)| == 0
    ensures Distinct(Set(WriteIfPresent(g, c, v), t, 0))
  {
    forall x | x > 0 ensures |Matches(Set(WriteIfPresent(g, c, v), t, 0), x)| <= 1 {
      TwoWritesMatches(g, c, v, t, x);
    }
  }

  /** Stepping keeps indices unrepeated: max + 1 is new, and the tail index is dropped. */
  lemma SteppedDistinct(g: Matrix, c: Cell)
    requires |Segments(g)| > 0 && Distinct(g)
    ensures Distinct(Stepped(g, c))
  {
    StepOccupied(g);
    FreshIndex(g);
    TwoWritesDistinct(g, c, Max(Segments(g)) + 1, TailCell(g));
  }

  /** No tick ever makes two cells hold the same index. */
  lemma TickKeepsDistinct(g: Matrix, plane: Plane, d: int)
    requires |Segments(g)| > 0 && Distinct(g)
    ensures Distinct(Tick(g, plane, d).grid)
  {
    TickTwoWrites(g, plane, d);
    SteppedDistinct(g, Next(g, plane, d));
  }

  /** The callback's own steps (the head taken from the selection of the
      largest index, the target cell computed from it, the writes of
      `Advance`) are one tick, and keep the indices unrepeated. */
  lemma TickIs(g: Matrix, plane: Plane, d: int, head: seq<Cell>, next: Cell, hi: int, lo: int)
    requires |Segments(g)| > 0 && hi == Max(Segments(g)) && lo == Min(Segments(g))
    requires head == Matches(g, hi) && |head| > 0 && next == Target(head[0], plane, d)
    ensures Tick(g, plane, d) == Moved(head[0], Advance(g, next, hi + 1, lo))
    ensures Distinct(g) ==> Distinct(Advance(g, next, hi + 1, lo))
  {
    if Distinct(g) {
      TickKeepsDistinct(g, plane, d);
    }
  }

  // ---------------------------------------------------------------------
  // Injection
  // ---------------------------------------------------------------------

  /** Length of a new snake. */
  const SnakeSize: nat := 5

  /** The grid after the first k passes of the injection loop. The offset
      starts at twice the snake size and drops by one per pass, while the
      segment index counts down from the snake size: pass k writes segment
      6 - k into column 11 - k of row n - 5. */
  function InjectPrefix(g: Matrix, n: int, k: nat): (h: Matrix)
    decreases k
  {
    if k == 0 then g
    else WriteIfPresent(InjectPrefix(g, n, k - 1), InjectCell(n, k), SnakeSize + 1 - k)
  }

  /** The cell written by pass k of the injection loop. */
  function InjectCell(n: int, k: int): (c: Cell)
  {
    Cell(2 * SnakeSize + 1 - k, n - SnakeSize)
  }

  /** The grid after `inject_snake`. */
  function Injected(g: Matrix): (h: Matrix)
  {
    InjectPrefix(g, |g|, SnakeSize)
  }

  /** After k passes, columns 11 - k .. 10 of row n - 5 hold their column minus five; nothing else changed. */
  lemma {:induction false} InjectPrefixCells(g: Matrix, n: int, k: nat)
    decreases k
    ensures SameShape(g, InjectPrefix(g, n, k))
    ensures forall c :: InGrid(g, c) ==>
      Get(InjectPrefix(g, n, k), c) == if c.y == n - SnakeSize && 2 * SnakeSize + 1 - k <= c.x <= 2 * SnakeSize then c.x - SnakeSize else Get(g, c)
  {
    if k > 0 {
      InjectPrefixCells(g, n, k - 1);
    }
  }

  /** Injection writes segment x - 5 into column x of row n - 5 for columns 6..10 that exist, and nothing else. */
  lemma InjectedCells(g: Matrix)
    ensures SameShape(g, Injected(g))
    ensures forall c :: InGrid(g, c) ==>
      Get(Injected(g), c) == if c.y == |g| - 5 && 6 <= c.x <= 10 then c.x - 5 else Get(g, c)
  {
    InjectPrefixCells(g, |g|, SnakeSize);
  }

  /** The five cells the injection loop writes are empty. */
  ghost predicate TargetsEmpty(g: Matrix, n: nat)
    requires IsGrid(g, n) && n >= 2 * SnakeSize
  {
    forall c: Cell :: c.y == n - SnakeSize && SnakeSize + 1 <= c.x <= 2 * SnakeSize ==> Get(g, c) == 0
  }

  /** Before pass k the cell it writes exists and is still empty. */
  lemma InjectNextEmpty(g: Matrix, n: nat, k: nat)
    requires IsGrid(g, n) && n >= 2 * SnakeSize && 1 <= k <= SnakeSize && TargetsEmpty(g, n)
    ensures IsGrid(InjectPrefix(g, n, k - 1), n)
    ensures InGrid(InjectPrefix(g, n, k - 1), InjectCell(n, k))
    ensures Get(InjectPrefix(g, n, k - 1), InjectCell(n, k)) == 0
  {
    InjectPrefixCells(g, n, k - 1);
    assert InGrid(g, InjectCell(n, k));
  }

  /** Pass k writes segment 6 - k into an empty cell. */
  lemma InjectPass(g: Matrix, n: nat, k: nat)
    requires IsGrid(g, n) && n >= 2 * SnakeSize && 1 <= k <= SnakeSize && TargetsEmpty(g, n)
    ensures IsGrid(InjectPrefix(g, n, k - 1), n)
    ensures InGrid(InjectPrefix(g, n, k - 1), InjectCell(n, k))
    ensures Get(InjectPrefix(g, n, k - 1), InjectCell(n, k)) == 0
    ensures InjectPrefix(g, n, k) == Set(InjectPrefix(g, n, k - 1), InjectCell(n, k), SnakeSize + 1 - k)
  {
    InjectNextEmpty(g, n, k);
  }

  /** The loop's own view of a pass: with i segments still to write, the next
      pass writes segment i into column i + 5. */
  lemma InjectPrefixNext(g: Matrix, n: int, i: int, before: Matrix, after: Matrix)
    requires 1 <= i <= SnakeSize
    requires before == InjectPrefix(g, n, SnakeSize - i)
    requires after == WriteIfPresent(before, Cell(SnakeSize + i, n - SnakeSize), i)
    ensures after == InjectPrefix(g, n, SnakeSize - (i - 1))
  {
  }

  /** Injecting into empty target cells adds one occupied cell per pass. */
  lemma {:induction false} InjectPrefixLength(g: Matrix, n: nat, k: nat)
    requires IsGrid(g, n) && n >= 2 * SnakeSize && k <= SnakeSize && TargetsEmpty(g, n)
    decreases k
    ensures |Segments(InjectPrefix(g, n, k))| == |Segments(g)| + k
  {
    if k > 0 {
      InjectPrefixLength(g, n, k - 1);
      InjectPass(g, n, k);
      SetLength(InjectPrefix(g, n, k - 1), InjectCell(n, k), SnakeSize + 1 - k);
    }
  }

  /** Injecting into empty target cells adds segments 6 - k .. 5, once each. */
  lemma {:induction false} InjectPrefixMatches(g: Matrix, n: nat, k: nat, v: int)
    requires IsGrid(g, n) && n >= 2 * SnakeSize && k <= SnakeSize && TargetsEmpty(g, n)
    requires v > 0
    decreases k
    ensures |Matches(InjectPrefix(g, n, k), v)| == |Matches(g, v)| + Ind(SnakeSize + 1 - k <= v <= SnakeSize)
  {
    if k > 0 {
      InjectPrefixMatches(g, n, k - 1, v);
      InjectPass(g, n, k);
      SetMatches(InjectPrefix(g, n, k - 1), InjectCell(n, k), SnakeSize + 1 - k, v);
    }
  }

  /** On a fresh grid of side n >= 10, injection lays segments 1..5 in row
      n - 5, columns 6..10: five cells, indices contiguous, head (index 5)
      at column 10 and tail (index 1) at column 6, nothing in any other row. */
  lemma InjectOnBlank(n: nat)
    requires n >= 10
    ensures var g := Injected(Blank(n));
      && IsGrid(g, n)
      && |Segments(g)| == 5
      && Contiguous(g, 1, 5)
      && (forall c :: InBounds(c, n) && Occupied(Get(g, c)) ==> c.y == n - 5)
      && (forall c: Cell :: c.y == n - 5 && 6 <= c.x <= 10 ==> Get(g, c) == c.x - 5)
      && Head(g) == Cell(10, n - 5)
      && TailCell(g) == Cell(6, n - 5)
  {
    var g := Injected(Blank(n));
    InjectedCounts(n);
    InjectedRow(n);
    ContiguousExtremes(g, 1, 5);
    WindowDistinct(g, 1, 5);
    UniqueMatch(g, 5, Cell(10, n - 5));
    UniqueMatch(g, 1, Cell(6, n - 5));
  }

  /** On a fresh grid, the injected snake lies in row n - 5, columns 6..10, and nowhere else. */
  lemma InjectedRow(n: nat)
    requires n >= 10
    ensures var g := Injected(Blank(n));
      && IsGrid(g, n)
      && (forall c :: InBounds(c, n) && Occupied(Get(g, c)) ==> c.y == n - 5)
      && (forall c: Cell :: c.y == n - 5 && 6 <= c.x <= 10 ==> Get(g, c) == c.x - 5)
  {
    var g0 := Blank(n);
    var g := Injected(g0);
    InjectedCells(g0);
    forall c | InBounds(c, n) && Occupied(Get(g, c))
      ensures c.y == n - 5
    {
      assert InGrid(g0, c);
    }
    forall c: Cell | c.y == n - 5 && 6 <= c.x <= 10
      ensures Get(g, c) == c.x - 5
    {
      assert InGrid(g0, c);
    }
  }

  /** Injection into a fresh grid gives exactly the indices 1..5, once each. */
  lemma InjectedCounts(n: nat)
    requires n >= 10
    ensures var g := Injected(Blank(n));
      IsGrid(g, n) && |Segments(g)| == 5 && Contiguous(g, 1, 5)
  {
    var g0 := Blank(n);
    InjectedCells(g0);
    BlankHasNoSegments(n);
    assert TargetsEmpty(g0, n);
    InjectPrefixLength(g0, n, SnakeSize);
    forall v | v > 0 ensures |Matches(Injected(g0), v)| == Ind(1 <= v <= SnakeSize) {
      SegmentsHeld(g0, v);
      InjectPrefixMatches(g0, n, SnakeSize, v);
    }
  }

  /** Lengths lo..hi held once each means no index repeats. */
  lemma WindowDistinct(g: Matrix, lo: int, hi: int)
    requires Contiguous(g, lo, hi)
    ensures Distinct(g)
  {
  }

  /** A new game followed by one tick to the right (the initial heading) on a
      grid wide enough: the head moves to column 11 with index 6, column 6 is
      emptied, and the snake still has five contiguous segments 2..6. */
  lemma FirstTickRight(n: nat)
    requires n >= 11
    ensures var g := Injected(Blank(n)); var r := Tick(g, X, 1);
      && r.Moved? && r.head == Cell(10, n - 5)
      && Get(r.grid, Cell(11, n - 5)) == 6
      && Get(r.grid, Cell(6, n - 5)) == 0
      && |Segments(r.grid)| == 5
      && Contiguous(r.grid, 2, 6)
  {
    var g := Injected(Blank(n));
    InjectOnBlank(n);
    InjectedCells(Blank(n));
    ContiguousExtremes(g, 1, 5);
    assert Next(g, X, 1) == Cell(11, n - 5);
    TickIntoEmpty(g, X, 1);
    TickShiftsWindow(g, X, 1, 1, 5);
  }
}
