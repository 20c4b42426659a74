# Snake: a verified model of the game core

This project models the playable core of `scripts/snake.js`, a jQuery
snake game.

- On start the game builds an empty square table whose side depends on the
  level.
- It writes a five-segment snake into the table.
- It keeps a direction latch that the arrow keys set.
- On every interval tick it moves the snake one cell.

A segment is a table cell with a `data-segment` attribute. The snake's
order lives only in those numbers: the largest index is the head and the
smallest is the tail.

The model uses the source's own layers:

- `Sizing` models `_grid.get_grid_size`. It is a pure function of the
  level, in exact integer arithmetic.
- `Board` is the table as a value, `seq<seq<int>>`: 0 is an empty cell and
  a positive number is a `data-segment` index. It also defines what the
  jQuery selectors used by the tick return:
  - `Segments` lists the occupied cells' indices in document order.
  - `Matches` lists the cells holding one index, in document order.
  - `Set` writes one cell and `ClearAll` empties a selection.
- `Direction` models the key map and the latch of `_snake.set_dir`.
- `Movement` holds the value-level specifications of one tick (`Tick`) and
  of `inject_snake` (`Injected`). The lemmas there state what a tick does
  and what the injection produces.
- `Game` holds the stateful objects:
  - `Grid`, over an `array2<int>`, with the table-building loop of
    `build_grid` and the selector loops.
  - `Snake`, with the fields `plane`, `active_delta`, `size`, `head_x`
    and `head_y`, and the methods `inject_snake`, `set_dir` and the tick
    callback of `move_snake`.
  - `NewGame`, the start-up sequence.

  Each method is proved against the functions of `Movement`, `Direction`
  and `Board`.

The tick is modelled as the jQuery code behaves.

- **Head.** The head is the first cell, in document order, holding the
  largest index.
- **Tail.** The tail is every cell holding the smallest index, selected
  before the head write.
- **New head.** The head write happens only when the target row and cell
  exist. A selector that finds nothing makes the write a no-op.
- **No segments.** When no segment is present, the head selection is empty
  and reading its `id` throws. This is the `Crashed` result: nothing is
  written.

The source checks for no collision, so the model does not either.

The lemmas cover the tick's possible outcomes:

- Moving into an empty cell keeps the length and shifts the run of indices
  by one.
- Moving off the table only removes the tail, so the snake loses a segment.
- Moving onto the tail cell wipes the new head together with the tail.
- Moving onto a body cell overwrites that segment's index.
- No tick ever makes an index repeat.

## Model

| member | source | states |
|---|---|---|
| Sizing.GridSize | scripts/snake.js:147-166 | the size is never below the minimum 10, and is either 10 or 30 minus the reduction |
| Sizing.CellsTakenOff | scripts/snake.js:155-164 | the cells taken off the side, `origin_size*reduction` with `reduction` the fraction `level * .10`: 0 at level 1, and for every other level ten times it is 30 times the level |
| Sizing.FirstLevelSize | scripts/snake.js:155-165 | level 1 has no reduction and gets the origin size 30 |
| Sizing.GridSizeFormula | scripts/snake.js:164 | for level other than 1 the size is 10 when 30 - 3 * level is at most 10, else 30 - 3 * level |
| Sizing.MinimumReached | scripts/snake.js:164 | the size is the minimum exactly from level 7 on |
| Sizing.GridSizeNonIncreasing | scripts/snake.js:155-164 | a higher level never gets a larger table |
| Direction.KeyMap | scripts/snake.js:286-303 | an arrow key maps to a heading whose step is plus or minus delta; KeyMapDomain, KeyMapEntries and the inverse lemmas below carry the rest of its meaning |
| Direction.KeyMapDomain | scripts/snake.js:286-306 | exactly the key codes 37 to 40 are in the key map |
| Direction.KeyMapEntries | scripts/snake.js:286-303 | left and up step by minus delta, right and down by plus delta; left and right along x, up and down along y |
| Direction.Steer | scripts/snake.js:306-315 | an arrow key gives its mapped heading; any other key leaves the heading as it was |
| Direction.KeyMapInjective | scripts/snake.js:286-303 | with a non-zero delta, two keys that map to the same heading are the same key |
| Direction.KeyForInverse | scripts/snake.js:286-303 | every heading with step plus or minus delta is produced by the key the inverse map names |
| Direction.KeyMapInverse | scripts/snake.js:286-303 | with a non-zero delta, each arrow key is recovered from its heading |
| Direction.SteerIgnores | scripts/snake.js:306-315 | a key outside the map leaves plane and step unchanged |
| Direction.SteerIdempotent | scripts/snake.js:306-312 | pressing a key twice has the effect of pressing it once |
| Direction.SteerLatest | scripts/snake.js:306-312 | after two arrow keys only the later one counts |
| Board.Set | scripts/snake.js:349 | a write keeps the shape of the table, stores the value in its cell and changes no other cell |
| Board.Blank | scripts/snake.js:186-196 | a fresh table of side n has n rows of n cells, all empty |
| Board.RowSegments | scripts/snake.js:331-333 | the indices one row contributes to the readout, left to right, are all positive; RowSegmentsHeld states the full membership |
| Board.Segments | scripts/snake.js:331-333 | every index read from the table is positive |
| Board.RowMatches | scripts/snake.js:335-336 | the cells of one row that the selector for an index finds, left to right; its meaning is stated, for the whole table, by MatchesExact and SegmentsHeld |
| Board.Matches | scripts/snake.js:335-336 | what `.snake[data-segment=v]` selects, in document order; MatchesExact states that these are exactly the cells holding v, and UniqueMatch that an index held once selects its one cell |
| Board.ClearAll | scripts/snake.js:352 | removing the attribute from a selection empties exactly the selected cells |
| Board.Max | scripts/snake.js:335 | the largest index is one of the indices and no index exceeds it |
| Board.Min | scripts/snake.js:336 | the smallest index is one of the indices and no index is below it |
| Board.MatchesExact | scripts/snake.js:335-336 | the selector for an index returns only cells holding it, and every cell holding it |
| Board.SegmentsHeld | scripts/snake.js:331-336 | an index is among the read indices exactly when it is positive and some cell holds it |
| Board.DistinctCells | scripts/snake.js:335-336 | on a table without repeated indices, two cells holding the same segment index are the same cell |
| Board.UniqueMatch | scripts/snake.js:335-336 | an index held once is selected as exactly that cell |
| Board.BlankHasNoSegments | scripts/snake.js:186-196 | a fresh table holds no segment |
| Board.SetLength | scripts/snake.js:349 | a single write changes the number of occupied cells by whether the old and the new value are occupied |
| Board.SetMatches | scripts/snake.js:349 | a single write changes the number of cells holding each index by the old and the new value |
| Board.ContiguousExtremes | scripts/snake.js:335-336 | when the indices are exactly lo..hi, each held once, there is a segment, the largest index is hi and the smallest is lo |
| Movement.WriteIfPresent | scripts/snake.js:349 | a write through a selector changes the addressed cell if it exists and nothing else |
| Movement.Target | scripts/snake.js:343-344 | the next cell is the head moved by the active step along the current plane, and is unchanged across it |
| Movement.Head | scripts/snake.js:335-340 | the head cell exists and holds the largest index |
| Movement.Next | scripts/snake.js:342-344 | the cell the head moves to: the target of the head cell for the current plane and step, so further along the plane by the step and unchanged across it (the contract of Movement.Target); TickCells, TickOffGrid and FirstTickRight state what the write into it does |
| Movement.Advance | scripts/snake.js:349-352 | after the head write and the tail removal, a cell that held the smallest index is empty, else the written cell holds the new index, else the cell is unchanged |
| Movement.Tick | scripts/snake.js:329-352 | one run of the interval callback as a value: TickCrashes states when it throws, TickCells its effect cell by cell, TickLength and TickMatches the counts, and TickKeepsDistinct that no index ever repeats |
| Movement.TickCrashes | scripts/snake.js:329-340 | the tick throws exactly when the table holds no segment |
| Movement.TickCells | scripts/snake.js:329-352 | cell by cell: the tail cells are emptied, the next cell gets max + 1, every other cell is unchanged, and the head reported is the head cell |
| Movement.TailCell | scripts/snake.js:336 | without repeated indices, the tail selection is exactly one cell, holding the smallest index |
| Movement.TickTwoWrites | scripts/snake.js:348-352 | without repeated indices, a tick is the head write followed by emptying the one tail cell |
| Movement.TickFrame | scripts/snake.js:348-352 | without repeated indices, a tick changes no cell other than the next cell and the tail cell |
| Movement.TickMatches | scripts/snake.js:329-352 | without repeated indices, how many cells hold each index after a tick, in terms of the old table |
| Movement.TickLength | scripts/snake.js:329-352 | without repeated indices, a tick leaves one occupied cell fewer, unless the next cell existed and was empty |
| Movement.TickIntoEmpty | scripts/snake.js:329-352 | without repeated indices, moving into an empty cell keeps the length, puts max + 1 in the next cell and empties the tail cell |
| Movement.TickShiftsWindow | scripts/snake.js:329-352 | when the indices are a run lo..hi held once each, moving into an empty cell turns the run into lo+1..hi+1 |
| Movement.TickOffGrid | scripts/snake.js:343-352 | without repeated indices, moving towards a cell that does not exist only empties the tail, so the snake loses a segment |
| Movement.TickOntoTail | scripts/snake.js:336-352 | without repeated indices, moving onto the tail cell leaves it empty: the new index is wiped with the tail, and the snake loses a segment |
| Movement.TickOntoBody | scripts/snake.js:343-352 | without repeated indices, moving onto a body cell overwrites its index with max + 1; that index is gone and the snake loses a segment |
| Movement.TickKeepsDistinct | scripts/snake.js:329-352 | on a non-empty table without repeated indices, a tick never makes two cells hold the same index |
| Movement.InjectPrefixCells | scripts/snake.js:263-274 | after k passes of the injection loop, columns 11 - k to 10 of row n - 5 hold their column minus 5, and nothing else changed |
| Movement.InjectCell | scripts/snake.js:266-267 | the cell written by pass k of the injection loop: column 11 - k (the offset, from twice the size down) of row n - 5; InjectPrefixCells states the cells the passes fill |
| Movement.InjectPrefix | scripts/snake.js:263-274 | the table after the first k passes of the count-down loop; InjectPrefixCells, InjectPrefixLength and InjectPrefixMatches state what those passes write |
| Movement.Injected | scripts/snake.js:247-275 | the table after `inject_snake`, all five passes with the table's own side; InjectedCells, InjectedCounts and InjectOnBlank state what it holds |
| Movement.InjectedCells | scripts/snake.js:247-275 | injection puts segment x - 5 in column x of row n - 5 for x from 6 to 10, and changes no other cell |
| Movement.InjectPrefixLength | scripts/snake.js:263-274 | each pass into an empty target cell adds one occupied cell |
| Movement.InjectPrefixMatches | scripts/snake.js:263-274 | after k passes into empty target cells, the indices 6 - k to 5 are each held once more |
| Movement.InjectedCounts | scripts/snake.js:247-275 | injection into a fresh table gives five segments, the indices 1 to 5, each held once |
| Movement.InjectOnBlank | scripts/snake.js:247-275 | on a fresh table of side at least 10, the snake has five segments with indices 1 to 5 in row n - 5, head (index 5) at column 10 and tail (index 1) at column 6 |
| Movement.InjectedRow | scripts/snake.js:263-274 | on a fresh table, the injected cells are columns 6 to 10 of row n - 5, holding 1 to 5, and no other cell is occupied |
| Movement.WindowDistinct | scripts/snake.js:335-336 | when the indices are a run held once each, no index repeats |
| Movement.FirstTickRight | scripts/snake.js:228-230 | the first tick of a new game, in the initial heading (x, +1), moves the head into column 11 with index 6, empties column 6 and leaves indices 2 to 6 |
| Game.Grid.constructor | scripts/snake.js:186-196 | the built table has side `get_grid_size()` for the level and every cell is empty |
| Game.Grid.RowIndices | scripts/snake.js:331-333 | the indices read from one row of the table are exactly the occupied cells' indices of that row, left to right |
| Game.Grid.Collect | scripts/snake.js:331-333 | reading the table's indices returns exactly the occupied cells' indices in document order |
| Game.Grid.RowSelect | scripts/snake.js:335-336 | the cells of one row the selector loop returns are exactly those holding the index, left to right |
| Game.Grid.Select | scripts/snake.js:335-336 | the selector loop returns exactly the cells holding the index, in document order |
| Game.Grid.Write | scripts/snake.js:349 | the table after a write is the write-if-present of the one before |
| Game.Grid.Clear | scripts/snake.js:352 | the table after removing a selection is the one before with those cells emptied |
| Game.Grid.Advance | scripts/snake.js:348-352 | the table after the head write and the removal of the tail selection is the tick's writes (Movement.Advance) applied to the table before |
| Game.Snake.constructor | scripts/snake.js:213-240 | plane x, step 1 and active step equal to the step; the snake is injected exactly when the level is 1 |
| Game.Snake.InjectSnake | scripts/snake.js:247-275 | the size becomes 5 and the table becomes the injected table of the old one |
| Game.Snake.SetDir | scripts/snake.js:282-316 | the heading becomes the latch update for the key; only plane and active step may change |
| Game.Snake.Tick | scripts/snake.js:326-352 | the callback throws exactly when the tick specification crashes, and then changes nothing; otherwise the table and the head coordinates are the specification's, and a table without repeated indices keeps none |
| Game.Snake.Move | scripts/snake.js:334-352 | from a non-empty readout of the table: the table and the head coordinates become those of the tick specification, and a table without repeated indices keeps none |
| Game.NewGame | scripts/snake.js:45-63 | a new game has a 30 by 30 table holding the five-segment snake, indices 1 to 5 each held once, head at column 10 and tail at column 6 of row 25, heading along x by +1 |

## Left out

- The markup that `build_grid` appends, the CSS class `snake` and all rendering are not modelled. The model keeps only the `data-segment` value of each cell; the source always adds and removes the class together with the attribute.
- `setInterval` and the 1000 ms tick period are not modelled. `Game.Snake.Tick` is one run of the callback, and a caller may repeat it.
- Every click on `#launch` calls `move_snake` again and starts a further interval, so several intervals can tick the same snake. Concurrency is not modelled. JavaScript runs the callbacks one at a time, so any number of intervals is a sequence of calls to `Game.Snake.Tick`.
- `bind_events` and the keydown and click handlers are not modelled; `Game.Snake.SetDir` takes the key code as a parameter. `e.preventDefault()` has no state to model.
- `_utils.get_grid_size` (the random size) is not modelled: nothing in the core calls it.
- Sizing.GridSize: the source computes with floating point (`level * .10`). The model uses exact integers, so `30 * level / 10` is exact. Floating-point rounding, where `3 * 0.1` is not exactly `0.3`, is not captured.
- `check_level` is empty in the source. `fail_count`, `fruit_count` and the snake's `head`, `tail`, `tail_x`, `tail_y`, `next_x` and `next_y` are only named in statements such as `this.tail_x;`, which declare nothing and assign nothing. `is_launched` and the snake's `_snake` are set but never read by the core. `maximum_level` is read only to be copied into the grid's `max_level`, which nothing reads. The snake's `tick` is read only as the delay of `setInterval`, which is left out above. None of these is modelled. The grid's `level` is modelled: it is the `level` parameter of `Sizing.GridSize` and of the `Game.Grid` constructor.
- Game.Snake.Tick: the `TypeError` the callback throws when no segment is left is a result flag. The state is unchanged in that case, as in the source, where the throw comes before any write.
- Segment indices are JavaScript numbers. The model uses unbounded integers, which agree with them while indices stay below 2^53, that is, for any realistic number of ticks.
- `parseInt` of the `data-segment` attribute and of the `id` suffixes is the identity in the model: the attribute only ever holds integers written by the game, and the ids are built from row and cell numbers.
