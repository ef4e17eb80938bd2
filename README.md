# Conway's Game of Life: the simulation core, in Dafny

This project models the simulation engine of a browser Game of Life. The engine
keeps its state on the `#cell-grid` element:

- one `span` child per cell, with id `"i-j"`, in row-major order;
- the grid's `row` and `col` dimensions;
- `alive` and `dead` counters;
- `running`, the handle of the interval that steps the grid;
- `maxrow` and `maxcol`, the size bounds that keep a cell at least 10 pixels wide.

That element is the class `Grid.CellGrid`. Its children are two parallel
sequences, `ids` and `cells` (one boolean per cell). A ghost counter `timers`
tracks how many step intervals are registered. Each script becomes one module:

- `CellIds`: cell ids. Rendering `` `${i}-${j}` `` and reading the coordinates
  back with `/\d+/g` and `Number()`.
- `Grid`: the state class, the specification functions the scripts share, and
  the two grid-building loops.
- `Helpers` (src/helpers.js): the toroidal neighbour count, the info-bar recount,
  this revision's cell toggle, the size bounds, the alert message and the
  run-state reset.
- `Generation`: the next generation under Conway's rule (B3/S23), and why
  classify-then-toggle computes it.
- `Handlers` (src/handlers.js): the cell toggle, the two-pass step, and the
  start/stop run state machine.
- `Main` (src/main.js): building and randomising the grid, the restart/about
  clicks, and validating and applying a resize.
- `Init` (src/init.js): the first build and the first randomisation.
- `Options`: the optional value a lookup or a parse returns.
- `Patterns`: the still-life block and the period-2 blinker under the step rule.

Main results:

- `Handlers.StepHandler` runs the source's two loops and ends with the grid equal
  to `Generation.NextGen` of the old grid. `Generation.ConwayRule` states that
  `NextGen` is the rule the step handler's tests describe.
- `Generation.BatchedStepIsNextGen` and `Generation.ToggleOrderIrrelevant` show
  that toggling the batches in order gives the simultaneous update. Every cell is
  toggled at most once.
- Every operation that touches the counters keeps `alive == #live cells` and
  `alive + dead == #cells`.
- `Handlers.RunHandler` keeps at most one interval registered.
- The 2x2 block is a still life on a 4-by-4 torus (`Patterns.BlockStaysStill`), and
  the horizontal blinker returns after exactly two steps on a 5-by-5 torus
  (`Patterns.BlinkerPeriodTwo`).
- An id parses back to the coordinates it was built from
  (`CellIds.ParseCellIdRoundTrip`).
- `getElementById` on a well-built grid finds the child at position `r*col + c`
  (`Grid.GetElementByIdAt`). This is why the model reads neighbours by position.

The shown files mix two revisions. src/helpers.js and src/init.js keep a cell's
state in `cell.alive`. src/handlers.js and src/main.js use `cell.dataset.state`
through an `isAlive` helper that src/helpers.js does not contain. Both revisions
are modelled on one boolean per cell, and `isAlive` reads it. A freshly created
span has no state, and the model reads it as dead.

Some things the programs get from outside are parameters:

- `Math.random() > 0.5` for the k-th cell is `coin(k)`;
- `window.innerWidth` and `window.innerHeight` are a `Viewport`;
- the number typed into a resize box is a `NumberValue`: NaN, a signed infinity,
  or a finite real.

## Model

| member | source | states |
|---|---|---|
| CellIds.DecimalString | src/main.js:33 | an interpolated count is a non-empty run of decimal digits, with no leading zero unless it is 0 |
| CellIds.DecimalRoundTrip | src/handlers.js:46-47 | `Number()` of the rendered text is the number rendered |
| CellIds.CellIdRuns | src/handlers.js:46 | the digit runs `/\d+/g` finds in `"i-j"` are exactly the texts of i and j |
| CellIds.ParseCellIdRoundTrip | src/handlers.js:46-47 | destructuring the match of an id built as `` `${i}-${j}` `` and converting it gives back (i, j) |
| CellIds.CellIdInjective | src/main.js:33 | two cells get the same id if and only if they have the same coordinates |
| Grid.CellGrid.constructor | src/init.js:11 | the grid element starts with no children, zero dimensions and counters, and no run |
| Grid.RowIds | src/main.js:29-35 | the inner loop appends one id per column, the j-th being "i-j" |
| Grid.Dead | src/main.js:31 | freshly created cells are all dead |
| Grid.Draws | src/main.js:49 | each cell's random state is that cell's own draw |
| Grid.CountAlive | src/main.js:46-56 | the live count never exceeds the number of cells |
| Grid.CountAliveDead | src/main.js:28-36 | a freshly built grid has no live cell |
| Grid.CountAliveFlip | src/handlers.js:14-18 | flipping one cell changes the live count by exactly one, down if it was alive and up if it was dead |
| Grid.CountAlivePrefix | src/main.js:48-56 | the tally of one more cell adds 1 exactly when that cell is alive |
| Grid.GridIdsNextRow | src/main.js:28-36 | one more run of the outer loop appends row i's ids "i-0" … "i-(col-1)" after the ids of the rows before it, so the nested loops give row*col ids in row-major order |
| Grid.GetElementByIdAt | src/helpers.js:14-21 | on a well-built grid, the first child with id "r-c" is the one at position r*col + c |
| Grid.IndexOfId | src/helpers.js:14-21 | the lookup by id returns the first child carrying that id, or nothing when none does |
| Grid.RebuildCells | src/main.js:14-36 | emptying the grid and running the nested loops leaves exactly row*col dead cells, with ids "i-j" in row-major order |
| Grid.RandomizeCells | src/main.js:46-56 | every cell takes its own draw, and the tallies are the number of live cells and the rest |
| Helpers.JsRem | src/helpers.js:10-13 | JavaScript's `%` keeps the dividend's sign, and on non-negative operands equals the mathematical remainder |
| Helpers.WrapIndices | src/helpers.js:10-13 | all four wrapped indices lie inside the grid; the left of column 0 is column col-1, the right of the last column is 0, and likewise for rows |
| Helpers.NumAliveNeighbor | src/helpers.js:7-33 | the count is between 0 and 8, the sum of eight 0/1 terms |
| Helpers.MoorePosition | src/helpers.js:14-21 | a neighbour's position reduced on the torus lies inside the grid |
| Helpers.MooreSum | src/helpers.js:14-32 | the reference neighbour count adds one 0/1 term per offset, so it never exceeds the number of offsets |
| Helpers.NumAliveNeighborIsMooreSum | src/helpers.js:14-32 | the source's eight lookups equal the sum over the Moore offsets reduced modulo the grid size |
| Helpers.MoorePositionsDistinct | src/helpers.js:14-21 | on a grid at least 3 by 3, the eight looked-up positions are pairwise distinct and none is the cell itself |
| Helpers.SingleCellCountsItselfEightTimes | src/helpers.js:14-32 | on a 1-by-1 grid all eight lookups hit the one cell, so a live cell counts 8 |
| Helpers.WrapAroundExample | src/helpers.js:10-21 | on a 3-by-3 grid with only (0,0) alive, the counts at (2,2), (0,1) and (1,0) are each 1 |
| Helpers.UpdateInfoBar | src/helpers.js:35-52 | with both counts falsy it recounts, showing the live cells and the rest; otherwise it shows the numbers given |
| Helpers.ToggleCellState | src/helpers.js:54-59 | only the toggled cell's flag is negated, and the info bar then shows the recounted tallies |
| Helpers.SizeBounds | src/helpers.js:78-82 | the bounds are the floor of the window height and width over the 10-pixel minimum cell size |
| Helpers.SetMaxRowCol | src/helpers.js:78-82 | the grid's maxrow and maxcol become those bounds |
| Helpers.FormAlertMessage | src/helpers.js:68-75 | "row" gives the height message and "col" the width message; any other input gives nothing |
| Helpers.ResetRunningState | src/helpers.js:84-89 | after the reset, nothing is running and no interval is left registered |
| Generation.NeighborsAt | src/helpers.js:7-33 | the reference count for a child, over its eight neighbours on the torus, lies in [0, 8] |
| Generation.NeighborsAtIsNumAliveNeighbor | src/handlers.js:46-47 | the count numAliveNeighbor gives at the row and column of child k is the reference count for child k |
| Generation.NextGenAt | src/handlers.js:45-53 | child k of the next generation is alive exactly when numAliveNeighbor at its row and column is 3, or it is alive and the count is 2 |
| Generation.NextGenAtCell | src/handlers.js:45-53 | the same for the cell in row i and column j, at flat position i*col + j |
| Generation.NextGen | src/handlers.js:45-58 | the next generation has one cell per cell of the old grid |
| Generation.ConwayRule | src/handlers.js:48-53 | a live cell with fewer than 2 or more than 3 live neighbours dies, a dead cell with 3 comes alive, and every other cell keeps its state |
| Generation.DyingMask | src/handlers.js:48-50 | there is one death mark per cell |
| Generation.BornMask | src/handlers.js:51-53 | there is one birth mark per cell |
| Generation.WhereNext | src/handlers.js:45-54 | one more turn of the loop pushes the child exactly when it is marked |
| Generation.ClassifyNext | src/handlers.js:48-53 | classifying child k with count x pushes it onto deadSoon exactly when it is alive with fewer than 2 or more than 3, and onto aliveSoon exactly when it is dead with 3 |
| Generation.WhereSelects | src/handlers.js:45-54 | every pushed position is one of the children already visited, and is marked |
| Generation.WhereIncreasing | src/handlers.js:45-54 | the pushed positions are in strictly increasing child order, so none is pushed twice |
| Generation.WhereHas | src/handlers.js:45-54 | a visited child is in the list if and only if it is marked |
| Generation.ApplyToggles | src/handlers.js:56-58 | toggling a list of cells keeps the grid's size |
| Generation.ApplyDistinctToggles | src/handlers.js:56-58 | toggling a repeat-free list flips exactly the cells listed |
| Generation.ToggleOrderIrrelevant | src/handlers.js:56-58 | two repeat-free batches of the same cells give the same grid, whatever their order |
| Generation.DisjointBatches | src/handlers.js:48-58 | when the first marks pick only live cells and the second only dead ones, the first list holds live cells, the second dead cells, and their concatenation is in range and has no repeats |
| Generation.StepBatches | src/handlers.js:48-58 | deadSoon holds only live cells and aliveSoon only dead ones, so their concatenation has no repeats and stays in range |
| Generation.BatchedStepIsNextGen | src/handlers.js:42-58 | classifying against the old grid and then toggling deadSoon followed by aliveSoon gives the simultaneous next generation |
| Generation.MooreSumOfDead | src/helpers.js:23-32 | on an all-dead grid the reference count is 0 for any list of offsets |
| Generation.AllDeadStaysDead | src/handlers.js:45-58 | an all-dead grid stays all dead |
| Handlers.ToggleCellState | src/handlers.js:9-22 | a non-cell target changes nothing; a cell target flips that cell only, moves one unit between alive and dead, and keeps the counters in step with the cells |
| Handlers.ParsedIdAt | src/handlers.js:45-47 | the coordinates parsed from the k-th child's id are its row and column, both inside the grid |
| Handlers.ClassifyCell | src/handlers.js:45-53 | the count obtained through the parsed id is the reference count for the child, and the two tests are the death and birth tests on it |
| Handlers.ClassifyCells | src/handlers.js:42-54 | the read pass changes nothing and lists in child order exactly the live cells that must die and the dead cells that must come alive |
| Handlers.ToggleAll | src/handlers.js:56-58 | the write pass leaves the grid as the listed toggles applied in order, keeps alive + dead, and moves alive by the change in the live count |
| Handlers.StepHandler | src/handlers.js:39-63 | the grid becomes the next generation of the old grid; alive + dead is unchanged and the counters stay in step with the cells |
| Handlers.StartRunning | src/handlers.js:65-71 | starting from stopped registers exactly one interval |
| Handlers.StopRunning | src/handlers.js:84-91 | stopping clears the interval and leaves the grid not running |
| Handlers.RunHandler | src/handlers.js:73-82 | each press swaps running and stopped, with at most one interval registered |
| Handlers.RunHandlerTwice | src/handlers.js:73-91 | two presses restore the original run state and interval count |
| Main.SetCellGrid | src/main.js:13-42 | with dimensions given, the old cells are discarded and replaced by exactly row*col dead cells with ids "i-j" in row-major order, the bounds are recomputed, and the total shown is row*col |
| Main.SetCells | src/main.js:45-60 | every cell takes its draw; alive is the number of live cells and alive + dead the number of cells |
| Main.ValidateResize | src/main.js:177-189 | a value equal to the current one is left alone; otherwise it is accepted if and only if it is a non-negative integer no larger than the bound; a rejection over the bound shows the cell-size message, and any other rejection shows the non-negative-integer message |
| Main.ResizeHandler | src/main.js:170-208 | a refused or unchanged value changes no state; an accepted one stops the run, changes only the edited dimension, rebuilds the grid at the new size, re-randomises it and re-tallies |
| Main.ClickHandler | src/main.js:85-108 | "step" advances one generation, keeping alive + dead and moving alive by the change in the live count; "run" starts or stops the run and leaves the cells and both counters alone; "restart" and "about" stop any run, and restart also re-randomises at the same size; any other click changes nothing |
| Init.FillCellGrid | src/init.js:13-31 | with no dimensions it records the initial ones and builds a valid grid; with one dimension 0 it builds no cells and leaves the recorded dimensions alone; otherwise it builds row*col dead cells with ids "i-j" |
| Init.InitCellGrid | src/init.js:34-50 | recomputes the bounds and clears any run, then randomises every cell and shows tallies equal to the live cells and the rest |
| Patterns.Generations | src/handlers.js:39-63 | n repeated steps keep the grid's size |
| Patterns.BlockCounts | src/helpers.js:7-33 | on a 4-by-4 torus holding only a 2x2 block, each block cell has 3 live neighbours, each other cell in the block's rows or columns 2, and every remaining cell 1 |
| Patterns.BlockNext | src/handlers.js:45-58 | one step keeps every cell of that grid in its state |
| Patterns.BlockIsStill | src/handlers.js:39-63 | the 2x2 block is a still life: one step leaves the grid unchanged |
| Patterns.StillStaysStill | src/handlers.js:39-63 | a grid one step leaves unchanged stays unchanged after any number of steps |
| Patterns.BlockStaysStill | src/handlers.js:39-63 | the block is unchanged after any number of steps |
| Patterns.HorizontalCounts | src/helpers.js:7-33 | the live-neighbour count of every cell of a 5-by-5 torus holding a horizontal triple in its middle row |
| Patterns.VerticalCounts | src/helpers.js:7-33 | the same counts for the upright triple in the middle column |
| Patterns.HorizontalNext | src/handlers.js:45-58 | after one step, each cell of the horizontal blinker's grid is in the state of the upright blinker's grid |
| Patterns.HorizontalToVertical | src/handlers.js:39-63 | one step turns the horizontal triple upright |
| Patterns.VerticalNext | src/handlers.js:45-58 | after one step, each cell of the upright blinker's grid is in the state of the horizontal blinker's grid |
| Patterns.VerticalToHorizontal | src/handlers.js:39-63 | one step lays the upright triple back down |
| Patterns.BlinkerPeriodTwo | src/handlers.js:39-63 | the blinker returns after exactly two steps: one step changes the grid, two restore it |

## Left out

- DOM event wiring (mouse, touch and keyboard listeners, `touchToToggle`'s hit-testing, button hover states) and the modal and alert boxes. These are UI plumbing; `ClickHandler` and `ResizeHandler` model only the state the handlers change.
- Rendering: colours, `data-state`/`style` writes, icon and title swaps, CSS grid templates, the info-bar and input-box text. `UpdateInfoBar` returns the two numbers shown instead of writing them.
- Timers: the 500 ms `setInterval` and the 2000 ms alert timeout. An interval is counted by the ghost `timers` field. A tick of the interval is a call to `StepHandler`.
- `Math.random()` is the `coin` parameter. `window.innerWidth` and `window.innerHeight` are the `Viewport` parameter.
- `Number(event.target.value)`: the resize handler receives the resulting number as a `NumberValue`, and the text-to-number conversion is not modelled.
- The floating-point size heuristics: `initRowCol`, and `setCellGrid` called without dimensions. `Init.FillCellGrid` takes initRowCol's result as the `initial` parameter. `Main.SetCellGrid` models only the branch with explicit dimensions, the only branch the resize handler uses.
- `~~` truncates to a 32-bit integer. `Helpers.SizeBounds` uses the mathematical floor, which agrees with `~~` for any window narrower than 2^31 pixels.
- Caret save/restore, and restoring the old value into the input box after a refused resize; neither changes grid state.
- Helpers.UpdateInfoBar: an absent argument is passed as 0. The source never passes just one of the two counts.
- Handlers.StartRunning, Handlers.StopRunning: they require the stopped or the running state. The source finds the run/pause icon with `querySelector` and would throw in the other state.
- Main.ResizeHandler: states the final state, not the order of the intermediate writes. Stopping the run still happens first in the body.
- `touchToToggle` and the keyboard shortcuts call the handlers that are modelled here; they are not modelled separately.
- Patterns.BlockIsStill, Patterns.BlinkerPeriodTwo: the block is proved on a 4-by-4 torus and the blinker on a 5-by-5 torus. Larger grids are not covered, because each proof evaluates every cell's count on a concrete grid.
