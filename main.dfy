/** src/main.js: building the grid at given dimensions, randomising it, the
    click handler's restart and about buttons, and the row/column inputs that
    resize the grid. */
module Main {
  import opened Grid
  import opened Helpers
  import opened Generation
  import opened Handlers

  /** setCellGrid(row, col) with both dimensions given: empties the grid, records
      the dimensions, appends row*col dead cells with ids "i-j" in row-major order,
      recomputes the size bounds, and returns the total it displays. */
  method SetCellGrid(g: CellGrid, row: nat, col: nat, vp: Viewport) returns (shownTotal: nat)
    modifies g`row, g`col, g`ids, g`cells, g`maxrow, g`maxcol
    ensures g.row == row && g.col == col && g.Valid()
    ensures g.ids == GridIds(row, col) && g.cells == Dead(row * col)
    ensures g.maxrow == SizeBounds(vp).maxrow && g.maxcol == SizeBounds(vp).maxcol
    ensures shownTotal == |g.cells|
  {
    g.row, g.col := row, col;
    RebuildCells(g, row, col);
    SetMaxRowCol(g, vp);
    shownTotal := g.row * g.col;
  }

  /** setCells(): every cell becomes alive or dead by its own random draw, and the
      counters are set to the tallies. */
  method SetCells(g: CellGrid, coin: nat -> bool)
    modifies g`cells, g`alive, g`dead
    ensures g.cells == Draws(coin, |old(g.cells)|) && g.Tallied()
  {
    var numAlive, numDead := RandomizeCells(g, coin);
    g.alive := numAlive;
    g.dead := numDead;
  }

  /** The id of the edited input box: which dimension a resize changes. */
  datatype Dimension = Row | Col

  /** Number(text) of what was typed into the box. */
  datatype NumberValue = NaN | Infinity(negative: bool) | Finite(value: real)

  /** What the input handler does with a new value: nothing (it equals the current
      one), refuse it with a message, or rebuild the grid at the new size. */
  datatype ResizeOutcome = Unchanged | Rejected(message: string) | Accepted(size: nat)

  const NotNonNegativeMessage: string := "We only accept nonnegative integers ;)"
  const TooSmallCellMessage: string := "Cell side cannot be less than 10 pixels"

  /** `newVal < 0` */
  predicate LessThanZero(v: NumberValue) {
    match v
    case NaN => false
    case Infinity(negative) => negative
    case Finite(x) => x < 0.0
  }

  /** Number.isInteger(newVal) */
  predicate IsInteger(v: NumberValue) {
    v.Finite? && v.value == v.value.Floor as real
  }

  /** `newVal > max` */
  predicate GreaterThan(v: NumberValue, max: nat) {
    match v
    case NaN => false
    case Infinity(negative) => !negative
    case Finite(x) => x > max as real
  }

  /** A value a row or column count may take: a finite, non-negative whole number. */
  predicate IsCount(v: NumberValue) {
    v.Finite? && v.value >= 0.0 && v.value.Floor as real == v.value
  }

  /** The checks of the row/column input handler, given the current value of the
      edited dimension and its bound. A value equal to the current one is left
      alone; otherwise it is accepted exactly when it is a whole number between 0
      and the bound. When it is over the bound the bound's message is shown, even
      if it is also negative or fractional, because that message is written last. */
  function ValidateResize(oldVal: nat, newVal: NumberValue, max: nat): (d: ResizeOutcome)
    ensures d == Unchanged <==> newVal == Finite(oldVal as real)
    ensures d.Accepted? <==>
      newVal != Finite(oldVal as real) && IsCount(newVal) && newVal.value <= max as real
    ensures d.Accepted? ==> d.size as real == newVal.value && d.size <= max && d.size != oldVal
    ensures d.Rejected? ==>
      d.message == (if GreaterThan(newVal, max) then TooSmallCellMessage else NotNonNegativeMessage)
  {
    if newVal == Finite(oldVal as real) then Unchanged
    else
      var badNumber := LessThanZero(newVal) || newVal.NaN? || !IsInteger(newVal);
      var tooLarge := GreaterThan(newVal, max);
      if tooLarge then Rejected(TooSmallCellMessage)
      else if badNumber then Rejected(NotNonNegativeMessage)
      else Accepted(newVal.value.Floor)
  }

  /** The input handler of the row/column boxes. A refused or unchanged value
      leaves the grid as it was (the box shows the old value again); an accepted
      one stops the run, changes only the edited dimension, rebuilds the grid at
      the new size and randomises it. */
  method ResizeHandler(g: CellGrid, dim: Dimension, newVal: NumberValue, vp: Viewport, coin: nat -> bool)
    returns (d: ResizeOutcome)
    requires g.RunValid()
    modifies g
    ensures d == ValidateResize(if dim == Row then old(g.row) else old(g.col), newVal,
                                if dim == Row then old(g.maxrow) else old(g.maxcol))
    ensures !d.Accepted? ==> unchanged(g)
    ensures d.Accepted? ==>
      && !g.running && g.RunValid()
      && (dim == Row ==> g.row == d.size && g.col == old(g.col))
      && (dim == Col ==> g.col == d.size && g.row == old(g.row))
      && g.Valid() && g.cells == Draws(coin, g.row * g.col) && g.Tallied()
      && g.maxrow == SizeBounds(vp).maxrow && g.maxcol == SizeBounds(vp).maxcol
  {
    var oldVal := if dim == Row then g.row else g.col;
    var max := if dim == Row then g.maxrow else g.maxcol;
    d := ValidateResize(oldVal, newVal, max);
    if d.Accepted? {
      if g.running {
        StopRunning(g);
      }
      if dim == Row {
        g.row := d.size;
      } else {
        g.col := d.size;
      }
      var _ := SetCellGrid(g, g.row, g.col, vp);
      SetCells(g, coin);
    }
  }

  /** The document's click handler: "step" advances one generation, "run" starts
      or stops the run, "restart" stops any run and re-randomises the grid at its
      current size, "about" stops any run; any other click changes no state. */
  method ClickHandler(g: CellGrid, targetId: string, coin: nat -> bool)
    requires g.Valid() && g.RunValid()
    modifies g
    ensures g.Valid() && g.RunValid()
    ensures g.row == old(g.row) && g.col == old(g.col) && g.ids == old(g.ids)
    ensures g.maxrow == old(g.maxrow) && g.maxcol == old(g.maxcol)
    ensures targetId == "step" ==>
      g.cells == NextGen(old(g.cells), g.row, g.col) && g.running == old(g.running)
      && g.alive + g.dead == old(g.alive) + old(g.dead)
      && g.alive - old(g.alive) == CountAlive(g.cells) - CountAlive(old(g.cells))
      && (old(g.Tallied()) ==> g.Tallied())
    ensures targetId == "run" ==>
      g.running == !old(g.running) && g.cells == old(g.cells)
      && g.alive == old(g.alive) && g.dead == old(g.dead)
    ensures targetId == "restart" ==>
      !g.running && g.cells == Draws(coin, |old(g.cells)|) && g.Tallied()
    ensures targetId == "about" ==>
      !g.running && g.cells == old(g.cells) && g.alive == old(g.alive) && g.dead == old(g.dead)
    ensures targetId !in {"step", "run", "restart", "about"} ==> unchanged(g)
  {
    if targetId == "step" {
      StepHandler(g);
    } else if targetId == "run" {
      RunHandler(g);
    } else if targetId == "restart" {
      if g.running {
        StopRunning(g);
      }
      SetCells(g, coin);
    } else if targetId == "about" {
      if g.running {
        StopRunning(g);
      }
    }
  }
}
