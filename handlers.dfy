/** src/handlers.js: toggling one cell, stepping one generation, and starting or
    stopping the repeated step. */
module Handlers {
  import opened Options
  import opened CellIds
  import opened Grid
  import opened Helpers
  import opened Generation

  /** The element a toggle is aimed at: one of the grid's cells (by its position
      among the children), or some other element such as the grid itself. */
  datatype Target = CellElement(index: nat) | OtherElement

  /** toggleCellState(cell): a target that is not a cell is ignored; a cell flips,
      and one unit moves between the alive and dead counters. */
  method ToggleCellState(g: CellGrid, target: Target)
    requires target.CellElement? ==> target.index < |g.cells|
    modifies g`cells, g`alive, g`dead
    ensures target.OtherElement? ==>
      g.cells == old(g.cells) && g.alive == old(g.alive) && g.dead == old(g.dead)
    ensures target.CellElement? ==>
      var k := target.index;
      && g.cells == old(g.cells)[k := !old(g.cells)[k]]
      && g.alive == old(g.alive) + (if old(g.cells)[k] then -1 else 1)
    ensures g.alive + g.dead == old(g.alive) + old(g.dead)
    ensures g.alive - old(g.alive) == CountAlive(g.cells) - CountAlive(old(g.cells))
    ensures old(g.Tallied()) ==> g.Tallied()
  {
    if target.CellElement? {
      var k := target.index;
      var deadSoon := g.cells[k];
      var aliveSoon := !deadSoon;
      CountAliveFlip(g.cells, k);
      g.cells := g.cells[k := !deadSoon];
      g.alive := g.alive + Bit(aliveSoon) - Bit(deadSoon);
      g.dead := g.dead + Bit(deadSoon) - Bit(aliveSoon);
    }
  }

  /** The coordinates parsed back from the k-th child's id are that child's row
      and column. */
  lemma {:induction false} ParsedIdAt(row: nat, col: nat, k: nat)
    requires k < row * col
    ensures |GridIds(row, col)| == row * col
    ensures var ij := ParseCellId(GridIds(row, col)[k]);
      && ij == Some((k / col, k % col)) && k / col < row && k % col < col
  {
    var q, c := k / col, k % col;
    assert q < row && c < col by {
      FlatIndexDecode(row, col, k);
    }
    ParseCellIdRoundTrip(q, c);
  }

  /** The body of the read pass for the k-th child: its coordinates are parsed
      from its id, its live neighbours counted around them, and the two tests of
      the step handler applied. */
  method ClassifyCell(g: CellGrid, k: nat) returns (x: nat, deadSoon: bool, aliveSoon: bool)
    requires g.Valid() && k < |g.cells|
    ensures x == NeighborsAt(g.cells, g.row, g.col, k)
    ensures deadSoon == Dies(g.cells[k], x) && aliveSoon == Born(g.cells[k], x)
  {
    ParsedIdAt(g.row, g.col, k);
    var ij := ParseCellId(g.ids[k]);
    var i, j := ij.value.0, ij.value.1;
    x := NumAliveNeighbor(g.cells, g.row, g.col, i, j);
    NeighborsAtIsNumAliveNeighbor(g.cells, g.row, g.col, k);
    deadSoon := g.cells[k] && (x < 2 || x > 3);
    aliveSoon := !g.cells[k] && x == 3;
  }

  /** The read pass of stepHandler(): every cell is classified against the grid as
      it stands, live cells that must die into deadSoon and dead cells that must
      come alive into aliveSoon, each list in child order. Nothing is changed. */
  method ClassifyCells(g: CellGrid) returns (deadSoon: seq<nat>, aliveSoon: seq<nat>)
    requires g.Valid()
    ensures deadSoon == Where(DyingMask(g.cells, g.row, g.col), |g.cells|)
    ensures aliveSoon == Where(BornMask(g.cells, g.row, g.col), |g.cells|)
  {
    deadSoon, aliveSoon := [], [];
    var k := 0;
    while k < |g.cells|
      invariant k <= |g.cells|
      invariant deadSoon == Where(DyingMask(g.cells, g.row, g.col), k)
      invariant aliveSoon == Where(BornMask(g.cells, g.row, g.col), k)
    {
      var x, dies, born := ClassifyCell(g, k);
      ClassifyNext(g.cells, g.row, g.col, k, x);
      if dies {
        deadSoon := deadSoon + [k];
      }
      if born {
        aliveSoon := aliveSoon + [k];
      }
      k := k + 1;
    }
  }

  /** The write pass of stepHandler(): toggles the listed cells one after another,
      each toggle moving one unit between the counters. */
  method ToggleAll(g: CellGrid, toggles: seq<nat>)
    requires AllBelow(toggles, |g.cells|)
    modifies g`cells, g`alive, g`dead
    ensures g.cells == ApplyToggles(old(g.cells), toggles)
    ensures g.alive + g.dead == old(g.alive) + old(g.dead)
    ensures g.alive - old(g.alive) == CountAlive(g.cells) - CountAlive(old(g.cells))
  {
    ghost var g0 := g.cells;
    var t := 0;
    while t < |toggles|
      invariant t <= |toggles| && |g.cells| == |g0|
      invariant g.cells == ApplyToggles(g0, toggles[..t])
      invariant g.alive + g.dead == old(g.alive) + old(g.dead)
      invariant g.alive - old(g.alive) == CountAlive(g.cells) - CountAlive(g0)
    {
      assert toggles[..t + 1][..t] == toggles[..t];
      ToggleCellState(g, CellElement(toggles[t]));
      t := t + 1;
    }
    assert toggles[..t] == toggles;
  }

  /** stepHandler(): the read pass, then a write pass that toggles every cell of
      deadSoon followed by every cell of aliveSoon. The grid ends as the
      simultaneous next generation, and the counters follow. */
  method StepHandler(g: CellGrid)
    requires g.Valid()
    modifies g`cells, g`alive, g`dead
    ensures g.Valid()
    ensures g.cells == NextGen(old(g.cells), g.row, g.col)
    ensures g.alive + g.dead == old(g.alive) + old(g.dead)
    ensures g.alive - old(g.alive) == CountAlive(g.cells) - CountAlive(old(g.cells))
    ensures old(g.Tallied()) ==> g.Tallied()
  {
    var deadSoon, aliveSoon := ClassifyCells(g);
    ghost var g0 := g.cells;
    var toggles := deadSoon + aliveSoon;
    assert AllBelow(toggles, |g0|) && ApplyToggles(g0, toggles) == NextGen(g0, g.row, g.col) by {
      BatchedStepIsNextGen(g0, g.row, g.col);
    }
    ToggleAll(g, toggles);
  }

  /** startRunning(): registers the interval that steps the grid; only called
      while stopped, when the run icon is showing. */
  method StartRunning(g: CellGrid)
    requires !g.running && g.RunValid()
    modifies g`running, g`timers
    ensures g.running && g.timers == 1 && g.RunValid()
  {
    g.timers := g.timers + 1;
    g.running := true;
  }

  /** stopRunning(): clears the interval; only called while running, when the
      pause icon is showing. */
  method StopRunning(g: CellGrid)
    requires g.running && g.RunValid()
    modifies g`running, g`timers
    ensures !g.running && g.timers == 0 && g.RunValid()
  {
    g.timers := g.timers - 1;
    g.running := false;
  }

  /** runHandler(): toggles between running and stopped, never leaving more than
      one interval registered. */
  method RunHandler(g: CellGrid)
    requires g.RunValid()
    modifies g`running, g`timers
    ensures g.running == !old(g.running) && g.RunValid()
  {
    if g.running {
      StopRunning(g);
    } else {
      StartRunning(g);
    }
  }

  /** Pressing "run" twice returns to the state it started in, with no interval
      left behind when that state is stopped. */
  method RunHandlerTwice(g: CellGrid)
    requires g.RunValid()
    modifies g`running, g`timers
    ensures g.running == old(g.running) && g.timers == old(g.timers)
  {
    RunHandler(g);
    RunHandler(g);
  }
}
