/** src/init.js (the revision that keeps each cell's state in its `alive` flag):
    building the first grid and giving it random states. */
module Init {
  import opened Grid
  import opened Helpers

  /** fillCellGrid(row, col): empties the grid and builds row-by-col dead cells with
      ids "i-j". When both dimensions are missing or zero it takes `initial` (what
      initRowCol computes from the element's size) and records it as the grid's
      dimensions; given dimensions are used for the build only, and the recorded
      ones stay as they were. */
  method FillCellGrid(g: CellGrid, row: nat, col: nat, initial: (nat, nat))
    modifies g`row, g`col, g`ids, g`cells
    ensures row == 0 && col == 0 ==> g.row == initial.0 && g.col == initial.1 && g.Valid()
    ensures !(row == 0 && col == 0) ==> g.row == old(g.row) && g.col == old(g.col)
    ensures var (r, c) := if row == 0 && col == 0 then initial else (row, col);
            g.ids == GridIds(r, c) && g.cells == Dead(r * c)
    ensures (row == 0) != (col == 0) ==> g.ids == [] && g.cells == []
  {
    var r, c := row, col;
    if row == 0 && col == 0 {
      g.row, g.col := initial.0, initial.1;
      r, c := g.row, g.col;
    }
    RebuildCells(g, r, c);
  }

  /** initCellGrid(): recomputes the size bounds, clears any run, draws every
      cell's state at random while tallying, and shows the tallies. */
  method InitCellGrid(g: CellGrid, vp: Viewport, coin: nat -> bool) returns (shownAlive: nat, shownDead: nat)
    requires g.RunValid()
    modifies g`maxrow, g`maxcol, g`running, g`timers, g`cells
    ensures g.maxrow == SizeBounds(vp).maxrow && g.maxcol == SizeBounds(vp).maxcol
    ensures !g.running && g.RunValid()
    ensures g.cells == Draws(coin, |old(g.cells)|)
    ensures shownAlive == CountAlive(g.cells) && shownAlive + shownDead == |g.cells|
  {
    SetMaxRowCol(g, vp);
    ResetRunningState(g);
    var alive, dead := RandomizeCells(g, coin);
    shownAlive, shownDead := UpdateInfoBar(g, alive, dead);
  }
}
