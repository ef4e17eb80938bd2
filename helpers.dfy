/** src/helpers.js: the toroidal neighbour count, the info-bar tally, the size
    bounds and the small state resets shared by the other scripts. */
module Helpers {
  import opened Options
  import opened CellIds
  import opened Grid

  /** JavaScript's `%`: the remainder takes the sign of the dividend. */
  function JsRem(a: int, b: int): (r: int)
    requires b != 0
    ensures a >= 0 ==> 0 <= r < (if b < 0 then -b else b)
    ensures a < 0 ==> -(if b < 0 then -b else b) < r <= 0
    ensures a >= 0 && b > 0 ==> r == a % b
  {
    var m := (if a < 0 then -a else a) % (if b < 0 then -b else b);
    if a < 0 then -m else m
  }

  /** The numeric value JavaScript gives a boolean in `+`. */
  function Bit(b: bool): nat {
    if b then 1 else 0
  }

  /** Euclidean remainders of the three indices around x, for 0 <= x < n. */
  lemma WrapFacts(n: nat, x: nat)
    requires x < n
    ensures (x - 1) % n == (if x == 0 then n - 1 else x - 1)
    ensures x % n == x
    ensures (x + 1) % n == (if x == n - 1 then 0 else x + 1)
    ensures (x - 1 + n) % n == (x - 1) % n
  {
    DivModOf(0, x, n);
    if x == 0 {
      DivModOf(-1, n - 1, n);
      DivModOf(0, n - 1, n);
    } else {
      DivModOf(0, x - 1, n);
      DivModOf(1, x - 1, n);
    }
    if x == n - 1 {
      DivModOf(1, 0, n);
    } else {
      DivModOf(0, x + 1, n);
    }
  }

  /** The four wrapped indices numAliveNeighbor computes. */
  datatype Wrapped = Wrapped(left: nat, right: nat, top: nat, bottom: nat)

  /** leftIdx, rightIdx, topIdx and bottomIdx of cell (i, j): each stays inside the
      grid, and stepping off one edge re-enters at the opposite one. */
  function WrapIndices(row: nat, col: nat, i: nat, j: nat): (w: Wrapped)
    requires i < row && j < col
    ensures w.left < col && w.right < col && w.top < row && w.bottom < row
    ensures w.left == (if j == 0 then col - 1 else j - 1)
    ensures w.right == (if j == col - 1 then 0 else j + 1)
    ensures w.top == (if i == 0 then row - 1 else i - 1)
    ensures w.bottom == (if i == row - 1 then 0 else i + 1)
  {
    WrapFacts(col, j);
    WrapFacts(row, i);
    Wrapped(JsRem(j - 1 + col, col), JsRem(j + 1, col), JsRem(i - 1 + row, row), JsRem(i + 1, row))
  }

  /** numAliveNeighbor(i, j): the sum of the eight 0/1 lookups around (i, j) on the
      torus, in the source's order (left, right, top, bottom, top-right, top-left,
      bottom-right, bottom-left). */
  function NumAliveNeighbor(g: seq<bool>, row: nat, col: nat, i: nat, j: nat): (n: nat)
    requires |g| == row * col && i < row && j < col
    ensures n <= 8
  {
    var w := WrapIndices(row, col, i, j);
    Bit(CellAt(g, row, col, i, w.left)) +
    Bit(CellAt(g, row, col, i, w.right)) +
    Bit(CellAt(g, row, col, w.top, j)) +
    Bit(CellAt(g, row, col, w.bottom, j)) +
    Bit(CellAt(g, row, col, w.top, w.right)) +
    Bit(CellAt(g, row, col, w.top, w.left)) +
    Bit(CellAt(g, row, col, w.bottom, w.right)) +
    Bit(CellAt(g, row, col, w.bottom, w.left))
  }

  /** The eight (row, column) offsets of the Moore neighbourhood, in the order the
      source adds them up. */
  const Offsets: seq<(int, int)> :=
    [(0, -1), (0, 1), (-1, 0), (1, 0), (-1, 1), (-1, -1), (1, 1), (1, -1)]

  /** The cell at offset d from (i, j) on a torus: coordinates reduced modulo the
      grid's height and width. */
  function MoorePosition(row: nat, col: nat, i: nat, j: nat, d: (int, int)): (p: (nat, nat))
    requires row > 0 && col > 0
    ensures p.0 < row && p.1 < col
  {
    ((i + d.0) % row, (j + d.1) % col)
  }

  /** The reference count: for each offset, 1 if the cell there is alive. */
  function MooreSum(g: seq<bool>, row: nat, col: nat, i: nat, j: nat, offs: seq<(int, int)>): (n: nat)
    requires |g| == row * col && row > 0 && col > 0
    ensures n <= |offs|
  {
    if offs == [] then 0
    else
      var p := MoorePosition(row, col, i, j, offs[0]);
      Bit(CellAt(g, row, col, p.0, p.1)) + MooreSum(g, row, col, i, j, offs[1..])
  }

  /** The count at offset d: 1 if the cell there is alive. */
  function BitAt(g: seq<bool>, row: nat, col: nat, i: nat, j: nat, d: (int, int)): nat
    requires |g| == row * col && row > 0 && col > 0
  {
    var p := MoorePosition(row, col, i, j, d);
    Bit(CellAt(g, row, col, p.0, p.1))
  }

  lemma MooreSumCons(g: seq<bool>, row: nat, col: nat, i: nat, j: nat, offs: seq<(int, int)>)
    requires |g| == row * col && row > 0 && col > 0 && offs != []
    ensures MooreSum(g, row, col, i, j, offs) ==
      BitAt(g, row, col, i, j, offs[0]) + MooreSum(g, row, col, i, j, offs[1..])
  {
  }

  lemma MooreSumUnfolded(g: seq<bool>, row: nat, col: nat, i: nat, j: nat)
    requires |g| == row * col && row > 0 && col > 0
    ensures MooreSum(g, row, col, i, j, Offsets) ==
      BitAt(g, row, col, i, j, (0, -1)) + BitAt(g, row, col, i, j, (0, 1)) +
      BitAt(g, row, col, i, j, (-1, 0)) + BitAt(g, row, col, i, j, (1, 0)) +
      BitAt(g, row, col, i, j, (-1, 1)) + BitAt(g, row, col, i, j, (-1, -1)) +
      BitAt(g, row, col, i, j, (1, 1)) + BitAt(g, row, col, i, j, (1, -1))
  {
    MooreSumCons(g, row, col, i, j, [(0, -1), (0, 1), (-1, 0), (1, 0), (-1, 1), (-1, -1), (1, 1), (1, -1)]);
    assert [(0, -1), (0, 1), (-1, 0), (1, 0), (-1, 1), (-1, -1), (1, 1), (1, -1)][1..] == [(0, 1), (-1, 0), (1, 0), (-1, 1), (-1, -1), (1, 1), (1, -1)];
    MooreSumCons(g, row, col, i, j, [(0, 1), (-1, 0), (1, 0), (-1, 1), (-1, -1), (1, 1), (1, -1)]);
    assert [(0, 1), (-1, 0), (1, 0), (-1, 1), (-1, -1), (1, 1), (1, -1)][1..] == [(-1, 0), (1, 0), (-1, 1), (-1, -1), (1, 1), (1, -1)];
    MooreSumCons(g, row, col, i, j, [(-1, 0), (1, 0), (-1, 1), (-1, -1), (1, 1), (1, -1)]);
    assert [(-1, 0), (1, 0), (-1, 1), (-1, -1), (1, 1), (1, -1)][1..] == [(1, 0), (-1, 1), (-1, -1), (1, 1), (1, -1)];
    MooreSumCons(g, row, col, i, j, [(1, 0), (-1, 1), (-1, -1), (1, 1), (1, -1)]);
    assert [(1, 0), (-1, 1), (-1, -1), (1, 1), (1, -1)][1..] == [(-1, 1), (-1, -1), (1, 1), (1, -1)];
    MooreSumCons(g, row, col, i, j, [(-1, 1), (-1, -1), (1, 1), (1, -1)]);
    assert [(-1, 1), (-1, -1), (1, 1), (1, -1)][1..] == [(-1, -1), (1, 1), (1, -1)];
    MooreSumCons(g, row, col, i, j, [(-1, -1), (1, 1), (1, -1)]);
    assert [(-1, -1), (1, 1), (1, -1)][1..] == [(1, 1), (1, -1)];
    MooreSumCons(g, row, col, i, j, [(1, 1), (1, -1)]);
    assert [(1, 1), (1, -1)][1..] == [(1, -1)];
    MooreSumCons(g, row, col, i, j, [(1, -1)]);
    assert [(1, -1)][1..] == [];
  }

  /** The source's index arithmetic is the torus: its count equals the reference
      sum over the eight offsets taken modulo the grid's size. */
  lemma NumAliveNeighborIsMooreSum(g: seq<bool>, row: nat, col: nat, i: nat, j: nat)
    requires |g| == row * col && i < row && j < col
    ensures NumAliveNeighbor(g, row, col, i, j) == MooreSum(g, row, col, i, j, Offsets)
  {
    var w := WrapIndices(row, col, i, j);
    assert
      && MoorePosition(row, col, i, j, (0, -1)) == (i, w.left)
      && MoorePosition(row, col, i, j, (0, 1)) == (i, w.right)
      && MoorePosition(row, col, i, j, (-1, 0)) == (w.top, j)
      && MoorePosition(row, col, i, j, (1, 0)) == (w.bottom, j)
      && MoorePosition(row, col, i, j, (-1, 1)) == (w.top, w.right)
      && MoorePosition(row, col, i, j, (-1, -1)) == (w.top, w.left)
      && MoorePosition(row, col, i, j, (1, 1)) == (w.bottom, w.right)
      && MoorePosition(row, col, i, j, (1, -1)) == (w.bottom, w.left)
    by {
      WrapFacts(row, i);
      WrapFacts(col, j);
    }
    MooreSumUnfolded(g, row, col, i, j);
  }

  /** On a grid at least 3 by 3 the eight looked-up cells are eight different
      cells, none of them (i, j) itself. */
  lemma MoorePositionsDistinct(row: nat, col: nat, i: nat, j: nat)
    requires row >= 3 && col >= 3 && i < row && j < col
    ensures forall a, b :: 0 <= a < b < |Offsets| ==>
      MoorePosition(row, col, i, j, Offsets[a]) != MoorePosition(row, col, i, j, Offsets[b])
    ensures forall a :: 0 <= a < |Offsets| ==> MoorePosition(row, col, i, j, Offsets[a]) != (i, j)
  {
    WrapFacts(row, i);
    WrapFacts(col, j);
  }

  /** On a 1-by-1 grid all eight lookups land on the one cell, which is counted
      eight times. */
  lemma SingleCellCountsItselfEightTimes()
    ensures NumAliveNeighbor([true], 1, 1, 0, 0) == 8
  {
  }

  /** A 3-by-3 grid with only (0, 0) alive: the count wraps across both edges. */
  lemma WrapAroundExample()
    ensures NumAliveNeighbor([true, false, false, false, false, false, false, false, false], 3, 3, 2, 2) == 1
    ensures NumAliveNeighbor([true, false, false, false, false, false, false, false, false], 3, 3, 0, 1) == 1
    ensures NumAliveNeighbor([true, false, false, false, false, false, false, false, false], 3, 3, 1, 0) == 1
  {
  }

  /** updateInfoBar(alive, dead): the two numbers the info bar shows. Called with
      both falsy (an absent argument is passed as 0) it recounts the cells. */
  method UpdateInfoBar(g: CellGrid, alive: nat, dead: nat) returns (shownAlive: nat, shownDead: nat)
    ensures alive == 0 && dead == 0 ==>
      shownAlive == CountAlive(g.cells) && shownAlive + shownDead == |g.cells|
    ensures alive != 0 || dead != 0 ==> shownAlive == alive && shownDead == dead
  {
    shownAlive, shownDead := alive, dead;
    if alive == 0 && dead == 0 {
      var k := 0;
      while k < |g.cells|
        invariant k <= |g.cells|
        invariant shownAlive == CountAlive(g.cells[..k]) && shownAlive + shownDead == k
      {
        CountAlivePrefix(g.cells, k);
        if g.cells[k] {
          shownAlive := shownAlive + 1;
        } else {
          shownDead := shownDead + 1;
        }
        k := k + 1;
      }
      assert g.cells[..k] == g.cells;
    }
  }

  /** toggleCellState(cell) of this revision: negates the cell's flag and
      refreshes the info bar, which recounts. */
  method ToggleCellState(g: CellGrid, k: nat) returns (shownAlive: nat, shownDead: nat)
    requires k < |g.cells|
    modifies g`cells
    ensures g.cells == old(g.cells)[k := !old(g.cells)[k]]
    ensures shownAlive == CountAlive(g.cells) && shownAlive + shownDead == |g.cells|
  {
    g.cells := g.cells[k := !g.cells[k]];
    shownAlive, shownDead := UpdateInfoBar(g, 0, 0);
  }

  /** Cells may not be narrower or shorter than this many pixels. */
  const MinCellSize: nat := 10

  datatype Bounds = Bounds(maxrow: nat, maxcol: nat)

  /** The largest row and column counts that keep cells at least MinCellSize
      pixels on a side: the viewport's height and width divided by it, rounded down. */
  function SizeBounds(vp: Viewport): (b: Bounds)
    ensures b.maxrow * MinCellSize <= vp.innerHeight < (b.maxrow + 1) * MinCellSize
    ensures b.maxcol * MinCellSize <= vp.innerWidth < (b.maxcol + 1) * MinCellSize
  {
    Bounds(vp.innerHeight / MinCellSize, vp.innerWidth / MinCellSize)
  }

  /** setMaxRowCol(): stores the bounds for the current viewport. */
  method SetMaxRowCol(g: CellGrid, vp: Viewport)
    modifies g`maxrow, g`maxcol
    ensures g.maxrow == SizeBounds(vp).maxrow && g.maxcol == SizeBounds(vp).maxcol
  {
    g.maxrow := vp.innerHeight / MinCellSize;
    g.maxcol := vp.innerWidth / MinCellSize;
  }

  const HeightMessage: string := "Cell height cannot be less than 10 pixels"
  const WidthMessage: string := "Cell width cannot be less than 10 pixels"

  /** formAlertMessage(modifying): the message for a too-large row or column count;
      any other input gives undefined. */
  function FormAlertMessage(modifying: string): (m: Option<string>)
    ensures m.Some? <==> modifying == "row" || modifying == "col"
    ensures m == Some(HeightMessage) <==> modifying == "row"
    ensures m == Some(WidthMessage) <==> modifying == "col"
  {
    if modifying == "row" then Some(HeightMessage)
    else if modifying == "col" then Some(WidthMessage)
    else None
  }

  /** resetRunningState(): clears the interval and the running flag. */
  method ResetRunningState(g: CellGrid)
    requires g.RunValid()
    modifies g`running, g`timers
    ensures !g.running && g.timers == 0 && g.RunValid()
  {
    if g.running {
      g.timers := g.timers - 1;
    }
    g.running := false;
  }
}
