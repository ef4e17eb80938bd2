/** Two patterns the step rule is designed around, on small toroidal grids: the
    2x2 block, a still life, and the horizontal blinker, an oscillator of period 2. */
module Patterns {
  import opened Grid
  import opened Helpers
  import opened Generation

  /** The grid after n steps. */
  function Generations(g: seq<bool>, row: nat, col: nat, n: nat): (r: seq<bool>)
    requires |g| == row * col
    ensures |r| == |g|
  {
    if n == 0 then g else NextGen(Generations(g, row, col, n - 1), row, col)
  }

  /** A 4-by-4 torus whose only live cells are the 2x2 block in the top-left corner. */
  function Block(): (g: seq<bool>)
    ensures |g| == 4 * 4
    ensures forall k :: 0 <= k < 16 ==> g[k] == (k == 0 || k == 1 || k == 4 || k == 5)
  {
    seq(16, k requires 0 <= k < 16 => k == 0 || k == 1 || k == 4 || k == 5)
  }

  /** Every cell of the block has 3 live neighbours, a dead cell sharing a row or
      a column with the block has 2, and every other cell has 1. */
  lemma BlockCounts(i: nat, j: nat)
    requires i < 4 && j < 4
    ensures NumAliveNeighbor(Block(), 4, 4, i, j) ==
      if i < 2 && j < 2 then 3 else if i < 2 || j < 2 then 2 else 1
  {
  }

  /** Each cell of the block has 3 live neighbours and keeps living; every dead
      cell has 2 or 1 and stays dead. */
  lemma BlockNext(i: nat, j: nat)
    requires i < 4 && j < 4
    ensures NextGen(Block(), 4, 4)[i * 4 + j] == Block()[i * 4 + j]
  {
    NextGenAtCell(Block(), 4, 4, i, j);
    BlockCounts(i, j);
  }

  /** The block is a still life: one step leaves it as it is. */
  lemma BlockIsStill()
    ensures NextGen(Block(), 4, 4) == Block()
  {
    forall k | 0 <= k < 16
      ensures NextGen(Block(), 4, 4)[k] == Block()[k]
    {
      FlatIndexDecode(4, 4, k);
      BlockNext(k / 4, k % 4);
    }
  }

  /** A grid that one step leaves as it is stays so after any number of steps. */
  lemma {:induction false} StillStaysStill(g: seq<bool>, row: nat, col: nat, n: nat)
    requires |g| == row * col && NextGen(g, row, col) == g
    ensures Generations(g, row, col, n) == g
  {
    if n > 0 {
      StillStaysStill(g, row, col, n - 1);
    }
  }

  /** So the block stays unchanged after any number of steps. */
  lemma BlockStaysStill(n: nat)
    ensures Generations(Block(), 4, 4, n) == Block()
  {
    BlockIsStill();
    StillStaysStill(Block(), 4, 4, n);
  }

  /** A 5-by-5 torus with a horizontal triple in the middle row. */
  function Horizontal(): (g: seq<bool>)
    ensures |g| == 5 * 5
    ensures forall k :: 0 <= k < 25 ==> g[k] == (k == 11 || k == 12 || k == 13)
  {
    seq(25, k requires 0 <= k < 25 => k == 11 || k == 12 || k == 13)
  }

  /** The same triple turned upright in the middle column. */
  function Vertical(): (g: seq<bool>)
    ensures |g| == 5 * 5
    ensures forall k :: 0 <= k < 25 ==> g[k] == (k == 7 || k == 12 || k == 17)
  {
    seq(25, k requires 0 <= k < 25 => k == 7 || k == 12 || k == 17)
  }

  /** The live-neighbour counts around the horizontal triple: 2 at its centre, 1
      elsewhere in its row; in the rows above and below, 3 over the centre, 2 over
      its ends and 1 at the sides; 0 in the outer rows. */
  lemma HorizontalCounts(i: nat, j: nat)
    requires i < 5 && j < 5
    ensures NumAliveNeighbor(Horizontal(), 5, 5, i, j) ==
      (if i == 2 then (if j == 2 then 2 else 1)
       else if i == 1 || i == 3 then (if j == 2 then 3 else if j == 1 || j == 3 then 2 else 1)
       else 0)
  {
  }

  /** The counts around the upright triple: those of the horizontal one, transposed. */
  lemma VerticalCounts(i: nat, j: nat)
    requires i < 5 && j < 5
    ensures NumAliveNeighbor(Vertical(), 5, 5, i, j) ==
      (if j == 2 then (if i == 2 then 2 else 1)
       else if j == 1 || j == 3 then (if i == 2 then 3 else if i == 1 || i == 3 then 2 else 1)
       else 0)
  {
  }

  /** The ends of the triple have 1 live neighbour and die, its centre has 2 and
      lives, and the cells above and below the centre have 3 and are born. */
  lemma HorizontalNext(i: nat, j: nat)
    requires i < 5 && j < 5
    ensures NextGen(Horizontal(), 5, 5)[i * 5 + j] == Vertical()[i * 5 + j]
  {
    NextGenAtCell(Horizontal(), 5, 5, i, j);
    HorizontalCounts(i, j);
  }

  /** One step turns the horizontal triple upright. */
  lemma HorizontalToVertical()
    ensures NextGen(Horizontal(), 5, 5) == Vertical()
  {
    forall k | 0 <= k < 25
      ensures NextGen(Horizontal(), 5, 5)[k] == Vertical()[k]
    {
      FlatIndexDecode(5, 5, k);
      HorizontalNext(k / 5, k % 5);
    }
  }

  /** The same, turned a quarter: the upright triple's neighbours. */
  lemma VerticalNext(i: nat, j: nat)
    requires i < 5 && j < 5
    ensures NextGen(Vertical(), 5, 5)[i * 5 + j] == Horizontal()[i * 5 + j]
  {
    NextGenAtCell(Vertical(), 5, 5, i, j);
    VerticalCounts(i, j);
  }

  /** And the next step lays it back down. */
  lemma VerticalToHorizontal()
    ensures NextGen(Vertical(), 5, 5) == Horizontal()
  {
    forall k | 0 <= k < 25
      ensures NextGen(Vertical(), 5, 5)[k] == Horizontal()[k]
    {
      FlatIndexDecode(5, 5, k);
      VerticalNext(k / 5, k % 5);
    }
  }

  /** The blinker returns after exactly two steps: one step changes it, two restore it. */
  lemma BlinkerPeriodTwo()
    ensures Generations(Horizontal(), 5, 5, 1) != Horizontal()
    ensures Generations(Horizontal(), 5, 5, 2) == Horizontal()
  {
    HorizontalToVertical();
    VerticalToHorizontal();
    assert Horizontal()[7] != Vertical()[7];
  }
}
