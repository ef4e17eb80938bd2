/** The `#cell-grid` element the whole app works on: its child cells, in
    document (row-major) order, and the fields the scripts hang on it. */
module Grid {
  import opened Options
  import opened CellIds

  /** The browser window's inner size in CSS pixels. */
  datatype Viewport = Viewport(innerWidth: nat, innerHeight: nat)

  /** The state the scripts keep on the grid element. A cell is identified by its
      position among the element's children; `ids[k]` is its id attribute and
      `cells[k]` whether it is alive. */
  class CellGrid {
    var row: nat
    var col: nat
    var ids: seq<string>
    var cells: seq<bool>
    var alive: int
    var dead: int
    var running: bool
    var maxrow: nat
    var maxcol: nat
    /** The number of step intervals registered and not yet cleared. */
    ghost var timers: nat

    constructor ()
      ensures row == 0 && col == 0 && ids == [] && cells == []
      ensures alive == 0 && dead == 0 && maxrow == 0 && maxcol == 0
      ensures !running && timers == 0
    {
      row, col, ids, cells := 0, 0, [], [];
      alive, dead, maxrow, maxcol := 0, 0, 0, 0;
      running, timers := false, 0;
    }

    /** The children are exactly the row-by-col cells, with ids "i-j" in row-major order. */
    ghost predicate Valid()
      reads this
    {
      |cells| == row * col && ids == GridIds(row, col)
    }

    /** The alive/dead counters agree with the cells. */
    ghost predicate Tallied()
      reads this
    {
      alive == CountAlive(cells) && alive + dead == |cells|
    }

    /** At most one interval drives the simulation, and only while `running` is set. */
    ghost predicate RunValid()
      reads this
    {
      timers == if running then 1 else 0
    }
  }

  /** The ids of row i's first n cells. */
  function RowIds(i: nat, n: nat): (r: seq<string>)
    ensures |r| == n && forall j :: 0 <= j < n ==> r[j] == CellId(i, j)
  {
    seq(n, j requires 0 <= j < n => CellId(i, j))
  }

  /** The ids of a row-by-col grid in child order: the k-th child is the cell in
      row k / col, column k % col. */
  function GridIds(row: nat, col: nat): (r: seq<string>)
    ensures |r| == row * col
  {
    if col == 0 then [] else seq(row * col, k requires 0 <= k < row * col => CellId(k / col, k % col))
  }

  /** n freshly created cells: a new span has no state, so it reads as dead. */
  function Dead(n: nat): (r: seq<bool>)
    ensures |r| == n && forall k :: 0 <= k < n ==> !r[k]
  {
    seq(n, _ => false)
  }

  /** n cells whose states are the first n random draws. */
  function Draws(coin: nat -> bool, n: nat): (r: seq<bool>)
    ensures |r| == n && forall k: nat :: k < n ==> r[k] == coin(k)
  {
    seq(n, (k: int) requires 0 <= k < n => coin(k))
  }

  /** The number of live cells. */
  function CountAlive(s: seq<bool>): (n: nat)
    ensures n <= |s|
  {
    if s == [] then 0 else CountAlive(s[..|s| - 1]) + (if s[|s| - 1] then 1 else 0)
  }

  lemma {:induction false} CountAliveDead(n: nat)
    ensures CountAlive(Dead(n)) == 0
  {
    if n > 0 {
      assert Dead(n)[..n - 1] == Dead(n - 1);
      CountAliveDead(n - 1);
    }
  }

  /** Flipping one cell moves exactly one unit between the live and the dead. */
  lemma {:induction false} CountAliveFlip(s: seq<bool>, k: nat)
    requires k < |s|
    ensures CountAlive(s[k := !s[k]]) == CountAlive(s) + (if s[k] then -1 else 1)
    decreases |s|
  {
    var t := s[k := !s[k]];
    var n := |s|;
    if k == n - 1 {
      assert t[..n - 1] == s[..n - 1];
    } else {
      assert t[..n - 1] == s[..n - 1][k := !s[k]];
      CountAliveFlip(s[..n - 1], k);
    }
  }

  /** Counting a prefix one more cell at a time, as the tally loops do. */
  lemma CountAlivePrefix(s: seq<bool>, k: nat)
    requires k < |s|
    ensures CountAlive(s[..k + 1]) == CountAlive(s[..k]) + (if s[k] then 1 else 0)
  {
    assert s[..k + 1][..k] == s[..k];
  }

  lemma MulMonotone(a: nat, b: nat, c: nat)
    requires a <= b
    ensures a * c <= b * c
  {
  }

  lemma {:induction false} MulAtLeast(d: nat, col: nat)
    requires d >= 1
    ensures d * col >= col
  {
    if d > 1 {
      MulAtLeast(d - 1, col);
      assert d * col == (d - 1) * col + col;
    }
  }

  /** Quotient and remainder of q*col + c by col, for 0 <= c < col. */
  lemma DivModOf(q: int, c: int, col: int)
    requires 0 <= c < col
    ensures (q * col + c) / col == q && (q * col + c) % col == c
  {
    var k := q * col + c;
    var q', c' := k / col, k % col;
    assert 0 <= c' < col;
    assert q' * col + c' == k;
    assert (q - q') * col == c' - c;
    if q' < q {
      MulAtLeast(q - q', col);
    } else if q' > q {
      MulAtLeast(q' - q, col);
    }
  }

  /** The flat position of (r, c) lies inside a row-by-col list, and decodes back. */
  lemma FlatIndexInRange(row: nat, col: nat, r: nat, c: nat)
    requires r < row && c < col
    ensures r * col + c < row * col
    ensures (r * col + c) / col == r && (r * col + c) % col == c
  {
    MulMonotone(r + 1, row, col);
    DivModOf(r, c, col);
  }

  /** Every flat position k of a row-by-col list is row k / col, column k % col. */
  lemma FlatIndexDecode(row: nat, col: nat, k: nat)
    requires k < row * col
    ensures col > 0 && k / col < row && k % col < col && (k / col) * col + k % col == k
  {
    if k / col >= row {
      MulMonotone(row, k / col, col);
    }
  }

  /** One more run of the outer loop appends row i's ids after the rows before it. */
  lemma GridIdsNextRow(i: nat, col: nat)
    ensures GridIds(i + 1, col) == GridIds(i, col) + RowIds(i, col)
  {
    var ids, ids' := GridIds(i, col), GridIds(i + 1, col);
    assert |ids'| == |ids| + col;
    forall k | 0 <= k < |ids'|
      ensures ids'[k] == (ids + RowIds(i, col))[k]
    {
      if k >= |ids| {
        DivModOf(i, k - i * col, col);
      }
    }
  }

  /** The first child whose id is `id`: what document.getElementById returns. */
  function IndexOfId(ids: seq<string>, id: string): (r: Option<nat>)
    ensures r.Some? ==> r.value < |ids| && ids[r.value] == id
    ensures r.Some? ==> forall m :: 0 <= m < r.value ==> ids[m] != id
    ensures r.None? ==> id !in ids
  {
    if ids == [] then None
    else if ids[0] == id then Some(0)
    else match IndexOfId(ids[1..], id)
      case None => None
      case Some(m) => Some(m + 1)
  }

  lemma FirstIndexOf(ids: seq<string>, id: string, k: nat)
    requires k < |ids| && ids[k] == id
    requires forall m :: 0 <= m < k ==> ids[m] != id
    ensures IndexOfId(ids, id) == Some(k)
  {
    assert ids[k] in ids;
  }

  lemma CellIdsDiffer(q: nat, d: nat, r: nat, c: nat)
    requires q != r || d != c
    ensures CellId(q, d) != CellId(r, c)
  {
    CellIdInjective(q, d, r, c);
  }

  lemma EarlierPositionDiffers(row: nat, col: nat, r: nat, c: nat, m: nat)
    requires r < row && c < col && m < r * col + c
    ensures m / col != r || m % col != c
  {
    FlatIndexInRange(row, col, r, c);
    FlatIndexDecode(row, col, m);
  }

  lemma {:induction false} EarlierIdDiffers(row: nat, col: nat, r: nat, c: nat, m: nat)
    requires r < row && c < col && m < r * col + c
    ensures m < |GridIds(row, col)| && GridIds(row, col)[m] != CellId(r, c)
  {
    assert m < row * col by {
      FlatIndexInRange(row, col, r, c);
    }
    EarlierPositionDiffers(row, col, r, c, m);
    CellIdsDiffer(m / col, m % col, r, c);
  }

  /** getElementById(`${r}-${c}`) on a well-built grid finds the child at flat
      position r*col + c, which is why the model reads neighbours by position. */
  lemma GetElementByIdAt(row: nat, col: nat, r: nat, c: nat)
    requires r < row && c < col
    ensures IndexOfId(GridIds(row, col), CellId(r, c)) == Some(r * col + c)
  {
    var ids := GridIds(row, col);
    var k := r * col + c;
    FlatIndexInRange(row, col, r, c);
    forall m | 0 <= m < k
      ensures ids[m] != CellId(r, c)
    {
      EarlierIdDiffers(row, col, r, c, m);
    }
    FirstIndexOf(ids, CellId(r, c), k);
  }

  /** The state of the cell whose id is "r-c" (the lookup numAliveNeighbor makes). */
  function CellAt(g: seq<bool>, row: nat, col: nat, r: nat, c: nat): bool
    requires |g| == row * col && r < row && c < col
  {
    FlatIndexInRange(row, col, r, c);
    g[r * col + c]
  }

  /** Builds the children of an emptied grid: for each row i and column j, a dead
      cell with id "i-j" (the nested loops of setCellGrid and fillCellGrid). */
  method RebuildCells(g: CellGrid, row: nat, col: nat)
    modifies g`ids, g`cells
    ensures g.ids == GridIds(row, col) && g.cells == Dead(row * col)
  {
    g.ids, g.cells := [], [];
    var i := 0;
    while i < row
      invariant i <= row
      invariant g.ids == GridIds(i, col) && g.cells == Dead(|g.ids|)
    {
      var j := 0;
      while j < col
        invariant j <= col
        invariant g.ids == GridIds(i, col) + RowIds(i, j) && g.cells == Dead(|g.ids|)
      {
        assert RowIds(i, j + 1) == RowIds(i, j) + [CellId(i, j)];
        g.ids := g.ids + [CellId(i, j)];
        g.cells := g.cells + [false];
        j := j + 1;
      }
      GridIdsNextRow(i, col);
      i := i + 1;
    }
  }

  /** Gives every child the state of its random draw, counting the live and the
      dead on the way (the loops of setCells and initCellGrid). */
  method RandomizeCells(g: CellGrid, coin: nat -> bool) returns (numAlive: nat, numDead: nat)
    modifies g`cells
    ensures g.cells == Draws(coin, |old(g.cells)|)
    ensures numAlive == CountAlive(g.cells) && numAlive + numDead == |g.cells|
  {
    numAlive, numDead := 0, 0;
    var k := 0;
    while k < |g.cells|
      invariant k <= |g.cells| == |old(g.cells)|
      invariant g.cells[..k] == Draws(coin, k)
      invariant numAlive == CountAlive(g.cells[..k]) && numAlive + numDead == k
    {
      g.cells := g.cells[k := coin(k)];
      CountAlivePrefix(g.cells, k);
      if g.cells[k] {
        numAlive := numAlive + 1;
      } else {
        numDead := numDead + 1;
      }
      k := k + 1;
    }
    assert g.cells[..k] == g.cells;
  }
}
