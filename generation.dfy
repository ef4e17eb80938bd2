/** What one press of "step" is meant to compute: Conway's rule applied to every
    cell at once, and why the step handler's classify-then-toggle batches give
    exactly that. */
module Generation {
  import opened Grid
  import opened Helpers

  /** The step handler's first test (handlers.js): a live cell with fewer than two
      or more than three live neighbours is scheduled to die. */
  predicate Dies(alive: bool, n: nat) {
    alive && (n < 2 || n > 3)
  }

  /** The step handler's second test: a dead cell with exactly three live
      neighbours is scheduled to come alive. */
  predicate Born(alive: bool, n: nat) {
    !alive && n == 3
  }

  /** The live neighbours of the k-th child of a row-by-col grid: the reference
      count over its eight Moore neighbours on the torus. */
  function NeighborsAt(g: seq<bool>, row: nat, col: nat, k: nat): (n: nat)
    requires |g| == row * col && k < |g|
    ensures n <= 8
  {
    FlatIndexDecode(row, col, k);
    MooreSum(g, row, col, k / col, k % col, Offsets)
  }

  /** The count the step handler gets from numAliveNeighbor at the coordinates
      of child k is the reference count. */
  lemma NeighborsAtIsNumAliveNeighbor(g: seq<bool>, row: nat, col: nat, k: nat)
    requires |g| == row * col && k < |g|
    ensures col > 0 && k / col < row && k % col < col
    ensures NeighborsAt(g, row, col, k) == NumAliveNeighbor(g, row, col, k / col, k % col)
  {
    FlatIndexDecode(row, col, k);
    NumAliveNeighborIsMooreSum(g, row, col, k / col, k % col);
  }

  /** The next generation under Conway's rule (B3/S23), every cell computed from
      the same old grid: a cell is alive next exactly when it has three live
      neighbours, or is alive and has two. */
  function NextGen(g: seq<bool>, row: nat, col: nat): (r: seq<bool>)
    requires |g| == row * col
    ensures |r| == |g|
  {
    seq(|g|, k requires 0 <= k < |g| =>
      NeighborsAt(g, row, col, k) == 3 || (g[k] && NeighborsAt(g, row, col, k) == 2))
  }

  /** A cell of the next generation, read through the source's own count at the
      cell's row and column. */
  lemma NextGenAt(g: seq<bool>, row: nat, col: nat, k: nat)
    requires |g| == row * col && k < |g|
    ensures col > 0 && k / col < row && k % col < col
    ensures var x := NumAliveNeighbor(g, row, col, k / col, k % col);
      NextGen(g, row, col)[k] == (x == 3 || (g[k] && x == 2))
  {
    NeighborsAtIsNumAliveNeighbor(g, row, col, k);
  }

  /** The same, for the cell in row i and column j. */
  lemma NextGenAtCell(g: seq<bool>, row: nat, col: nat, i: nat, j: nat)
    requires |g| == row * col && i < row && j < col
    ensures i * col + j < |g|
    ensures var x := NumAliveNeighbor(g, row, col, i, j);
      NextGen(g, row, col)[i * col + j] == (x == 3 || (g[i * col + j] && x == 2))
  {
    FlatIndexInRange(row, col, i, j);
    NextGenAt(g, row, col, i * col + j);
  }

  /** The source's classification is Conway's rule: a cell scheduled to die is dead
      next, one scheduled to be born is alive next, and every other cell keeps its
      state. */
  lemma ConwayRule(g: seq<bool>, row: nat, col: nat, k: nat)
    requires |g| == row * col && k < |g|
    ensures Dies(g[k], NeighborsAt(g, row, col, k)) ==> !NextGen(g, row, col)[k]
    ensures Born(g[k], NeighborsAt(g, row, col, k)) ==> NextGen(g, row, col)[k]
    ensures !Dies(g[k], NeighborsAt(g, row, col, k)) && !Born(g[k], NeighborsAt(g, row, col, k)) ==>
      NextGen(g, row, col)[k] == g[k]
  {
  }

  /** Which cells the first pass schedules to die. */
  function DyingMask(g: seq<bool>, row: nat, col: nat): (m: seq<bool>)
    requires |g| == row * col
    ensures |m| == |g|
  {
    seq(|g|, k requires 0 <= k < |g| => Dies(g[k], NeighborsAt(g, row, col, k)))
  }

  /** Which cells the first pass schedules to be born. */
  function BornMask(g: seq<bool>, row: nat, col: nat): (m: seq<bool>)
    requires |g| == row * col
    ensures |m| == |g|
  {
    seq(|g|, k requires 0 <= k < |g| => Born(g[k], NeighborsAt(g, row, col, k)))
  }

  /** The positions below n whose mask entry is set, in increasing order: the list a
      loop over the first n children builds by pushing every marked one. */
  function Where(mask: seq<bool>, n: nat): seq<nat>
    requires n <= |mask|
  {
    if n == 0 then [] else Where(mask, n - 1) + (if mask[n - 1] then [n - 1] else [])
  }

  /** One more position: the list grows by it exactly when it is marked. */
  lemma WhereNext(mask: seq<bool>, k: nat)
    requires k < |mask|
    ensures Where(mask, k + 1) == Where(mask, k) + (if mask[k] then [k] else [])
  {
  }

  /** Classifying child k, whose neighbour count is x, extends each list by k
      exactly when the corresponding test holds. */
  lemma ClassifyNext(g: seq<bool>, row: nat, col: nat, k: nat, x: nat)
    requires |g| == row * col && k < |g| && x == NeighborsAt(g, row, col, k)
    ensures Where(DyingMask(g, row, col), k + 1) ==
      Where(DyingMask(g, row, col), k) + (if Dies(g[k], x) then [k] else [])
    ensures Where(BornMask(g, row, col), k + 1) ==
      Where(BornMask(g, row, col), k) + (if Born(g[k], x) then [k] else [])
  {
    var dying, born := DyingMask(g, row, col), BornMask(g, row, col);
    assert dying[k] == Dies(g[k], x) && born[k] == Born(g[k], x);
    WhereNext(dying, k);
    WhereNext(born, k);
  }

  /** Every listed position is below n and marked. */
  lemma {:induction false} WhereSelects(mask: seq<bool>, n: nat)
    requires n <= |mask|
    ensures forall t :: 0 <= t < |Where(mask, n)| ==> Where(mask, n)[t] < n && mask[Where(mask, n)[t]]
  {
    if n > 0 {
      WhereSelects(mask, n - 1);
    }
  }

  /** The list is in increasing order, so it has no repeats. */
  lemma {:induction false} WhereIncreasing(mask: seq<bool>, n: nat)
    requires n <= |mask|
    ensures forall a, b :: 0 <= a < b < |Where(mask, n)| ==> Where(mask, n)[a] < Where(mask, n)[b]
  {
    if n > 0 {
      WhereIncreasing(mask, n - 1);
      WhereSelects(mask, n - 1);
    }
  }

  /** A position below n is listed exactly when it is marked. */
  lemma {:induction false} WhereHas(mask: seq<bool>, n: nat, m: nat)
    requires m < n <= |mask|
    ensures m in Where(mask, n) <==> mask[m]
  {
    WhereSelects(mask, n);
    if m < n - 1 {
      WhereHas(mask, n - 1, m);
    }
  }

  predicate Distinct(s: seq<nat>) {
    forall a, b :: 0 <= a < b < |s| ==> s[a] != s[b]
  }

  predicate AllBelow(s: seq<nat>, n: nat) {
    forall t :: 0 <= t < |s| ==> s[t] < n
  }

  /** The grid after toggling the listed cells one after another. */
  function ApplyToggles(g: seq<bool>, toggles: seq<nat>): (r: seq<bool>)
    requires AllBelow(toggles, |g|)
    ensures |r| == |g|
  {
    if toggles == [] then g
    else
      var h := ApplyToggles(g, toggles[..|toggles| - 1]);
      var c := toggles[|toggles| - 1];
      h[c := !h[c]]
  }

  /** Toggling a repeat-free list flips exactly the listed cells. */
  lemma {:induction false} ApplyDistinctToggles(g: seq<bool>, toggles: seq<nat>)
    requires AllBelow(toggles, |g|) && Distinct(toggles)
    ensures forall k :: 0 <= k < |g| ==> ApplyToggles(g, toggles)[k] == (g[k] != (k in toggles))
  {
    if toggles != [] {
      var init := toggles[..|toggles| - 1];
      var c := toggles[|toggles| - 1];
      ApplyDistinctToggles(g, init);
      assert c !in init;
      forall k | 0 <= k < |g|
        ensures (k in toggles) == (k in init || k == c)
      {
        assert toggles == init + [c];
      }
    }
  }

  /** The order of a repeat-free batch of toggles does not matter: two batches with
      the same cells give the same grid. */
  lemma ToggleOrderIrrelevant(g: seq<bool>, xs: seq<nat>, ys: seq<nat>)
    requires AllBelow(xs, |g|) && Distinct(xs) && AllBelow(ys, |g|) && Distinct(ys)
    requires forall k :: k in xs <==> k in ys
    ensures ApplyToggles(g, xs) == ApplyToggles(g, ys)
  {
    ApplyDistinctToggles(g, xs);
    ApplyDistinctToggles(g, ys);
  }

  /** Two batches picked by marks that only ever select live cells (the first) or
      dead cells (the second): together they have no repeats and stay in range. */
  lemma DisjointBatches(g: seq<bool>, first: seq<bool>, second: seq<bool>)
    requires |first| == |g| && |second| == |g|
    requires forall k :: 0 <= k < |g| ==> (first[k] ==> g[k]) && (second[k] ==> !g[k])
    ensures forall t :: 0 <= t < |Where(first, |g|)| ==> Where(first, |g|)[t] < |g| && g[Where(first, |g|)[t]]
    ensures forall t :: 0 <= t < |Where(second, |g|)| ==> Where(second, |g|)[t] < |g| && !g[Where(second, |g|)[t]]
    ensures AllBelow(Where(first, |g|) + Where(second, |g|), |g|)
    ensures Distinct(Where(first, |g|) + Where(second, |g|))
  {
    var xs, ys := Where(first, |g|), Where(second, |g|);
    WhereSelects(first, |g|);
    WhereSelects(second, |g|);
    WhereIncreasing(first, |g|);
    WhereIncreasing(second, |g|);
    var all := xs + ys;
    forall a, b | 0 <= a < b < |all|
      ensures all[a] != all[b]
    {
      if b < |xs| {
        assert xs[a] < xs[b];
      } else if a >= |xs| {
        assert ys[a - |xs|] < ys[b - |xs|];
      } else {
        assert g[xs[a]] && !g[ys[b - |xs|]];
      }
    }
  }

  /** The two lists the first pass builds: deadSoon holds only live cells and
      aliveSoon only dead ones, so their concatenation has no repeats and every
      cell is toggled at most once. */
  lemma StepBatches(g: seq<bool>, row: nat, col: nat)
    requires |g| == row * col
    ensures var deadSoon := Where(DyingMask(g, row, col), |g|);
            var aliveSoon := Where(BornMask(g, row, col), |g|);
            && (forall t :: 0 <= t < |deadSoon| ==> deadSoon[t] < |g| && g[deadSoon[t]])
            && (forall t :: 0 <= t < |aliveSoon| ==> aliveSoon[t] < |g| && !g[aliveSoon[t]])
            && AllBelow(deadSoon + aliveSoon, |g|)
            && Distinct(deadSoon + aliveSoon)
  {
    DisjointBatches(g, DyingMask(g, row, col), BornMask(g, row, col));
  }

  /** Classifying every cell against the old grid and then toggling the two
      batches yields exactly the simultaneous next generation. */
  lemma BatchedStepIsNextGen(g: seq<bool>, row: nat, col: nat)
    requires |g| == row * col
    ensures var toggles := Where(DyingMask(g, row, col), |g|) + Where(BornMask(g, row, col), |g|);
            AllBelow(toggles, |g|) && ApplyToggles(g, toggles) == NextGen(g, row, col)
  {
    var dying, born := DyingMask(g, row, col), BornMask(g, row, col);
    var toggles := Where(dying, |g|) + Where(born, |g|);
    StepBatches(g, row, col);
    ApplyDistinctToggles(g, toggles);
    var next := NextGen(g, row, col);
    forall k | 0 <= k < |g|
      ensures ApplyToggles(g, toggles)[k] == next[k]
    {
      ConwayRule(g, row, col, k);
      WhereHas(dying, |g|, k);
      WhereHas(born, |g|, k);
      assert k in toggles <==> dying[k] || born[k];
    }
  }

  /** On an all-dead grid the reference count is 0 for any list of offsets. */
  lemma {:induction false} MooreSumOfDead(g: seq<bool>, row: nat, col: nat, i: nat, j: nat, offs: seq<(int, int)>)
    requires |g| == row * col && row > 0 && col > 0
    requires forall k :: 0 <= k < |g| ==> !g[k]
    ensures MooreSum(g, row, col, i, j, offs) == 0
  {
    if offs != [] {
      var p := MoorePosition(row, col, i, j, offs[0]);
      FlatIndexInRange(row, col, p.0, p.1);
      MooreSumOfDead(g, row, col, i, j, offs[1..]);
    }
  }

  /** No spontaneous generation: an all-dead grid stays all dead. */
  lemma AllDeadStaysDead(row: nat, col: nat)
    ensures NextGen(Dead(row * col), row, col) == Dead(row * col)
  {
    var g := Dead(row * col);
    forall k | 0 <= k < |g|
      ensures NextGen(g, row, col)[k] == g[k]
    {
      FlatIndexDecode(row, col, k);
      MooreSumOfDead(g, row, col, k / col, k % col, Offsets);
    }
  }
}
