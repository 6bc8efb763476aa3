// One pass of the body of `laplace` in the block variant
// (src/laplace_2D.c): the Jacobi sweep of one rank's buffer, the sum of
// squared changes it reports, and the whole step over all ranks (every
// sweep, then every update_matrix, then the MPI_Allreduce sum). Values are
// exact reals, not IEEE floats; the convergence test on the square root of
// the global sum is not part of this model.

module Sweep2D {
  import opened Common
  import opened Topology2D
  import opened Halo2D

  /** The four-point average that interior cell (i, j) receives; it lies
      between the smallest and the largest of the four neighbours. */
  function Stencil(t: array2<real>, i: nat, j: nat): (v: real)
    requires 1 <= i < t.Length0 - 1 && 1 <= j < t.Length1 - 1
    reads t
    ensures Min(Min(t[i - 1, j], t[i + 1, j]), Min(t[i, j - 1], t[i, j + 1])) <= v
    ensures v <= Max(Max(t[i - 1, j], t[i + 1, j]), Max(t[i, j - 1], t[i, j + 1]))
  {
    0.25 * (t[i + 1, j] + t[i - 1, j] + t[i, j - 1] + t[i, j + 1])
  }

  /** Sum of squared changes over columns 1..j-1 of interior row i. */
  function RowError(t: array2<real>, i: nat, j: nat): (e: real)
    requires 1 <= i < t.Length0 - 1 && 1 <= j <= t.Length1 - 1
    reads t
    ensures e >= 0.0
    decreases j
  {
    if j == 1 then 0.0 else RowError(t, i, j - 1) + Sq(Stencil(t, i, j - 1) - t[i, j - 1])
  }

  /** Sum of squared changes over interior rows 1..i-1. */
  function RowsError(t: array2<real>, i: nat): (e: real)
    requires 1 <= i <= t.Length0 - 1 && t.Length1 >= 2
    reads t
    ensures e >= 0.0
    decreases i
  {
    if i == 1 then 0.0 else RowsError(t, i - 1) + RowError(t, i - 1, t.Length1 - 1)
  }

  /** local_error_sum of one sweep, as a function of the buffer before it. */
  function ErrorSum(t: array2<real>): (e: real)
    requires t.Length0 >= 2 && t.Length1 >= 2
    reads t
    ensures e >= 0.0
  {
    RowsError(t, t.Length0 - 1)
  }

  /** A buffer whose interior already equals its four-point averages is left
      with a zero error sum. */
  lemma FixedPointHasNoError(t: array2<real>)
    requires t.Length0 >= 2 && t.Length1 >= 2
    requires forall i, j {:trigger Stencil(t, i, j)} :: 1 <= i < t.Length0 - 1 && 1 <= j < t.Length1 - 1 ==> Stencil(t, i, j) == t[i, j]
    ensures ErrorSum(t) == 0.0
  {
    var i := 1;
    while i < t.Length0 - 1
      invariant 1 <= i <= t.Length0 - 1
      invariant RowsError(t, i) == 0.0
    {
      var j := 1;
      while j < t.Length1 - 1
        invariant 1 <= j <= t.Length1 - 1
        invariant RowError(t, i, j) == 0.0
      {
        assert Stencil(t, i, j) - t[i, j] == 0.0;
        j := j + 1;
      }
      i := i + 1;
    }
  }

  /** The sweep never reads a corner of the ghost ring: two buffers that differ
      at most in their corners yield the same averages and the same error. */
  lemma SweepIgnoresCorners(a: array2<real>, b: array2<real>, side: nat)
    requires side >= 2
    requires a.Length0 == side && a.Length1 == side && b.Length0 == side && b.Length1 == side
    requires forall i, j :: 0 <= i < side && 0 <= j < side && !IsCorner(i, j, side) ==> a[i, j] == b[i, j]
    ensures forall i, j :: 1 <= i < side - 1 && 1 <= j < side - 1 ==> Stencil(a, i, j) == Stencil(b, i, j)
    ensures ErrorSum(a) == ErrorSum(b)
  {
    var i := 1;
    while i < side - 1
      invariant 1 <= i <= side - 1
      invariant RowsError(a, i) == RowsError(b, i)
    {
      var j := 1;
      while j < side - 1
        invariant 1 <= j <= side - 1
        invariant RowError(a, i, j) == RowError(b, i, j)
      {
        assert Stencil(a, i, j) == Stencil(b, i, j);
        j := j + 1;
      }
      i := i + 1;
    }
  }

  /** Cells (r, c) of the interior that a row-by-row pass has reached
      when it stands at row i, column j. */
  predicate Passed(r: nat, c: nat, i: nat, j: nat, cols: nat) {
    (1 <= r < i && 1 <= c < cols - 1) || (r == i && 1 <= c < j)
  }

  /** First half of the sweep: new_tab receives every four-point average of
      tab, and the squared changes are summed; tab is only read. */
  method ComputeAverages(tab: array2<real>, newTab: array2<real>) returns (localErrorSum: real)
    requires tab != newTab
    requires tab.Length0 >= 2 && tab.Length1 >= 2
    requires newTab.Length0 == tab.Length0 && newTab.Length1 == tab.Length1
    modifies newTab
    ensures localErrorSum == ErrorSum(tab)
    ensures forall i, j :: 1 <= i < tab.Length0 - 1 && 1 <= j < tab.Length1 - 1 ==> newTab[i, j] == Stencil(tab, i, j)
    ensures forall i, j :: 0 <= i < tab.Length0 && 0 <= j < tab.Length1 && OnGhostRing(i, j, tab.Length0, tab.Length1) ==>
              newTab[i, j] == old(newTab[i, j])
  {
    localErrorSum := 0.0;
    var i := 1;
    while i < tab.Length0 - 1
      invariant 1 <= i <= tab.Length0 - 1
      invariant localErrorSum == RowsError(tab, i)
      invariant forall r, c :: 1 <= r < i && 1 <= c < tab.Length1 - 1 ==> newTab[r, c] == Stencil(tab, r, c)
      invariant forall r, c :: 0 <= r < tab.Length0 && 0 <= c < tab.Length1 && OnGhostRing(r, c, tab.Length0, tab.Length1) ==>
                  newTab[r, c] == old(newTab[r, c])
    {
      var rowErrorSum := AverageRow(tab, newTab, i);
      localErrorSum := localErrorSum + rowErrorSum;
      i := i + 1;
    }
  }

  /** The inner loop of the sweep over interior row i. */
  method AverageRow(tab: array2<real>, newTab: array2<real>, i: nat) returns (rowErrorSum: real)
    requires tab != newTab
    requires 1 <= i < tab.Length0 - 1 && tab.Length1 >= 2
    requires newTab.Length0 == tab.Length0 && newTab.Length1 == tab.Length1
    modifies newTab
    ensures rowErrorSum == RowError(tab, i, tab.Length1 - 1)
    ensures forall c :: 1 <= c < tab.Length1 - 1 ==> newTab[i, c] == Stencil(tab, i, c)
    ensures forall r, c :: 0 <= r < tab.Length0 && 0 <= c < tab.Length1 && !(r == i && 1 <= c < tab.Length1 - 1) ==>
              newTab[r, c] == old(newTab[r, c])
  {
    rowErrorSum := 0.0;
    var j := 1;
    while j < tab.Length1 - 1
      invariant 1 <= j <= tab.Length1 - 1
      invariant rowErrorSum == RowError(tab, i, j)
      invariant forall c :: 1 <= c < j ==> newTab[i, c] == Stencil(tab, i, c)
      invariant forall r, c :: 0 <= r < tab.Length0 && 0 <= c < tab.Length1 && !(r == i && 1 <= c < j) ==>
                  newTab[r, c] == old(newTab[r, c])
    {
      var top := tab[i - 1, j];
      var bottom := tab[i + 1, j];
      var left := tab[i, j - 1];
      var right := tab[i, j + 1];
      newTab[i, j] := 0.25 * (bottom + top + left + right);
      rowErrorSum := rowErrorSum + Sq(newTab[i, j] - tab[i, j]);
      j := j + 1;
    }
  }

  /** Second half of the sweep: the interior of new_tab is copied back into
      tab; the ghost ring of tab is not touched. */
  method CopyInterior(tab: array2<real>, newTab: array2<real>)
    requires tab != newTab
    requires tab.Length0 >= 2 && tab.Length1 >= 2
    requires newTab.Length0 == tab.Length0 && newTab.Length1 == tab.Length1
    modifies tab
    ensures forall i, j :: 1 <= i < tab.Length0 - 1 && 1 <= j < tab.Length1 - 1 ==> tab[i, j] == newTab[i, j]
    ensures forall i, j :: 0 <= i < tab.Length0 && 0 <= j < tab.Length1 && OnGhostRing(i, j, tab.Length0, tab.Length1) ==>
              tab[i, j] == old(tab[i, j])
  {
    var nbRows, nbCols := tab.Length0, tab.Length1;
    var i := 1;
    while i < nbRows - 1
      invariant 1 <= i <= nbRows - 1
      invariant forall r, c :: 0 <= r < nbRows && 0 <= c < nbCols ==>
                  tab[r, c] == if Passed(r, c, i, 0, nbCols) then newTab[r, c] else old(tab[r, c])
    {
      var j := 1;
      while j < nbCols - 1
        invariant 1 <= j <= nbCols - 1
        invariant forall r, c :: 0 <= r < nbRows && 0 <= c < nbCols ==>
                    tab[r, c] == if Passed(r, c, i, j, nbCols) then newTab[r, c] else old(tab[r, c])
      {
        tab[i, j] := newTab[i, j];
        j := j + 1;
      }
      i := i + 1;
    }
  }

  /** What cell (i, j) of a tile holds after one sweep, as a function of the
      tile before it: the four-point average inside, the old value on the
      ghost ring. */
  function Swept(t: array2<real>, i: nat, j: nat): real
    requires i < t.Length0 && j < t.Length1
    reads t
  {
    if OnGhostRing(i, j, t.Length0, t.Length1) then t[i, j] else Stencil(t, i, j)
  }

  /** One pass of the laplace loop body on one rank's buffer: every interior
      cell is set to the average of its four neighbours as they were before
      the pass (new_tab holds all new values until they are copied back), the
      ghost ring is left alone, and the returned local_error_sum is the sum of
      the squared changes. */
  method Sweep(tab: array2<real>) returns (localErrorSum: real)
    requires tab.Length0 >= 2 && tab.Length1 >= 2
    modifies tab
    ensures localErrorSum == old(ErrorSum(tab)) && localErrorSum >= 0.0
    ensures forall i, j :: 0 <= i < tab.Length0 && 0 <= j < tab.Length1 ==> tab[i, j] == old(Swept(tab, i, j))
  {
    var newTab := new real[tab.Length0, tab.Length1];
    localErrorSum := ComputeAverages(tab, newTab);
    CopyInterior(tab, newTab);
  }

  /** Sum of ErrorSum over ranks k..NPROC-1; TotalError(tiles, 0) is what
      MPI_Allreduce of local_error_sum returns to every rank. */
  function TotalError(tiles: seq<array2<real>>, k: nat): (e: real)
    requires k <= |tiles|
    requires forall p :: 0 <= p < |tiles| ==> tiles[p].Length0 >= 2 && tiles[p].Length1 >= 2
    reads set p | k <= p < |tiles| :: tiles[p]
    ensures e >= 0.0
    decreases |tiles| - k
  {
    if k == |tiles| then 0.0 else ErrorSum(tiles[k]) + TotalError(tiles, k + 1)
  }

  /** The sweep phase of one iteration, rank after rank; the ranks share no
      memory, so the order is immaterial. The result adds up the local sums
      as MPI_Allreduce does. */
  method SweepAll(tiles: seq<array2<real>>, cuts: nat, side: nat)
      returns (globalErrorSum: real)
    requires ValidTiles(tiles, cuts, side)
    modifies tiles
    ensures globalErrorSum == old(TotalError(tiles, 0)) && globalErrorSum >= 0.0
    ensures forall p, i, j :: 0 <= p < |tiles| && 1 <= i < side - 1 && 1 <= j < side - 1 ==>
              tiles[p][i, j] == old(Stencil(tiles[p], i, j))
    ensures forall p, i, j :: 0 <= p < |tiles| && 0 <= i < side && 0 <= j < side && OnGhostRing(i, j, side, side) ==>
              tiles[p][i, j] == old(tiles[p][i, j])
  {
    ghost var total := TotalError(tiles, 0);
    globalErrorSum := 0.0;
    var me := 0;
    while me < |tiles|
      invariant me <= |tiles|
      invariant globalErrorSum + TotalError(tiles, me) == total
      invariant forall p, i, j :: 0 <= p < me && 0 <= i < side && 0 <= j < side ==>
                  tiles[p][i, j] == old(Swept(tiles[p], i, j))
      invariant forall p :: me <= p < |tiles| ==> unchanged(tiles[p])
    {
      assert forall p :: 0 <= p < |tiles| && p != me ==> tiles[p] != tiles[me];
      var localErrorSum := Sweep(tiles[me]);
      globalErrorSum := globalErrorSum + localErrorSum;
      me := me + 1;
    }
  }

  /** One iteration of the while loop of laplace, for all ranks at once:
      every rank sweeps its tile, then every rank runs update_matrix, and the
      returned global_error_sum adds up the local sums. Each ghost cell
      facing a neighbour ends up holding the neighbour's freshly averaged
      boundary value; every other ghost cell keeps its value. */
  method LaplaceStep(tiles: seq<array2<real>>, cuts: nat, side: nat)
      returns (globalErrorSum: real)
    requires ValidTiles(tiles, cuts, side)
    modifies tiles
    ensures globalErrorSum == old(TotalError(tiles, 0)) && globalErrorSum >= 0.0
    ensures forall p, i, j :: 0 <= p < |tiles| && 1 <= i < side - 1 && 1 <= j < side - 1 ==>
              tiles[p][i, j] == old(Stencil(tiles[p], i, j))
    ensures forall p, j :: 0 <= p < |tiles| && Up(p, cuts).Some? && 1 <= j < side - 1 ==>
              tiles[p][0, j] == old(Stencil(tiles[Up(p, cuts).value], side - 2, j))
    ensures forall p, j :: 0 <= p < |tiles| && Down(p, cuts, |tiles|).Some? && 1 <= j < side - 1 ==>
              tiles[p][side - 1, j] == old(Stencil(tiles[Down(p, cuts, |tiles|).value], 1, j))
    ensures forall p, i :: 0 <= p < |tiles| && Left(p, cuts).Some? && 1 <= i < side - 1 ==>
              tiles[p][i, 0] == old(Stencil(tiles[Left(p, cuts).value], i, side - 2))
    ensures forall p, i :: 0 <= p < |tiles| && Right(p, cuts).Some? && 1 <= i < side - 1 ==>
              tiles[p][i, side - 1] == old(Stencil(tiles[Right(p, cuts).value], i, 1))
    ensures forall p, i, j :: 0 <= p < |tiles| && 0 <= i < side && 0 <= j < side && FixedGhost(p, cuts, side, i, j) ==>
              tiles[p][i, j] == old(tiles[p][i, j])
  {
    globalErrorSum := SweepAll(tiles, cuts, side);
    ExchangeAll(tiles, cuts, side);
  }
}
