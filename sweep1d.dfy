// One pass of the body of `laplace` in the row-strip variant
// (src/laplace_1D.c). The sweep covers rows 1..nb_rows-2 and all N columns;
// the global domain has no ghost columns, so the missing left neighbour of
// column 0 and right neighbour of column N-1 are the constant -1. Values
// are exact reals; the convergence test is not part of this model.

module Sweep1D {
  import opened Common
  import opened Strips1D

  /** The left neighbour of cell (i, j): -1 past the left edge. */
  function West(t: array2<real>, i: nat, j: nat): real
    requires i < t.Length0 && j < t.Length1
    reads t
  {
    if j == 0 then -1.0 else t[i, j - 1]
  }

  /** The right neighbour of cell (i, j): -1 past the right edge. */
  function East(t: array2<real>, i: nat, j: nat): real
    requires i < t.Length0 && j < t.Length1
    reads t
  {
    if j == t.Length1 - 1 then -1.0 else t[i, j + 1]
  }

  /** The four-point average that cell (i, j) of an interior row receives;
      it lies between the smallest and the largest of the four neighbours,
      -1 standing in past the left and right edges. */
  function Stencil(t: array2<real>, i: nat, j: nat): (v: real)
    requires 1 <= i < t.Length0 - 1 && j < t.Length1
    reads t
    ensures Min(Min(t[i - 1, j], t[i + 1, j]), Min(West(t, i, j), East(t, i, j))) <= v
    ensures v <= Max(Max(t[i - 1, j], t[i + 1, j]), Max(West(t, i, j), East(t, i, j)))
  {
    0.25 * (t[i + 1, j] + t[i - 1, j] + West(t, i, j) + East(t, i, j))
  }

  /** Sum of squared changes over columns 0..j-1 of interior row i. */
  function RowError(t: array2<real>, i: nat, j: nat): (e: real)
    requires 1 <= i < t.Length0 - 1 && j <= t.Length1
    reads t
    ensures e >= 0.0
    decreases j
  {
    if j == 0 then 0.0 else RowError(t, i, j - 1) + Sq(Stencil(t, i, j - 1) - t[i, j - 1])
  }

  /** Sum of squared changes over interior rows 1..i-1. */
  function RowsError(t: array2<real>, i: nat): (e: real)
    requires 1 <= i <= t.Length0 - 1
    reads t
    ensures e >= 0.0
    decreases i
  {
    if i == 1 then 0.0 else RowsError(t, i - 1) + RowError(t, i - 1, t.Length1)
  }

  /** local_error_sum of one sweep, as a function of the strip before it. */
  function ErrorSum(t: array2<real>): (e: real)
    requires t.Length0 >= 2
    reads t
    ensures e >= 0.0
  {
    RowsError(t, t.Length0 - 1)
  }

  /** A strip whose interior rows already equal their four-point averages is
      left with a zero error sum. */
  lemma FixedPointHasNoError(t: array2<real>)
    requires t.Length0 >= 2
    requires forall i, j {:trigger Stencil(t, i, j)} :: 1 <= i < t.Length0 - 1 && 0 <= j < t.Length1 ==> Stencil(t, i, j) == t[i, j]
    ensures ErrorSum(t) == 0.0
  {
    var i := 1;
    while i < t.Length0 - 1
      invariant 1 <= i <= t.Length0 - 1
      invariant RowsError(t, i) == 0.0
    {
      var j := 0;
      while j < t.Length1
        invariant 0 <= j <= t.Length1
        invariant RowError(t, i, j) == 0.0
      {
        assert Stencil(t, i, j) - t[i, j] == 0.0;
        j := j + 1;
      }
      i := i + 1;
    }
  }

  /** Cells (r, c) of the interior rows that a row-by-row pass has reached
      when it stands at row i, column j. */
  predicate Passed(r: nat, c: nat, i: nat, j: nat, cols: nat) {
    (1 <= r < i && c < cols) || (r == i && c < j)
  }

  /** First half of the sweep: new_tab receives every four-point average of
      local_tab, with -1 standing in past the left and right edges, and the
      squared changes are summed; local_tab is only read. */
  method ComputeAverages(tab: array2<real>, newTab: array2<real>) returns (localErrorSum: real)
    requires tab != newTab
    requires tab.Length0 >= 2
    requires newTab.Length0 == tab.Length0 && newTab.Length1 == tab.Length1
    modifies newTab
    ensures localErrorSum == ErrorSum(tab)
    ensures forall i, j :: 1 <= i < tab.Length0 - 1 && 0 <= j < tab.Length1 ==> newTab[i, j] == Stencil(tab, i, j)
    ensures forall i, j :: 0 <= i < tab.Length0 && 0 <= j < tab.Length1 && IsGhostRow(i, tab.Length0) ==>
              newTab[i, j] == old(newTab[i, j])
  {
    localErrorSum := 0.0;
    var i := 1;
    while i < tab.Length0 - 1
      invariant 1 <= i <= tab.Length0 - 1
      invariant localErrorSum == RowsError(tab, i)
      invariant forall r, c :: 1 <= r < i && 0 <= c < tab.Length1 ==> newTab[r, c] == Stencil(tab, r, c)
      invariant forall r, c :: 0 <= r < tab.Length0 && 0 <= c < tab.Length1 && (r == 0 || r >= i) ==>
                  newTab[r, c] == old(newTab[r, c])
    {
      var rowErrorSum := AverageRow(tab, newTab, i);
      localErrorSum := localErrorSum + rowErrorSum;
      i := i + 1;
    }
  }

  /** The inner loop of the sweep over interior row i, all N columns. */
  method AverageRow(tab: array2<real>, newTab: array2<real>, i: nat) returns (rowErrorSum: real)
    requires tab != newTab
    requires 1 <= i < tab.Length0 - 1
    requires newTab.Length0 == tab.Length0 && newTab.Length1 == tab.Length1
    modifies newTab
    ensures rowErrorSum == RowError(tab, i, tab.Length1)
    ensures forall c :: 0 <= c < tab.Length1 ==> newTab[i, c] == Stencil(tab, i, c)
    ensures forall r, c :: 0 <= r < tab.Length0 && 0 <= c < tab.Length1 && r != i ==> newTab[r, c] == old(newTab[r, c])
  {
    var n := tab.Length1;
    rowErrorSum := 0.0;
    var j := 0;
    while j < n
      invariant 0 <= j <= n
      invariant rowErrorSum == RowError(tab, i, j)
      invariant forall c :: 0 <= c < j ==> newTab[i, c] == Stencil(tab, i, c)
      invariant forall r, c :: 0 <= r < tab.Length0 && 0 <= c < n && r != i ==> newTab[r, c] == old(newTab[r, c])
    {
      var v := AverageCell(tab, i, j);
      assert RowError(tab, i, j + 1) == rowErrorSum + Sq(v - tab[i, j]);
      newTab[i, j] := v;
      rowErrorSum := rowErrorSum + Sq(v - tab[i, j]);
      j := j + 1;
    }
  }

  /** The body of the inner loop as the code writes it: the four neighbours
      of cell (i, j) read with its explicit branches for columns 0 and N-1,
      then their average. Stencil is the same average stated once through
      West and East; the ensures says the two agree. */
  method AverageCell(tab: array2<real>, i: nat, j: nat) returns (v: real)
    requires 1 <= i < tab.Length0 - 1 && j < tab.Length1
    ensures v == Stencil(tab, i, j)
  {
    var top := tab[i - 1, j];
    var bottom := tab[i + 1, j];
    var left, right;
    if j == 0 {
      left := -1.0;
    } else {
      left := tab[i, j - 1];
    }
    if j == tab.Length1 - 1 {
      right := -1.0;
    } else {
      right := tab[i, j + 1];
    }
    v := 0.25 * (bottom + top + left + right);
  }

  /** Second half of the sweep: the interior rows of new_tab are copied back
      into local_tab; its ghost rows are not touched. */
  method CopyInterior(tab: array2<real>, newTab: array2<real>)
    requires tab != newTab
    requires tab.Length0 >= 2
    requires newTab.Length0 == tab.Length0 && newTab.Length1 == tab.Length1
    modifies tab
    ensures forall i, j :: 1 <= i < tab.Length0 - 1 && 0 <= j < tab.Length1 ==> tab[i, j] == newTab[i, j]
    ensures forall i, j :: 0 <= i < tab.Length0 && 0 <= j < tab.Length1 && IsGhostRow(i, tab.Length0) ==>
              tab[i, j] == old(tab[i, j])
  {
    var nbRows, n := tab.Length0, tab.Length1;
    var i := 1;
    while i < nbRows - 1
      invariant 1 <= i <= nbRows - 1
      invariant forall r, c :: 0 <= r < nbRows && 0 <= c < n ==>
                  tab[r, c] == if Passed(r, c, i, 0, n) then newTab[r, c] else old(tab[r, c])
    {
      var j := 0;
      while j < n
        invariant 0 <= j <= n
        invariant forall r, c :: 0 <= r < nbRows && 0 <= c < n ==>
                    tab[r, c] == if Passed(r, c, i, j, n) then newTab[r, c] else old(tab[r, c])
      {
        tab[i, j] := newTab[i, j];
        j := j + 1;
      }
      i := i + 1;
    }
  }

  /** What cell (i, j) of a strip holds after one sweep, as a function of
      the strip before it: the four-point average in an interior row, the
      old value in a ghost row. */
  function Swept(t: array2<real>, i: nat, j: nat): real
    requires i < t.Length0 && j < t.Length1
    reads t
  {
    if IsGhostRow(i, t.Length0) then t[i, j] else Stencil(t, i, j)
  }

  /** One pass of the laplace loop body on one rank's strip: every cell of
      the interior rows is set to the average of its four neighbours as they
      were before the pass (new_tab holds the new values until they are
      copied back), the ghost rows are left alone, and the returned
      local_error_sum is the sum of the squared changes. */
  method Sweep(tab: array2<real>) returns (localErrorSum: real)
    requires tab.Length0 >= 2
    modifies tab
    ensures localErrorSum == old(ErrorSum(tab)) && localErrorSum >= 0.0
    ensures forall i, j :: 0 <= i < tab.Length0 && 0 <= j < tab.Length1 ==> tab[i, j] == old(Swept(tab, i, j))
  {
    var newTab := new real[tab.Length0, tab.Length1];
    localErrorSum := ComputeAverages(tab, newTab);
    CopyInterior(tab, newTab);
  }

  /** Sum of ErrorSum over ranks k..NPROC-1; TotalError(tiles, 0) is what
      MPI_Allreduce of local_error_sum returns to every rank. */
  function TotalError(tiles: seq<array2<real>>, k: nat): (e: real)
    requires k <= |tiles|
    requires forall p :: 0 <= p < |tiles| ==> tiles[p].Length0 >= 2
    reads set p | k <= p < |tiles| :: tiles[p]
    ensures e >= 0.0
    decreases |tiles| - k
  {
    if k == |tiles| then 0.0 else ErrorSum(tiles[k]) + TotalError(tiles, k + 1)
  }

  /** The sweep phase of one iteration, rank after rank; the ranks share no
      memory, so the order is immaterial. The result adds up the local sums
      as MPI_Allreduce does. */
  method SweepAll(tiles: seq<array2<real>>, rows: nat, n: nat)
      returns (globalErrorSum: real)
    requires ValidStrips(tiles, rows, n)
    modifies tiles
    ensures globalErrorSum == old(TotalError(tiles, 0)) && globalErrorSum >= 0.0
    ensures forall p, i, j :: 0 <= p < |tiles| && 0 <= i < rows && 0 <= j < n ==>
              tiles[p][i, j] == old(Swept(tiles[p], i, j))
  {
    ghost var total := TotalError(tiles, 0);
    globalErrorSum := 0.0;
    var me := 0;
    while me < |tiles|
      invariant me <= |tiles|
      invariant globalErrorSum + TotalError(tiles, me) == total
      invariant forall p, i, j :: 0 <= p < me && 0 <= i < rows && 0 <= j < n ==>
                  tiles[p][i, j] == old(Swept(tiles[p], i, j))
      invariant forall p :: me <= p < |tiles| ==> unchanged(tiles[p])
    {
      assert forall p :: 0 <= p < |tiles| && p != me ==> tiles[p] != tiles[me];
      var localErrorSum := Sweep(tiles[me]);
      globalErrorSum := globalErrorSum + localErrorSum;
      me := me + 1;
    }
  }

  /** One iteration of the while loop of laplace, for all ranks at once:
      every rank sweeps its strip, then every rank runs update_matrix, and
      the returned global_error_sum adds up the local sums. A ghost row that
      faces a neighbour ends up holding that neighbour's freshly averaged
      boundary row; the outer ghost rows keep their values. */
  method LaplaceStep(tiles: seq<array2<real>>, rows: nat, n: nat)
      returns (globalErrorSum: real)
    requires ValidStrips(tiles, rows, n)
    modifies tiles
    ensures globalErrorSum == old(TotalError(tiles, 0)) && globalErrorSum >= 0.0
    ensures forall p, i, j :: 0 <= p < |tiles| && 1 <= i < rows - 1 && 0 <= j < n ==>
              tiles[p][i, j] == old(Stencil(tiles[p], i, j))
    ensures forall p, j :: 0 < p < |tiles| && 0 <= j < n ==>
              tiles[p][0, j] == old(Stencil(tiles[p - 1], rows - 2, j))
    ensures forall p, j :: 0 <= p < |tiles| && Next(p, |tiles|).Some? && 0 <= j < n ==>
              tiles[p][rows - 1, j] == old(Stencil(tiles[Next(p, |tiles|).value], 1, j))
    ensures forall p, i, j :: 0 <= p < |tiles| && 0 <= i < rows && 0 <= j < n && FixedGhostRow(p, |tiles|, rows, i) ==>
              tiles[p][i, j] == old(tiles[p][i, j])
  {
    globalErrorSum := SweepAll(tiles, rows, n);
    ExchangeAll(tiles, rows, n);
  }
}
