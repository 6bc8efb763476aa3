// Gathering of the final matrix in the row-strip variant
// (print_final_matrix and save_file_final_matrix, src/laplace_1D.c). Every
// rank sends the N * (N / NPROC) values that follow its first ghost row,
// which are its interior rows in row-major order, and MPI_Gather stores
// rank p's values at final_matrix + p * N * (N / NPROC). The result is the
// interiors stacked in rank order.

module Gather1D {
  import opened Common
  import opened Strips1D

  /** The rank whose strip holds global row i when every strip owns r rows:
      row i lies in rows p * r .. p * r + r - 1 of the global matrix. */
  function StripOwner(i: nat, r: nat, nproc: nat): (p: nat)
    requires r >= 1 && i < nproc * r
    ensures p < nproc && p == i / r
    ensures p * r <= i < p * r + r
  {
    RowBound(i, r, nproc);
    i / r
  }

  /** Global cells (i, j) that come before (row, col) in row-major order. */
  predicate GatheredBefore(i: nat, j: nat, row: nat, col: nat) {
    i < row || (i == row && j < col)
  }

  /** Slot a * N + j of rank p's share lands on global cell (p * r + a, j). */
  lemma GatherSlot(p: nat, a: nat, j: nat, r: nat, n: nat, nproc: nat)
    requires p < nproc && a < r && j < n && n == nproc * r
    ensures p * r + a < n
    ensures p * (n * r) + (a * n + j) == Cell(p * r + a, j, n)
    ensures StripOwner(p * r + a, r, nproc) == p && (p * r + a) % r == a
  {
    FlatIndexBound(p, a, nproc, r);
    FlatIndex(p, a, r);
    MulAssoc(p, r, n);
    assert (p * r + a) * n == (p * r) * n + a * n;
    assert n * r == r * n;
  }

  /** Global cell (i, j) of the gathered matrix: interior row i % r + 1 of
      the strip of rank i / r, for r = N / NPROC rows per strip. */
  function Gathered(tiles: seq<array2<real>>, r: nat, n: nat, i: nat, j: nat): real
    requires ValidStrips(tiles, r + 2, n) && n == |tiles| * r && i < n && j < n
    reads set p | 0 <= p < |tiles| :: tiles[p]
  {
    tiles[StripOwner(i, r, |tiles|)][i % r + 1, j]
  }

  /** Rank 0's final_matrix after MPI_Gather: global row i is interior row
      i % r + 1 of the strip of rank i / r, for r = N / NPROC rows per strip. */
  method Gather(tiles: seq<array2<real>>, n: nat, rows: nat) returns (final: array<real>)
    requires ValidStrips(tiles, rows, n) && n == |tiles| * (rows - 2)
    ensures final.Length == n * n
    ensures forall i, j :: 0 <= i < n && 0 <= j < n ==>
              final[Cell(i, j, n)] == tiles[StripOwner(i, rows - 2, |tiles|)][i % (rows - 2) + 1, j]
  {
    var r := rows - 2;
    final := new real[n * n];
    var row := 0;  // p * r, the first global row of strip p
    var p := 0;
    while p < |tiles|
      invariant p <= |tiles| && row == p * r
      invariant forall i, j :: 0 <= i < n && 0 <= j < n && i < row ==>
                  final[Cell(i, j, n)] == Gathered(tiles, r, n, i, j)
    {
      row := GatherStrip(final, tiles, p, r, n, row);
      p := p + 1;
    }
  }

  /** The share of rank p: its r interior rows become global rows
      p * r .. p * r + r - 1. */
  method GatherStrip(final: array<real>, tiles: seq<array2<real>>, p: nat, r: nat, n: nat, start: nat)
      returns (next: nat)
    requires ValidStrips(tiles, r + 2, n) && n == |tiles| * r
    requires p < |tiles| && start == p * r && final.Length == n * n
    requires forall i, j :: 0 <= i < n && 0 <= j < n && i < start ==>
               final[Cell(i, j, n)] == Gathered(tiles, r, n, i, j)
    modifies final
    ensures next == start + r && next == (p + 1) * r
    ensures forall i, j :: 0 <= i < n && 0 <= j < n && i < next ==>
              final[Cell(i, j, n)] == Gathered(tiles, r, n, i, j)
    ensures forall i, j :: 0 <= i < n && 0 <= j < n && next <= i ==>
              final[Cell(i, j, n)] == old(final[Cell(i, j, n)])
  {
    assert (p + 1) * r == p * r + r;
    next := start;
    var a := 0;
    while a < r
      invariant a <= r && next == start + a
      invariant forall i, j :: 0 <= i < n && 0 <= j < n && i < next ==>
                  final[Cell(i, j, n)] == Gathered(tiles, r, n, i, j)
      invariant forall i, j :: 0 <= i < n && 0 <= j < n && next <= i ==>
                  final[Cell(i, j, n)] == old(final[Cell(i, j, n)])
    {
      GatherRow(final, tiles, p, a, r, n, next);
      a := a + 1;
      next := next + 1;
    }
  }

  /** The part of MPI_Gather that stores interior row a + 1 of rank p's
      strip, that is global row p * r + a. */
  method GatherRow(final: array<real>, tiles: seq<array2<real>>, p: nat, a: nat, r: nat, n: nat, row: nat)
    requires ValidStrips(tiles, r + 2, n) && n == |tiles| * r
    requires p < |tiles| && a < r && row == p * r + a && final.Length == n * n
    modifies final
    ensures forall i, j :: 0 <= i < n && 0 <= j < n && i < row + 1 ==>
              final[Cell(i, j, n)] == (if i < row then old(final[Cell(i, j, n)]) else Gathered(tiles, r, n, i, j))
    ensures forall i, j :: 0 <= i < n && 0 <= j < n && row < i ==>
              final[Cell(i, j, n)] == old(final[Cell(i, j, n)])
    ensures row < n
  {
    var j := 0;
    GatherSlot(p, a, 0, r, n, |tiles|);
    while j < n
      invariant j <= n
      invariant forall i, c :: 0 <= i < n && 0 <= c < n && GatheredBefore(i, c, row, j) ==>
                  final[Cell(i, c, n)] == (if i < row then old(final[Cell(i, c, n)]) else Gathered(tiles, r, n, i, c))
      invariant forall i, c :: 0 <= i < n && 0 <= c < n && row < i ==>
                  final[Cell(i, c, n)] == old(final[Cell(i, c, n)])
    {
      GatherSlot(p, a, j, r, n, |tiles|);
      final[p * (n * r) + (a * n + j)] := tiles[p][a + 1, j];
      j := j + 1;
    }
  }
}
