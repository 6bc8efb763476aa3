// Row-strip variant (src/laplace_1D.c): the partition check of main, the
// neighbour tests of update_matrix, tile initialisation and the halo
// exchange. Rank me owns N / NPROC consecutive rows of the global matrix;
// its local_tab has nb_rows = N / NPROC + 2 rows of N columns, row 0 and
// row nb_rows-1 being ghost rows. The flat addressing local_tab + j + i*N
// is written t[i, j].

module Strips1D {
  import opened Common
  import opened Buffers

  /** main's check: N must be a multiple of NPROC, and then every strip has
      nb_rows = N / NPROC + 2 rows. */
  function Partition1D(nproc: nat, n: nat): (r: Result<nat>)
    requires nproc >= 1
    ensures r.Ok? <==> n % nproc == 0
    ensures r.Err? ==> r.error == IncompatibleSize
    ensures r.Ok? ==> r.value >= 2 && (r.value - 2) * nproc == n
  {
    if n % nproc != 0 then Err(IncompatibleSize) else Ok(n / nproc + 2)
  }

  /** The rank above me in the strip order (update_matrix: `me != 0`). */
  function Prev(me: nat, nproc: nat): (r: Option<nat>)
    requires me < nproc
    ensures r.Some? ==> r.value < nproc && r.value + 1 == me
  {
    if me != 0 then Some(me - 1) else None
  }

  /** The rank below me in the strip order (update_matrix: `me != NPROC-1`). */
  function Next(me: nat, nproc: nat): (r: Option<nat>)
    requires me < nproc
    ensures r.Some? ==> r.value < nproc && r.value == me + 1
  {
    if me != nproc - 1 then Some(me + 1) else None
  }

  /** One strip buffer of nb_rows rows and N columns per rank, no two shared.
      A strip owns at least one row unless N = 0, when every buffer is empty. */
  ghost predicate ValidStrips(tiles: seq<array2<real>>, rows: nat, n: nat) {
    && rows >= 2 && (rows == 2 ==> n == 0)
    && (forall p :: 0 <= p < |tiles| ==> tiles[p].Length0 == rows && tiles[p].Length1 == n)
    && (forall p, q :: 0 <= p < q < |tiles| ==> tiles[p] != tiles[q])
  }

  predicate IsGhostRow(i: nat, rows: nat) {
    i == 0 || i == rows - 1
  }

  /** initialize_local_matrix: -1 on both ghost rows, the rank elsewhere. */
  method InitializeLocalMatrix(me: nat, tab: array2<real>)
    modifies tab
    ensures forall i, j :: 0 <= i < tab.Length0 && 0 <= j < tab.Length1 ==>
              tab[i, j] == if IsGhostRow(i, tab.Length0) then -1.0 else me as real
  {
    var nbRows, n := tab.Length0, tab.Length1;
    var i := 0;
    while i < nbRows
      invariant 0 <= i <= nbRows
      invariant forall r, c :: 0 <= r < i && 0 <= c < n ==>
                  tab[r, c] == if IsGhostRow(r, nbRows) then -1.0 else me as real
    {
      var j := 0;
      while j < n
        invariant 0 <= j <= n
        invariant forall r, c :: 0 <= r < i && 0 <= c < n ==>
                    tab[r, c] == if IsGhostRow(r, nbRows) then -1.0 else me as real
        invariant forall c :: 0 <= c < j ==>
                    tab[i, c] == if IsGhostRow(i, nbRows) then -1.0 else me as real
      {
        if i == 0 || i == nbRows - 1 {
          tab[i, j] := -1.0;
        } else {
          tab[i, j] := me as real;
        }
        j := j + 1;
      }
      i := i + 1;
    }
  }

  /** The ghost rows of rank me that update_matrix overwrites: those facing
      an existing neighbour. */
  predicate StripExchanged(me: nat, nproc: nat, rows: nat, i: nat)
    requires me < nproc
  {
    (i == 0 && Prev(me, nproc).Some?) || (i == rows - 1 && Next(me, nproc).Some?)
  }

  /** Ghost rows no exchange writes: rank 0's top row and the last rank's
      bottom row, which keep the boundary value. */
  predicate FixedGhostRow(me: nat, nproc: nat, rows: nat, i: nat)
    requires me < nproc
  {
    IsGhostRow(i, rows) && !StripExchanged(me, nproc, rows, i)
  }

  /** update_matrix, receiving side of rank me: row 0 takes the last interior
      row of the previous rank (tag 2), row nb_rows-1 takes the first
      interior row of the next rank (tag 1); whole N-wide rows are copied. */
  method UpdateMatrix(tiles: seq<array2<real>>, rows: nat, n: nat, me: nat)
    requires ValidStrips(tiles, rows, n) && me < |tiles|
    modifies tiles[me]
    ensures Prev(me, |tiles|).Some? ==>
              forall j :: 0 <= j < n ==> tiles[me][0, j] == old(tiles[me - 1][rows - 2, j])
    ensures Next(me, |tiles|).Some? ==>
              forall j :: 0 <= j < n ==> tiles[me][rows - 1, j] == old(tiles[Next(me, |tiles|).value][1, j])
    ensures forall i, j :: 0 <= i < rows && 0 <= j < n && !StripExchanged(me, |tiles|, rows, i) ==>
              tiles[me][i, j] == old(tiles[me][i, j])
  {
    var tab := tiles[me];
    if me != 0 {
      CopyRow(tab, 0, tiles[me - 1], rows - 2, 0, n);
    }
    if me != |tiles| - 1 {
      CopyRow(tab, rows - 1, tiles[me + 1], 1, 0, n);
    }
  }

  /** Every rank runs update_matrix. Sends read interior rows only and
      receives write ghost rows only, so running the ranks one after the
      other gives every rank its neighbours' rows as they were before the
      exchange; interior rows, rank 0's top ghost row and the last rank's
      bottom ghost row keep their values. */
  method ExchangeAll(tiles: seq<array2<real>>, rows: nat, n: nat)
    requires ValidStrips(tiles, rows, n)
    modifies tiles
    ensures forall p, j :: 0 < p < |tiles| && 0 <= j < n ==>
              tiles[p][0, j] == old(tiles[p - 1][rows - 2, j])
    ensures forall p, j :: 0 <= p < |tiles| && Next(p, |tiles|).Some? && 0 <= j < n ==>
              tiles[p][rows - 1, j] == old(tiles[Next(p, |tiles|).value][1, j])
    ensures forall p, i, j :: 0 <= p < |tiles| && 0 <= i < rows && 0 <= j < n && !StripExchanged(p, |tiles|, rows, i) ==>
              tiles[p][i, j] == old(tiles[p][i, j])
  {
    var me := 0;
    while me < |tiles|
      invariant me <= |tiles|
      invariant forall p, i, j :: 0 <= p < |tiles| && 1 <= i < rows - 1 && 0 <= j < n ==>
                  tiles[p][i, j] == old(tiles[p][i, j])
      invariant forall p, i, j :: 0 <= p < me && 0 <= i < rows && 0 <= j < n && !StripExchanged(p, |tiles|, rows, i) ==>
                  tiles[p][i, j] == old(tiles[p][i, j])
      invariant forall p, i, j :: me <= p < |tiles| && 0 <= i < rows && 0 <= j < n ==>
                  tiles[p][i, j] == old(tiles[p][i, j])
      invariant forall p, j :: 0 < p < me && 0 <= j < n ==>
                  tiles[p][0, j] == old(tiles[p - 1][rows - 2, j])
      invariant forall p, j :: 0 <= p < me && Next(p, |tiles|).Some? && 0 <= j < n ==>
                  tiles[p][rows - 1, j] == old(tiles[Next(p, |tiles|).value][1, j])
    {
      assert forall p :: 0 <= p < |tiles| && p != me ==> tiles[p] != tiles[me];
      UpdateMatrix(tiles, rows, n, me);
      me := me + 1;
    }
  }

  /** The value cell (i, j) of rank p's strip holds once main has run
      initialize_local_matrix and the first update_matrix: the rank inside,
      the facing neighbour's rank in a ghost row that has a neighbour, -1 in
      the outer ghost rows of the first and the last strip. */
  function StartValue(p: nat, nproc: nat, rows: nat, i: nat): real
    requires p < nproc
  {
    if !IsGhostRow(i, rows) then p as real
    else if i == 0 then (if Prev(p, nproc).Some? then Prev(p, nproc).value as real else -1.0)
    else if Next(p, nproc).Some? then Next(p, nproc).value as real else -1.0
  }

  /** main up to the laplace call: every rank initialises its strip, then
      every rank runs the first update_matrix. */
  method StartUp(tiles: seq<array2<real>>, rows: nat, n: nat)
    requires ValidStrips(tiles, rows, n)
    modifies tiles
    ensures forall p, i, j :: 0 <= p < |tiles| && 0 <= i < rows && 0 <= j < n ==>
              tiles[p][i, j] == StartValue(p, |tiles|, rows, i)
  {
    var me := 0;
    while me < |tiles|
      invariant me <= |tiles|
      invariant forall p, i, j :: 0 <= p < me && 0 <= i < rows && 0 <= j < n ==>
                  tiles[p][i, j] == if IsGhostRow(i, rows) then -1.0 else p as real
    {
      assert forall p :: 0 <= p < |tiles| && p != me ==> tiles[p] != tiles[me];
      InitializeLocalMatrix(me, tiles[me]);
      me := me + 1;
    }
    label Initialised:
    ExchangeAll(tiles, rows, n);
    forall p, i, j | 0 <= p < |tiles| && 0 <= i < rows && 0 <= j < n
      ensures tiles[p][i, j] == StartValue(p, |tiles|, rows, i)
    {
      if i == 0 && p > 0 {
        assert tiles[p][i, j] == old@Initialised(tiles[p - 1][rows - 2, j]);
      } else if i == rows - 1 && Next(p, |tiles|).Some? {
        assert tiles[p][i, j] == old@Initialised(tiles[p + 1][1, j]);
      }
    }
  }
}
