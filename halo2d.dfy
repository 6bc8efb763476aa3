// Tiles and halo exchange of the block variant (src/laplace_2D.c).
// A rank's local_tab is a side-by-side buffer, side = Nlocal = NBLOCK + 2:
// rows and columns 1..side-2 are the interior the rank owns, row 0,
// row side-1, column 0 and column side-1 form the ghost ring. The flat
// addressing local_tab + j + i*Nlocal_cols is written t[i, j].
//
// Every MPI_Send/MPI_Recv pair is modelled by its data effect: the receiver
// copies the sender's interior boundary row or column into its own ghost
// row or column. All ranks' buffers together are a sequence of distinct
// arrays, one per rank.

module Halo2D {
  import opened Common
  import opened Buffers
  import opened Topology2D

  predicate OnGhostRing(i: nat, j: nat, rows: nat, cols: nat) {
    i == 0 || i == rows - 1 || j == 0 || j == cols - 1
  }

  predicate IsCorner(i: nat, j: nat, side: nat) {
    (i == 0 || i == side - 1) && (j == 0 || j == side - 1)
  }

  /** Cells no exchange ever writes: the interior and the four corners. */
  predicate Untouched(i: nat, j: nat, side: nat) {
    !OnGhostRing(i, j, side, side) || IsCorner(i, j, side)
  }

  /** One side-by-side buffer per rank of a cuts-by-cuts grid, no two shared. */
  ghost predicate ValidTiles(tiles: seq<array2<real>>, cuts: nat, side: nat) {
    && |tiles| == cuts * cuts
    && side >= 2
    && (forall p :: 0 <= p < |tiles| ==> tiles[p].Length0 == side && tiles[p].Length1 == side)
    && (forall p, q :: 0 <= p < q < |tiles| ==> tiles[p] != tiles[q])
  }

  /** initialize_local_matrix: -1 on the ghost ring, the rank everywhere inside. */
  method InitializeLocalMatrix(me: nat, tab: array2<real>)
    modifies tab
    ensures forall i, j :: 0 <= i < tab.Length0 && 0 <= j < tab.Length1 ==>
              tab[i, j] == if OnGhostRing(i, j, tab.Length0, tab.Length1) then -1.0 else me as real
  {
    var nbRows, nbCols := tab.Length0, tab.Length1;
    var i := 0;
    while i < nbRows
      invariant 0 <= i <= nbRows
      invariant forall r, c :: 0 <= r < i && 0 <= c < nbCols ==>
                  tab[r, c] == if OnGhostRing(r, c, nbRows, nbCols) then -1.0 else me as real
    {
      var j := 0;
      while j < nbCols
        invariant 0 <= j <= nbCols
        invariant forall r, c :: 0 <= r < i && 0 <= c < nbCols ==>
                    tab[r, c] == if OnGhostRing(r, c, nbRows, nbCols) then -1.0 else me as real
        invariant forall c :: 0 <= c < j ==>
                    tab[i, c] == if OnGhostRing(i, c, nbRows, nbCols) then -1.0 else me as real
      {
        if i == 0 || i == nbRows - 1 {
          tab[i, j] := -1.0;
        } else if j == 0 || j == nbCols - 1 {
          tab[i, j] := -1.0;
        } else {
          tab[i, j] := me as real;
        }
        j := j + 1;
      }
      i := i + 1;
    }
  }

  /** The ghost cells of rank me that a receive of update_rows overwrites:
      the inner part of a ghost row that faces an existing neighbour. */
  predicate RowExchanged(me: nat, cuts: nat, side: nat, i: nat, j: nat)
    requires me < cuts * cuts
  {
    && 1 <= j < side - 1
    && ((i == 0 && Up(me, cuts).Some?) || (i == side - 1 && Down(me, cuts, cuts * cuts).Some?))
  }

  /** The ghost cells of rank me that a receive of update_cols overwrites. */
  predicate ColExchanged(me: nat, cuts: nat, side: nat, i: nat, j: nat)
    requires me < cuts * cuts
  {
    && 1 <= i < side - 1
    && ((j == 0 && Left(me, cuts).Some?) || (j == side - 1 && Right(me, cuts).Some?))
  }

  predicate Exchanged(me: nat, cuts: nat, side: nat, i: nat, j: nat)
    requires me < cuts * cuts
  {
    RowExchanged(me, cuts, side, i, j) || ColExchanged(me, cuts, side, i, j)
  }

  /** Ghost cells no exchange writes: the corners and the ghost segments on
      the edge of the global domain, which keep the boundary value. */
  predicate FixedGhost(me: nat, cuts: nat, side: nat, i: nat, j: nat)
    requires me < cuts * cuts
  {
    OnGhostRing(i, j, side, side) && !Exchanged(me, cuts, side, i, j)
  }

  /** update_rows, receiving side of rank me: the bottom ghost row takes the
      first interior row of the rank below (tag 1), the top ghost row takes
      the last interior row of the rank above (tag 2); columns 0 and side-1
      are not sent. */
  method UpdateRows(tiles: seq<array2<real>>, cuts: nat, side: nat, me: nat)
    requires ValidTiles(tiles, cuts, side) && me < |tiles|
    modifies tiles[me]
    ensures Up(me, cuts).Some? ==>
              forall j :: 1 <= j < side - 1 ==> tiles[me][0, j] == old(tiles[Up(me, cuts).value][side - 2, j])
    ensures Down(me, cuts, |tiles|).Some? ==>
              forall j :: 1 <= j < side - 1 ==> tiles[me][side - 1, j] == old(tiles[Down(me, cuts, |tiles|).value][1, j])
    ensures forall i, j :: 0 <= i < side && 0 <= j < side && !RowExchanged(me, cuts, side, i, j) ==>
              tiles[me][i, j] == old(tiles[me][i, j])
  {
    var tab := tiles[me];
    var down := Down(me, cuts, |tiles|);
    if down.Some? {
      CopyRow(tab, side - 1, tiles[down.value], 1, 1, side - 1);
    }
    var up := Up(me, cuts);
    if up.Some? {
      CopyRow(tab, 0, tiles[up.value], side - 2, 1, side - 1);
    }
  }

  /** update_cols, receiving side of rank me: the left ghost column takes the
      last interior column of the rank on the left (tag 3), the right ghost
      column the first interior column of the rank on the right (tag 4); the
      column datatype covers rows 1..side-2 only. */
  method UpdateCols(tiles: seq<array2<real>>, cuts: nat, side: nat, me: nat)
    requires ValidTiles(tiles, cuts, side) && me < |tiles|
    modifies tiles[me]
    ensures Left(me, cuts).Some? ==>
              forall i :: 1 <= i < side - 1 ==> tiles[me][i, 0] == old(tiles[Left(me, cuts).value][i, side - 2])
    ensures Right(me, cuts).Some? ==>
              forall i :: 1 <= i < side - 1 ==> tiles[me][i, side - 1] == old(tiles[Right(me, cuts).value][i, 1])
    ensures forall i, j :: 0 <= i < side && 0 <= j < side && !ColExchanged(me, cuts, side, i, j) ==>
              tiles[me][i, j] == old(tiles[me][i, j])
  {
    var tab := tiles[me];
    var left := Left(me, cuts);
    if left.Some? {
      CopyCol(tab, 0, tiles[left.value], side - 2, 1, side - 1);
    }
    var right := Right(me, cuts);
    if right.Some? {
      CopyCol(tab, side - 1, tiles[right.value], 1, 1, side - 1);
    }
  }

  /** update_matrix: update_rows then update_cols. Only ghost cells facing a
      neighbour change; interior cells and the four corners never do. */
  method UpdateMatrix(tiles: seq<array2<real>>, cuts: nat, side: nat, me: nat)
    requires ValidTiles(tiles, cuts, side) && me < |tiles|
    modifies tiles[me]
    ensures Up(me, cuts).Some? ==>
              forall j :: 1 <= j < side - 1 ==> tiles[me][0, j] == old(tiles[Up(me, cuts).value][side - 2, j])
    ensures Down(me, cuts, |tiles|).Some? ==>
              forall j :: 1 <= j < side - 1 ==> tiles[me][side - 1, j] == old(tiles[Down(me, cuts, |tiles|).value][1, j])
    ensures Left(me, cuts).Some? ==>
              forall i :: 1 <= i < side - 1 ==> tiles[me][i, 0] == old(tiles[Left(me, cuts).value][i, side - 2])
    ensures Right(me, cuts).Some? ==>
              forall i :: 1 <= i < side - 1 ==> tiles[me][i, side - 1] == old(tiles[Right(me, cuts).value][i, 1])
    ensures forall i, j :: 0 <= i < side && 0 <= j < side && !Exchanged(me, cuts, side, i, j) ==>
              tiles[me][i, j] == old(tiles[me][i, j])
  {
    UpdateRows(tiles, cuts, side, me);
    UpdateCols(tiles, cuts, side, me);
  }

  /** Every rank runs update_rows. Sends read interior rows and receives
      write ghost rows, so running the ranks one after the other gives each
      rank its neighbours' rows as they were before the exchange. */
  method ExchangeRows(tiles: seq<array2<real>>, cuts: nat, side: nat)
    requires ValidTiles(tiles, cuts, side)
    modifies tiles
    ensures forall p, j :: 0 <= p < |tiles| && Up(p, cuts).Some? && 1 <= j < side - 1 ==>
              tiles[p][0, j] == old(tiles[Up(p, cuts).value][side - 2, j])
    ensures forall p, j :: 0 <= p < |tiles| && Down(p, cuts, |tiles|).Some? && 1 <= j < side - 1 ==>
              tiles[p][side - 1, j] == old(tiles[Down(p, cuts, |tiles|).value][1, j])
    ensures forall p, i, j :: 0 <= p < |tiles| && 0 <= i < side && 0 <= j < side && !RowExchanged(p, cuts, side, i, j) ==>
              tiles[p][i, j] == old(tiles[p][i, j])
  {
    var me := 0;
    while me < |tiles|
      invariant me <= |tiles|
      invariant forall p, i, j :: 0 <= p < |tiles| && 1 <= i < side - 1 && 0 <= j < side ==>
                  tiles[p][i, j] == old(tiles[p][i, j])
      invariant forall p, i, j :: 0 <= p < me && 0 <= i < side && 0 <= j < side && !RowExchanged(p, cuts, side, i, j) ==>
                  tiles[p][i, j] == old(tiles[p][i, j])
      invariant forall p :: me <= p < |tiles| ==> unchanged(tiles[p])
      invariant forall p, j :: 0 <= p < me && Up(p, cuts).Some? && 1 <= j < side - 1 ==>
                  tiles[p][0, j] == old(tiles[Up(p, cuts).value][side - 2, j])
      invariant forall p, j :: 0 <= p < me && Down(p, cuts, |tiles|).Some? && 1 <= j < side - 1 ==>
                  tiles[p][side - 1, j] == old(tiles[Down(p, cuts, |tiles|).value][1, j])
    {
      assert forall p :: 0 <= p < |tiles| && p != me ==> tiles[p] != tiles[me];
      UpdateRows(tiles, cuts, side, me);
      me := me + 1;
    }
  }

  /** Every rank runs update_cols: the same argument with columns. */
  method ExchangeCols(tiles: seq<array2<real>>, cuts: nat, side: nat)
    requires ValidTiles(tiles, cuts, side)
    modifies tiles
    ensures forall p, i :: 0 <= p < |tiles| && Left(p, cuts).Some? && 1 <= i < side - 1 ==>
              tiles[p][i, 0] == old(tiles[Left(p, cuts).value][i, side - 2])
    ensures forall p, i :: 0 <= p < |tiles| && Right(p, cuts).Some? && 1 <= i < side - 1 ==>
              tiles[p][i, side - 1] == old(tiles[Right(p, cuts).value][i, 1])
    ensures forall p, i, j :: 0 <= p < |tiles| && 0 <= i < side && 0 <= j < side && !ColExchanged(p, cuts, side, i, j) ==>
              tiles[p][i, j] == old(tiles[p][i, j])
  {
    var me := 0;
    while me < |tiles|
      invariant me <= |tiles|
      invariant forall p, i, j :: 0 <= p < |tiles| && 0 <= i < side && 1 <= j < side - 1 ==>
                  tiles[p][i, j] == old(tiles[p][i, j])
      invariant forall p, i, j :: 0 <= p < me && 0 <= i < side && 0 <= j < side && !ColExchanged(p, cuts, side, i, j) ==>
                  tiles[p][i, j] == old(tiles[p][i, j])
      invariant forall p :: me <= p < |tiles| ==> unchanged(tiles[p])
      invariant forall p, i :: 0 <= p < me && Left(p, cuts).Some? && 1 <= i < side - 1 ==>
                  tiles[p][i, 0] == old(tiles[Left(p, cuts).value][i, side - 2])
      invariant forall p, i :: 0 <= p < me && Right(p, cuts).Some? && 1 <= i < side - 1 ==>
                  tiles[p][i, side - 1] == old(tiles[Right(p, cuts).value][i, 1])
    {
      assert forall p :: 0 <= p < |tiles| && p != me ==> tiles[p] != tiles[me];
      UpdateCols(tiles, cuts, side, me);
      me := me + 1;
    }
  }

  /** Rank p's tile after its update_matrix, against the tiles of the
      earlier state: each ghost segment facing a neighbour holds that
      neighbour's boundary, and every other cell is as it was. */
  twostate predicate Refreshed(tiles: seq<array2<real>>, cuts: nat, side: nat, p: nat)
    requires ValidTiles(tiles, cuts, side) && p < |tiles|
    reads tiles[p]
  {
    && (Up(p, cuts).Some? ==>
          forall j :: 1 <= j < side - 1 ==> tiles[p][0, j] == old(tiles[Up(p, cuts).value][side - 2, j]))
    && (Down(p, cuts, |tiles|).Some? ==>
          forall j :: 1 <= j < side - 1 ==> tiles[p][side - 1, j] == old(tiles[Down(p, cuts, |tiles|).value][1, j]))
    && (Left(p, cuts).Some? ==>
          forall i :: 1 <= i < side - 1 ==> tiles[p][i, 0] == old(tiles[Left(p, cuts).value][i, side - 2]))
    && (Right(p, cuts).Some? ==>
          forall i :: 1 <= i < side - 1 ==> tiles[p][i, side - 1] == old(tiles[Right(p, cuts).value][i, 1]))
    && (forall i, j :: 0 <= i < side && 0 <= j < side && !Exchanged(p, cuts, side, i, j) ==>
          tiles[p][i, j] == old(tiles[p][i, j]))
  }

  /** Every rank runs update_matrix, that is update_rows and then
      update_cols. The messages of the two phases touch disjoint cells (the
      row messages leave out columns 0 and side-1, the column datatype rows
      0 and side-1), so all ranks exchanging rows and then all ranks
      exchanging columns has the same outcome: every halo is refreshed from
      the neighbours' interiors as they were before the exchange, and
      interiors, corners and ghost cells on the domain boundary keep their
      values. */
  method ExchangeAll(tiles: seq<array2<real>>, cuts: nat, side: nat)
    requires ValidTiles(tiles, cuts, side)
    modifies tiles
    ensures forall p, j :: 0 <= p < |tiles| && Up(p, cuts).Some? && 1 <= j < side - 1 ==>
              tiles[p][0, j] == old(tiles[Up(p, cuts).value][side - 2, j])
    ensures forall p, j :: 0 <= p < |tiles| && Down(p, cuts, |tiles|).Some? && 1 <= j < side - 1 ==>
              tiles[p][side - 1, j] == old(tiles[Down(p, cuts, |tiles|).value][1, j])
    ensures forall p, i :: 0 <= p < |tiles| && Left(p, cuts).Some? && 1 <= i < side - 1 ==>
              tiles[p][i, 0] == old(tiles[Left(p, cuts).value][i, side - 2])
    ensures forall p, i :: 0 <= p < |tiles| && Right(p, cuts).Some? && 1 <= i < side - 1 ==>
              tiles[p][i, side - 1] == old(tiles[Right(p, cuts).value][i, 1])
    ensures forall p, i, j :: 0 <= p < |tiles| && 0 <= i < side && 0 <= j < side && !Exchanged(p, cuts, side, i, j) ==>
              tiles[p][i, j] == old(tiles[p][i, j])
    ensures forall p, i, j :: 0 <= p < |tiles| && 0 <= i < side && 0 <= j < side && Untouched(i, j, side) ==>
              tiles[p][i, j] == old(tiles[p][i, j])
    ensures forall p :: 0 <= p < |tiles| ==> Refreshed(tiles, cuts, side, p)
  {
    ExchangeRows(tiles, cuts, side);
    ExchangeCols(tiles, cuts, side);
  }

  /** Every rank runs its whole update_matrix, one rank after the other.
      Each rank writes only its own ghost ring and reads only interior cells
      of its neighbours, so this order leaves the same tiles as ExchangeAll:
      both end with every rank Refreshed against the tiles they started from. */
  method ExchangeAllPerRank(tiles: seq<array2<real>>, cuts: nat, side: nat)
    requires ValidTiles(tiles, cuts, side)
    modifies tiles
    ensures forall p :: 0 <= p < |tiles| ==> Refreshed(tiles, cuts, side, p)
  {
    var me := 0;
    while me < |tiles|
      invariant me <= |tiles|
      invariant forall p, i, j :: 0 <= p < |tiles| && 1 <= i < side - 1 && 1 <= j < side - 1 ==>
                  tiles[p][i, j] == old(tiles[p][i, j])
      invariant forall p :: me <= p < |tiles| ==> unchanged(tiles[p])
      invariant forall p :: 0 <= p < me ==> Refreshed(tiles, cuts, side, p)
    {
      assert forall p :: 0 <= p < |tiles| && p != me ==> tiles[p] != tiles[me];
      UpdateMatrix(tiles, cuts, side, me);
      assert Refreshed(tiles, cuts, side, me);
      me := me + 1;
    }
  }

  /** The value cell (i, j) of rank p's tile holds once main has run
      initialize_local_matrix and the first update_matrix: the rank inside,
      the facing neighbour's rank on a ghost segment that has a neighbour,
      and -1 on the corners and on ghost segments at the edge of the domain. */
  function StartValue(p: nat, cuts: nat, side: nat, i: nat, j: nat): real
    requires p < cuts * cuts
  {
    if !OnGhostRing(i, j, side, side) then p as real
    else if i == 0 && 1 <= j < side - 1 && Up(p, cuts).Some? then Up(p, cuts).value as real
    else if i == side - 1 && 1 <= j < side - 1 && Down(p, cuts, cuts * cuts).Some? then Down(p, cuts, cuts * cuts).value as real
    else if j == 0 && 1 <= i < side - 1 && Left(p, cuts).Some? then Left(p, cuts).value as real
    else if j == side - 1 && 1 <= i < side - 1 && Right(p, cuts).Some? then Right(p, cuts).value as real
    else -1.0
  }

  /** main up to the laplace call: every rank initialises its tile, then
      every rank runs the first update_matrix. */
  method StartUp(tiles: seq<array2<real>>, cuts: nat, side: nat)
    requires ValidTiles(tiles, cuts, side)
    modifies tiles
    ensures forall p, i, j :: 0 <= p < |tiles| && 0 <= i < side && 0 <= j < side ==>
              tiles[p][i, j] == StartValue(p, cuts, side, i, j)
  {
    var me := 0;
    while me < |tiles|
      invariant me <= |tiles|
      invariant forall p, i, j :: 0 <= p < me && 0 <= i < side && 0 <= j < side ==>
                  tiles[p][i, j] == if OnGhostRing(i, j, side, side) then -1.0 else p as real
    {
      assert forall p :: 0 <= p < |tiles| && p != me ==> tiles[p] != tiles[me];
      InitializeLocalMatrix(me, tiles[me]);
      me := me + 1;
    }
    // every interior cell now holds its rank
    forall p, i, j | 0 <= p < |tiles| && 1 <= i < side - 1 && 1 <= j < side - 1
      ensures tiles[p][i, j] == p as real
    {
      assert p < me;
      assert !OnGhostRing(i, j, side, side);
    }
    label Initialised:
    ExchangeAll(tiles, cuts, side);
    forall p, i, j | 0 <= p < |tiles| && 0 <= i < side && 0 <= j < side
      ensures tiles[p][i, j] == StartValue(p, cuts, side, i, j)
    {
      if i == 0 && 1 <= j < side - 1 && Up(p, cuts).Some? {
        assert tiles[p][i, j] == old@Initialised(tiles[Up(p, cuts).value][side - 2, j]);
      } else if i == side - 1 && 1 <= j < side - 1 && Down(p, cuts, |tiles|).Some? {
        assert tiles[p][i, j] == old@Initialised(tiles[Down(p, cuts, |tiles|).value][1, j]);
      } else if j == 0 && 1 <= i < side - 1 && Left(p, cuts).Some? {
        assert tiles[p][i, j] == old@Initialised(tiles[Left(p, cuts).value][i, side - 2]);
      } else if j == side - 1 && 1 <= i < side - 1 && Right(p, cuts).Some? {
        assert tiles[p][i, j] == old@Initialised(tiles[Right(p, cuts).value][i, 1]);
      } else {
        assert !Exchanged(p, cuts, side, i, j);
        assert tiles[p][i, j] == old@Initialised(tiles[p][i, j]);
      }
    }
  }
}
