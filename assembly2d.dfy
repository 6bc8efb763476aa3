// Gathering of the final matrix on rank 0 in the block variant
// (print_and_save_final_matrix, src/laplace_2D.c). Rank 0 receives every
// rank's interior into recv_matrix (step 1), groups the blocks by grid
// column into ordered_matrix (step 2), and unfolds them column strip by
// column strip into the N-by-N final_matrix (step 3). The three work
// buffers are flat arrays, as in the source, so that their offset
// arithmetic is what the proofs are about.
//
// Notation: block = NBLOCK = Nlocal - 2, nb = nb_subdata = block * block,
// cuts = NBCUTS, n = N = cuts * block.

module Assembly2D {
  import opened Common
  import opened Halo2D

  /** The rank whose tile holds cell (r, c) of the global matrix: grid row
      r / block, grid column c / block. */
  function BlockOwner(r: nat, c: nat, block: nat, cuts: nat): (p: nat)
    requires block >= 1 && r < cuts * block && c < cuts * block
    ensures p < cuts * cuts
    ensures p / cuts == r / block && p % cuts == c / block
  {
    RowBound(r, block, cuts);
    RowBound(c, block, cuts);
    FlatIndexBound(r / block, c / block, cuts, cuts);
    FlatIndex(r / block, c / block, cuts);
    (r / block) * cuts + c / block
  }

  /** Slot p * nb + a * block + b of recv_matrix: message p, element (a, b)
      of its row-major interior. */
  lemma SlotOf(p: nat, a: nat, b: nat, nproc: nat, block: nat)
    requires p < nproc && a < block && b < block
    ensures p * (block * block) + a * block + b < nproc * (block * block)
    ensures (p * (block * block) + a * block + b) / (block * block) == p
    ensures (p * (block * block) + a * block + b) % (block * block) == a * block + b
    ensures (a * block + b) / block == a && (a * block + b) % block == b
  {
    FlatIndexBound(a, b, block, block);
    FlatIndex(a, b, block);
    FlatIndex(p, a * block + b, block * block);
    FlatIndexBound(p, a * block + b, nproc, block * block);
  }

  /** What step 1 leaves at position q of recv_matrix: rank q / nb sent its
      interior with the subarray datatype, row by row, so element q % nb is
      interior cell ((q % nb) / block, (q % nb) % block) of that rank, which
      sits at (+1, +1) in its buffer. */
  function Packed(tiles: seq<array2<real>>, block: nat, q: nat): real
    requires block >= 1 && q < |tiles| * (block * block)
    requires forall p :: 0 <= p < |tiles| ==> tiles[p].Length0 == block + 2 && tiles[p].Length1 == block + 2
    reads set p | 0 <= p < |tiles| :: tiles[p]
  {
    RowBound(q, block * block, |tiles|);
    RowBound(q % (block * block), block, block);
    tiles[q / (block * block)][(q % (block * block)) / block + 1, (q % (block * block)) % block + 1]
  }

  /** Step 1: recv_matrix + i*nb receives the nb interior values of rank i. */
  method ReceiveAll(tiles: seq<array2<real>>, cuts: nat, block: nat) returns (recv: array<real>)
    requires block >= 1 && ValidTiles(tiles, cuts, block + 2)
    ensures recv.Length == |tiles| * (block * block)
    ensures forall q :: 0 <= q < recv.Length ==> recv[q] == Packed(tiles, block, q)
  {
    var nb := block * block;
    recv := new real[|tiles| * nb];
    var i := 0;
    while i < |tiles|
      invariant i <= |tiles| && i * nb <= recv.Length
      invariant forall q :: 0 <= q < i * nb ==> recv[q] == Packed(tiles, block, q)
    {
      MulMonotone(nb, i + 1, |tiles|);
      ReceiveFrom(tiles, recv, block, i);
      i := i + 1;
    }
  }

  /** One MPI_Recv of step 1: the interior of rank i, row by row, lands at
      recv_matrix + i*nb. */
  method ReceiveFrom(tiles: seq<array2<real>>, recv: array<real>, block: nat, i: nat)
    requires block >= 1 && i < |tiles| && recv.Length == |tiles| * (block * block)
    requires forall p :: 0 <= p < |tiles| ==> tiles[p].Length0 == block + 2 && tiles[p].Length1 == block + 2
    modifies recv
    ensures i * (block * block) + block * block == (i + 1) * (block * block)
    ensures forall q :: 0 <= q < recv.Length ==>
              recv[q] == if i * (block * block) <= q < (i + 1) * (block * block) then Packed(tiles, block, q) else old(recv[q])
  {
    var nb := block * block;
    assert (i + 1) * nb == i * nb + nb;
    var k := i * nb;  // i * nb + a * block, the first slot of row a
    var a := 0;
    while a < block
      invariant a <= block && k == i * nb + a * block
      invariant forall q :: 0 <= q < recv.Length ==>
                  recv[q] == if i * nb <= q < k then Packed(tiles, block, q) else old(recv[q])
    {
      ReceiveRow(tiles, recv, block, i, a, k);
      assert (a + 1) * block == a * block + block;
      k := k + block;
      a := a + 1;
    }
  }

  /** Interior row a of rank i fills the block slots from k = i*nb + a*block on. */
  method ReceiveRow(tiles: seq<array2<real>>, recv: array<real>, block: nat, i: nat, a: nat, k: nat)
    requires block >= 1 && i < |tiles| && a < block && recv.Length == |tiles| * (block * block)
    requires forall p :: 0 <= p < |tiles| ==> tiles[p].Length0 == block + 2 && tiles[p].Length1 == block + 2
    requires k == i * (block * block) + a * block
    modifies recv
    ensures forall q :: 0 <= q < recv.Length ==>
              recv[q] == if k <= q < k + block then Packed(tiles, block, q) else old(recv[q])
  {
    var b := 0;
    while b < block
      invariant b <= block
      invariant forall q :: 0 <= q < recv.Length ==>
                  recv[q] == if k <= q < k + b then Packed(tiles, block, q) else old(recv[q])
    {
      SlotOf(i, a, b, |tiles|, block);
      recv[k + b] := tiles[i][a + 1, b + 1];
      b := b + 1;
    }
  }

  /** The rank whose block step 2 stores at block position k of
      ordered_matrix: ranks are taken grid column by grid column, top to
      bottom, so position k holds grid row k % cuts of grid column k / cuts. */
  function GroupedRank(k: nat, cuts: nat): (p: nat)
    requires k < cuts * cuts
    ensures p < cuts * cuts
  {
    RowBound(k, cuts, cuts);
    FlatIndexBound(k % cuts, k / cuts, cuts, cuts);
    (k % cuts) * cuts + k / cuts
  }

  /** Taking ranks column by column and then positions column by column
      brings every rank back: GroupedRank is its own inverse, hence a
      permutation of the ranks. */
  lemma GroupedRankInvolution(k: nat, cuts: nat)
    requires k < cuts * cuts
    ensures GroupedRank(GroupedRank(k, cuts), cuts) == k
  {
    RowBound(k, cuts, cuts);
    var p := GroupedRank(k, cuts);
    DivModUnique(p, cuts, k % cuts, k / cuts);
  }

  /** The recv_matrix position whose value step 2 copies to position q of
      ordered_matrix. */
  function GroupedIndex(q: nat, cuts: nat, nb: nat): (s: nat)
    requires nb >= 1 && q < cuts * cuts * nb
    ensures s < cuts * cuts * nb
    ensures s % nb == q % nb
  {
    RowBound(q, nb, cuts * cuts);
    var p := GroupedRank(q / nb, cuts);
    FlatIndexBound(p, q % nb, cuts * cuts, nb);
    FlatIndex(p, q % nb, nb);
    p * nb + q % nb
  }

  /** The ranks of grid column m are m, m + cuts, m + 2 * cuts, ...: when
      the loop of step 2 reaches rank i of column m, it is the next one of
      them, w * cuts + m, and the one after it is again in column m. */
  lemma ColumnHit(i: nat, m: nat, cuts: nat, w: nat, next: nat)
    requires m < cuts && i < cuts * cuts && i % cuts == m
    requires next == w * cuts + m && next % cuts == m && i <= next < i + cuts
    ensures i == next && w < cuts
    ensures next + cuts == (w + 1) * cuts + m && (next + cuts) % cuts == m
  {
    var d := next - i;
    DivDecompose(i, cuts);
    if d > 0 {
      if m + d < cuts {
        DivModUnique(next, cuts, i / cuts, m + d);
      } else {
        DivModUnique(next, cuts, i / cuts + 1, m + d - cuts);
      }
    }
    DivModUnique(next + cuts, cuts, w + 1, m);
    RowBound(i, cuts, cuts);
    DivModUnique(i, cuts, w, m);
  }

  /** After the last rank, the next rank of column m lies past cuts * cuts,
      so exactly cuts ranks of the column were met. */
  lemma ColumnDone(m: nat, cuts: nat, w: nat)
    requires m < cuts && cuts * cuts <= w * cuts + m < cuts * cuts + cuts
    ensures w == cuts
  {
    if w < cuts {
      MulMonotone(cuts, w + 1, cuts);
    } else if w > cuts {
      MulMonotone(cuts, cuts + 1, w);
    }
  }

  /** Block position k = v * cuts + w (grid column v, grid row w) holds
      rank p = w * cuts + v. */
  lemma GroupedRankAt(v: nat, w: nat, cuts: nat, k: nat, p: nat)
    requires v < cuts && w < cuts
    requires k == v * cuts + w && p == w * cuts + v
    ensures k < cuts * cuts && GroupedRank(k, cuts) == p
  {
    FlatIndexBound(v, w, cuts, cuts);
    DivModUnique(k, cuts, v, w);
  }

  /** Step 2: for each grid column m, the ranks i with i % NBCUTS == m, in
      increasing order, are copied block by block to the next free block
      position pivot_inter of ordered_matrix. */
  method Reorder(recv: array<real>, cuts: nat, nb: nat) returns (ordered: array<real>, pivotInter: nat)
    requires nb >= 1 && recv.Length == cuts * cuts * nb
    ensures ordered.Length == recv.Length
    ensures pivotInter == cuts * cuts
    ensures forall q :: 0 <= q < ordered.Length ==> ordered[q] == recv[GroupedIndex(q, cuts, nb)]
  {
    ordered := new real[recv.Length];
    pivotInter := 0;
    var m := 0;
    while m < cuts
      invariant m <= cuts && pivotInter == m * cuts
      invariant forall q :: 0 <= q < ordered.Length && q < pivotInter * nb ==> ordered[q] == recv[GroupedIndex(q, cuts, nb)]
    {
      pivotInter := ReorderColumn(recv, ordered, cuts, nb, m, pivotInter);
      m := m + 1;
    }
    assert cuts * cuts * nb == ordered.Length;
  }

  /** One pass of step 2 over the ranks: those of grid column m, in
      increasing order, fill the next cuts block positions. */
  method ReorderColumn(recv: array<real>, ordered: array<real>, cuts: nat, nb: nat, m: nat, pivot: nat)
      returns (pivotInter: nat)
    requires nb >= 1 && recv.Length == cuts * cuts * nb && ordered.Length == recv.Length && recv != ordered
    requires m < cuts && pivot == m * cuts
    modifies ordered
    ensures pivotInter == pivot + cuts
    ensures forall q :: pivot * nb <= q < pivotInter * nb && q < ordered.Length ==> ordered[q] == recv[GroupedIndex(q, cuts, nb)]
    ensures forall q :: 0 <= q < pivot * nb && q < ordered.Length ==> ordered[q] == old(ordered[q])
    ensures forall q :: pivotInter * nb <= q < ordered.Length ==> ordered[q] == old(ordered[q])
  {
    var nproc := cuts * cuts;
    MulMonotone(cuts, m, cuts);
    MulMonotone(nb, pivot, nproc);
    pivotInter := pivot;
    var lo := pivot * nb;
    var hi := lo;  // pivotInter * nb, the first position not yet filled
    ghost var w := 0;     // ranks of grid column m met so far
    ghost var next := m;  // w * cuts + m, the next rank of grid column m
    DivModUnique(m, cuts, 0, m);
    var i := 0;
    while i < nproc
      invariant i <= nproc && pivotInter == pivot + w
      invariant next == w * cuts + m && next % cuts == m && i <= next < i + cuts
      invariant hi == pivotInter * nb
      invariant forall q :: lo <= q < hi && q < ordered.Length ==> ordered[q] == recv[GroupedIndex(q, cuts, nb)]
      invariant lo <= hi <= ordered.Length
      invariant forall q :: 0 <= q < lo ==> ordered[q] == old(ordered[q])
      invariant forall q :: hi <= q < ordered.Length ==> ordered[q] == old(ordered[q])
    {
      if i % cuts == m {
        ColumnHit(i, m, cuts, w, next);
        GroupedRankAt(m, w, cuts, pivotInter, i);
        CopyBlock(recv, ordered, cuts, nb, i, pivotInter, hi);
        pivotInter := pivotInter + 1;
        hi := hi + nb;
        w := w + 1;
        next := next + cuts;
      }
      i := i + 1;
    }
    ColumnDone(m, cuts, w);
  }

  /** The innermost loop of step 2: the nb values of rank i's block go to
      block position pivot of ordered_matrix, which starts at offset start. */
  method CopyBlock(recv: array<real>, ordered: array<real>, cuts: nat, nb: nat, i: nat, pivot: nat, start: nat)
    requires nb >= 1 && recv.Length == cuts * cuts * nb && ordered.Length == recv.Length && recv != ordered
    requires pivot < cuts * cuts && GroupedRank(pivot, cuts) == i && start == pivot * nb
    modifies ordered
    ensures start + nb == (pivot + 1) * nb <= ordered.Length
    ensures forall q :: start <= q < start + nb ==> ordered[q] == recv[GroupedIndex(q, cuts, nb)]
    ensures forall q :: 0 <= q < start ==> ordered[q] == old(ordered[q])
    ensures forall q :: start + nb <= q < ordered.Length ==> ordered[q] == old(ordered[q])
  {
    var nproc := cuts * cuts;
    MulMonotone(nb, pivot + 1, nproc);
    assert (pivot + 1) * nb == pivot * nb + nb;
    var j := 0;
    while j < nb
      invariant j <= nb
      invariant forall q :: start <= q < start + j ==> ordered[q] == recv[GroupedIndex(q, cuts, nb)]
      invariant forall q :: 0 <= q < start ==> ordered[q] == old(ordered[q])
      invariant forall q :: start + j <= q < ordered.Length ==> ordered[q] == old(ordered[q])
    {
      GroupedIndexOf(pivot, j, cuts, nb);
      FlatIndexBound(i, j, nproc, nb);
      ordered[start + j] := recv[i * nb + j];
      j := j + 1;
    }
  }

  /** Position of ordered_matrix that step 3 copies to cell (r, c) of
      final_matrix: column strip c / block comes after the earlier strips
      (n * block values each), row r of the strip after the r earlier rows
      (block values each). */
  function StripOffset(r: nat, c: nat, block: nat, cuts: nat): (o: nat)
    requires block >= 1 && r < cuts * block && c < cuts * block
    ensures o < (cuts * block) * (cuts * block) && o < cuts * cuts * (block * block)
  {
    var n := cuts * block;
    RowBound(c, block, cuts);
    FlatIndexBound(r, c % block, n, block);
    FlatIndexBound(c / block, r * block + c % block, cuts, n * block);
    assert cuts * (n * block) == n * n;
    SquareOfProduct(cuts, block);
    (c / block) * (n * block) + r * block + c % block
  }

  lemma SquareOfProduct(a: nat, b: nat)
    ensures (a * b) * (a * b) == a * a * (b * b)
  {
    MulAssoc(a, b, a * b);
    MulAssoc(b, a, b);
    MulAssoc(a, a, b * b);
  }

  /** The running offset of step 3 at strip v, row i, column j is the strip
      offset of cell (i, j). */
  lemma StripStep(i: nat, j: nat, v: nat, n: nat, cuts: nat, block: nat, offset: nat)
    requires block >= 1 && n == cuts * block && v < cuts && i < n
    requires v * block <= j < v * block + block
    requires offset == v * (n * block) + i * block + (j - v * block)
    ensures j < n && StripOffset(i, j, block, cuts) == offset
  {
    MulMonotone(block, v + 1, cuts);
    DivModUnique(j, block, v, j - v * block);
  }

  /** Step 3: for each column strip, for each row of the strip, the block
      values of that row are taken from ordered_matrix in order, the running
      offset advancing by one per value. */
  method PlaceBlocks(ordered: array<real>, n: nat, cuts: nat, block: nat) returns (final: array<real>, offset: nat)
    requires block >= 1 && n == cuts * block && ordered.Length == n * n
    ensures final.Length == n * n && offset == n * n
    ensures forall r, c :: 0 <= r < n && 0 <= c < n ==> final[Cell(r, c, n)] == ordered[StripOffset(r, c, block, cuts)]
  {
    final := new real[n * n];
    offset := 0;
    var v := 0;
    while v < cuts
      invariant v <= cuts && offset == v * (n * block)
      invariant forall r, c :: 0 <= r < n && 0 <= c < n && c < v * block ==>
                  final[Cell(r, c, n)] == ordered[StripOffset(r, c, block, cuts)]
    {
      offset := PlaceStrip(ordered, final, n, cuts, block, v, offset);
      assert (v + 1) * block == v * block + block;
      assert (v + 1) * (n * block) == v * (n * block) + n * block;
      v := v + 1;
    }
    assert cuts * (n * block) == n * n by { MulAssoc(cuts, block, n); }
  }

  /** The middle loop of step 3: the n rows of column strip v. */
  method PlaceStrip(ordered: array<real>, final: array<real>, n: nat, cuts: nat, block: nat, v: nat, offset: nat)
      returns (next: nat)
    requires block >= 1 && n == cuts * block && ordered.Length == n * n && final.Length == n * n
    requires v < cuts && offset == v * (n * block)
    requires ordered != final
    modifies final
    ensures next == offset + n * block
    ensures forall r, c :: 0 <= r < n && 0 <= c < n ==>
              final[Cell(r, c, n)] == if v * block <= c < v * block + block
                                      then ordered[StripOffset(r, c, block, cuts)] else old(final[Cell(r, c, n)])
  {
    next := offset;
    var i := 0;
    while i < n
      invariant i <= n && next == v * (n * block) + i * block
      invariant forall r, c :: 0 <= r < n && 0 <= c < n ==>
                  final[Cell(r, c, n)] == if r < i && v * block <= c < v * block + block
                                          then ordered[StripOffset(r, c, block, cuts)] else old(final[Cell(r, c, n)])
    {
      next := PlaceRow(ordered, final, n, cuts, block, v, i, next);
      assert (i + 1) * block == i * block + block;
      i := i + 1;
    }
  }

  /** The innermost loop of step 3: row i of column strip v, block values. */
  method PlaceRow(ordered: array<real>, final: array<real>, n: nat, cuts: nat, block: nat, v: nat, i: nat, offset: nat)
      returns (next: nat)
    requires block >= 1 && n == cuts * block && ordered.Length == n * n && final.Length == n * n
    requires v < cuts && i < n && offset == v * (n * block) + i * block
    requires ordered != final
    modifies final
    ensures next == offset + block
    ensures forall r, c :: 0 <= r < n && 0 <= c < n ==>
              final[Cell(r, c, n)] == if r == i && v * block <= c < v * block + block
                                      then ordered[StripOffset(r, c, block, cuts)] else old(final[Cell(r, c, n)])
  {
    next := offset;
    var j := v * block;
    while j < v * block + block
      invariant v * block <= j <= v * block + block
      invariant next == offset + (j - v * block)
      invariant forall r, c :: 0 <= r < n && 0 <= c < n ==>
                  final[Cell(r, c, n)] == if r == i && v * block <= c < j
                                          then ordered[StripOffset(r, c, block, cuts)] else old(final[Cell(r, c, n)])
    {
      StripStep(i, j, v, n, cuts, block, next);
      final[Cell(i, j, n)] := ordered[next];
      next := next + 1;
      j := j + 1;
    }
  }

  /** Steps 2 and 3 together send cell (r, c) of final_matrix back to the
      recv_matrix slot of its owner's interior cell (r % block, c % block). */
  lemma AssemblyIndex(r: nat, c: nat, block: nat, cuts: nat)
    requires block >= 1 && r < cuts * block && c < cuts * block
    ensures GroupedIndex(StripOffset(r, c, block, cuts), cuts, block * block)
              == BlockOwner(r, c, block, cuts) * (block * block) + (r % block) * block + c % block
  {
    var v, w, k, inner := BlockCoordinates(r, c, block, cuts);
    AssemblyIndexAt(v, w, inner, cuts, block * block, k, StripOffset(r, c, block, cuts), BlockOwner(r, c, block, cuts));
  }

  /** Cell (r, c) lies in grid column v, grid row w, at position inner of
      its block; its strip offset is that of block position v * cuts + w. */
  lemma BlockCoordinates(r: nat, c: nat, block: nat, cuts: nat) returns (v: nat, w: nat, k: nat, inner: nat)
    requires block >= 1 && r < cuts * block && c < cuts * block
    ensures v < cuts && w < cuts && inner < block * block
    ensures inner == (r % block) * block + c % block && k == v * cuts + w
    ensures StripOffset(r, c, block, cuts) == k * (block * block) + inner
    ensures BlockOwner(r, c, block, cuts) == w * cuts + v
  {
    var rr, cc;
    w, rr := SplitIndex(r, block, cuts);
    v, cc := SplitIndex(c, block, cuts);
    inner := JoinIndex(rr, cc, block, block);
    k := JoinIndex(v, w, cuts, cuts);
    StripDecompose(r, c, block, cuts);
  }

  /** AssemblyIndex with the strip offset and the owner named: the offset
      is block position k, inner position inner, and k holds the owner. */
  lemma AssemblyIndexAt(v: nat, w: nat, inner: nat, cuts: nat, nb: nat, k: nat, offset: nat, owner: nat)
    requires v < cuts && w < cuts && inner < nb
    requires k == v * cuts + w && offset == k * nb + inner && owner == w * cuts + v
    ensures offset < cuts * cuts * nb && GroupedIndex(offset, cuts, nb) == owner * nb + inner
  {
    GroupedRankAt(v, w, cuts, k, owner);
    GroupedIndexOf(k, inner, cuts, nb);
  }

  /** Step 2 moves a whole block: position k * nb + inner of ordered_matrix
      comes from position inner of the block GroupedRank(k) sent. */
  lemma GroupedIndexOf(k: nat, inner: nat, cuts: nat, nb: nat)
    requires k < cuts * cuts && inner < nb
    ensures k * nb + inner < cuts * cuts * nb
    ensures GroupedIndex(k * nb + inner, cuts, nb) == GroupedRank(k, cuts) * nb + inner
  {
    FlatIndexBound(k, inner, cuts * cuts, nb);
    DivModUnique(k * nb + inner, nb, k, inner);
  }

  /** The strip offset of (r, c), read as a block position and a position
      inside the block. */
  lemma StripDecompose(r: nat, c: nat, block: nat, cuts: nat)
    requires block >= 1 && r < cuts * block && c < cuts * block
    ensures StripOffset(r, c, block, cuts)
              == ((c / block) * cuts + r / block) * (block * block) + ((r % block) * block + c % block)
  {
    var nb := block * block;
    var v, w := c / block, r / block;
    assert r * block == w * nb + (r % block) * block by {
      assert r == w * block + r % block;
      assert r * block == (w * block) * block + (r % block) * block;
      MulAssoc(w, block, block);
    }
    assert v * ((cuts * block) * block) == (v * cuts) * nb by {
      MulAssoc(cuts, block, block);
      MulAssoc(v, cuts, nb);
    }
    assert (v * cuts + w) * nb == (v * cuts) * nb + w * nb;
  }

  /** print_and_save_final_matrix on rank 0, steps 1 to 3: cell (r, c) of the
      N-by-N result is interior cell (r % block, c % block) of the rank at
      grid row r / block and grid column c / block. */
  method AssembleFinalMatrix(tiles: seq<array2<real>>, n: nat, cuts: nat, block: nat) returns (final: array<real>)
    requires n == cuts * block && ValidTiles(tiles, cuts, block + 2)
    ensures final.Length == n * n
    ensures forall r, c :: 0 <= r < n && 0 <= c < n && block >= 1 ==>
              final[Cell(r, c, n)] == tiles[BlockOwner(r, c, block, cuts)][r % block + 1, c % block + 1]
  {
    if block == 0 {
      // N = 0: every buffer is empty and the three steps copy nothing
      final := new real[0];
      return;
    }
    var recv := ReceiveAll(tiles, cuts, block);
    var ordered, pivotInter := Reorder(recv, cuts, block * block);
    assert cuts * cuts * (block * block) == n * n;
    var offset;
    final, offset := PlaceBlocks(ordered, n, cuts, block);
    forall r, c | 0 <= r < n && 0 <= c < n && block >= 1
      ensures final[Cell(r, c, n)] == tiles[BlockOwner(r, c, block, cuts)][r % block + 1, c % block + 1]
    {
      AssemblyIndex(r, c, block, cuts);
      var p := BlockOwner(r, c, block, cuts);
      SlotOf(p, r % block, c % block, |tiles|, block);
    }
  }
}
