# Jacobi Laplace solver over MPI ranks, modelled in Dafny

The program solves the discrete Laplace equation on an N-by-N grid by Jacobi
iteration, spread over NPROC MPI ranks. It comes in two variants:

* **row strips** (`src/laplace_1D.c`): rank `me` owns N / NPROC consecutive
  rows. Its buffer `local_tab` has `nb_rows = N / NPROC + 2` rows of N values.
  Row 0 and row `nb_rows - 1` are ghost rows holding the neighbours' boundary
  rows. Past the left and right edges of the domain the sweep uses the
  constant -1.
* **square blocks** (`src/laplace_2D.c`): NPROC must be a perfect square,
  NBCUTS = sqrt(NPROC), and N must be a multiple of NBCUTS. Rank `me` sits at
  grid row `me / NBCUTS` and grid column `me % NBCUTS`. It owns an
  NBLOCK-by-NBLOCK block, where NBLOCK = N / NBCUTS. Its buffer is
  `Nlocal = NBLOCK + 2` wide, and the outer ring of the buffer holds ghost
  cells.

Every buffer starts with the rank number inside and -1 on its ghost cells.
One iteration of `laplace` does four things:

1. every interior cell gets the average of its four neighbours, computed into
   `new_tab` from the old values;
2. the squared changes are summed into `local_error_sum`;
3. the interior is copied back and `update_matrix` refreshes the ghost cells
   that face a neighbour;
4. `MPI_Allreduce` adds up the local sums.

At the end, rank 0 gathers every interior into an N-by-N `final_matrix` and
prints and saves it from its last row to its first.

The model keeps the source's own state. Buffers are `array2<real>` (cell
`local_tab + j + i*cols` is written `t[i, j]`). All ranks' buffers together
are a sequence of distinct arrays, and the assembly buffers are flat
`array<real>` with the source's offset arithmetic. Every loop of the modelled
steps (initialisation, exchange, sweep, copy-back, gather, assembly, output
order) is a `while` loop with invariants. The methods whose result is a
rearrangement or a computation are proved against a specification function
(`Stencil`, `ErrorSum`, `Swept`, `Packed`, `GroupedIndex`, `StripOffset`,
`Gathered`, `BlockOwner`, `StartValue`); the others (`CopyRow`, `CopyCol`,
`InitializeLocalMatrix`, `UpdateRows`, `UpdateCols`, `UpdateMatrix`,
`ExchangeRows`, `ExchangeCols`, `ExchangeAll`, `ExchangeAllPerRank`) state their result directly,
cell by cell, together with the cells they leave unchanged. A message
exchange is modelled by its data effect: the receiver's ghost row or column
becomes a copy of the sender's interior row or column. The ranks run one
after the other. That is sound because, within a phase, the sends read only
interior cells and the receives write only ghost cells.

Modules:

* `Common` and `Buffers` (common.dfy): option and result types, the
  configuration errors, the row-major offset `Cell`, and the row and column
  copies that each message performs.
* `Topology2D` (topology2d.dfy): the perfect-square and NBLOCK checks, and
  the neighbour tests of `update_rows` and `update_cols`.
* `Halo2D` (halo2d.dfy): `initialize_local_matrix`, `update_rows`,
  `update_cols`, `update_matrix`, and the start-up sequence of `main`.
* `Sweep2D` (sweep2d.dfy): the body of `laplace`.
* `Assembly2D` (assembly2d.dfy): steps 1 to 3 of
  `print_and_save_final_matrix`.
* `Strips1D`, `Sweep1D`, `Gather1D` (strips1d.dfy, sweep1d.dfy,
  gather1d.dfy): the same pieces for the strip variant, with the
  `MPI_Gather` of the final matrix.
* `Output` (output.dfy): the reversed row order of the printed and saved
  matrix.

Behaviour of the code worth knowing:

* `final_matrix` holds interior cells only: ghost cells are never gathered,
  so the outer edge of the assembled grid is not the boundary value -1. The
  -1 lives on in the buffers' ghost cells at the edge of the domain, which
  `FixedGhost` / `FixedGhostRow` mark and `LaplaceStep` keeps unchanged.
* No exchange writes the four corner ghost cells of a block buffer, so they
  stay -1 for the whole run. `Halo2D.ExchangeAll` proves they are unchanged,
  and `Sweep2D.SweepIgnoresCorners` proves the sweep never reads them.
* The strip variant's `update_matrix` posts both blocking sends before its
  two receives (src/laplace_1D.c:59-71).

## Model

| member | source | states |
|---|---|---|
| Common.Sq | src/laplace_2D.c:169-170 | the squared change added to local_error_sum is never negative |
| Common.Cell | src/laplace_2D.c:291 | offset j + i*N lies inside the N*N final_matrix, and row i and column j can be recovered from it by / and % |
| Buffers.CopyRow | src/laplace_2D.c:80-93 | a row message writes exactly the received segment of the destination row from the sender's row, and no other cell changes |
| Buffers.CopyCol | src/laplace_2D.c:106-126 | a strided column message writes exactly the received segment of the destination column, and no other cell changes |
| Topology2D.SqrtFrom | src/laplace_2D.c:365-375 | the search returns the largest root r with r*r <= n < (r+1)*(r+1) |
| Topology2D.FloorSqrt | src/laplace_2D.c:370-371 | the integer square root: r*r <= n < (r+1)*(r+1) |
| Topology2D.SqrtUnique | src/laplace_2D.c:404-407 | every k with k*k = NPROC equals FloorSqrt(NPROC), so the NBCUTS that main computes is the only possible one |
| Topology2D.IsPerfectSquare | src/laplace_2D.c:365-375 | is_perfect_square holds exactly when some integer squares to the number |
| Topology2D.Partition2D | src/laplace_2D.c:402-422 | NotPerfectSquare exactly when NPROC has no integer root; Ok exactly when the root divides N; on Ok, NBCUTS^2 = NPROC, N = NBCUTS * NBLOCK and Nlocal = NBLOCK + 2 |
| Topology2D.Up | src/laplace_2D.c:92-93 | the rank above, when present, is a valid rank |
| Topology2D.Down | src/laplace_2D.c:83-84 | the rank below, when present, is a valid rank |
| Topology2D.Left | src/laplace_2D.c:116-117 | the rank on the left, when present, is a valid rank |
| Topology2D.Right | src/laplace_2D.c:125-126 | the rank on the right, when present, is a valid rank |
| Topology2D.UpPosition | src/laplace_2D.c:80-81 | Up exists exactly off the first grid row, and it is the same grid column one grid row higher |
| Topology2D.DownPosition | src/laplace_2D.c:89-90 | Down exists exactly off the last grid row, and it is the same grid column one grid row lower |
| Topology2D.LeftPosition | src/laplace_2D.c:122-123 | Left exists exactly off the first grid column, and it is the same grid row one grid column to the left |
| Topology2D.RightPosition | src/laplace_2D.c:113-114 | Right exists exactly off the last grid column, and it is the same grid row one grid column to the right |
| Topology2D.OneRowApart | src/laplace_2D.c:81 | the rank one grid row below in the same grid column is me + NBCUTS |
| Topology2D.VerticalNeighbours | src/laplace_2D.c:71-94 | Down(a) = b exactly when b is directly below a in the grid, and Up(b) = a exactly when Down(a) = b, so every tag-1 and tag-2 send has its matching receive |
| Topology2D.HorizontalNeighbours | src/laplace_2D.c:100-127 | Right(a) = b exactly when b is directly right of a in the grid, and Left(b) = a exactly when Right(a) = b, so every tag-3 and tag-4 send has its matching receive |
| Halo2D.InitializeLocalMatrix | src/laplace_2D.c:336-358 | every cell of the ghost ring is -1 and every interior cell is the rank |
| Halo2D.UpdateRows | src/laplace_2D.c:71-94 | the top ghost row gets the last interior row of the rank above, the bottom ghost row gets the first interior row of the rank below (columns 1..side-2), and nothing else changes |
| Halo2D.UpdateCols | src/laplace_2D.c:100-127 | the left ghost column gets the last interior column of the rank on the left, the right ghost column gets the first interior column of the rank on the right (rows 1..side-2), and nothing else changes |
| Halo2D.UpdateMatrix | src/laplace_2D.c:133-137 | all four ghost segments that face a neighbour are refreshed from it; interior, corners and edge-of-domain ghosts are unchanged |
| Halo2D.ExchangeRows | src/laplace_2D.c:71-94 | after every rank's update_rows, each ghost row facing a neighbour holds that neighbour's boundary row as it was before the exchange |
| Halo2D.ExchangeCols | src/laplace_2D.c:100-127 | after every rank's update_cols, each ghost column facing a neighbour holds that neighbour's boundary column as it was before |
| Halo2D.ExchangeAll | src/laplace_2D.c:133-137 | every rank's update_matrix refreshes all four halos from the neighbours' pre-exchange interiors; interiors and corners never change; every rank ends Refreshed |
| Halo2D.Refreshed | src/laplace_2D.c:133-137 | a rank's tile after update_matrix: each ghost segment facing a neighbour holds that neighbour's boundary from the earlier state, every other cell keeps its value |
| Halo2D.ExchangeAllPerRank | src/laplace_2D.c:133-137 | every rank running its whole update_matrix in turn leaves every rank Refreshed against the tiles before the exchange, the same outcome ExchangeAll proves for the phase-by-phase order |
| Halo2D.StartValue | src/laplace_2D.c:428-429 | the cell after start-up: the rank inside, the facing neighbour's rank on a ghost segment with a neighbour, -1 on corners and domain-edge ghosts |
| Halo2D.StartUp | src/laplace_2D.c:428-429 | after initialisation and the first update_matrix, each cell holds the rank inside, the facing neighbour's rank on a ghost segment with a neighbour, and -1 elsewhere |
| Sweep2D.Stencil | src/laplace_2D.c:162-167 | the new value of an interior cell lies between the smallest and the largest of its four neighbours |
| Sweep2D.Swept | src/laplace_2D.c:158-181 | the cell after one sweep: the four-point average inside, the old value on the ghost ring |
| Sweep2D.RowError | src/laplace_2D.c:169-170 | a partial row sum of squared changes is never negative |
| Sweep2D.RowsError | src/laplace_2D.c:158-170 | a sum over interior rows of squared changes is never negative |
| Sweep2D.ErrorSum | src/laplace_2D.c:155-172 | local_error_sum of a sweep is never negative |
| Sweep2D.FixedPointHasNoError | src/laplace_2D.c:158-172 | a buffer whose interior equals its four-point averages reports zero error |
| Sweep2D.SweepIgnoresCorners | src/laplace_2D.c:162-167 | buffers that differ only in their corners give the same averages and the same error sum |
| Sweep2D.ComputeAverages | src/laplace_2D.c:158-172 | new_tab holds every interior four-point average of the old buffer, its ghost ring is unchanged, and the returned sum is ErrorSum of the old buffer |
| Sweep2D.AverageRow | src/laplace_2D.c:160-171 | one interior row of new_tab gets its averages in columns 1..side-2, the row's error sum is returned, and every other cell of new_tab, including columns 0 and side-1 of that row, is unchanged |
| Sweep2D.CopyInterior | src/laplace_2D.c:175-181 | the interior takes new_tab's values and the ghost ring is unchanged |
| Sweep2D.Sweep | src/laplace_2D.c:155-181 | each interior cell becomes the average of its neighbours' old values (Jacobi, not in-place), the ghost ring is kept, and the returned sum is the old buffer's ErrorSum |
| Sweep2D.TotalError | src/laplace_2D.c:184-185 | the all-ranks sum of local_error_sum is never negative |
| Sweep2D.SweepAll | src/laplace_2D.c:155-185 | every rank sweeps its buffer and the summed error is the total of the ranks' ErrorSum before the sweep |
| Sweep2D.LaplaceStep | src/laplace_2D.c:153-185 | one iteration gives interiors their averages, sets every ghost facing a neighbour to the neighbour's new boundary average, keeps fixed ghosts, and returns the global error sum |
| Assembly2D.BlockOwner | src/laplace_2D.c:285-293 | the rank owning global cell (r, c) is valid, at grid row r / NBLOCK and grid column c / NBLOCK |
| Assembly2D.SlotOf | src/laplace_2D.c:236 | element (a, b) of rank p's message is at recv_matrix slot p*nb + a*NBLOCK + b, in range, and that slot decodes back to p, a and b |
| Assembly2D.Packed | src/laplace_2D.c:206-236 | slot q of recv_matrix: interior cell ((q % nb) / NBLOCK, (q % nb) % NBLOCK) of rank q / nb |
| Assembly2D.ReceiveAll | src/laplace_2D.c:231-237 | recv_matrix holds every rank's interior, row-major, rank after rank |
| Assembly2D.ReceiveFrom | src/laplace_2D.c:236 | one receive fills exactly the nb slots of rank i with its interior and leaves the rest unchanged |
| Assembly2D.ReceiveRow | src/laplace_2D.c:206-214 | one interior row of the subarray datatype fills its NBLOCK slots, and nothing else changes |
| Assembly2D.GroupedRank | src/laplace_2D.c:254-265 | the rank stored at block position k of ordered_matrix is a valid rank |
| Assembly2D.GroupedRankInvolution | src/laplace_2D.c:254-265 | the grid-column grouping is its own inverse, hence a permutation of the ranks |
| Assembly2D.GroupedIndex | src/laplace_2D.c:260-263 | step 2 takes each ordered_matrix value from a valid recv_matrix slot with the same offset inside its block |
| Assembly2D.ColumnHit | src/laplace_2D.c:256-258 | the ranks the loop selects for column m are m, m + NBCUTS, m + 2*NBCUTS, ..., met in that order, at most NBCUTS of them |
| Assembly2D.ColumnDone | src/laplace_2D.c:256-266 | when the rank loop ends, exactly NBCUTS ranks of column m have been copied |
| Assembly2D.GroupedRankAt | src/laplace_2D.c:264 | block position m*NBCUTS + w holds rank w*NBCUTS + m, the w-th rank of grid column m |
| Assembly2D.Reorder | src/laplace_2D.c:250-267 | ordered_matrix is recv_matrix with whole blocks grouped by grid column, and pivot_inter ends at NPROC |
| Assembly2D.ReorderColumn | src/laplace_2D.c:256-266 | one value of modulo_result fills the next NBCUTS block positions with the ranks of that grid column, leaving the positions before and after that range unchanged |
| Assembly2D.CopyBlock | src/laplace_2D.c:260-263 | the nb values of rank i go to block position pivot_inter, and the positions before and after that block are unchanged |
| Assembly2D.StripOffset | src/laplace_2D.c:283-293 | the running offset for cell (r, c) stays inside ordered_matrix |
| Assembly2D.StripStep | src/laplace_2D.c:289-292 | the running offset at column strip v, row i, column j is StripOffset(i, j) |
| Assembly2D.PlaceBlocks | src/laplace_2D.c:281-295 | every cell of final_matrix is ordered_matrix at its strip offset, and the offset ends at N*N |
| Assembly2D.PlaceStrip | src/laplace_2D.c:287-294 | one column strip is written and the other strips are unchanged |
| Assembly2D.PlaceRow | src/laplace_2D.c:289-293 | one row of one column strip is written and nothing else changes |
| Assembly2D.AssemblyIndex | src/laplace_2D.c:254-295 | steps 2 and 3 together send final cell (r, c) to the recv_matrix slot of element (r % NBLOCK, c % NBLOCK) of its owner |
| Assembly2D.BlockCoordinates | src/laplace_2D.c:285-291 | cell (r, c) lies in grid column c / NBLOCK and grid row r / NBLOCK; its strip offset is that block's position times nb plus its inner offset |
| Assembly2D.AssemblyIndexAt | src/laplace_2D.c:262-291 | a strip offset at block position k maps back to the block of the rank stored there |
| Assembly2D.GroupedIndexOf | src/laplace_2D.c:262 | step 2 moves whole blocks: position k*nb + inner comes from position inner of rank GroupedRank(k)'s block |
| Assembly2D.StripDecompose | src/laplace_2D.c:285-292 | the strip offset of (r, c) splits into a block position and an offset inside the block |
| Assembly2D.AssembleFinalMatrix | src/laplace_2D.c:200-295 | final_matrix cell (r, c) is interior cell (r % NBLOCK, c % NBLOCK) of the rank at grid row r / NBLOCK and grid column c / NBLOCK |
| Strips1D.Partition1D | src/laplace_1D.c:249-257 | Ok exactly when NPROC divides N (else IncompatibleSize); nb_rows >= 2 and (nb_rows - 2) * NPROC = N |
| Strips1D.Prev | src/laplace_1D.c:67-68 | the previous rank, when present, is valid and directly before me |
| Strips1D.Next | src/laplace_1D.c:70-71 | the next rank, when present, is valid and directly after me |
| Strips1D.InitializeLocalMatrix | src/laplace_1D.c:148-165 | both ghost rows are -1 and every interior row is the rank |
| Strips1D.UpdateMatrix | src/laplace_1D.c:54-72 | row 0 gets the previous rank's last interior row, the last row gets the next rank's first interior row, and nothing else changes |
| Strips1D.ExchangeAll | src/laplace_1D.c:54-72 | after every rank's update_matrix, each ghost row facing a neighbour holds the neighbour's boundary row as it was before; all other rows are unchanged |
| Strips1D.StartValue | src/laplace_1D.c:263-264 | the row after start-up: the rank inside, the facing neighbour's rank in a ghost row with a neighbour, -1 in the outer ghost rows |
| Strips1D.StartUp | src/laplace_1D.c:263-264 | after initialisation and the first update_matrix, each row holds the rank inside, the facing neighbour's rank in a ghost row with a neighbour, and -1 in the outer ghost rows |
| Sweep1D.Stencil | src/laplace_1D.c:96-109 | the new value of a cell lies between the smallest and the largest of its four neighbours, -1 standing in past columns 0 and N-1 |
| Sweep1D.AverageCell | src/laplace_1D.c:96-109 | the neighbour reads with the edge branches at columns 0 and N-1 compute exactly Stencil |
| Sweep1D.Swept | src/laplace_1D.c:92-123 | the cell after one sweep: the four-point average in an interior row, the old value in a ghost row |
| Sweep1D.RowError | src/laplace_1D.c:111-112 | a partial row sum of squared changes is never negative |
| Sweep1D.RowsError | src/laplace_1D.c:92-114 | a sum over interior rows of squared changes is never negative |
| Sweep1D.ErrorSum | src/laplace_1D.c:92-114 | local_error_sum of a sweep is never negative |
| Sweep1D.FixedPointHasNoError | src/laplace_1D.c:92-114 | a strip whose interior rows equal their averages (with -1 past the side edges) reports zero error |
| Sweep1D.ComputeAverages | src/laplace_1D.c:92-114 | new_tab holds every average of the old strip, with -1 past the left and right edges, its two ghost rows are unchanged, and the sum is ErrorSum of the old strip |
| Sweep1D.AverageRow | src/laplace_1D.c:94-113 | one interior row of new_tab gets its averages, the row's error sum is returned, and other rows of new_tab are unchanged |
| Sweep1D.CopyInterior | src/laplace_1D.c:117-123 | the interior rows take new_tab's values and the ghost rows are unchanged |
| Sweep1D.Sweep | src/laplace_1D.c:92-123 | each interior cell becomes the average of its neighbours' old values, the ghost rows are kept, and the returned sum is the old strip's ErrorSum |
| Sweep1D.TotalError | src/laplace_1D.c:126-127 | the all-ranks sum of local_error_sum is never negative |
| Sweep1D.SweepAll | src/laplace_1D.c:92-127 | every rank sweeps its strip and the summed error is the total of the ranks' ErrorSum before the sweep |
| Sweep1D.LaplaceStep | src/laplace_1D.c:92-127 | one iteration gives interior rows their averages, sets ghost rows facing a neighbour to its new boundary row, keeps the outer ghost rows, and returns the global error sum |
| Gather1D.StripOwner | src/laplace_1D.c:177 | global row i belongs to a valid rank i / r, whose strip covers rows p*r .. p*r + r - 1 |
| Gather1D.GatherSlot | src/laplace_1D.c:177 | slot a*N + j of rank p's share lands on final_matrix cell (p*r + a, j), inside the matrix |
| Gather1D.Gathered | src/laplace_1D.c:177 | global cell (i, j) after the gather: interior row i % r + 1 of the strip of rank i / r |
| Gather1D.Gather | src/laplace_1D.c:171-177 | final_matrix row i is interior row i % r + 1 of the strip of rank i / r: the interiors stacked in rank order |
| Gather1D.GatherStrip | src/laplace_1D.c:177 | rank p's share fills global rows p*r .. p*r + r - 1, keeping the rows gathered before and leaving the later rows unchanged |
| Gather1D.GatherRow | src/laplace_1D.c:177 | one interior row of rank p fills global row p*r + a, and every other row is unchanged |
| Output.ReversedRows | src/laplace_2D.c:53-65 | exactly N lines of N values each, and line k shows row N-1-k of the matrix, left to right |

## Left out

- Message passing itself is left out: MPI transport, blocking, tags, and deadlock freedom. Each message is modelled by its data effect, and the ranks run one after the other. In `Halo2D.ExchangeAll`, all ranks' `update_rows` run before all ranks' `update_cols`. This has the same outcome as each rank running both, because the two phases write disjoint ghost cells and read only interior cells. `Halo2D.ExchangeAllPerRank` runs the per-rank order instead, and the two methods are proved to leave every rank `Refreshed`.
- The `MPI_Isend` of the block gather is never waited on. Its request and the `MPI_Barrier` are not modelled.
- The convergence loop is not modelled. That covers `while (global_error >= PRECISION)`, the square root of the summed error, PRECISION = 1e-2, the +INFINITY start and the iteration counter. `LaplaceStep` models one pass of the loop body and returns the summed error.
- Common.Cell, Assembly2D.AssembleFinalMatrix, Assembly2D.PlaceBlocks, Assembly2D.ReceiveAll, Assembly2D.Reorder and Gather1D.Gather: the C `int` sizes, counts and offsets are unbounded integers in the model. These are `N*N*sizeof(float)` (src/laplace_2D.c:231, 250, 281; src/laplace_1D.c:173, 203), the gather count `N*(N/NPROC)` (src/laplace_1D.c:177, 207), `i*nb_subdata` and `pivot_inter*nb_subdata` (src/laplace_2D.c:236, 262) and `offset`/`j+i*N` (src/laplace_2D.c:291-292). So the closed forms proved here describe the program only while N*N <= 2^31-1. From N = 46341 on, these products overflow 32-bit `int`, which `main` does not check even with NPROC = 1.
- Values are exact reals. `float` storage and `double` error sums with their rounding are not modelled, and neither are the `float` to `int` conversions of `is_perfect_square` and `NBCUTS = sqrt(NPROC)`. The model uses the exact integer square root, which the float test approximates.
- Timing is not modelled: `MPI_Wtime` and the min, max and average reductions.
- Printing is not modelled: `print_matrix`, the intermediate printouts of the gather, and the iteration log. The text formatting of the output is not modelled either (`%.2f`, `%f`, the file name, fopen failure). `Output.ReversedRows` gives the values and their order only.
- Argument parsing is not modelled (a missing argument, `atoi`, a negative N). `malloc` failure exits are also left out, because Dafny allocation does not fail.
- Both variants allocate `new_tab` once per `laplace` call, while `Sweep2D.Sweep` and `Sweep1D.Sweep` allocate a fresh scratch array per pass. Only the cells of `new_tab` written in the same pass are read back, so this makes no difference.
- `Gather1D.Gather` and `Assembly2D.AssembleFinalMatrix` compute the matrix that rank 0 holds. The strip gather's `MPI_Gather` collective is modelled as rank 0 copying each share.
