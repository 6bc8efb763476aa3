// Start-up partition check and process grid of the block variant
// (src/laplace_2D.c): the perfect-square test, the NBCUTS/NBLOCK check of
// main, and the neighbour tests that guard every send and receive of
// update_rows and update_cols. Rank `me` sits at grid row me / cuts and
// grid column me % cuts of a cuts-by-cuts process grid.

module Topology2D {
  import opened Common

  function Square(k: nat): nat { k * k }

  lemma SquareMonotone(a: nat, b: nat)
    requires a < b
    ensures Square(a) < Square(b)
  {
    MulAtLeast(b, b);
    assert a * a <= a * b by { MulMonotone(a, a, b); }
    assert a * b < b * b by { MulMonotone(b, a + 1, b); }
  }

  /** The largest r >= k whose square does not exceed n, counting up from k. */
  function SqrtFrom(n: nat, k: nat): (r: nat)
    requires Square(k) <= n
    ensures k <= r && Square(r) <= n < Square(r + 1)
    decreases n - k
  {
    if Square(k + 1) <= n then
      MulAtLeast(k + 1, k + 1);
      SqrtFrom(n, k + 1)
    else k
  }

  /** The integer square root. */
  function FloorSqrt(n: nat): (r: nat)
    ensures Square(r) <= n < Square(r + 1)
  {
    SqrtFrom(n, 0)
  }

  /** Every integer square root of n is FloorSqrt(n). */
  lemma SqrtUnique(n: nat)
    ensures forall k: nat :: Square(k) == n ==> k == FloorSqrt(n)
  {
    var r := FloorSqrt(n);
    forall k: nat | Square(k) == n
      ensures k == r
    {
      if k < r {
        SquareMonotone(k, r);
      } else if k > r + 1 {
        SquareMonotone(r + 1, k);
      }
    }
  }

  /** is_perfect_square, on exact integers: the floating-point square root
      it takes is whole exactly when some integer squares to n. */
  function IsPerfectSquare(n: nat): (b: bool)
    ensures b <==> exists k: nat :: Square(k) == n
  {
    SqrtUnique(n);
    Square(FloorSqrt(n)) == n
  }

  /** The decomposition main settles on: NBCUTS cuts in each direction,
      NBLOCK interior rows and columns per tile, Nlocal = NBLOCK + 2. */
  datatype Layout2D = Layout2D(cuts: nat, block: nat, side: nat)

  /** main's start-up checks: reject a process count without an integer
      square root, then reject N unless NBCUTS * (N / NBCUTS) == N. */
  function Partition2D(nproc: nat, n: nat): (r: Result<Layout2D>)
    requires nproc >= 1
    ensures r == Err(NotPerfectSquare) <==> !exists k: nat :: Square(k) == nproc
    ensures r.Ok? <==> exists c: nat :: Square(c) == nproc && c > 0 && n % c == 0
    ensures r.Ok? ==>
              && Square(r.value.cuts) == nproc
              && n == r.value.cuts * r.value.block
              && r.value.side == r.value.block + 2
  {
    SqrtUnique(nproc);
    if !IsPerfectSquare(nproc) then Err(NotPerfectSquare)
    else
      var cuts := FloorSqrt(nproc);
      assert cuts > 0;
      var block := n / cuts;
      if n != cuts * block then Err(IncompatibleSize)
      else Ok(Layout2D(cuts, block, block + 2))
  }

  /** The rank above me (update_rows: `me > NBCUTS-1`). */
  function Up(me: nat, cuts: nat): (r: Option<nat>)
    requires me < cuts * cuts
    ensures r.Some? ==> r.value < cuts * cuts
  {
    if me > cuts - 1 then Some(me - cuts) else None
  }

  /** The rank below me (update_rows: `me < NPROC - NBCUTS`). */
  function Down(me: nat, cuts: nat, nproc: nat): (r: Option<nat>)
    requires nproc == cuts * cuts && me < nproc
    ensures r.Some? ==> r.value < nproc
  {
    if me < nproc - cuts then Some(me + cuts) else None
  }

  /** The rank to my left (update_cols: `me%NBCUTS != 0`). */
  function Left(me: nat, cuts: nat): (r: Option<nat>)
    requires me < cuts * cuts
    ensures r.Some? ==> r.value < cuts * cuts
  {
    if me % cuts != 0 then Some(me - 1) else None
  }

  /** The rank to my right (update_cols: `me%NBCUTS != NBCUTS-1`). */
  function Right(me: nat, cuts: nat): (r: Option<nat>)
    requires me < cuts * cuts
    ensures r.Some? ==> r.value < cuts * cuts
  {
    if me % cuts != cuts - 1 then
      RowBound(me, cuts, cuts);
      RowBound(me + 1, cuts, cuts);
      DivModUnique(me + 1, cuts, me / cuts, me % cuts + 1);
      Some(me + 1)
    else None
  }

  /** Up exists exactly off the first grid row and names the rank one grid
      row higher in the same grid column. */
  lemma UpPosition(me: nat, cuts: nat)
    requires me < cuts * cuts
    ensures Up(me, cuts).Some? <==> me / cuts > 0
    ensures Up(me, cuts).Some? ==>
              Up(me, cuts).value / cuts == me / cuts - 1 && Up(me, cuts).value % cuts == me % cuts
  {
    RowBound(me, cuts, 1);
    if me > cuts - 1 {
      DivModUnique(me - cuts, cuts, me / cuts - 1, me % cuts);
    }
  }

  /** Down exists exactly off the last grid row and names the rank one grid
      row lower in the same grid column. */
  lemma DownPosition(me: nat, cuts: nat)
    requires me < cuts * cuts
    ensures Down(me, cuts, cuts * cuts).Some? <==> me / cuts < cuts - 1
    ensures Down(me, cuts, cuts * cuts).Some? ==>
              && Down(me, cuts, cuts * cuts).value / cuts == me / cuts + 1
              && Down(me, cuts, cuts * cuts).value % cuts == me % cuts
  {
    assert cuts * cuts - cuts == (cuts - 1) * cuts;
    RowBound(me, cuts, cuts - 1);
    if me < cuts * cuts - cuts {
      DivModUnique(me + cuts, cuts, me / cuts + 1, me % cuts);
    }
  }

  /** Left exists exactly off the first grid column and names the rank one
      grid column to the left in the same grid row. */
  lemma LeftPosition(me: nat, cuts: nat)
    requires me < cuts * cuts
    ensures Left(me, cuts).Some? <==> me % cuts > 0
    ensures Left(me, cuts).Some? ==>
              Left(me, cuts).value / cuts == me / cuts && Left(me, cuts).value % cuts == me % cuts - 1
  {
    if me % cuts != 0 {
      DivModUnique(me - 1, cuts, me / cuts, me % cuts - 1);
    }
  }

  /** Right exists exactly off the last grid column and names the rank one
      grid column to the right in the same grid row. */
  lemma RightPosition(me: nat, cuts: nat)
    requires me < cuts * cuts
    ensures Right(me, cuts).Some? <==> me % cuts < cuts - 1
    ensures Right(me, cuts).Some? ==>
              Right(me, cuts).value / cuts == me / cuts && Right(me, cuts).value % cuts == me % cuts + 1
  {
    if me % cuts != cuts - 1 {
      DivModUnique(me + 1, cuts, me / cuts, me % cuts + 1);
    }
  }

  /** Two ranks are related by Down exactly when the second sits one grid
      row below the first, in the same grid column; Up is the converse. */
  lemma VerticalNeighbours(a: nat, b: nat, cuts: nat)
    requires a < cuts * cuts && b < cuts * cuts
    ensures Down(a, cuts, cuts * cuts) == Some(b) <==> (b / cuts == a / cuts + 1 && b % cuts == a % cuts)
    ensures Up(b, cuts) == Some(a) <==> Down(a, cuts, cuts * cuts) == Some(b)
  {
    DownPosition(a, cuts);
    if b / cuts == a / cuts + 1 && b % cuts == a % cuts {
      OneRowApart(a, b, cuts);
    }
  }

  /** Same grid column, next grid row: the ranks differ by cuts. */
  lemma OneRowApart(a: nat, b: nat, cuts: nat)
    requires a < cuts * cuts
    requires b / cuts == a / cuts + 1 && b % cuts == a % cuts
    ensures b == a + cuts
  {
    var qa, qb := a / cuts, b / cuts;
    assert b == qb * cuts + b % cuts;
    assert a == qa * cuts + a % cuts;
    assert qb * cuts == qa * cuts + cuts;
  }

  /** Two ranks are related by Right exactly when the second sits one grid
      column to the right of the first, in the same grid row; Left is the converse. */
  lemma HorizontalNeighbours(a: nat, b: nat, cuts: nat)
    requires a < cuts * cuts && b < cuts * cuts
    ensures Right(a, cuts) == Some(b) <==> (b / cuts == a / cuts && b % cuts == a % cuts + 1)
    ensures Left(b, cuts) == Some(a) <==> Right(a, cuts) == Some(b)
  {
    LeftPosition(b, cuts);
    RightPosition(a, cuts);
    if b / cuts == a / cuts && b % cuts == a % cuts + 1 {
      assert b == (b / cuts) * cuts + b % cuts;
      assert a == (a / cuts) * cuts + a % cuts;
      assert b == a + 1;
    }
  }
}
