// Shared vocabulary of both solver variants: optional neighbour ranks,
// configuration errors, integer division facts and the two buffer copies
// that every halo-exchange message performs.

module Common {

  datatype Option<T> = None | Some(value: T)

  /** The two ways the start-up partition check rejects a run. */
  datatype ConfigError =
    | NotPerfectSquare   // block variant: the process count has no integer square root
    | IncompatibleSize   // N is not a multiple of the number of cuts

  datatype Result<T> = Ok(value: T) | Err(error: ConfigError)

  /** The squared difference that feeds local_error_sum. */
  function Sq(x: real): (r: real)
    ensures r >= 0.0
  {
    x * x
  }

  function Min(a: real, b: real): real { if a <= b then a else b }

  function Max(a: real, b: real): real { if a <= b then b else a }

  /** Euclidean division is determined by any quotient/remainder pair. */
  lemma DivModUnique(a: int, b: int, q: int, r: int)
    requires b > 0 && 0 <= r < b && a == q * b + r
    ensures a / b == q && a % b == r
  {
    var q0, r0 := a / b, a % b;
    assert a == q0 * b + r0;
    var d := q - q0;
    assert d * b == r0 - r by {
      assert q * b - q0 * b == r0 - r;
      assert d * b == q * b - q0 * b;
    }
    if d > 0 {
      MulAtLeast(d, b);
    } else if d < 0 {
      MulAtLeast(-d, b);
    }
  }

  /** a is its quotient times b plus its remainder. */
  lemma DivDecompose(a: int, b: int)
    requires b > 0
    ensures a == (a / b) * b + a % b
  {
  }

  lemma MulAtLeast(d: int, b: int)
    requires d >= 1 && b >= 0
    ensures d * b >= b
  {
    assert d * b == (d - 1) * b + b;
    assert (d - 1) * b >= 0;
  }

  lemma MulAssoc(a: int, b: int, c: int)
    ensures (a * b) * c == a * (b * c)
  {
  }

  lemma MulMonotone(c: nat, a: nat, b: nat)
    requires a <= b
    ensures a * c <= b * c
  {
    assert b * c == a * c + (b - a) * c;
  }

  /** me < k * cuts exactly when me lies in one of the first k rows of width cuts. */
  lemma RowBound(me: nat, cuts: nat, k: nat)
    requires cuts > 0
    ensures me < k * cuts <==> me / cuts < k
  {
    var q, rem := me / cuts, me % cuts;
    if q < k {
      MulMonotone(cuts, q + 1, k);
    } else {
      MulMonotone(cuts, k, q);
    }
  }

  /** The flat offset of row i, column j in a row-major buffer of width w. */
  lemma FlatIndex(i: nat, j: nat, w: nat)
    requires j < w
    ensures (i * w + j) / w == i && (i * w + j) % w == j
  {
    DivModUnique(i * w + j, w, i, j);
  }

  /** A row-major cell lies inside the h-by-w buffer. */
  lemma FlatIndexBound(i: nat, j: nat, h: nat, w: nat)
    requires i < h && j < w
    ensures i * w + j < h * w
  {
    MulMonotone(w, i + 1, h);
    assert (i + 1) * w == i * w + w;
  }
  /** Index a of an n*b-long row-major buffer of width b, split into its
      row q and column rem. */
  lemma SplitIndex(a: nat, b: nat, n: nat) returns (q: nat, rem: nat)
    requires b >= 1 && a < n * b
    ensures q == a / b && rem == a % b && q < n && rem < b
  {
    q, rem := a / b, a % b;
    RowBound(a, b, n);
  }

  /** The row-major index of row i, column j in an h-by-w buffer. */
  lemma JoinIndex(i: nat, j: nat, h: nat, w: nat) returns (x: nat)
    requires i < h && j < w
    ensures x == i * w + j && x < h * w
  {
    x := i * w + j;
    FlatIndexBound(i, j, h, w);
  }

  /** Offset j + i*n of cell (i, j) in a row-major n-by-n buffer such as
      final_matrix; it determines the cell back. */
  function Cell(i: nat, j: nat, n: nat): (k: nat)
    requires i < n && j < n
    ensures k < n * n && k / n == i && k % n == j
  {
    FlatIndexBound(i, j, n, n);
    FlatIndex(i, j, n);
    j + i * n
  }
}

module Buffers {

  /** dst[row, lo..hi) := src[srcRow, lo..hi): one message carrying part of a row. */
  method CopyRow(dst: array2<real>, row: nat, src: array2<real>, srcRow: nat, lo: nat, hi: nat)
    requires dst != src
    requires row < dst.Length0 && srcRow < src.Length0
    requires lo <= hi <= dst.Length1 && hi <= src.Length1
    modifies dst
    ensures forall j :: lo <= j < hi ==> dst[row, j] == src[srcRow, j]
    ensures forall i, j :: 0 <= i < dst.Length0 && 0 <= j < dst.Length1 && !(i == row && lo <= j < hi) ==>
              dst[i, j] == old(dst[i, j])
  {
    var j := lo;
    while j < hi
      invariant lo <= j <= hi
      invariant forall c :: lo <= c < j ==> dst[row, c] == src[srcRow, c]
      invariant forall i, c :: 0 <= i < dst.Length0 && 0 <= c < dst.Length1 && !(i == row && lo <= c < j) ==>
                  dst[i, c] == old(dst[i, c])
    {
      dst[row, j] := src[srcRow, j];
      j := j + 1;
    }
  }

  /** dst[lo..hi), col] := src[lo..hi), srcCol]: one strided column message. */
  method CopyCol(dst: array2<real>, col: nat, src: array2<real>, srcCol: nat, lo: nat, hi: nat)
    requires dst != src
    requires col < dst.Length1 && srcCol < src.Length1
    requires lo <= hi <= dst.Length0 && hi <= src.Length0
    modifies dst
    ensures forall i :: lo <= i < hi ==> dst[i, col] == src[i, srcCol]
    ensures forall i, j :: 0 <= i < dst.Length0 && 0 <= j < dst.Length1 && !(j == col && lo <= i < hi) ==>
              dst[i, j] == old(dst[i, j])
  {
    var i := lo;
    while i < hi
      invariant lo <= i <= hi
      invariant forall r :: lo <= r < i ==> dst[r, col] == src[r, srcCol]
      invariant forall r, c :: 0 <= r < dst.Length0 && 0 <= c < dst.Length1 && !(c == col && lo <= r < i) ==>
                  dst[r, c] == old(dst[r, c])
    {
      dst[i, col] := src[i, srcCol];
      i := i + 1;
    }
  }
}
