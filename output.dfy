// Output order shared by both variants: print_matrix_reverse and the
// file-saving loop of src/laplace_2D.c, and the printing and saving loops
// of src/laplace_1D.c, all walk final_matrix from its last row to its
// first, each row from column 0 to column N-1. The emitted text is not
// modelled; each output line is the sequence of values it shows.

module Output {
  import opened Common

  /** The lines emitted for an n-by-n row-major matrix: line k shows row
      n-1-k, so the first line is the top row of the domain. */
  method ReversedRows(m: array<real>, n: nat) returns (lines: seq<seq<real>>)
    requires m.Length == n * n
    ensures |lines| == n
    ensures forall k :: 0 <= k < n ==> |lines[k]| == n
    ensures forall k, j :: 0 <= k < n && 0 <= j < n ==> lines[k][j] == m[Cell(n - 1 - k, j, n)]
  {
    lines := [];
    var i: int := n - 1;
    while i >= 0
      invariant -1 <= i < n && |lines| == n - 1 - i
      invariant forall k :: 0 <= k < |lines| ==> |lines[k]| == n
      invariant forall k, j :: 0 <= k < |lines| && 0 <= j < n ==> lines[k][j] == m[Cell(n - 1 - k, j, n)]
    {
      var line := [];
      var j := 0;
      while j < n
        invariant j <= n && |line| == j
        invariant forall c :: 0 <= c < j ==> line[c] == m[Cell(i, c, n)]
      {
        line := line + [m[Cell(i, j, n)]];
        j := j + 1;
      }
      lines := lines + [line];
      i := i - 1;
    }
  }
}
