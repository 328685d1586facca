/** Two-dimensional arrays as row-major sequences of rows, with numpy's
    basic slicing and flat-index conversion. */
module Matrix {

  type Matrix<T> = seq<seq<T>>

  /** m has shape (h, w). */
  ghost predicate IsMatrix<T>(m: Matrix<T>, h: nat, w: nat)
  {
    |m| == h && forall i :: 0 <= i < h ==> |m[i]| == w
  }

  /** Number of columns of a rectangular matrix (0 when it has no rows). */
  function Width<T>(m: Matrix<T>): nat
  {
    if |m| == 0 then 0 else |m[0]|
  }

  predicate Rectangular<T>(m: Matrix<T>)
  {
    forall i :: 0 <= i < |m| ==> |m[i]| == Width(m)
  }

  predicate SameShape<T, U>(a: Matrix<T>, b: Matrix<U>)
  {
    |a| == |b| && forall i :: 0 <= i < |a| ==> |a[i]| == |b[i]|
  }

  function Clamp(x: nat, n: nat): nat
  {
    if x <= n then x else n
  }

  /** numpy's m[r0:r1, c0:c1] for 0 <= r0 <= r1 and 0 <= c0 <= c1: bounds past
      the end are clamped, so a too-small array gives a smaller result. */
  function SubMatrix<T>(m: Matrix<T>, r0: nat, r1: nat, c0: nat, c1: nat): (r: Matrix<T>)
    requires r0 <= r1 && c0 <= c1
    ensures |r| == Clamp(r1, |m|) - Clamp(r0, |m|)
  {
    var rows := m[Clamp(r0, |m|)..Clamp(r1, |m|)];
    seq(|rows|, i requires 0 <= i < |rows| =>
      rows[i][Clamp(c0, |rows[i]|)..Clamp(c1, |rows[i]|)])
  }

  /** On an array that contains the whole window, slicing gives a matrix of the
      window's shape whose (i, j) entry is the array's (r0 + i, c0 + j) entry. */
  lemma SubMatrixWithin<T>(m: Matrix<T>, h: nat, w: nat, r0: nat, r1: nat, c0: nat, c1: nat)
    requires r0 <= r1 && c0 <= c1
    ensures IsMatrix(m, h, w) && r1 <= h && c1 <= w ==>
      && IsMatrix(SubMatrix(m, r0, r1, c0, c1), r1 - r0, c1 - c0)
      && forall i, j :: 0 <= i < r1 - r0 && 0 <= j < c1 - c0 ==>
           SubMatrix(m, r0, r1, c0, c1)[i][j] == m[r0 + i][c0 + j]
  {
  }

  /** The shape half of SubMatrixWithin. */
  lemma SubMatrixShape<T>(m: Matrix<T>, h: nat, w: nat, r0: nat, r1: nat, c0: nat, c1: nat)
    requires r0 <= r1 <= h && c0 <= c1 <= w && IsMatrix(m, h, w)
    ensures IsMatrix(SubMatrix(m, r0, r1, c0, c1), r1 - r0, c1 - c0)
  {
    SubMatrixWithin(m, h, w, r0, r1, c0, c1);
  }

  /** numpy.unravel_index of a flat index into an array with nx columns. */
  function Unravel(idx: nat, nx: nat): (nat, nat)
    requires nx > 0
  {
    (idx / nx, idx % nx)
  }

  /** The row-major flat index of (row, col) is below ny * nx and unravels back to (row, col). */
  lemma UnravelRowMajor(row: nat, col: nat, ny: nat, nx: nat)
    requires row < ny && col < nx
    ensures row * nx + col < ny * nx
    ensures Unravel(row * nx + col, nx) == (row, col)
  {
    var k := row * nx + col;
    assert (ny - row) * nx >= nx by {
      MulAtLeast(ny - row, nx);
    }
    assert ny * nx - row * nx == (ny - row) * nx;
    var q, r := k / nx, k % nx;
    assert k == q * nx + r && 0 <= r < nx;
    if q > row {
      MulAtLeast(q - row, nx);
    } else if q < row {
      MulAtLeast(row - q, nx);
    }
  }

  lemma MulAtLeast(a: nat, b: nat)
    requires a >= 1
    ensures a * b >= b
  {
    assert a * b == (a - 1) * b + b;
  }
}
