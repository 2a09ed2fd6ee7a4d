/** The squared L2 norm of the residual b - A x, the quantity `normaL2Residuo`
    accumulates before taking its square root. */
module Residual {
  import opened Matrix

  /** Component r of the residual: b_r minus the dot product of row r with x. */
  function ResidualAt(M: seq<seq<real>>, bv: seq<real>, n: nat, x: seq<real>, r: nat): real
    requires IsMatrix(M, n) && |bv| == n && |x| == n && r < n
  {
    bv[r] - Dot(M[r], x, n)
  }

  /** `pow(v, 2)`: the square of a real. */
  function Square(v: real): real
  {
    v * v
  }

  /** A square is never negative, and it is positive unless v is zero. */
  lemma {:induction false} SquareSign(v: real)
    ensures Square(v) >= 0.0
    ensures v != 0.0 ==> Square(v) > 0.0
  {
    if v != 0.0 {
      calc {
        Square(v);
        v * v;
      >  { assert v * v > 0.0; }
        0.0;
      }
    }
  }

  /** Sum of the squared residual components of rows r < m, accumulated in row order; it
      is never negative, so the square root `normaL2Residuo` takes of it is defined. */
  function ResidualSq(M: seq<seq<real>>, bv: seq<real>, n: nat, x: seq<real>, m: nat): (s: real)
    requires IsMatrix(M, n) && |bv| == n && |x| == n && m <= n
    ensures s >= 0.0
  {
    if m == 0 then 0.0
    else
      SquareSign(ResidualAt(M, bv, n, x, m - 1));
      ResidualSq(M, bv, n, x, m - 1) + Square(ResidualAt(M, bv, n, x, m - 1))
  }

  /** The partial sum over rows r < m is zero exactly when each of those rows is satisfied. */
  lemma {:induction false} ResidualSqZeroPrefix(M: seq<seq<real>>, bv: seq<real>, n: nat, x: seq<real>, m: nat)
    requires IsMatrix(M, n) && |bv| == n && |x| == n && m <= n
    ensures ResidualSq(M, bv, n, x, m) == 0.0 <==>
            forall r :: 0 <= r < m ==> Dot(M[r], x, n) == bv[r]
  {
    if m > 0 {
      ResidualSqZeroPrefix(M, bv, n, x, m - 1);
      SquareSign(ResidualAt(M, bv, n, x, m - 1));
    }
  }

  /** The residual norm is zero exactly when x solves A x = b row by row. */
  lemma {:induction false} ResidualSqZeroIffSolves(M: seq<seq<real>>, bv: seq<real>, n: nat, x: seq<real>)
    requires IsMatrix(M, n) && |bv| == n && |x| == n
    ensures ResidualSq(M, bv, n, x, n) == 0.0 <==> Solves(M, bv, n, x)
  {
    ResidualSqZeroPrefix(M, bv, n, x, n);
  }
}
