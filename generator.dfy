/** The test systems `inicializaSistLinear` builds, as functions of the values `rand()`
    returns: b is filled first, then A (unless it is a Hilbert matrix), then one equation
    or the diagonal is altered according to the kind of system asked for. */
module Generator {
  import opened Matrix

  /** `tipoSistLinear_t`: the kinds of system the generator can build. */
  datatype TipoSistLinear = ComSolucao | EqNula | EqProporcional | EqCombLinear | Hilbert | DiagDominante

  /** A system A x = b of order n, A as rows. */
  datatype System = System(A: seq<seq<real>>, b: seq<real>)

  /** The largest value `rand()` returns (the GNU C library's value). */
  const RAND_MAX: nat := 2147483647

  /** `(real_t)rand() * invRandMax`, with invRandMax = coef_max / RAND_MAX. */
  function Scaled(draw: nat, coefMax: real): real
  {
    (draw as real) * (coefMax / (RAND_MAX as real))
  }

  /** A draw of `rand()` lands in [0, coef_max]: the largest draw gives coef_max itself,
      so the interval is closed at the top. */
  lemma {:induction false} ScaledInRange(draw: nat, coefMax: real)
    requires draw <= RAND_MAX && coefMax >= 0.0
    ensures 0.0 <= Scaled(draw, coefMax) <= coefMax
    ensures draw == RAND_MAX ==> Scaled(draw, coefMax) == coefMax
  {
    var inv := coefMax / (RAND_MAX as real);
    assert inv * (RAND_MAX as real) == coefMax;
    assert inv >= 0.0;
    assert (draw as real) * inv <= (RAND_MAX as real) * inv by {
      assert ((RAND_MAX as real) - (draw as real)) * inv >= 0.0;
    }
  }

  /** The right-hand side, one draw per entry in order. */
  function RhsFill(bRand: seq<nat>, coefMax: real): (bv: seq<real>)
    ensures |bv| == |bRand|
    ensures forall i :: 0 <= i < |bv| ==> bv[i] == Scaled(bRand[i], coefMax)
  {
    seq(|bRand|, i requires 0 <= i < |bRand| => Scaled(bRand[i], coefMax))
  }

  /** The random matrix, one draw per entry, consumed row after row. */
  function RandomMatrix(aRand: seq<nat>, n: nat, coefMax: real): (M: seq<seq<real>>)
    requires |aRand| == n * n
    ensures IsMatrix(M, n)
  {
    seq(n, r requires 0 <= r < n => seq(n, c requires 0 <= c < n =>
      IdxInRange(n, r, c);
      Scaled(aRand[Idx(n, r, c)], coefMax)))
  }

  /** Entry (r, c) of the random matrix is the draw at position r*n + c. */
  lemma {:induction false} RandomMatrixAt(aRand: seq<nat>, n: nat, coefMax: real, r: nat, c: nat)
    requires |aRand| == n * n && r < n && c < n
    ensures Idx(n, r, c) < n * n && RandomMatrix(aRand, n, coefMax)[r][c] == Scaled(aRand[Idx(n, r, c)], coefMax)
  {
    IdxInRange(n, r, c);
  }

  /** Every coefficient and every right-hand side entry of a system built only from draws
      lies in [0, coef_max]. */
  lemma {:induction false} RandomFillInRange(aRand: seq<nat>, bRand: seq<nat>, n: nat, coefMax: real)
    requires |aRand| == n * n && |bRand| == n && coefMax >= 0.0
    requires forall q :: 0 <= q < |aRand| ==> aRand[q] <= RAND_MAX
    requires forall i :: 0 <= i < |bRand| ==> bRand[i] <= RAND_MAX
    ensures forall r, c :: 0 <= r < n && 0 <= c < n ==> 0.0 <= RandomMatrix(aRand, n, coefMax)[r][c] <= coefMax
    ensures forall i :: 0 <= i < n ==> 0.0 <= RhsFill(bRand, coefMax)[i] <= coefMax
  {
    forall r, c | 0 <= r < n && 0 <= c < n
      ensures 0.0 <= RandomMatrix(aRand, n, coefMax)[r][c] <= coefMax
    {
      RandomMatrixAt(aRand, n, coefMax, r, c);
      ScaledInRange(aRand[Idx(n, r, c)], coefMax);
    }
    forall i | 0 <= i < n
      ensures 0.0 <= RhsFill(bRand, coefMax)[i] <= coefMax
    {
      ScaledInRange(bRand[i], coefMax);
    }
  }

  /** 1 / d for a whole d >= 1 lies in (0, 1], and it is 1 only for d = 1. */
  lemma {:induction false} UnitFraction(d: nat)
    requires d >= 1
    ensures 0.0 < 1.0 / (d as real) <= 1.0
    ensures 1.0 / (d as real) == 1.0 <==> d == 1
  {
    var q := 1.0 / (d as real);
    assert q * (d as real) == 1.0;
    if d >= 2 {
      assert q < 1.0;
    }
  }

  /** The Hilbert matrix of order n: entry (i, j) is 1 / (i + j + 1). It is symmetric, and
      its entries lie in (0, 1], with 1 only at (0, 0). */
  function HilbertMatrix(n: nat): (H: seq<seq<real>>)
    ensures IsMatrix(H, n)
    ensures forall i, j :: 0 <= i < n && 0 <= j < n ==> H[i][j] == H[j][i]
    ensures forall i, j :: 0 <= i < n && 0 <= j < n ==> 0.0 < H[i][j] <= 1.0
    ensures forall i, j :: 0 <= i < n && 0 <= j < n ==> (H[i][j] == 1.0 <==> i == 0 && j == 0)
  {
    seq(n, i requires 0 <= i < n => seq(n, j requires 0 <= j < n =>
      UnitFraction(i + j + 1);
      1.0 / ((i + j + 1) as real)))
  }

  /** A row of n zeros. */
  function NullRow(n: nat): (row: seq<real>)
    ensures |row| == n
  {
    seq(n, j => 0.0)
  }

  /** Row src of A multiplied by mult, column by column. */
  function ProportionalRow(A: seq<seq<real>>, n: nat, src: nat, mult: real): (row: seq<real>)
    requires IsMatrix(A, n) && src < n
    ensures |row| == n
  {
    seq(n, j requires 0 <= j < n => A[src][j] * mult)
  }

  /** The sum of rows src1 and src2 of A, column by column. */
  function SumRow(A: seq<seq<real>>, n: nat, src1: nat, src2: nat): (row: seq<real>)
    requires IsMatrix(A, n) && src1 < n && src2 < n
    ensures |row| == n
  {
    seq(n, j requires 0 <= j < n => A[src1][j] + A[src2][j])
  }

  /** Entry j of ProportionalRow, from the entry the C code reads. */
  lemma {:induction false} ProportionalRowAt(A: seq<seq<real>>, n: nat, src: nat, mult: real, j: nat, x: real)
    requires IsMatrix(A, n) && src < n && j < n && x == A[src][j]
    ensures ProportionalRow(A, n, src, mult)[j] == x * mult
  {
  }

  /** Entry j of SumRow, from the two entries the C code reads. */
  lemma {:induction false} SumRowAt(A: seq<seq<real>>, n: nat, src1: nat, src2: nat, j: nat, x: real, y: real)
    requires IsMatrix(A, n) && src1 < n && src2 < n && j < n && x == A[src1][j] && y == A[src2][j]
    ensures SumRow(A, n, src1, src2)[j] == x + y
  {
  }

  /** `eqNula`: equation `nula` becomes 0 = 0, and the other equations are untouched. */
  function NullEquation(S: System, n: nat, nula: nat): (T: System)
    requires IsMatrix(S.A, n) && |S.b| == n && nula < n
    ensures IsMatrix(T.A, n) && |T.b| == n
    ensures forall j :: 0 <= j < n ==> T.A[nula][j] == 0.0
    ensures T.b[nula] == 0.0
    ensures forall r :: 0 <= r < n && r != nula ==> T.A[r] == S.A[r] && T.b[r] == S.b[r]
  {
    System(S.A[nula := NullRow(n)], S.b[nula := 0.0])
  }

  /** `eqProporcional`: equation dst becomes mult times equation (dst + 1) mod n; the other
      equations are untouched. */
  function ProportionalEquation(S: System, n: nat, dst: nat, mult: real): (T: System)
    requires IsMatrix(S.A, n) && |S.b| == n && dst < n
    ensures IsMatrix(T.A, n) && |T.b| == n
    ensures forall r :: 0 <= r < n && r != dst ==> T.A[r] == S.A[r] && T.b[r] == S.b[r]
  {
    var src := (dst + 1) % n;
    System(S.A[dst := ProportionalRow(S.A, n, src, mult)], S.b[dst := S.b[src] * mult])
  }

  /** The right-hand side of ProportionalEquation, from the entry the C code reads. */
  lemma {:induction false} ProportionalEquationRhs(S: System, n: nat, dst: nat, mult: real, y: real)
    requires IsMatrix(S.A, n) && |S.b| == n && dst < n && y == S.b[(dst + 1) % n]
    ensures ProportionalEquation(S, n, dst, mult).b == S.b[dst := y * mult]
  {
    var L, R := ProportionalEquation(S, n, dst, mult).b, S.b[dst := y * mult];
    forall q | 0 <= q < n
      ensures L[q] == R[q]
    {
    }
  }

  /** `eqCombLinear`: equation dst becomes the sum of equations (dst + 1) mod n and
      (dst + 2) mod n, each column computed from the values before the change; the other
      equations are untouched. */
  function SumEquation(S: System, n: nat, dst: nat): (T: System)
    requires IsMatrix(S.A, n) && |S.b| == n && dst < n
    ensures IsMatrix(T.A, n) && |T.b| == n
    ensures forall r :: 0 <= r < n && r != dst ==> T.A[r] == S.A[r] && T.b[r] == S.b[r]
  {
    var src1, src2 := (dst + 1) % n, (dst + 2) % n;
    System(S.A[dst := SumRow(S.A, n, src1, src2)], S.b[dst := S.b[src1] + S.b[src2]])
  }

  /** The right-hand side of SumEquation, from the two entries the C code reads. */
  lemma {:induction false} SumEquationRhs(S: System, n: nat, dst: nat, y1: real, y2: real)
    requires IsMatrix(S.A, n) && |S.b| == n && dst < n
    requires y1 == S.b[(dst + 1) % n] && y2 == S.b[(dst + 2) % n]
    ensures SumEquation(S, n, dst).b == S.b[dst := y1 + y2]
  {
    var L, R := SumEquation(S, n, dst).b, S.b[dst := y1 + y2];
    forall q | 0 <= q < n
      ensures L[q] == R[q]
    {
    }
  }

  /** `diagDominante`: every diagonal coefficient is multiplied by n, and every other
      coefficient is kept. */
  function ScaledDiagonal(M: seq<seq<real>>, n: nat): (D: seq<seq<real>>)
    requires IsMatrix(M, n)
    ensures IsMatrix(D, n)
    ensures forall i, j :: 0 <= i < n && 0 <= j < n ==>
              D[i][j] == if i == j then M[i][j] * (n as real) else M[i][j]
  {
    seq(n, i requires 0 <= i < n => M[i][i := M[i][i] * (n as real)])
  }

  /** The kinds that draw a row index with `rand() % tam`, which needs tam > 0. */
  predicate DrawsRow(tipo: TipoSistLinear)
  {
    tipo == EqNula || tipo == EqProporcional || tipo == EqCombLinear
  }

  /** What the generator leaves in (A, b): bRand are the draws for b, aRand those for A
      (unused for Hilbert), rowDraw the draw that picks the altered equation and multDraw
      the one for the proportionality factor. Whatever the kind, b holds the first n draws,
      and only the kinds that alter an equation change an entry of b, namely the altered
      one. */
  function Inicializa(tipo: TipoSistLinear, n: nat, coefMax: real, bRand: seq<nat>, aRand: seq<nat>,
                      rowDraw: nat, multDraw: nat): (S: System)
    requires |bRand| == n && (tipo != Hilbert ==> |aRand| == n * n) && (DrawsRow(tipo) ==> n > 0)
    ensures IsMatrix(S.A, n) && |S.b| == n
    ensures forall i :: 0 <= i < n && !(DrawsRow(tipo) && i == rowDraw % n) ==> S.b[i] == Scaled(bRand[i], coefMax)
  {
    var b := RhsFill(bRand, coefMax);
    if tipo == Hilbert then System(HilbertMatrix(n), b)
    else
      var R := System(RandomMatrix(aRand, n, coefMax), b);
      match tipo
      case EqNula => NullEquation(R, n, rowDraw % n)
      case EqProporcional => ProportionalEquation(R, n, rowDraw % n, Scaled(multDraw, coefMax))
      case EqCombLinear => SumEquation(R, n, rowDraw % n)
      case DiagDominante => System(ScaledDiagonal(R.A, n), b)
      case _ => R
  }

  /** The null equation is satisfied by every x, so it constrains nothing: the system has
      n - 1 real equations left. */
  lemma {:induction false} NullEquationProperties(S: System, n: nat, nula: nat, x: seq<real>)
    requires IsMatrix(S.A, n) && |S.b| == n && nula < n && |x| == n
    ensures var T := NullEquation(S, n, nula);
            Dot(T.A[nula], x, n) == T.b[nula]
  {
    var T := NullEquation(S, n, nula);
    DotZero(T.A[nula], x, n);
  }

  /** The rows (dst + 1) mod n and (dst + 2) mod n that follow dst cyclically: past the
      last row they wrap to row 0, then row 1 (or row 0 again when n = 1). */
  lemma {:induction false} NextRows(n: nat, dst: nat)
    requires dst < n
    ensures (dst + 1) % n == if dst + 1 < n then dst + 1 else 0
    ensures (dst + 2) % n == if dst + 2 < n then dst + 2 else if dst + 2 == n then 0 else if n == 1 then 0 else 1
  {
  }

  /** For n >= 2 the source row differs from the altered one and is itself unchanged, so in
      the new system equation dst is mult times equation src: any x that satisfies
      equation src satisfies equation dst. */
  lemma {:induction false} ProportionalEquationDependent(S: System, n: nat, dst: nat, mult: real, x: seq<real>)
    requires IsMatrix(S.A, n) && |S.b| == n && dst < n && n >= 2 && |x| == n
    ensures var T, src := ProportionalEquation(S, n, dst, mult), (dst + 1) % n;
            src != dst &&
            (forall j :: 0 <= j < n ==> T.A[dst][j] == T.A[src][j] * mult) &&
            T.b[dst] == T.b[src] * mult &&
            (Dot(T.A[src], x, n) == T.b[src] ==> Dot(T.A[dst], x, n) == T.b[dst])
  {
    NextRows(n, dst);
    var T, src := ProportionalEquation(S, n, dst, mult), (dst + 1) % n;
    assert T.A[src] == S.A[src];
    assert forall j :: 0 <= j < n ==> T.A[dst][j] == T.A[src][j] * mult;
    ScaledEquation(T.A[dst], T.A[src], x, mult, T.b[dst], T.b[src]);
  }

  /** For n >= 3 the two source rows and the altered one are three distinct rows and the
      sources are unchanged, so in the new system equation dst is the sum of equations
      src1 and src2: any x that satisfies both satisfies equation dst. */
  lemma {:induction false} SumEquationDependent(S: System, n: nat, dst: nat, x: seq<real>)
    requires IsMatrix(S.A, n) && |S.b| == n && dst < n && n >= 3 && |x| == n
    ensures var T, src1, src2 := SumEquation(S, n, dst), (dst + 1) % n, (dst + 2) % n;
            src1 != dst && src2 != dst && src1 != src2 &&
            (forall j :: 0 <= j < n ==> T.A[dst][j] == T.A[src1][j] + T.A[src2][j]) &&
            T.b[dst] == T.b[src1] + T.b[src2] &&
            (Dot(T.A[src1], x, n) == T.b[src1] && Dot(T.A[src2], x, n) == T.b[src2] ==>
               Dot(T.A[dst], x, n) == T.b[dst])
  {
    NextRows(n, dst);
    var T, src1, src2 := SumEquation(S, n, dst), (dst + 1) % n, (dst + 2) % n;
    assert T.A[src1] == S.A[src1] && T.A[src2] == S.A[src2];
    assert forall j :: 0 <= j < n ==> T.A[dst][j] == T.A[src1][j] + T.A[src2][j];
    SumOfEquations(T.A[dst], T.A[src1], T.A[src2], x, T.b[dst], T.b[src1], T.b[src2]);
  }
}
