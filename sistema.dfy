/** `SistLinear_t` and the operations of SistemasLineares.c that read or update it in
    place: the coefficients live in one flat array of n*n reals, row after row, as in the
    C structure, and every method is proved against the specification functions of the
    Matrix, Residual, Elimination and Generator modules. */
module LinearSystem {
  import opened Matrix
  import opened Residual
  import opened Elimination
  import opened Generator

  /** M with the diagonal entries of its first i rows multiplied by n: the state of the
      `diagDominante` loop after i steps. */
  function DiagPartly(M: seq<seq<real>>, n: nat, i: nat): (D: seq<seq<real>>)
    requires IsMatrix(M, n) && i <= n
    ensures IsMatrix(D, n)
  {
    if i == 0 then M
    else
      var D := DiagPartly(M, n, i - 1);
      D[i - 1 := D[i - 1][i - 1 := M[i - 1][i - 1] * (n as real)]]
  }

  /** Entry (r, c) after i steps: scaled when it is one of the first i diagonal entries,
      the original one otherwise. */
  lemma {:induction false} DiagPartlyAt(M: seq<seq<real>>, n: nat, i: nat, r: nat, c: nat)
    requires IsMatrix(M, n) && i <= n && r < n && c < n
    ensures DiagPartly(M, n, i)[r][c] == if r == c && r < i then M[r][c] * (n as real) else M[r][c]
  {
    if i > 0 {
      DiagPartlyAt(M, n, i - 1, r, c);
    }
  }

  /** After n steps every diagonal entry is scaled: the matrix `diagDominante` asks for. */
  lemma {:induction false} DiagPartlyDone(M: seq<seq<real>>, n: nat)
    requires IsMatrix(M, n)
    ensures DiagPartly(M, n, n) == ScaledDiagonal(M, n)
  {
    var D, S := DiagPartly(M, n, n), ScaledDiagonal(M, n);
    forall r | 0 <= r < n
      ensures D[r] == S[r]
    {
      forall c | 0 <= c < n
        ensures D[r][c] == S[r][c]
      {
        DiagPartlyAt(M, n, n, r, c);
      }
    }
  }

  /** Entry (i, i) still holds M[i][i] before step i; storing d * n there, with d the
      value read from it, is step i: a' is the contents afterwards. */
  lemma {:induction false} DiagPartlyStep(a: seq<real>, a': seq<real>, n: nat, M: seq<seq<real>>, i: nat, d: real, v: real)
    requires |a| == n * n && IsMatrix(M, n) && i < n && Stores(a, n, DiagPartly(M, n, i))
    requires Idx(n, i, i) < |a| && d == a[Idx(n, i, i)] && v == d * (n as real) && a' == a[Idx(n, i, i) := v]
    ensures d == M[i][i]
    ensures Stores(a', n, DiagPartly(M, n, i + 1))
  {
    var D := DiagPartly(M, n, i);
    DiagPartlyAt(M, n, i, i, i);
    IdxInRange(n, i, i);
    assert At(a, n, i, i) == D[i][i];
    StoresUpdate(a, n, D, i, i, v);
    var X, Y := D[i][i := v], D[i][i := M[i][i] * (n as real)];
    forall c | 0 <= c < n
      ensures X[c] == Y[c]
    {
    }
    assert X == Y;
  }

  class SistLinear {
    /** Order of the system. */
    const n: nat
    /** Coefficients: entry (i, j) at position i*n + j. */
    const A: array<real>
    /** Right-hand side. */
    const b: array<real>

    predicate Valid()
    {
      A.Length == n * n && b.Length == n && A != b
    }

    /** `alocaSistLinear`: a system of order tam with room for its n*n coefficients and
        its n right-hand side entries. */
    constructor (tam: nat)
      ensures Valid() && n == tam
      ensures fresh(A) && fresh(b)
    {
      n := tam;
      A := new real[tam * tam];
      b := new real[tam];
    }

    /** `normaL2Residuo`: the sum over the rows of (b[i] - A[i] . x)^2, accumulated row by
        row as the C loops do; the C function returns its square root. The sum is never
        negative and is zero exactly when x solves the system. */
    method NormaL2Residuo(x: array<real>) returns (norma: real)
      requires Valid() && x.Length == n
      ensures norma == ResidualSq(Grid(A[..], n), b[..], n, x[..], n)
      ensures norma >= 0.0
      ensures norma == 0.0 <==> Solves(Grid(A[..], n), b[..], n, x[..])
    {
      ghost var G := Grid(A[..], n);
      GridStores(A[..], n);
      norma := 0.0;
      var i := 0;
      while i < n
        invariant 0 <= i <= n
        invariant norma == ResidualSq(G, b[..], n, x[..], i)
      {
        var r := 0.0;
        var j := 0;
        while j < n
          invariant 0 <= j <= n
          invariant r == Dot(G[i], x[..], j)
        {
          IdxInRange(n, i, j);
          assert At(A[..], n, i, j) == A[i * n + j];
          DotNext(G[i], x[..], j, A[i * n + j], x[j]);
          r := r + A[i * n + j] * x[j];
          j := j + 1;
        }
        norma := norma + Square(b[i] - r);
        i := i + 1;
      }
      ResidualSqZeroIffSolves(G, b[..], n, x[..]);
    }

    /** `trocaLinha`: exchanges equations i and p, that is rows i and p of A, column by
        column, and entries i and p of b. `eliminacaoGauss` calls it only with i != p. */
    method TrocaLinha(i: nat, p: nat)
      requires Valid() && i < n && p < n && i != p
      modifies A, b
      ensures Grid(A[..], n) == Swap(Grid(old(A[..]), n), i, p)
      ensures b[..] == Swap(old(b[..]), i, p)
    {
      ghost var G := Grid(A[..], n);
      GridStores(A[..], n);
      SwapPartlyStart(A[..], n, G, i, p);
      var j := 0;
      while j < n
        invariant 0 <= j <= n
        invariant b[..] == old(b[..])
        invariant SwapPartly(A[..], n, G, i, p, j)
      {
        TrocaColuna(i, p, j, G);
        j := j + 1;
      }
      var t := b[i];
      b[i] := b[p];
      b[p] := t;
      SwapPartlyDone(A[..], n, G, i, p);
    }

    /** One iteration of the column loop of `trocaLinha`: entries (i, j) and (p, j) are
        exchanged. */
    method TrocaColuna(i: nat, p: nat, j: nat, ghost G: seq<seq<real>>)
      requires Valid() && SwapPartly(A[..], n, G, i, p, j) && j < n
      modifies A
      ensures SwapPartly(A[..], n, G, i, p, j + 1)
    {
      ghost var a := A[..];
      SwapPartlyStep(a, n, G, i, p, j);
      IdxInRange(n, i, j);
      IdxInRange(n, p, j);
      var t := A[i * n + j];
      A[i * n + j] := A[p * n + j];
      A[p * n + j] := t;
      assert A[..] == a[Idx(n, i, j) := a[Idx(n, p, j)]][Idx(n, p, j) := a[Idx(n, i, j)]];
    }

    /** One iteration of a column loop that rewrites row r of A, in `eliminacaoGauss` and
        in the `eqNula`, `eqProporcional` and `eqCombLinear` branches of
        `inicializaSistLinear`: entry (r, c) receives v, the next entry of the new row. */
    method EscreveEntrada(r: nat, c: nat, v: real, ghost M: seq<seq<real>>, ghost target: seq<real>)
      requires Valid() && RowPartly(A[..], n, M, r, target, c) && c < n && v == target[c]
      modifies A
      ensures RowPartly(A[..], n, M, r, target, c + 1)
    {
      ghost var a := A[..];
      RowPartlyStep(a, n, M, r, target, c, v);
      IdxInRange(n, r, c);
      A[r * n + c] := v;
      assert A[..] == a[Idx(n, r, c) := v];
    }

    /** `eliminacaoGauss`: forward elimination in place, pivot row i = 0 .. n-1, with the
        row exchange of partial pivoting when asked for; pivos[i] is the row that
        `encontraMaxPivo` returns at step i. Where the C code would divide by a zero pivot,
        the method stops and returns -1 instead; otherwise it returns 0. The final A and b
        are those of the specification `Gauss`, whose results are upper triangular with
        the solutions of the original system. */
    method EliminacaoGauss(pivotamento: bool, pivos: seq<nat>) returns (codigo: int)
      requires Valid() && PivotsInRange(n, pivotamento, pivos)
      modifies A, b
      ensures var o := Gauss(Grid(old(A[..]), n), old(b[..]), n, pivotamento, pivos);
              Grid(A[..], n) == o.M && b[..] == o.bv &&
              (codigo == 0 <==> o.Done?) && (codigo == -1 <==> o.ZeroPivot?)
    {
      ghost var G0, b0 := Grid(A[..], n), b[..];
      var i := 0;
      while i < n
        invariant 0 <= i <= n
        invariant GaussFrom(Grid(A[..], n), b[..], n, pivotamento, pivos, i) == Gauss(G0, b0, n, pivotamento, pivos)
      {
        ghost var Gi, bi := Grid(A[..], n), b[..];
        GaussFromStep(Gi, bi, n, pivotamento, pivos, i);
        var pivoNulo := PassoGauss(i, pivotamento, pivos);
        if pivoNulo {
          return -1;
        }
        i := i + 1;
      }
      return 0;
    }

    /** Step i of `eliminacaoGauss`: the row exchange of partial pivoting when asked for,
        then, unless the pivot is zero with rows below it, the elimination below the pivot
        row. pivoNulo tells which. */
    method PassoGauss(i: nat, pivotamento: bool, pivos: seq<nat>) returns (pivoNulo: bool)
      requires Valid() && i < n && PivotsInRange(n, pivotamento, pivos)
      modifies A, b
      ensures var P, p := PivotMatrix(Grid(old(A[..]), n), n, i, pivotamento, pivos), PivotRhs(old(b[..]), n, i, pivotamento, pivos);
              pivoNulo == !PivotUsable(P, n, i) &&
              (pivoNulo ==> Grid(A[..], n) == P && b[..] == p) &&
              (!pivoNulo ==> Grid(A[..], n) == ElimMatrix(P, n, i, n) && b[..] == ElimRhs(P, p, n, i, n))
    {
      ghost var Gi, bi := Grid(A[..], n), b[..];
      if pivotamento {
        var iPivo := pivos[i];
        if i != iPivo {
          TrocaLinha(i, iPivo);
        }
      }
      ghost var P, p := PivotMatrix(Gi, n, i, pivotamento, pivos), PivotRhs(bi, n, i, pivotamento, pivos);
      assert Grid(A[..], n) == P && b[..] == p;
      IdxInRange(n, i, i);
      GridStores(A[..], n);
      assert At(A[..], n, i, i) == A[i * n + i];
      if i + 1 < n && A[i * n + i] == 0.0 {
        return true;
      }
      EliminaAbaixo(i, P, p);
      return false;
    }

    /** The k loop of `eliminacaoGauss` at pivot step i: every row below the pivot row
        loses its multiple of the pivot equation. */
    method EliminaAbaixo(i: nat, ghost P: seq<seq<real>>, ghost p: seq<real>)
      requires Valid() && i < n && IsMatrix(P, n) && |p| == n && PivotUsable(P, n, i)
      requires Grid(A[..], n) == P && b[..] == p
      modifies A, b
      ensures Grid(A[..], n) == ElimMatrix(P, n, i, n) && b[..] == ElimRhs(P, p, n, i, n)
    {
      var k := i + 1;
      assert ElimMatrix(P, n, i, k) == P;
      assert ElimRhs(P, p, n, i, k) == p;
      while k < n
        invariant i + 1 <= k <= n
        invariant Grid(A[..], n) == ElimMatrix(P, n, i, k) && b[..] == ElimRhs(P, p, n, i, k)
      {
        EliminaLinha(i, k, P, p);
        k := k + 1;
      }
    }

    /** One row k of the k loop of `eliminacaoGauss`: m = A[k][i] / A[i][i], column i set
        to 0.0, m times the pivot row subtracted from the later columns and from b[k]. */
    method EliminaLinha(i: nat, k: nat, ghost P: seq<seq<real>>, ghost p: seq<real>)
      requires Valid() && i < k < n && IsMatrix(P, n) && |p| == n && PivotUsable(P, n, i)
      requires Grid(A[..], n) == ElimMatrix(P, n, i, k) && b[..] == ElimRhs(P, p, n, i, k)
      modifies A, b
      ensures Grid(A[..], n) == ElimMatrix(P, n, i, k + 1) && b[..] == ElimRhs(P, p, n, i, k + 1)
    {
      ghost var E := ElimMatrix(P, n, i, k);
      ghost var R := ElimRow(P, n, i, k);
      assert E[i] == P[i] && E[k] == P[k];
      GridStores(A[..], n);
      RowPartlyStart(A[..], n, E, k, R, i);
      IdxInRange(n, i, i);
      IdxInRange(n, k, i);
      assert At(A[..], n, i, i) == A[i * n + i];
      assert At(A[..], n, k, i) == A[k * n + i];
      var aki, aii := A[k * n + i], A[i * n + i];
      MultiplierAt(P, n, i, k, aki, aii);
      var m := aki / aii;
      EscreveEntrada(k, i, 0.0, E, R);
      SubtraiPivo(i, k, m, P);
      ghost var e := b[..];
      var bk, bi := b[k], b[i];
      var z := bk - bi * m;
      ElimRhsNext(P, p, n, i, k, bk, bi, m, z);
      b[k] := z;
      assert b[..] == e[k := z];
      RowPartlyDone(A[..], n, E, k, R);
      ElimMatrixNext(P, n, i, k);
    }

    /** The j loop of `eliminacaoGauss`: A[k][j] -= A[i][j] * m for the columns j past
        the pivot column, which completes row k of step i. */
    method SubtraiPivo(i: nat, k: nat, m: real, ghost P: seq<seq<real>>)
      requires Valid() && i < k < n && IsMatrix(P, n) && PivotUsable(P, n, i) && m == Multiplier(P, n, i, k)
      requires RowPartly(A[..], n, ElimMatrix(P, n, i, k), k, ElimRow(P, n, i, k), i + 1)
      modifies A
      ensures RowPartly(A[..], n, ElimMatrix(P, n, i, k), k, ElimRow(P, n, i, k), n)
    {
      ghost var E := ElimMatrix(P, n, i, k);
      ghost var R := ElimRow(P, n, i, k);
      assert E[i] == P[i] && E[k] == P[k];
      var j := i + 1;
      while j < n
        invariant i + 1 <= j <= n
        invariant RowPartly(A[..], n, E, k, R, j)
      {
        RowPartlyRead(A[..], n, E, k, R, j, k);
        RowPartlyRead(A[..], n, E, k, R, j, i);
        IdxInRange(n, k, j);
        IdxInRange(n, i, j);
        var akj, aij := A[k * n + j], A[i * n + j];
        var v := akj - aij * m;
        ElimRowAt(P, n, i, k, j, akj, aij, m);
        EscreveEntrada(k, j, v, E, R);
        j := j + 1;
      }
    }

    /** `inicializaSistLinear`: fills b, then A, with the draws of `rand()` scaled to
        [0, coefMax], or A with the Hilbert matrix, and then alters one equation or the
        diagonal according to tipo. bRand, aRand, rowDraw and multDraw are what the
        successive calls of `rand()` return. */
    method InicializaSistLinear(tipo: TipoSistLinear, coefMax: real, bRand: seq<nat>, aRand: seq<nat>,
                                rowDraw: nat, multDraw: nat)
      requires Valid() && |bRand| == n && (tipo != Hilbert ==> |aRand| == n * n) && (DrawsRow(tipo) ==> n > 0)
      modifies A, b
      ensures var S := Inicializa(tipo, n, coefMax, bRand, aRand, rowDraw, multDraw);
              Grid(A[..], n) == S.A && b[..] == S.b
    {
      var tam := n;
      var invRandMax := coefMax / (RAND_MAX as real);
      var i := 0;
      while i < tam
        invariant 0 <= i <= tam
        invariant forall q :: 0 <= q < i ==> b[q] == Scaled(bRand[q], coefMax)
      {
        var v := (bRand[i] as real) * invRandMax;
        assert v == Scaled(bRand[i], coefMax);
        b[i] := v;
        i := i + 1;
      }
      assert b[..] == RhsFill(bRand, coefMax);
      if tipo == Hilbert {
        PreencheHilbert();
      } else {
        PreencheAleatoria(aRand, coefMax);
        ghost var R := System(RandomMatrix(aRand, n, coefMax), b[..]);
        if tipo == EqNula {
          var nula := rowDraw % tam;
          AnulaEquacao(nula, R);
        } else if tipo == EqProporcional {
          var propDst := rowDraw % tam;
          var mult := (multDraw as real) * invRandMax;
          assert mult == Scaled(multDraw, coefMax);
          EquacaoProporcional(propDst, mult, R);
        } else if tipo == EqCombLinear {
          var combDst := rowDraw % tam;
          EquacaoCombLinear(combDst, R);
        } else if tipo == DiagDominante {
          DiagonalDominante(R.A);
        }
      }
    }

    /** The Hilbert branch of `inicializaSistLinear`: A[i][j] = 1 / (i + j + 1). */
    method PreencheHilbert()
      requires Valid()
      modifies A
      ensures Grid(A[..], n) == HilbertMatrix(n)
    {
      ghost var H := HilbertMatrix(n);
      var tam := n;
      var i := 0;
      while i < tam
        invariant 0 <= i <= tam
        invariant forall r, c :: 0 <= r < i && 0 <= c < n ==> At(A[..], n, r, c) == H[r][c]
      {
        var j := 0;
        while j < tam
          invariant 0 <= j <= tam
          invariant forall r, c :: 0 <= r < n && 0 <= c < n && (r < i || (r == i && c < j)) ==> At(A[..], n, r, c) == H[r][c]
        {
          IdxInRange(tam, i, j);
          ghost var a := A[..];
          var v := 1.0 / ((i + j + 1) as real);
          assert v == H[i][j];
          AtUpdate(a, n, i, j, v);
          A[i * tam + j] := v;
          assert A[..] == a[Idx(n, i, j) := v];
          j := j + 1;
        }
        i := i + 1;
      }
      StoresGrid(A[..], n, H);
    }

    /** The random fill of A in `inicializaSistLinear`, one draw per entry, row after row. */
    method PreencheAleatoria(aRand: seq<nat>, coefMax: real)
      requires Valid() && |aRand| == n * n
      modifies A
      ensures Grid(A[..], n) == RandomMatrix(aRand, n, coefMax)
    {
      ghost var M := RandomMatrix(aRand, n, coefMax);
      var tam := n;
      var invRandMax := coefMax / (RAND_MAX as real);
      var i := 0;
      while i < tam
        invariant 0 <= i <= tam
        invariant forall r, c :: 0 <= r < i && 0 <= c < n ==> At(A[..], n, r, c) == M[r][c]
      {
        var j := 0;
        while j < tam
          invariant 0 <= j <= tam
          invariant forall r, c :: 0 <= r < n && 0 <= c < n && (r < i || (r == i && c < j)) ==> At(A[..], n, r, c) == M[r][c]
        {
          IdxInRange(tam, i, j);
          RandomMatrixAt(aRand, n, coefMax, i, j);
          ghost var a := A[..];
          var v := (aRand[i * tam + j] as real) * invRandMax;
          assert v == Scaled(aRand[Idx(n, i, j)], coefMax) == M[i][j];
          AtUpdate(a, n, i, j, v);
          A[i * tam + j] := v;
          assert A[..] == a[Idx(n, i, j) := v];
          j := j + 1;
        }
        i := i + 1;
      }
      StoresGrid(A[..], n, M);
    }

    /** The `eqNula` branch: equation nula becomes 0 = 0. */
    method AnulaEquacao(nula: nat, ghost S: System)
      requires Valid() && nula < n && IsMatrix(S.A, n) && Grid(A[..], n) == S.A && b[..] == S.b
      modifies A, b
      ensures Grid(A[..], n) == NullEquation(S, n, nula).A && b[..] == NullEquation(S, n, nula).b
    {
      ghost var T := NullRow(n);
      GridStores(A[..], n);
      RowPartlyStart(A[..], n, S.A, nula, T, 0);
      var tam := n;
      var j := 0;
      while j < tam
        invariant 0 <= j <= tam && b[..] == S.b
        invariant RowPartly(A[..], n, S.A, nula, T, j)
      {
        EscreveEntrada(nula, j, 0.0, S.A, T);
        j := j + 1;
      }
      b[nula] := 0.0;
      RowPartlyDone(A[..], n, S.A, nula, T);
    }

    /** The `eqProporcional` branch: row propDst becomes mult times row (propDst + 1) mod n,
        column by column, and so does b[propDst]. */
    method EquacaoProporcional(propDst: nat, mult: real, ghost S: System)
      requires Valid() && propDst < n && IsMatrix(S.A, n) && Grid(A[..], n) == S.A && b[..] == S.b
      modifies A, b
      ensures Grid(A[..], n) == ProportionalEquation(S, n, propDst, mult).A
      ensures b[..] == ProportionalEquation(S, n, propDst, mult).b
    {
      var tam := n;
      var propSrc := (propDst + 1) % tam;
      ghost var T := ProportionalRow(S.A, n, propSrc, mult);
      GridStores(A[..], n);
      RowPartlyStart(A[..], n, S.A, propDst, T, 0);
      var j := 0;
      while j < tam
        invariant 0 <= j <= tam && b[..] == S.b
        invariant RowPartly(A[..], n, S.A, propDst, T, j)
      {
        RowPartlyRead(A[..], n, S.A, propDst, T, j, propSrc);
        IdxInRange(tam, propSrc, j);
        var x := A[propSrc * tam + j];
        var v := x * mult;
        ProportionalRowAt(S.A, n, propSrc, mult, j, x);
        EscreveEntrada(propDst, j, v, S.A, T);
        j := j + 1;
      }
      var y := b[propSrc];
      ProportionalEquationRhs(S, n, propDst, mult, y);
      b[propDst] := y * mult;
      RowPartlyDone(A[..], n, S.A, propDst, T);
    }

    /** The `eqCombLinear` branch: row combDst becomes the sum of rows (combDst + 1) mod n
        and (combDst + 2) mod n, column by column, and so does b[combDst]. */
    method EquacaoCombLinear(combDst: nat, ghost S: System)
      requires Valid() && combDst < n && IsMatrix(S.A, n) && Grid(A[..], n) == S.A && b[..] == S.b
      modifies A, b
      ensures Grid(A[..], n) == SumEquation(S, n, combDst).A
      ensures b[..] == SumEquation(S, n, combDst).b
    {
      var tam := n;
      var combSrc1 := (combDst + 1) % tam;
      var combSrc2 := (combDst + 2) % tam;
      ghost var T := SumRow(S.A, n, combSrc1, combSrc2);
      GridStores(A[..], n);
      RowPartlyStart(A[..], n, S.A, combDst, T, 0);
      var j := 0;
      while j < tam
        invariant 0 <= j <= tam && b[..] == S.b
        invariant RowPartly(A[..], n, S.A, combDst, T, j)
      {
        RowPartlyRead(A[..], n, S.A, combDst, T, j, combSrc1);
        RowPartlyRead(A[..], n, S.A, combDst, T, j, combSrc2);
        IdxInRange(tam, combSrc1, j);
        IdxInRange(tam, combSrc2, j);
        var x, y := A[combSrc1 * tam + j], A[combSrc2 * tam + j];
        var v := x + y;
        SumRowAt(S.A, n, combSrc1, combSrc2, j, x, y);
        EscreveEntrada(combDst, j, v, S.A, T);
        j := j + 1;
      }
      var y1, y2 := b[combSrc1], b[combSrc2];
      SumEquationRhs(S, n, combDst, y1, y2);
      b[combDst] := y1 + y2;
      RowPartlyDone(A[..], n, S.A, combDst, T);
    }

    /** The `diagDominante` branch: A[i][i] *= n for every i. */
    method DiagonalDominante(ghost M: seq<seq<real>>)
      requires Valid() && IsMatrix(M, n) && Grid(A[..], n) == M
      modifies A
      ensures Grid(A[..], n) == ScaledDiagonal(M, n)
    {
      GridStores(A[..], n);
      assert DiagPartly(M, n, 0) == M;
      var tam := n;
      var i := 0;
      while i < tam
        invariant 0 <= i <= tam
        invariant Stores(A[..], n, DiagPartly(M, n, i))
      {
        EscalaDiagonal(i, M);
        i := i + 1;
      }
      DiagPartlyDone(M, n);
      StoresGrid(A[..], n, ScaledDiagonal(M, n));
    }

    /** One iteration of the `diagDominante` loop: A[i][i] *= n. */
    method EscalaDiagonal(i: nat, ghost M: seq<seq<real>>)
      requires Valid() && i < n && IsMatrix(M, n) && Stores(A[..], n, DiagPartly(M, n, i))
      modifies A
      ensures Stores(A[..], n, DiagPartly(M, n, i + 1))
    {
      ghost var a := A[..];
      IdxInRange(n, i, i);
      var d := A[i * n + i];
      var v := d * (n as real);
      A[i * n + i] := v;
      assert A[..] == a[Idx(n, i, i) := v];
      DiagPartlyStep(a, A[..], n, M, i, d, v);
    }
  }
}
