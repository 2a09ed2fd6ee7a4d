/** Forward elimination of `eliminacaoGauss`, as functions on the row view of the matrix
    and on the right-hand side: one pivot step in closed form, the optional row exchange,
    and the whole run over the pivot rows 0 .. n-1. */
module Elimination {
  import opened Matrix

  /** The multiplier m = A[k][i] / A[i][i] that row k receives at pivot step i. */
  function Multiplier(M: seq<seq<real>>, n: nat, i: nat, k: nat): real
    requires IsMatrix(M, n) && i < n && k < n && M[i][i] != 0.0
  {
    M[k][i] / M[i][i]
  }

  /** Step i divides by the pivot A[i][i] only when some row lies below it. */
  predicate PivotUsable(M: seq<seq<real>>, n: nat, i: nat)
    requires IsMatrix(M, n) && i < n
  {
    i + 1 < n ==> M[i][i] != 0.0
  }

  /** Row r (below the pivot) once step i has eliminated it: column i is set to exactly 0,
      each later column loses m times the pivot row's entry, earlier columns are kept.
      From column i on, the row is the old row minus m times the pivot row: the 0.0 the
      C code stores is the value the subtraction gives, since m * A[i][i] == A[r][i]. */
  function ElimRow(M: seq<seq<real>>, n: nat, i: nat, r: nat): (row: seq<real>)
    requires IsMatrix(M, n) && i < r < n && PivotUsable(M, n, i)
    ensures |row| == n
    ensures forall c :: i <= c < n ==> row[c] == M[r][c] - Multiplier(M, n, i, r) * M[i][c]
  {
    assert Multiplier(M, n, i, r) * M[i][i] == M[r][i];
    seq(n, c requires 0 <= c < n =>
      if c < i then M[r][c]
      else if c == i then 0.0
      else M[r][c] - M[i][c] * Multiplier(M, n, i, r))
  }

  /** The matrix once step i has eliminated the rows i+1 .. upto-1: the pivot row and the
      rows above it are kept, and each eliminated row keeps its entries left of column i
      and has a zero in column i. */
  function ElimMatrix(M: seq<seq<real>>, n: nat, i: nat, upto: nat): (E: seq<seq<real>>)
    requires IsMatrix(M, n) && i < n && upto <= n && PivotUsable(M, n, i)
    ensures IsMatrix(E, n)
    ensures forall r :: 0 <= r <= i ==> E[r] == M[r]
    ensures forall r, c :: i < r < upto && 0 <= c < i ==> E[r][c] == M[r][c]
    ensures forall r :: i < r < upto ==> E[r][i] == 0.0
  {
    seq(n, r requires 0 <= r < n => if i < r < upto then ElimRow(M, n, i, r) else M[r])
  }

  /** The right-hand side once step i has eliminated the rows i+1 .. upto-1; the entries
      of the pivot equation and of the equations above it are kept. */
  function ElimRhs(M: seq<seq<real>>, bv: seq<real>, n: nat, i: nat, upto: nat): (e: seq<real>)
    requires IsMatrix(M, n) && |bv| == n && i < n && upto <= n && PivotUsable(M, n, i)
    ensures |e| == n
    ensures forall r :: 0 <= r <= i ==> e[r] == bv[r]
  {
    seq(n, r requires 0 <= r < n => if i < r < upto then bv[r] - bv[i] * Multiplier(M, n, i, r) else bv[r])
  }

  /** The multiplier of row r, from the two entries the C code reads. */
  lemma {:induction false} MultiplierAt(M: seq<seq<real>>, n: nat, i: nat, r: nat, x: real, y: real)
    requires IsMatrix(M, n) && i < n && r < n && x == M[r][i] && y == M[i][i] && y != 0.0
    ensures Multiplier(M, n, i, r) == x / y
  {
  }

  /** Entry c > i of an eliminated row, from the two entries the C code reads and m. */
  lemma {:induction false} ElimRowAt(M: seq<seq<real>>, n: nat, i: nat, r: nat, c: nat, x: real, y: real, m: real)
    requires IsMatrix(M, n) && i < r < n && PivotUsable(M, n, i) && i < c < n
    requires x == M[r][c] && y == M[i][c] && m == Multiplier(M, n, i, r)
    ensures ElimRow(M, n, i, r)[c] == x - y * m
  {
  }

  /** Eliminating row r after rows i+1 .. r-1: the matrix gets row r from ElimRow. */
  lemma {:induction false} ElimMatrixNext(M: seq<seq<real>>, n: nat, i: nat, r: nat)
    requires IsMatrix(M, n) && i < r < n && PivotUsable(M, n, i)
    ensures ElimMatrix(M, n, i, r)[r := ElimRow(M, n, i, r)] == ElimMatrix(M, n, i, r + 1)
  {
    var X, Y := ElimMatrix(M, n, i, r)[r := ElimRow(M, n, i, r)], ElimMatrix(M, n, i, r + 1);
    assert forall q :: 0 <= q < n ==> X[q] == Y[q];
  }

  /** Eliminating row r of the right-hand side: z = b[r] - b[i] * m, from the entries the
      C code reads. */
  lemma {:induction false} ElimRhsNext(M: seq<seq<real>>, bv: seq<real>, n: nat, i: nat, r: nat, x: real, y: real, m: real, z: real)
    requires IsMatrix(M, n) && |bv| == n && i < r < n && PivotUsable(M, n, i)
    requires x == bv[r] && y == bv[i] && m == Multiplier(M, n, i, r) && z == x - y * m
    ensures ElimRhs(M, bv, n, i, r)[r := z] == ElimRhs(M, bv, n, i, r + 1)
  {
    var X, Y := ElimRhs(M, bv, n, i, r)[r := z], ElimRhs(M, bv, n, i, r + 1);
    assert forall q :: 0 <= q < n ==> X[q] == Y[q];
  }

  /** The sequence s with the elements at i and p exchanged: `trocaLinha` applied to the
      rows of A and to the entries of b. The elements are the same, only in another order. */
  function Swap<T>(s: seq<T>, i: nat, p: nat): (t: seq<T>)
    requires i < |s| && p < |s|
    ensures |t| == |s|
    ensures forall r :: 0 <= r < |s| ==> t[r] == s[SwappedIndex(r, i, p)]
    ensures multiset(t) == multiset(s)
  {
    s[i := s[p]][p := s[i]]
  }

  /** Which original position ends up at r after positions i and p are exchanged. */
  function SwappedIndex(r: nat, i: nat, p: nat): nat
  {
    if r == i then p else if r == p then i else r
  }

  /** The pivot choice of every step: ignored unless pivoting is on, and then a row at or
      below the current one, as `encontraMaxPivo` returns. */
  predicate PivotsInRange(n: nat, pivoting: bool, pivots: seq<nat>)
  {
    pivoting ==> |pivots| == n && forall i :: 0 <= i < n ==> i <= pivots[i] < n
  }

  /** The matrix after the optional row exchange that opens step i: the same rows, and the
      rows above row i, already used as pivots, stay where they are. */
  function PivotMatrix(M: seq<seq<real>>, n: nat, i: nat, pivoting: bool, pivots: seq<nat>): (P: seq<seq<real>>)
    requires IsMatrix(M, n) && i < n && PivotsInRange(n, pivoting, pivots)
    ensures IsMatrix(P, n)
    ensures multiset(P) == multiset(M)
    ensures forall r :: 0 <= r < i ==> P[r] == M[r]
  {
    if pivoting && i != pivots[i] then Swap(M, i, pivots[i]) else M
  }

  /** The right-hand side after the optional row exchange that opens step i: the same
      entries, with those above entry i in place. */
  function PivotRhs(bv: seq<real>, n: nat, i: nat, pivoting: bool, pivots: seq<nat>): (p: seq<real>)
    requires |bv| == n && i < n && PivotsInRange(n, pivoting, pivots)
    ensures |p| == n
    ensures multiset(p) == multiset(bv)
    ensures forall r :: 0 <= r < i ==> p[r] == bv[r]
  {
    if pivoting && i != pivots[i] then Swap(bv, i, pivots[i]) else bv
  }

  /** How a run ends: every step done, or stopped at a step whose pivot is zero while
      rows below it still need a division by it. */
  datatype Outcome =
    | Done(M: seq<seq<real>>, bv: seq<real>)
    | ZeroPivot(step: nat, M: seq<seq<real>>, bv: seq<real>)

  /** Steps i .. n-1 applied to the system (M, bv). */
  function GaussFrom(M: seq<seq<real>>, bv: seq<real>, n: nat, pivoting: bool, pivots: seq<nat>, i: nat): (o: Outcome)
    requires IsMatrix(M, n) && |bv| == n && i <= n && PivotsInRange(n, pivoting, pivots)
    ensures IsMatrix(o.M, n) && |o.bv| == n
    ensures o.ZeroPivot? ==> i <= o.step && o.step + 1 < n && o.M[o.step][o.step] == 0.0
    decreases n - i
  {
    if i == n then Done(M, bv)
    else
      var P := PivotMatrix(M, n, i, pivoting, pivots);
      var p := PivotRhs(bv, n, i, pivoting, pivots);
      if !PivotUsable(P, n, i) then ZeroPivot(i, P, p)
      else GaussFrom(ElimMatrix(P, n, i, n), ElimRhs(P, p, n, i, n), n, pivoting, pivots, i + 1)
  }

  /** Step i of a run: exchange, then stop at a zero pivot or eliminate and go on with
      step i + 1. */
  lemma {:induction false} GaussFromStep(M: seq<seq<real>>, bv: seq<real>, n: nat, pivoting: bool, pivots: seq<nat>, i: nat)
    requires IsMatrix(M, n) && |bv| == n && i < n && PivotsInRange(n, pivoting, pivots)
    ensures var P, p := PivotMatrix(M, n, i, pivoting, pivots), PivotRhs(bv, n, i, pivoting, pivots);
            (!PivotUsable(P, n, i) ==> GaussFrom(M, bv, n, pivoting, pivots, i) == ZeroPivot(i, P, p)) &&
            (PivotUsable(P, n, i) ==>
               GaussFrom(M, bv, n, pivoting, pivots, i) == GaussFrom(ElimMatrix(P, n, i, n), ElimRhs(P, p, n, i, n), n, pivoting, pivots, i + 1))
  {
  }

  /** The whole forward elimination, pivot rows 0 .. n-1. A run that completes leaves the
      matrix upper triangular; a run that stops does so at a zero pivot with rows below it. */
  function Gauss(M: seq<seq<real>>, bv: seq<real>, n: nat, pivoting: bool, pivots: seq<nat>): (o: Outcome)
    requires IsMatrix(M, n) && |bv| == n && PivotsInRange(n, pivoting, pivots)
    ensures IsMatrix(o.M, n) && |o.bv| == n
    ensures o.Done? ==> UpperTriangular(o.M, n)
    ensures o.ZeroPivot? ==> o.step + 1 < n && o.M[o.step][o.step] == 0.0
  {
    GaussFromUpperTriangular(M, bv, n, pivoting, pivots, 0);
    GaussFrom(M, bv, n, pivoting, pivots, 0)
  }

  /** Every entry strictly below the diagonal in the columns before i is zero. */
  predicate ZeroBelowBefore(M: seq<seq<real>>, n: nat, i: nat)
    requires IsMatrix(M, n)
  {
    forall r, c :: 0 <= c < i && c < r < n ==> M[r][c] == 0.0
  }

  /** Every entry strictly below the diagonal is zero. */
  predicate UpperTriangular(M: seq<seq<real>>, n: nat)
    requires IsMatrix(M, n)
  {
    forall r, c :: 0 <= c < r < n ==> M[r][c] == 0.0
  }

  /** Exchanging the pivot row with a row below it keeps the zeros left of column i. */
  lemma {:induction false} PivotKeepsZeroBelow(M: seq<seq<real>>, n: nat, i: nat, pivoting: bool, pivots: seq<nat>)
    requires IsMatrix(M, n) && i < n && PivotsInRange(n, pivoting, pivots) && ZeroBelowBefore(M, n, i)
    ensures ZeroBelowBefore(PivotMatrix(M, n, i, pivoting, pivots), n, i)
  {
  }

  /** Step i adds column i to the zeroed part. */
  lemma {:induction false} ElimExtendsZeroBelow(M: seq<seq<real>>, n: nat, i: nat)
    requires IsMatrix(M, n) && i < n && PivotUsable(M, n, i) && ZeroBelowBefore(M, n, i)
    ensures ZeroBelowBefore(ElimMatrix(M, n, i, n), n, i + 1)
  {
  }

  /** A run that completes leaves every entry below the diagonal exactly zero. */
  lemma {:induction false} GaussFromUpperTriangular(M: seq<seq<real>>, bv: seq<real>, n: nat, pivoting: bool, pivots: seq<nat>, i: nat)
    requires IsMatrix(M, n) && |bv| == n && i <= n && PivotsInRange(n, pivoting, pivots)
    requires ZeroBelowBefore(M, n, i)
    ensures GaussFrom(M, bv, n, pivoting, pivots, i).Done? ==>
            UpperTriangular(GaussFrom(M, bv, n, pivoting, pivots, i).M, n)
    decreases n - i
  {
    if i < n {
      var P := PivotMatrix(M, n, i, pivoting, pivots);
      var p := PivotRhs(bv, n, i, pivoting, pivots);
      PivotKeepsZeroBelow(M, n, i, pivoting, pivots);
      if PivotUsable(P, n, i) {
        ElimExtendsZeroBelow(P, n, i);
        GaussFromUpperTriangular(ElimMatrix(P, n, i, n), ElimRhs(P, p, n, i, n), n, pivoting, pivots, i + 1);
      }
    }
  }

  /** At step i the eliminated row k is the old row k minus m times the pivot row, in
      every column: left of column i because the pivot row is already zero there, and in
      column i because m * A[i][i] == A[k][i], so the exact 0.0 the C code stores is the
      value the subtraction would give. */
  lemma {:induction false} ElimRowCombination(M: seq<seq<real>>, n: nat, i: nat, k: nat)
    requires IsMatrix(M, n) && i < k < n && PivotUsable(M, n, i)
    requires forall c :: 0 <= c < i ==> M[i][c] == 0.0
    ensures forall c :: 0 <= c < n ==> ElimRow(M, n, i, k)[c] == M[k][c] - Multiplier(M, n, i, k) * M[i][c]
  {
    var mu := Multiplier(M, n, i, k);
    assert mu * M[i][i] == M[k][i];
  }

  /** Step i keeps the solution set: x solves the system before the step exactly when it
      solves the system after it. */
  lemma {:induction false} ElimPreservesSolutions(M: seq<seq<real>>, bv: seq<real>, n: nat, i: nat, x: seq<real>)
    requires IsMatrix(M, n) && |bv| == n && |x| == n && i < n && PivotUsable(M, n, i)
    requires forall c :: 0 <= c < i ==> M[i][c] == 0.0
    ensures Solves(M, bv, n, x) <==> Solves(ElimMatrix(M, n, i, n), ElimRhs(M, bv, n, i, n), n, x)
  {
    var E, e := ElimMatrix(M, n, i, n), ElimRhs(M, bv, n, i, n);
    assert E[i] == M[i] && e[i] == bv[i];
    if Dot(M[i], x, n) == bv[i] {
      forall k | i < k < n
        ensures Dot(E[k], x, n) == e[k] <==> Dot(M[k], x, n) == bv[k]
      {
        ElimEquationEquivalent(M, bv, n, i, k, x);
      }
    }
    assert forall r :: 0 <= r <= i ==> E[r] == M[r] && e[r] == bv[r];
  }

  /** Once the pivot equation holds for x, the eliminated equation k holds for x exactly
      when the original equation k does. */
  lemma {:induction false} ElimEquationEquivalent(M: seq<seq<real>>, bv: seq<real>, n: nat, i: nat, k: nat, x: seq<real>)
    requires IsMatrix(M, n) && |bv| == n && |x| == n && i < k < n && PivotUsable(M, n, i)
    requires forall c :: 0 <= c < i ==> M[i][c] == 0.0
    requires Dot(M[i], x, n) == bv[i]
    ensures Dot(ElimMatrix(M, n, i, n)[k], x, n) == ElimRhs(M, bv, n, i, n)[k] <==> Dot(M[k], x, n) == bv[k]
  {
    var mu := Multiplier(M, n, i, k);
    ElimRowCombination(M, n, i, k);
    CombinedEquation(ElimRow(M, n, i, k), M[k], M[i], x, mu, ElimRhs(M, bv, n, i, n)[k], bv[k], bv[i]);
  }

  /** Exchanging two equations keeps the solution set. */
  lemma {:induction false} SwapPreservesSolutions(M: seq<seq<real>>, bv: seq<real>, n: nat, i: nat, p: nat, x: seq<real>)
    requires IsMatrix(M, n) && |bv| == n && |x| == n && i < n && p < n
    ensures Solves(M, bv, n, x) <==> Solves(Swap(M, i, p), Swap(bv, i, p), n, x)
  {
    if Solves(Swap(M, i, p), Swap(bv, i, p), n, x) {
      forall r | 0 <= r < n
        ensures Dot(M[r], x, n) == bv[r]
      {
        var r' := SwappedIndex(r, i, p);
        assert SwappedIndex(r', i, p) == r;
        assert Dot(Swap(M, i, p)[r'], x, n) == Swap(bv, i, p)[r'];
      }
    }
  }

  /** The optional row exchange that opens step i keeps the solution set. */
  lemma {:induction false} PivotPreservesSolutions(M: seq<seq<real>>, bv: seq<real>, n: nat, i: nat, pivoting: bool, pivots: seq<nat>, x: seq<real>)
    requires IsMatrix(M, n) && |bv| == n && |x| == n && i < n && PivotsInRange(n, pivoting, pivots)
    ensures Solves(PivotMatrix(M, n, i, pivoting, pivots), PivotRhs(bv, n, i, pivoting, pivots), n, x) <==> Solves(M, bv, n, x)
  {
    if pivoting && i != pivots[i] {
      SwapPreservesSolutions(M, bv, n, i, pivots[i], x);
    }
  }

  /** Steps i .. n-1 keep the solution set, whether the run completes or stops at a zero
      pivot: the returned system has exactly the solutions of the one passed in. */
  lemma {:induction false} GaussFromPreservesSolutions(M: seq<seq<real>>, bv: seq<real>, n: nat, pivoting: bool, pivots: seq<nat>, i: nat, x: seq<real>)
    requires IsMatrix(M, n) && |bv| == n && |x| == n && i <= n && PivotsInRange(n, pivoting, pivots)
    requires ZeroBelowBefore(M, n, i)
    ensures Solves(GaussFrom(M, bv, n, pivoting, pivots, i).M, GaussFrom(M, bv, n, pivoting, pivots, i).bv, n, x)
            <==> Solves(M, bv, n, x)
    decreases n - i
  {
    var o := GaussFrom(M, bv, n, pivoting, pivots, i);
    if i < n {
      var P := PivotMatrix(M, n, i, pivoting, pivots);
      var p := PivotRhs(bv, n, i, pivoting, pivots);
      GaussFromStep(M, bv, n, pivoting, pivots, i);
      PivotPreservesSolutions(M, bv, n, i, pivoting, pivots, x);
      if PivotUsable(P, n, i) {
        var E, e := ElimMatrix(P, n, i, n), ElimRhs(P, p, n, i, n);
        PivotKeepsZeroBelow(M, n, i, pivoting, pivots);
        ElimPreservesSolutions(P, p, n, i, x);
        ElimExtendsZeroBelow(P, n, i);
        var o' := GaussFrom(E, e, n, pivoting, pivots, i + 1);
        GaussFromPreservesSolutions(E, e, n, pivoting, pivots, i + 1, x);
        assert o == o';
      } else {
        assert o == ZeroPivot(i, P, p);
      }
    } else {
      assert o == Done(M, bv);
    }
  }

  /** The forward elimination either completes, leaving an upper triangular system with
      exactly the solutions of the original one, or stops at a step whose pivot is zero
      with rows still below it, again without changing the solution set. */
  lemma {:induction false} GaussCorrect(M: seq<seq<real>>, bv: seq<real>, n: nat, pivoting: bool, pivots: seq<nat>, x: seq<real>)
    requires IsMatrix(M, n) && |bv| == n && |x| == n && PivotsInRange(n, pivoting, pivots)
    ensures var o := Gauss(M, bv, n, pivoting, pivots);
            (o.Done? ==> UpperTriangular(o.M, n)) &&
            (o.ZeroPivot? ==> o.step + 1 < n && o.M[o.step][o.step] == 0.0) &&
            (Solves(o.M, o.bv, n, x) <==> Solves(M, bv, n, x))
  {
    GaussFromPreservesSolutions(M, bv, n, pivoting, pivots, 0, x);
  }
}
