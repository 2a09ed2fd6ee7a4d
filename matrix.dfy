/** Matrices as `SistLinear_t` stores them and as the specification reads them.

    The C code keeps an n-by-n matrix in one flat array, row after row: entry (r, c)
    lives at position r*n + c. The specification functions work on the row-by-row view
    (a sequence of n rows of n reals each); `Grid` turns the flat contents into that view. */
module Matrix {

  /** Position of entry (r, c) in the flat array: past r full rows of n entries, then c
      more. `IdxInRange` gives its closed form r*n + c. */
  function Idx(n: nat, r: nat, c: nat): nat
  {
    if r == 0 then c else n + Idx(n, r - 1, c)
  }

  lemma {:induction false} IdxFormula(n: nat, r: nat, c: nat)
    ensures Idx(n, r, c) == r * n + c
  {
    if r > 0 {
      IdxFormula(n, r - 1, c);
      assert (r - 1) * n + n == r * n;
    }
  }

  /** The position of (r, c) is r*n + c, inside the n*n entries. */
  lemma {:induction false} IdxInRange(n: nat, r: nat, c: nat)
    requires r < n && c < n
    ensures Idx(n, r, c) == r * n + c && Idx(n, r, c) < n * n
  {
    IdxFormula(n, r, c);
    assert r * n + n == (r + 1) * n;
    assert (r + 1) * n <= n * n by {
      assert r + 1 <= n;
    }
  }

  lemma {:induction false} MulAtLeast(k: int, n: nat)
    ensures k >= 1 ==> k * n >= n
  {
  }

  /** Distinct entries occupy distinct positions. */
  lemma {:induction false} IdxInjective(n: nat, r: nat, c: nat, r': nat, c': nat)
    requires c < n && c' < n
    ensures Idx(n, r, c) == Idx(n, r', c') <==> r == r' && c == c'
  {
    IdxFormula(n, r, c);
    IdxFormula(n, r', c');
    if Idx(n, r, c) == Idx(n, r', c') {
      assert (r - r') * n == c' - c;
      assert (r' - r) * n == c - c';
      MulAtLeast(r - r', n);
      MulAtLeast(r' - r, n);
    }
  }

  /** M has n rows of n entries each. */
  predicate IsMatrix(M: seq<seq<real>>, n: nat)
  {
    |M| == n && forall r :: 0 <= r < n ==> |M[r]| == n
  }

  /** Entry (r, c) of a flat array of n*n reals, `A[r*n+c]` in the C code. */
  function At(a: seq<real>, n: nat, r: nat, c: nat): real
    requires |a| == n * n && r < n && c < n
  {
    IdxInRange(n, r, c);
    a[Idx(n, r, c)]
  }

  /** The flat array a holds the matrix M, row after row. */
  predicate Stores(a: seq<real>, n: nat, M: seq<seq<real>>)
    requires |a| == n * n && IsMatrix(M, n)
  {
    forall r, c {:trigger At(a, n, r, c)} :: 0 <= r < n && 0 <= c < n ==> At(a, n, r, c) == M[r][c]
  }

  /** The row-by-row view of a flat array of n*n reals. */
  function Grid(a: seq<real>, n: nat): (M: seq<seq<real>>)
    requires |a| == n * n
    ensures IsMatrix(M, n)
  {
    seq(n, r requires 0 <= r < n => seq(n, c requires 0 <= c < n => At(a, n, r, c)))
  }

  /** The row-by-row view holds the entries of the flat array. */
  lemma {:induction false} GridStores(a: seq<real>, n: nat)
    requires |a| == n * n
    ensures Stores(a, n, Grid(a, n))
  {
  }

  /** A flat array holds exactly one matrix: its row-by-row view. */
  lemma {:induction false} StoresGrid(a: seq<real>, n: nat, M: seq<seq<real>>)
    requires |a| == n * n && IsMatrix(M, n) && Stores(a, n, M)
    ensures Grid(a, n) == M
  {
    var G := Grid(a, n);
    forall r | 0 <= r < n
      ensures G[r] == M[r]
    {
      assert forall c :: 0 <= c < n ==> G[r][c] == M[r][c];
    }
  }

  /** Writing v at position r*n + c changes entry (r, c) to v and no other entry. */
  lemma {:induction false} AtUpdate(a: seq<real>, n: nat, r: nat, c: nat, v: real)
    requires |a| == n * n && r < n && c < n
    ensures Idx(n, r, c) < |a| && At(a[Idx(n, r, c) := v], n, r, c) == v
    ensures forall r', c' :: 0 <= r' < n && 0 <= c' < n && (r' != r || c' != c) ==>
              At(a[Idx(n, r, c) := v], n, r', c') == At(a, n, r', c')
  {
    IdxInRange(n, r, c);
    var q := Idx(n, r, c);
    forall r', c' | 0 <= r' < n && 0 <= c' < n && (r' != r || c' != c)
      ensures At(a[q := v], n, r', c') == At(a, n, r', c')
    {
      IdxInRange(n, r', c');
      IdxInjective(n, r, c, r', c');
    }
  }

  /** Writing v at position r*n + c of a flat array that holds M makes it hold M with
      entry (r, c) replaced by v. */
  lemma {:induction false} StoresUpdate(a: seq<real>, n: nat, M: seq<seq<real>>, r: nat, c: nat, v: real)
    requires |a| == n * n && IsMatrix(M, n) && Stores(a, n, M) && r < n && c < n
    ensures Idx(n, r, c) < |a| && IsMatrix(M[r := M[r][c := v]], n)
    ensures Stores(a[Idx(n, r, c) := v], n, M[r := M[r][c := v]])
  {
    AtUpdate(a, n, r, c, v);
    var a', M' := a[Idx(n, r, c) := v], M[r := M[r][c := v]];
    forall r', c' | 0 <= r' < n && 0 <= c' < n
      ensures At(a', n, r', c') == M'[r'][c']
    {
      if r' != r || c' != c {
        assert At(a, n, r', c') == M[r'][c'];
      }
    }
  }

  /** A row whose first j entries have been overwritten, one by one, with those of target. */
  function Overwritten(target: seq<real>, row: seq<real>, j: nat): (w: seq<real>)
    requires |target| == |row| && j <= |row|
    ensures |w| == |row|
  {
    if j == 0 then row else Overwritten(target, row, j - 1)[j - 1 := target[j - 1]]
  }

  /** Entry c of an overwritten row comes from target before j and from row after. */
  lemma {:induction false} OverwrittenAt(target: seq<real>, row: seq<real>, j: nat, c: nat)
    requires |target| == |row| && j <= |row| && c < |row|
    ensures Overwritten(target, row, j)[c] == if c < j then target[c] else row[c]
  {
    if j > 0 {
      OverwrittenAt(target, row, j - 1, c);
    }
  }

  /** Overwriting entry j next extends the overwritten prefix by one; before that write,
      entry j still holds its original value. */
  lemma {:induction false} OverwriteStep(target: seq<real>, row: seq<real>, j: nat)
    requires |target| == |row| && j < |row|
    ensures Overwritten(target, row, j)[j] == row[j]
    ensures Overwritten(target, row, j)[j := target[j]] == Overwritten(target, row, j + 1)
  {
    OverwrittenAt(target, row, j, j);
  }

  /** Nothing overwritten is the row itself; everything overwritten is the target. */
  lemma {:induction false} OverwriteEnds(target: seq<real>, row: seq<real>)
    requires |target| == |row|
    ensures Overwritten(target, row, 0) == row
    ensures Overwritten(target, row, |row|) == target
  {
    forall c | 0 <= c < |row|
      ensures Overwritten(target, row, |row|)[c] == target[c]
    {
      OverwrittenAt(target, row, |row|, c);
    }
  }

  /** The flat array a holds M except that the first j entries of row dst have been
      replaced by those of target: the state of a loop that rewrites row dst column by
      column. */
  predicate RowPartly(a: seq<real>, n: nat, M: seq<seq<real>>, dst: nat, target: seq<real>, j: nat)
  {
    |a| == n * n && IsMatrix(M, n) && dst < n && |target| == n && j <= n &&
    Stores(a, n, M[dst := Overwritten(target, M[dst], j)])
  }

  /** A row loop may start at column j when the target agrees with row dst before j. */
  lemma {:induction false} RowPartlyStart(a: seq<real>, n: nat, M: seq<seq<real>>, dst: nat, target: seq<real>, j: nat)
    requires |a| == n * n && IsMatrix(M, n) && Stores(a, n, M) && dst < n && |target| == n && j <= n
    requires forall c :: 0 <= c < j ==> target[c] == M[dst][c]
    ensures RowPartly(a, n, M, dst, target, j)
  {
    forall c | 0 <= c < n
      ensures Overwritten(target, M[dst], j)[c] == M[dst][c]
    {
      OverwrittenAt(target, M[dst], j, c);
    }
    assert M[dst := M[dst]] == M;
  }

  /** Before column j is written, entry (r, j) still holds M[r][j], in every row r. */
  lemma {:induction false} RowPartlyRead(a: seq<real>, n: nat, M: seq<seq<real>>, dst: nat, target: seq<real>, j: nat, r: nat)
    requires RowPartly(a, n, M, dst, target, j) && j < n && r < n
    ensures Idx(n, r, j) < |a| && a[Idx(n, r, j)] == M[r][j]
  {
    IdxInRange(n, r, j);
    var cur := M[dst := Overwritten(target, M[dst], j)];
    OverwriteStep(target, M[dst], j);
    assert cur[r][j] == M[r][j];
    assert At(a, n, r, j) == cur[r][j];
  }

  /** Writing v = target[j] at (dst, j) extends the rewritten part of row dst by one column. */
  lemma {:induction false} RowPartlyStep(a: seq<real>, n: nat, M: seq<seq<real>>, dst: nat, target: seq<real>, j: nat, v: real)
    requires RowPartly(a, n, M, dst, target, j) && j < n && v == target[j]
    ensures Idx(n, dst, j) < |a| && RowPartly(a[Idx(n, dst, j) := v], n, M, dst, target, j + 1)
  {
    var cur := M[dst := Overwritten(target, M[dst], j)];
    StoresUpdate(a, n, cur, dst, j, v);
    OverwriteStep(target, M[dst], j);
    assert cur[dst := cur[dst][j := v]] == M[dst := Overwritten(target, M[dst], j + 1)];
  }

  /** Once every column is written, the array holds M with row dst replaced by target. */
  lemma {:induction false} RowPartlyDone(a: seq<real>, n: nat, M: seq<seq<real>>, dst: nat, target: seq<real>)
    requires RowPartly(a, n, M, dst, target, n)
    ensures Grid(a, n) == M[dst := target]
  {
    OverwriteEnds(target, M[dst]);
    StoresGrid(a, n, M[dst := target]);
  }

  /** The flat array a holds G except that, in the first j columns, rows i and p have been
      exchanged: the state of a loop that swaps two rows column by column. */
  predicate SwapPartly(a: seq<real>, n: nat, G: seq<seq<real>>, i: nat, p: nat, j: nat)
  {
    |a| == n * n && IsMatrix(G, n) && i < n && p < n && i != p && j <= n &&
    Stores(a, n, G[i := Overwritten(G[p], G[i], j)][p := Overwritten(G[i], G[p], j)])
  }

  lemma {:induction false} SwapPartlyStart(a: seq<real>, n: nat, G: seq<seq<real>>, i: nat, p: nat)
    requires |a| == n * n && IsMatrix(G, n) && Stores(a, n, G) && i < n && p < n && i != p
    ensures SwapPartly(a, n, G, i, p, 0)
  {
    OverwriteEnds(G[p], G[i]);
    OverwriteEnds(G[i], G[p]);
    assert G[i := G[i]][p := G[p]] == G;
  }

  /** Column j of rows i and p still holds G; exchanging the two entries in place extends
      the exchanged part by one column. */
  lemma {:induction false} SwapPartlyStep(a: seq<real>, n: nat, G: seq<seq<real>>, i: nat, p: nat, j: nat)
    requires SwapPartly(a, n, G, i, p, j) && j < n
    ensures Idx(n, i, j) < |a| && Idx(n, p, j) < |a|
    ensures SwapPartly(a[Idx(n, i, j) := a[Idx(n, p, j)]][Idx(n, p, j) := a[Idx(n, i, j)]], n, G, i, p, j + 1)
  {
    var cur := G[i := Overwritten(G[p], G[i], j)][p := Overwritten(G[i], G[p], j)];
    OverwriteStep(G[p], G[i], j);
    OverwriteStep(G[i], G[p], j);
    IdxInRange(n, i, j);
    IdxInRange(n, p, j);
    assert At(a, n, i, j) == cur[i][j] == G[i][j];
    assert At(a, n, p, j) == cur[p][j] == G[p][j];
    StoresUpdate(a, n, cur, i, j, G[p][j]);
    var cur1 := cur[i := cur[i][j := G[p][j]]];
    var a1 := a[Idx(n, i, j) := G[p][j]];
    StoresUpdate(a1, n, cur1, p, j, G[i][j]);
    assert cur1[p := cur1[p][j := G[i][j]]] ==
           G[i := Overwritten(G[p], G[i], j + 1)][p := Overwritten(G[i], G[p], j + 1)];
  }

  lemma {:induction false} SwapPartlyDone(a: seq<real>, n: nat, G: seq<seq<real>>, i: nat, p: nat)
    requires SwapPartly(a, n, G, i, p, n)
    ensures Grid(a, n) == G[i := G[p]][p := G[i]]
  {
    OverwriteEnds(G[p], G[i]);
    OverwriteEnds(G[i], G[p]);
    StoresGrid(a, n, G[i := G[p]][p := G[i]]);
  }

  /** Sum of u[j] * x[j] over the columns j < m, accumulated left to right as the inner
      loop of `normaL2Residuo` does. */
  function Dot(u: seq<real>, x: seq<real>, m: nat): real
    requires |u| == |x| && m <= |x|
  {
    if m == 0 then 0.0
    else Dot(u, x, m - 1) + u[m - 1] * x[m - 1]
  }

  /** One more column of the dot product: u[j] * x[j] added to the partial sum. */
  lemma {:induction false} DotNext(u: seq<real>, x: seq<real>, j: nat, uj: real, xj: real)
    requires |u| == |x| && j < |x| && uj == u[j] && xj == x[j]
    ensures Dot(u, x, j + 1) == Dot(u, x, j) + uj * xj
  {
  }

  /** x satisfies every equation of the system (M, bv): for each row r, M[r] . x == bv[r]. */
  predicate Solves(M: seq<seq<real>>, bv: seq<real>, n: nat, x: seq<real>)
    requires IsMatrix(M, n) && |bv| == n && |x| == n
  {
    forall r :: 0 <= r < n ==> Dot(M[r], x, n) == bv[r]
  }

  /** The dot product is linear in the row: if w = u - mu * v entry by entry, then
      w . x = u . x - mu * (v . x). */
  lemma {:induction false} DotCombination(w: seq<real>, u: seq<real>, v: seq<real>, x: seq<real>, mu: real, m: nat)
    requires |w| == |u| == |v| == |x| && m <= |x|
    requires forall c :: 0 <= c < |w| ==> w[c] == u[c] - mu * v[c]
    ensures Dot(w, x, m) == Dot(u, x, m) - mu * Dot(v, x, m)
  {
    if m > 0 {
      var j := m - 1;
      DotCombination(w, u, v, x, mu, j);
      Distribute(Dot(w, x, j), Dot(u, x, j), Dot(v, x, j), u[j], v[j], x[j], mu);
    }
  }

  /** The arithmetic of one column of DotCombination. */
  lemma {:induction false} Distribute(d: real, du: real, dv: real, uj: real, vj: real, xj: real, mu: real)
    requires d == du - mu * dv
    ensures d + (uj - mu * vj) * xj == (du + uj * xj) - mu * (dv + vj * xj)
  {
    assert (uj - mu * vj) * xj == uj * xj - mu * (vj * xj);
  }

  /** Subtracting mu times a satisfied equation v . x == bi from the equation u . x == bk
      gives an equation that x satisfies exactly when it satisfies u . x == bk. */
  lemma {:induction false} CombinedEquation(w: seq<real>, u: seq<real>, v: seq<real>, x: seq<real>, mu: real, bw: real, bu: real, bv: real)
    requires |w| == |u| == |v| == |x|
    requires forall c :: 0 <= c < |w| ==> w[c] == u[c] - mu * v[c]
    requires bw == bu - bv * mu
    requires Dot(v, x, |x|) == bv
    ensures Dot(w, x, |x|) == bw <==> Dot(u, x, |x|) == bu
  {
    var m := |x|;
    DotCombination(w, u, v, x, mu, m);
    SubtractEquation(Dot(w, x, m), Dot(u, x, m), Dot(v, x, m), bw, bu, bv, mu);
  }

  lemma {:induction false} SubtractEquation(dw: real, du: real, dv: real, bw: real, bu: real, bv: real, mu: real)
    requires dw == du - mu * dv && bw == bu - bv * mu && dv == bv
    ensures dw == bw <==> du == bu
  {
  }

  /** A row of zeros has a zero dot product with every x. */
  lemma {:induction false} DotZero(u: seq<real>, x: seq<real>, m: nat)
    requires |u| == |x| && m <= |x|
    requires forall c :: 0 <= c < |u| ==> u[c] == 0.0
    ensures Dot(u, x, m) == 0.0
  {
    if m > 0 {
      DotZero(u, x, m - 1);
    }
  }

  /** Scaling a row scales its dot product: if w = mu * u entry by entry, w . x = mu * (u . x). */
  lemma {:induction false} DotScale(w: seq<real>, u: seq<real>, x: seq<real>, mu: real, m: nat)
    requires |w| == |u| == |x| && m <= |x|
    requires forall c :: 0 <= c < |w| ==> w[c] == u[c] * mu
    ensures Dot(w, x, m) == mu * Dot(u, x, m)
  {
    if m > 0 {
      var j := m - 1;
      DotScale(w, u, x, mu, j);
      assert (u[j] * mu) * x[j] == mu * (u[j] * x[j]);
    }
  }

  /** Adding rows adds their dot products: if w = u + v entry by entry, w . x = u . x + v . x. */
  lemma {:induction false} DotSum(w: seq<real>, u: seq<real>, v: seq<real>, x: seq<real>, m: nat)
    requires |w| == |u| == |v| == |x| && m <= |x|
    requires forall c :: 0 <= c < |w| ==> w[c] == u[c] + v[c]
    ensures Dot(w, x, m) == Dot(u, x, m) + Dot(v, x, m)
  {
    if m > 0 {
      DotSum(w, u, v, x, m - 1);
      assert (u[m - 1] + v[m - 1]) * x[m - 1] == u[m - 1] * x[m - 1] + v[m - 1] * x[m - 1];
    }
  }

  /** The equation w . x == bw, built as mult times the equation u . x == bu, holds
      wherever that one holds. */
  lemma {:induction false} ScaledEquation(w: seq<real>, u: seq<real>, x: seq<real>, mult: real, bw: real, bu: real)
    requires |w| == |u| == |x|
    requires forall c :: 0 <= c < |w| ==> w[c] == u[c] * mult
    requires bw == bu * mult
    ensures Dot(u, x, |x|) == bu ==> Dot(w, x, |x|) == bw
  {
    var m := |x|;
    DotScale(w, u, x, mult, m);
    ScaleBoth(Dot(w, x, m), Dot(u, x, m), bw, bu, mult);
  }

  lemma {:induction false} ScaleBoth(dw: real, du: real, bw: real, bu: real, mult: real)
    requires dw == mult * du && bw == bu * mult
    ensures du == bu ==> dw == bw
  {
  }

  /** The equation w . x == bw, built as the sum of the equations u . x == bu and
      v . x == bv, holds wherever both of those hold. */
  lemma {:induction false} SumOfEquations(w: seq<real>, u: seq<real>, v: seq<real>, x: seq<real>, bw: real, bu: real, bv: real)
    requires |w| == |u| == |v| == |x|
    requires forall c :: 0 <= c < |w| ==> w[c] == u[c] + v[c]
    requires bw == bu + bv
    ensures Dot(w, x, |x|) == Dot(u, x, |x|) + Dot(v, x, |x|)
    ensures Dot(u, x, |x|) == bu && Dot(v, x, |x|) == bv ==> Dot(w, x, |x|) == bw
  {
    DotSum(w, u, v, x, |x|);
  }
}
