# Linear systems in place: a Dafny model of `SistemasLineares.c`

This project models the core of a small C library for dense linear systems
`A x = b`. The system type is `SistLinear_t`. It holds the order `n`, the n×n
coefficients in one flat array stored row after row (entry (i, j) at `A[i*n+j]`), and
the right-hand side `b`. The model covers four operations:

- `alocaSistLinear` allocates a system of order `tam`.
- `inicializaSistLinear` fills a system with test data:
  - it draws b from `rand()` scaled to `coef_max`, then draws A the same way or uses
    the Hilbert matrix;
  - it then alters the system according to its kind:
    - zero one equation;
    - make one equation a multiple of the next one;
    - make one equation the sum of the next two;
    - multiply the diagonal by n.
- `eliminacaoGauss` runs forward elimination in place, optionally with partial
  pivoting.
- `normaL2Residuo` computes the L2 norm of the residual `b - A x`.

The model is split into five files:

- `matrix.dfy` (module `Matrix`):
  - the flat-array layout, and `Grid`, the row-by-row view of it;
  - the loop-state predicates of the row-rewriting and row-exchange loops;
  - the dot product, and what it means for x to solve a system.
- `residual.dfy` (module `Residual`): the squared residual norm.
- `elimination.dfy` (module `Elimination`):
  - one elimination step as a closed-form function;
  - the optional row exchange;
  - the whole run `Gauss`, with its outcome;
  - proofs that a completed run leaves the matrix upper triangular and that every step
    keeps the solution set.
- `generator.dfy` (module `Generator`):
  - the systems the generator builds, as functions of the values `rand()` returns;
  - the properties each kind of system is built to have.
- `sistema.dfy` (module `LinearSystem`):
  - the class `SistLinear`, with its arrays `A` and `b`;
  - the C functions as methods with loops over those arrays, each proved against the
    specification functions above.

Each C loop body that rewrites an entry or a row is a small method of its own:
`EscreveEntrada`, `TrocaColuna`, `EscalaDiagonal`, `SubtraiPivo`, `EliminaLinha`,
`EliminaAbaixo` and `PassoGauss`. Their statements follow the C statements in order,
with two exceptions:

- `PassoGauss` adds a test for a zero pivot, with an early return, that
  `eliminacaoGauss` does not have.
- `TrocaLinha` and `TrocaColuna` stand for `trocaLinha`, whose body is not in
  `SistemasLineares.c`.

Two further points about the code:

- `eliminacaoGauss` only eliminates forward, in place. It never writes `x`, and it
  always returns 0 (lines 44-62).
- `normaL2Residuo` does not check the length of `x`. The model requires
  `x.Length == n`.

## Model

| member | source | states |
|---|---|---|
| LinearSystem.SistLinear.constructor | SistemasLineares.c:99-113 | A new system has order tam, n*n coefficient slots and n right-hand side slots, in two distinct fresh arrays |
| LinearSystem.SistLinear.NormaL2Residuo | SistemasLineares.c:14-26 | The value accumulated row by row is the sum of the squared residual components; it is never negative, and it is zero exactly when x solves the system |
| Residual.ResidualSq | SistemasLineares.c:19-25 | The sum of the squared residual components over the first m rows, accumulated in row order, is never negative, so the square root at line 25 is defined |
| Residual.ResidualSqZeroPrefix | SistemasLineares.c:19-24 | After m rows, the partial sum is zero exactly when each of those m equations holds for x |
| Residual.ResidualSqZeroIffSolves | SistemasLineares.c:14-26 | The residual norm is zero if and only if x satisfies every equation |
| Residual.SquareSign | SistemasLineares.c:23 | `pow(v, 2)` is never negative, and it is positive for v ≠ 0 |
| Matrix.IdxInRange | SistemasLineares.c:22 | Entry (i, j) lives at i*n + j, inside the n*n slots |
| Matrix.IdxInjective | SistemasLineares.c:145 | Distinct entries (i, j) occupy distinct positions i*n + j |
| Matrix.StoresGrid | SistemasLineares.c:103 | A flat array of n*n reals holds exactly one matrix: its row-by-row view |
| Matrix.StoresUpdate | SistemasLineares.c:145 | Writing A[r*n+c] changes entry (r, c) of the matrix and no other entry |
| Matrix.RowPartlyRead | SistemasLineares.c:170 | Before column j of the destination row is written, entry (r, j) of every row still holds its original value |
| Matrix.RowPartlyStep | SistemasLineares.c:159-161 | Writing the next column of a row being rewritten extends the rewritten prefix by one column and changes nothing else |
| Matrix.RowPartlyDone | SistemasLineares.c:179-181 | After all columns are written, the matrix is the old one with only the destination row replaced |
| Matrix.SwapPartlyStep | SistemasLineares.c:46-47 | Exchanging column j of rows i and p extends the exchanged part by one column |
| Matrix.SwapPartlyDone | SistemasLineares.c:46-47 | After all columns are exchanged, the matrix is the old one with rows i and p swapped |
| Matrix.CombinedEquation | SistemasLineares.c:52-58 | Subtracting m times an equation that x satisfies leaves an equation that x satisfies exactly when it satisfies the original one |
| Matrix.ScaledEquation | SistemasLineares.c:169-172 | An equation built as mult times another is satisfied wherever the other one is |
| Matrix.SumOfEquations | SistemasLineares.c:179-182 | An equation built as the sum of two others is satisfied wherever both of them are |
| Matrix.DotZero | SistemasLineares.c:159-162 | An all-zero row has a zero dot product with every x |
| Elimination.Swap | SistemasLineares.c:46-47 | After the exchange, position r holds what was at SwappedIndex(r, i, p) (rows i and p trade places, every other row stays) |
| Elimination.PivotMatrix | SistemasLineares.c:45-48 | The optional exchange by the pivot row keeps the same rows (as a multiset), and leaves the rows above row i, already used as pivots, in place |
| Elimination.PivotRhs | SistemasLineares.c:45-48 | The optional exchange keeps the same right-hand side entries (as a multiset), and leaves the entries above entry i in place |
| Elimination.ElimRow | SistemasLineares.c:52-56 | From column i on, the eliminated row equals the old row k minus m times the pivot row, so the exact 0.0 stored at line 53 is the value the subtraction gives; earlier columns are kept |
| Elimination.ElimMatrix | SistemasLineares.c:51-59 | Eliminating rows i+1 .. upto-1 keeps the pivot row and the rows above it, keeps each eliminated row left of column i, and leaves a zero in column i of each eliminated row |
| Elimination.ElimRhs | SistemasLineares.c:57 | Eliminating the right-hand side keeps the entries of the pivot equation and of the equations above it |
| Elimination.ElimMatrixNext | SistemasLineares.c:51-59 | Eliminating row k after rows i+1..k-1 replaces row k alone |
| Elimination.ElimRhsNext | SistemasLineares.c:57 | b[k] -= b[i] * m replaces entry k of the right-hand side alone |
| Elimination.GaussFrom | SistemasLineares.c:44-60 | Steps i .. n-1 yield an n×n system; a run that stops does so at a step at or after i whose pivot is zero while a row below it remains |
| Elimination.PivotKeepsZeroBelow | SistemasLineares.c:45-48 | Exchanging the pivot row with a lower row keeps the zeros already made left of column i |
| Elimination.ElimExtendsZeroBelow | SistemasLineares.c:51-59 | Step i extends the zeroed lower part to column i |
| Elimination.GaussFromUpperTriangular | SistemasLineares.c:44-60 | A run that completes leaves every entry below the diagonal exactly zero |
| Elimination.Gauss | SistemasLineares.c:38-63 | A completed forward elimination leaves the matrix upper triangular; one that stops does so at a zero pivot with rows still below it |
| Elimination.ElimRowCombination | SistemasLineares.c:52-57 | When the pivot row is already zero left of column i, as earlier steps leave it, the eliminated row is the old row minus m times the pivot row in every column |
| Elimination.ElimEquationEquivalent | SistemasLineares.c:52-58 | Once the pivot equation holds, the eliminated equation k holds exactly when the original equation k does |
| Elimination.ElimPreservesSolutions | SistemasLineares.c:51-59 | A step keeps the solution set, in both directions |
| Elimination.SwapPreservesSolutions | SistemasLineares.c:46-47 | Exchanging two equations keeps the solution set |
| Elimination.PivotPreservesSolutions | SistemasLineares.c:45-48 | The optional exchange by the pivot row keeps the solution set |
| Elimination.GaussFromPreservesSolutions | SistemasLineares.c:44-60 | Steps i..n-1 keep the solution set, whether they complete or stop at a zero pivot |
| Elimination.GaussCorrect | SistemasLineares.c:38-63 | The run either completes with an upper triangular matrix or stops at a zero pivot that has rows below it, and in both cases it has exactly the solutions of the original system |
| LinearSystem.SistLinear.EliminacaoGauss | SistemasLineares.c:38-63 | The final A and b are those of `Gauss` on the initial ones. The method returns 0 when every step completes, and -1 exactly when it stops at a zero pivot |
| LinearSystem.SistLinear.PassoGauss | SistemasLineares.c:44-59 | Step i: it exchanges rows when asked, reports a zero pivot with rows below it, and otherwise leaves A and b as step i of the specification computes them |
| LinearSystem.SistLinear.TrocaLinha | SistemasLineares.c:46-47 | Rows i and p of A, and entries i and p of b, are exchanged, and nothing else changes |
| LinearSystem.SistLinear.TrocaColuna | SistemasLineares.c:47 | Exchanging column j of rows i and p keeps the invariant of the row-exchange loop one column further |
| LinearSystem.SistLinear.EliminaAbaixo | SistemasLineares.c:51-59 | After the k loop, A and b are the result of eliminating every row below the pivot |
| LinearSystem.SistLinear.EliminaLinha | SistemasLineares.c:52-58 | One pass of the k loop eliminates row k of A and b, and no other row |
| LinearSystem.SistLinear.SubtraiPivo | SistemasLineares.c:55-56 | The j loop writes columns i+1..n-1 of the eliminated row and no other entry |
| LinearSystem.SistLinear.EscreveEntrada | SistemasLineares.c:160 | Writing the next entry of a row being rewritten keeps the row-loop invariant one column further |
| LinearSystem.SistLinear.InicializaSistLinear | SistemasLineares.c:131-192 | A and b end up as the system `Inicializa` builds from the given draws of `rand()`, for every kind |
| Generator.Inicializa | SistemasLineares.c:131-192 | Whatever the kind, the built system is n×n, and b holds the scaled draws in every entry except the one equation that eqNula, eqProporcional or eqCombLinear alters |
| Generator.ScaledInRange | SistemasLineares.c:134-139 | A scaled draw lies in [0, coef_max]. The interval is closed at the top: the draw RAND_MAX gives exactly coef_max |
| Generator.RandomFillInRange | SistemasLineares.c:137-155 | Every random coefficient and right-hand side entry lies in [0, coef_max] |
| LinearSystem.SistLinear.PreencheHilbert | SistemasLineares.c:142-148 | A becomes the Hilbert matrix of order n |
| Generator.HilbertMatrix | SistemasLineares.c:142-148 | The Hilbert matrix is symmetric, its entries lie in (0, 1], and only entry (0, 0) equals 1 |
| LinearSystem.SistLinear.PreencheAleatoria | SistemasLineares.c:151-155 | A becomes the matrix of scaled draws, consumed row after row |
| LinearSystem.SistLinear.AnulaEquacao | SistemasLineares.c:156-163 | Row nula of A and b[nula] become zero, and nothing else changes |
| Generator.NullEquation | SistemasLineares.c:156-163 | Equation nula becomes all zeros on both sides, and every other equation is untouched |
| Generator.NullEquationProperties | SistemasLineares.c:156-163 | The zeroed equation holds for every x, so it no longer constrains the solution |
| LinearSystem.SistLinear.EquacaoProporcional | SistemasLineares.c:164-173 | Row propDst and b[propDst] become mult times row (propDst+1) mod n and its b entry, and nothing else changes |
| Generator.ProportionalEquation | SistemasLineares.c:164-173 | Only equation dst changes; every other equation is untouched |
| Generator.NextRows | SistemasLineares.c:167 | (dst+1) mod n and (dst+2) mod n are the rows that cyclically follow dst |
| Generator.ProportionalEquationDependent | SistemasLineares.c:164-173 | For n ≥ 2 the altered equation is mult times a distinct, unchanged equation, so every solution of that one satisfies it |
| LinearSystem.SistLinear.EquacaoCombLinear | SistemasLineares.c:174-183 | Row combDst and b[combDst] become the sum of rows (combDst+1) mod n and (combDst+2) mod n, and of their b entries; nothing else changes |
| Generator.SumEquation | SistemasLineares.c:174-183 | Only equation dst changes; every other equation is untouched |
| Generator.SumEquationDependent | SistemasLineares.c:174-183 | For n ≥ 3 the altered equation is the sum of two distinct, unchanged equations, so every common solution of those satisfies it |
| LinearSystem.SistLinear.DiagonalDominante | SistemasLineares.c:184-189 | Every diagonal coefficient is multiplied by n, and every other coefficient is kept |
| Generator.ScaledDiagonal | SistemasLineares.c:184-189 | Each diagonal entry is multiplied by n, and each off-diagonal entry is kept |
| LinearSystem.SistLinear.EscalaDiagonal | SistemasLineares.c:187 | A[i][i] *= n extends the scaled part of the diagonal by one row |
| LinearSystem.DiagPartlyAt | SistemasLineares.c:186-188 | After i steps, exactly the first i diagonal entries are scaled |
| LinearSystem.DiagPartlyStep | SistemasLineares.c:187 | Before step i, entry (i, i) still holds its original value, and storing it times n is step i |
| LinearSystem.DiagPartlyDone | SistemasLineares.c:184-189 | After n steps, the matrix is the one with its diagonal scaled |

## Left out

- `gaussJacobi` and `gaussSeidel` are not modelled. Their bodies are empty in this
  file.
- `encontraMaxPivo` is not part of this model. The row it returns at step i is an
  input, `pivos[i]`, and the only thing assumed about it is `i <= pivos[i] < n`.
- The body of `trocaLinha` is not in `SistemasLineares.c`. The model exchanges rows i
  and p of A, column by column, and `b[i]` with `b[p]`.
- LinearSystem.SistLinear.EliminacaoGauss stops and returns -1 at a zero pivot that has
  rows below it. In the C code, the division at line 52 is unchecked, so this case yields
  infinities or NaNs and a return value of 0.
- LinearSystem.SistLinear.PassoGauss tests for a zero pivot that has rows below it, and
  returns early without eliminating. Lines 44-59 have no such test: the C code divides
  by the zero pivot at line 52.
- LinearSystem.SistLinear.EliminacaoGauss has no `x` parameter. The C code never reads
  or writes `x`.
- The C code tests `pivoteamento` at line 45, an identifier no declaration introduces.
  The model reads it as the parameter `pivotamento`.
- LinearSystem.SistLinear.NormaL2Residuo returns the squared norm. The final `sqrt` at
  line 25 is left out. The contract of `Residual.ResidualSq` shows that its argument is
  never negative.
- At line 22, `n` is an identifier no declaration introduces. The model reads it as
  `SL->n`.
- Floating-point rounding is not modelled. `real_t` values are exact reals, and
  `pow(v, 2)` is `v * v`.
- `rand()` and its state are not modelled. Its successive results are inputs, in the
  order the code calls it: `bRand`, then `aRand`, then `rowDraw`, then `multDraw`.
  `RAND_MAX` is the GNU C library value, 2147483647.
- `rand() % tam` is undefined for `tam == 0`. InicializaSistLinear therefore requires
  `n > 0` for the three kinds that draw a row.
- Generator.ScaledInRange proves the closed interval [0, coef_max]. The comment at line
  134 says the interval is half-open. The draw `RAND_MAX` reaches `coef_max` itself.
- Generator.ProportionalEquationDependent is proved for n ≥ 2 only. For n = 1, the
  source row is the altered row itself.
- Generator.SumEquationDependent is proved for n ≥ 3 only. For smaller n, the source
  rows coincide with each other or with the altered row.
- `alocaSistLinear` has two defects: it writes `SL->n` through a pointer that may be
  NULL, and it uses `SL` after `liberaSistLinear` may have freed it. Allocation failure
  and `liberaSistLinear` are not modelled. The constructor always succeeds.
- Reading and printing systems and vectors (I/O) is not modelled.
- Unsigned overflow of `i*tam+j` is not modelled: indices are unbounded naturals.
- Claims about conditioning, such as the Hilbert matrix being ill-conditioned, are not
  modelled.
