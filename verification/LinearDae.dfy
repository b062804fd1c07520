/** linear_dae_to_ode of linearization.py: E dx = A x + B u + F w + g solved for dx and w. */
module LinearDae {
  import opened Matrices
  import opened LinearBlocks

  /** dx = A x + B u + g, w = H x + M u + q */
  datatype Ode = Ode(A: Mat, B: Mat, g: Vec, H: Mat, M: Mat, q: Vec)

  /** hstack((E, -F)), E having nx columns. */
  function EE(nx: nat, E: Mat, F: Mat): Mat {
    (i: nat, j: nat) => if j < nx then E(i, j) else -F(i, j - nx)
  }

  /** Rows from nx on. */
  function RowsFrom(nx: nat, X: Mat): Mat {
    (i: nat, j: nat) => X(nx + i, j)
  }

  function EntriesFrom(nx: nat, v: Vec): Vec {
    (i: nat) => v(nx + i)
  }

  /** Three solves with the same matrix, cut into the first nx rows and the rest. */
  function LinearDaeToOde(solve: Solver, nx: nat, nu: nat, nw: nat, E: Mat, A: Mat, B: Mat, F: Mat, g: Vec): Ode {
    var ee := EE(nx, E, F);
    var AH := solve(nx + nw, nx, ee, A);
    var BM := solve(nx + nw, nu, ee, B);
    var gq := solve(nx + nw, 1, ee, Column(g));
    Ode(AH, BM, Col(gq, 0), RowsFrom(nx, AH), RowsFrom(nx, BM), EntriesFrom(nx, Col(gq, 0)))
  }

  /** E dx = A x + B u + F w + g */
  ghost predicate DaeHolds(nx: nat, nu: nat, nw: nat, E: Mat, A: Mat, B: Mat, F: Mat, g: Vec, x: Vec, u: Vec, dx: Vec,
                           w: Vec)
  {
    forall i: nat :: i < nx + nw ==>
      MulVec(nx, E, dx)(i) == MulVec(nx, A, x)(i) + MulVec(nu, B, u)(i) + MulVec(nw, F, w)(i) + g(i)
  }

  ghost predicate OdeHolds(nx: nat, nu: nat, nw: nat, ode: Ode, x: Vec, u: Vec, dx: Vec, w: Vec) {
    && (forall i: nat :: i < nx ==> dx(i) == MulVec(nx, ode.A, x)(i) + MulVec(nu, ode.B, u)(i) + ode.g(i))
    && (forall i: nat :: i < nw ==> w(i) == MulVec(nx, ode.H, x)(i) + MulVec(nu, ode.M, u)(i) + ode.q(i))
  }

  /** (dx, w) as one vector. */
  function Stack(nx: nat, dx: Vec, w: Vec): Vec {
    (i: nat) => if i < nx then dx(i) else w(i - nx)
  }

  function RightHand(nx: nat, nu: nat, A: Mat, B: Mat, g: Vec, x: Vec, u: Vec): Vec {
    (i: nat) => MulVec(nx, A, x)(i) + MulVec(nu, B, u)(i) + g(i)
  }

  function NegRow(r: Vec): Vec {
    (j: nat) => -r(j)
  }

  lemma NegDot(n: nat, u: Vec, v: Vec)
    ensures Dot(n, NegRow(u), v) == -Dot(n, u, v)
  {
    var zero: Vec := (j: nat) => 0.0;
    DotComm(n, NegRow(u), v);
    DotComm(n, u, v);
    DotAdd(n, v, zero, u, NegRow(u));
    DotZero(n, v, zero);
  }

  /** E dx - F w is the product with the stacked vector. */
  lemma StackedProduct(nx: nat, nw: nat, E: Mat, F: Mat, dx: Vec, w: Vec, i: nat)
    ensures MulVec(nx + nw, EE(nx, E, F), Stack(nx, dx, w))(i) == MulVec(nx, E, dx)(i) - MulVec(nw, F, w)(i)
  {
    var row, v := Row(EE(nx, E, F), i), Stack(nx, dx, w);
    RowOfTwo(nx, nw, row, Row(E, i), NegRow(Row(F, i)), v, dx, w);
    NegDot(nw, Row(F, i), w);
  }

  lemma SolvedRightHand(solve: Solver, n: nat, nx: nat, nu: nat, M: Mat, A: Mat, B: Mat, g: Vec, x: Vec, u: Vec, z: Vec)
    requires IsSolver(solve) && Nonsingular(n, M)
    requires forall i: nat :: i < n ==>
      z(i) == MulVec(nx, solve(n, nx, M, A), x)(i) + MulVec(nu, solve(n, nu, M, B), u)(i)
          + Col(solve(n, 1, M, Column(g)), 0)(i)
    ensures Solves(n, M, z, RightHand(nx, nu, A, B, g, x, u))
  {
    var zx, zu, zg := MulVec(nx, solve(n, nx, M, A), x), MulVec(nu, solve(n, nu, M, B), u),
        Col(solve(n, 1, M, Column(g)), 0);
    var zxu: Vec := (i: nat) => zx(i) + zu(i);
    assert IsSolution(n, nx, M, solve(n, nx, M, A), A) && IsSolution(n, nu, M, solve(n, nu, M, B), B);
    SolverSolves(solve, n, M, g);
    forall i: nat | i < n ensures MulVec(n, M, z)(i) == RightHand(nx, nu, A, B, g, x, u)(i) {
      MulVecAdd(n, M, z, zxu, zg, i);
      MulVecAdd(n, M, zxu, zx, zu, i);
      SolutionApplies(n, nx, M, solve(n, nx, M, A), A, x, i);
      SolutionApplies(n, nu, M, solve(n, nu, M, B), B, u, i);
    }
  }

  function Solved(solve: Solver, n: nat, nx: nat, nu: nat, M: Mat, A: Mat, B: Mat, g: Vec, x: Vec, u: Vec): Vec {
    (i: nat) => MulVec(nx, solve(n, nx, M, A), x)(i) + MulVec(nu, solve(n, nu, M, B), u)(i)
        + Col(solve(n, 1, M, Column(g)), 0)(i)
  }

  lemma RowsMatch(nx: nat, X: Mat, n: nat, v: Vec, i: nat)
    ensures MulVec(n, RowsFrom(nx, X), v)(i) == MulVec(n, X, v)(nx + i)
  {
    DotExt(n, Row(RowsFrom(nx, X), i), v, Row(X, nx + i), v);
  }

  lemma StackSame(nx: nat, nw: nat, dx: Vec, w: Vec, s: Vec)
    ensures SameVec(nx + nw, Stack(nx, dx, w), s) <==> SameVec(nx, dx, s) && SameVec(nw, w, EntriesFrom(nx, s))
  {
    var v := Stack(nx, dx, w);
    if SameVec(nx + nw, v, s) {
      forall i: nat | i < nx ensures dx(i) == s(i) { assert v(i) == s(i); }
      forall i: nat | i < nw ensures w(i) == s(nx + i) { assert v(nx + i) == s(nx + i); }
    }
    if SameVec(nx, dx, s) && SameVec(nw, w, EntriesFrom(nx, s)) {
      forall i: nat | i < nx + nw ensures v(i) == s(i) {
        if i >= nx { assert w(i - nx) == EntriesFrom(nx, s)(i - nx); }
      }
    }
  }

  lemma SolvedBelow(solve: Solver, n: nat, nx: nat, nu: nat, M: Mat, A: Mat, B: Mat, g: Vec, x: Vec, u: Vec, AH: Mat,
                    BM: Mat, gq: Vec, i: nat)
    requires AH == solve(n, nx, M, A) && BM == solve(n, nu, M, B) && gq == Col(solve(n, 1, M, Column(g)), 0)
    ensures Solved(solve, n, nx, nu, M, A, B, g, x, u)(i) == MulVec(nx, AH, x)(i) + MulVec(nu, BM, u)(i) + gq(i)
    ensures EntriesFrom(nx, Solved(solve, n, nx, nu, M, A, B, g, x, u))(i) ==
            MulVec(nx, RowsFrom(nx, AH), x)(i) + MulVec(nu, RowsFrom(nx, BM), u)(i) + EntriesFrom(nx, gq)(i)
  {
    RowsMatch(nx, AH, nx, x, i);
    RowsMatch(nx, BM, nu, u, i);
  }

  /** The stacked vector is the solved one exactly when the ODE holds. */
  lemma OdeIsStacked(solve: Solver, nx: nat, nu: nat, nw: nat, E: Mat, A: Mat, B: Mat, F: Mat, g: Vec, x: Vec, u: Vec,
                     dx: Vec, w: Vec)
    ensures OdeHolds(nx, nu, nw, LinearDaeToOde(solve, nx, nu, nw, E, A, B, F, g), x, u, dx, w) <==>
            SameVec(nx + nw, Stack(nx, dx, w), Solved(solve, nx + nw, nx, nu, EE(nx, E, F), A, B, g, x, u))
  {
    hide MulVec, Solved, RowsFrom, EntriesFrom, Col;
    var ode, n, M := LinearDaeToOde(solve, nx, nu, nw, E, A, B, F, g), nx + nw, EE(nx, E, F);
    var s := Solved(solve, n, nx, nu, M, A, B, g, x, u);
    var gq := Col(solve(n, 1, M, Column(g)), 0);
    StackSame(nx, nw, dx, w, s);
    forall i: nat
      ensures s(i) == MulVec(nx, ode.A, x)(i) + MulVec(nu, ode.B, u)(i) + ode.g(i)
      ensures EntriesFrom(nx, s)(i) == MulVec(nx, ode.H, x)(i) + MulVec(nu, ode.M, u)(i) + ode.q(i)
    {
      SolvedBelow(solve, n, nx, nu, M, A, B, g, x, u, ode.A, ode.B, gq, i);
    }
  }

  /** The ODE is equivalent to the DAE: for all x and u, the same dx and w satisfy both. */
  lemma OdeIsEquivalent(solve: Solver, nx: nat, nu: nat, nw: nat, E: Mat, A: Mat, B: Mat, F: Mat, g: Vec, x: Vec,
                        u: Vec, dx: Vec, w: Vec)
    requires IsSolver(solve) && Nonsingular(nx + nw, EE(nx, E, F))
    ensures DaeHolds(nx, nu, nw, E, A, B, F, g, x, u, dx, w) <==>
            OdeHolds(nx, nu, nw, LinearDaeToOde(solve, nx, nu, nw, E, A, B, F, g), x, u, dx, w)
  {
    var n, M := nx + nw, EE(nx, E, F);
    var v, s, r := Stack(nx, dx, w), Solved(solve, n, nx, nu, M, A, B, g, x, u), RightHand(nx, nu, A, B, g, x, u);
    SolvedRightHand(solve, n, nx, nu, M, A, B, g, x, u, s);
    OdeIsStacked(solve, nx, nu, nw, E, A, B, F, g, x, u, dx, w);
    forall i: nat | i < n
      ensures MulVec(n, M, v)(i) == r(i) <==>
              MulVec(nx, E, dx)(i) == MulVec(nx, A, x)(i) + MulVec(nu, B, u)(i) + MulVec(nw, F, w)(i) + g(i)
    {
      StackedProduct(nx, nw, E, F, dx, w, i);
    }
    if Solves(n, M, v, r) { UniqueSolution(n, M, v, s, r); }
    if SameVec(n, v, s) {
      forall i: nat | i < n ensures MulVec(n, M, v)(i) == r(i) { MulVecExt(n, M, v, s, i); }
    }
  }
}
