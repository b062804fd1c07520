/**
 Linear systems inside the elimination: a linear block solved at once (create_lin_eq and
 Block::solveLinearSystem), and a torn linear block solved by the Schur complement
 (create_torn_lin_eq and its solution).
 */
module LinearBlocks {
  import opened Lists
  import opened RealSums
  import opened Matrices
  import opened Expressions
  import Linearity

  /** A linear solver: (dimension, columns of the right-hand side, A, B) to X with A X = B. */
  type Solver = (nat, nat, Mat, Mat) -> Mat

  ghost predicate IsSolver(solve: Solver) {
    forall n: nat, m: nat, A: Mat, B: Mat :: Nonsingular(n, A) ==> IsSolution(n, m, A, solve(n, m, A, B), B)
  }

  /** v as a matrix with one column. */
  function Column(v: Vec): Mat {
    (i: nat, j: nat) => v(i)
  }

  lemma SolverSolves(solve: Solver, n: nat, A: Mat, v: Vec)
    requires IsSolver(solve) && Nonsingular(n, A)
    ensures Solves(n, A, Col(solve(n, 1, A, Column(v)), 0), v)
  {
    var X := solve(n, 1, A, Column(v));
    assert IsSolution(n, 1, A, X, Column(v));
    forall i: nat | i < n ensures MulVec(n, A, Col(X, 0))(i) == v(i) {
      assert MatMul(n, A, X)(i, 0) == Column(v)(i, 0);
    }
  }

  // ----- A 2 x 2 block system -----

  /** A x + B y = a and C x + D y = b, with n and m rows. */
  ghost predicate BlockSystem(n: nat, m: nat, A: Mat, B: Mat, C: Mat, D: Mat, a: Vec, b: Vec, x: Vec, y: Vec) {
    && (forall i: nat :: i < n ==> MulVec(n, A, x)(i) + MulVec(m, B, y)(i) == a(i))
    && (forall i: nat :: i < m ==> MulVec(n, C, x)(i) + MulVec(m, D, y)(i) == b(i))
  }

  function Inverse(solve: Solver, n: nat, A: Mat): Mat {
    solve(n, n, A, Identity())
  }

  /** D - (C Ainv) B */
  function Schur(n: nat, Ainv: Mat, B: Mat, C: Mat, D: Mat): Mat {
    (i: nat, j: nat) => D(i, j) - MatMul(n, MatMul(n, C, Ainv), B)(i, j)
  }

  /** b - (C Ainv) a */
  function SchurRight(n: nat, Ainv: Mat, C: Mat, a: Vec, b: Vec): Vec {
    (i: nat) => b(i) - MulVec(n, MatMul(n, C, Ainv), a)(i)
  }

  function TornSol(solve: Solver, n: nat, m: nat, Ainv: Mat, B: Mat, C: Mat, D: Mat, a: Vec, b: Vec): Vec {
    Col(solve(m, 1, Schur(n, Ainv, B, C, D), Column(SchurRight(n, Ainv, C, a, b))), 0)
  }

  /** a - B y */
  function Remaining(m: nat, B: Mat, a: Vec, y: Vec): Vec {
    (i: nat) => a(i) - MulVec(m, B, y)(i)
  }

  function CausalSol(n: nat, m: nat, Ainv: Mat, B: Mat, a: Vec, y: Vec): Vec {
    MulVec(n, Ainv, Remaining(m, B, a, y))
  }

  /** x given y: A x + B y = a exactly for x = Ainv (a - B y). */
  lemma CausalPart(solve: Solver, n: nat, m: nat, A: Mat, B: Mat, a: Vec, x: Vec, y: Vec)
    requires IsSolver(solve) && Nonsingular(n, A)
    ensures (forall i: nat :: i < n ==> MulVec(n, A, x)(i) + MulVec(m, B, y)(i) == a(i)) <==>
            SameVec(n, x, CausalSol(n, m, Inverse(solve, n, A), B, a, y))
  {
    var r, x0 := Remaining(m, B, a, y), CausalSol(n, m, Inverse(solve, n, A), B, a, y);
    InverseApplies(n, A, Inverse(solve, n, A), r);
    if forall i: nat :: i < n ==> MulVec(n, A, x)(i) + MulVec(m, B, y)(i) == a(i) {
      UniqueSolution(n, A, x, x0, r);
    }
    if SameVec(n, x, x0) {
      forall i: nat | i < n ensures MulVec(n, A, x)(i) + MulVec(m, B, y)(i) == a(i) { MulVecExt(n, A, x, x0, i); }
    }
  }

  /** With x = Ainv (a - B y) the second row is the Schur system for y. */
  lemma TornRow(n: nat, m: nat, Ainv: Mat, B: Mat, C: Mat, D: Mat, a: Vec, b: Vec, x: Vec, y: Vec, i: nat)
    requires i < m && SameVec(n, x, CausalSol(n, m, Ainv, B, a, y))
    ensures MulVec(n, C, x)(i) + MulVec(m, D, y)(i) == b(i) <==>
            MulVec(m, Schur(n, Ainv, B, C, D), y)(i) == SchurRight(n, Ainv, C, a, b)(i)
  {
    var r, CA := Remaining(m, B, a, y), MatMul(n, C, Ainv);
    MulVecExt(n, C, x, MulVec(n, Ainv, r), i);
    MulVecAssoc(n, n, C, Ainv, r, i);
    MulVecSub(n, CA, r, a, MulVec(m, B, y), i);
    MulVecAssoc(n, m, CA, B, y, i);
    SubMulVec(m, Schur(n, Ainv, B, C, D), D, MatMul(n, CA, B), y, i);
  }

  /** The torn solve gives the solution of the block system, and there is no other. */
  lemma SchurIsTheSolution(solve: Solver, n: nat, m: nat, A: Mat, B: Mat, C: Mat, D: Mat, a: Vec, b: Vec, x: Vec,
                           y: Vec)
    requires IsSolver(solve) && Nonsingular(n, A) && Nonsingular(m, Schur(n, Inverse(solve, n, A), B, C, D))
    ensures BlockSystem(n, m, A, B, C, D, a, b, x, y) <==>
            SameVec(m, y, TornSol(solve, n, m, Inverse(solve, n, A), B, C, D, a, b)) &&
            SameVec(n, x, CausalSol(n, m, Inverse(solve, n, A), B, a,
                TornSol(solve, n, m, Inverse(solve, n, A), B, C, D, a, b)))
  {
    var Ainv := Inverse(solve, n, A);
    var S, r, y0 := Schur(n, Ainv, B, C, D), SchurRight(n, Ainv, C, a, b), TornSol(solve, n, m, Ainv, B, C, D, a, b);
    SolverSolves(solve, m, S, r);
    CausalPart(solve, n, m, A, B, a, x, y);
    if SameVec(n, x, CausalSol(n, m, Ainv, B, a, y)) {
      forall i: nat | i < m
        ensures MulVec(n, C, x)(i) + MulVec(m, D, y)(i) == b(i) <==> MulVec(m, S, y)(i) == r(i)
      {
        TornRow(n, m, Ainv, B, C, D, a, b, x, y, i);
      }
    }
    if BlockSystem(n, m, A, B, C, D, a, b, x, y) { UniqueSolution(m, S, y, y0, r); }
    if SameVec(m, y, y0) {
      SameCausal(n, m, Ainv, B, a, y, y0);
      forall i: nat | i < m ensures MulVec(m, S, y)(i) == r(i) { MulVecExt(m, S, y, y0, i); }
    }
  }

  lemma SameCausal(n: nat, m: nat, Ainv: Mat, B: Mat, a: Vec, y: Vec, y0: Vec)
    requires SameVec(m, y, y0)
    ensures SameVec(n, CausalSol(n, m, Ainv, B, a, y), CausalSol(n, m, Ainv, B, a, y0))
  {
    var r, r0 := Remaining(m, B, a, y), Remaining(m, B, a, y0);
    forall i: nat | i < n ensures r(i) == r0(i) { MulVecExt(m, B, y, y0, i); }
    forall i: nat | i < n ensures MulVec(n, Ainv, r)(i) == MulVec(n, Ainv, r0)(i) { MulVecExt(n, Ainv, r, r0, i); }
  }

  // ----- Residuals -----

  function Values(env: Env, xs: seq<nat>): Vec {
    (i: nat) => if i < |xs| then env(xs[i]) else 0.0
  }

  /** The Jacobian of es in xs, at env. */
  function Jacobian(I: Interp, env: Env, es: seq<Expr>, xs: seq<nat>): Mat {
    (i: nat, j: nat) => if i < |es| && j < |xs| then Eval(I, env, Diff(es[i], xs[j])) else 0.0
  }

  /** A linear residual is zero exactly when its row times the unknowns is minus its value at zero. */
  lemma ResidualRow(I: Interp, env: Env, e: Expr, all: seq<nat>, row: Vec)
    requires Linearity.JacobianFree(e, all) && NoRepeats(all)
    requires forall j: nat :: j < |all| ==> row(j) == Eval(I, Linearity.AtZero(env, all), Diff(e, all[j]))
    ensures Eval(I, env, e) == 0.0 <==> Dot(|all|, row, Values(env, all)) == -Eval(I, Linearity.AtZero(env, all), e)
  {
    var env0 := Linearity.AtZero(env, all);
    Linearity.RowSolvesResidual(I, env, e, all);
    var r, step := Linearity.Row(I, env, e, all), Linearity.Step(env, env0, all);
    forall j: nat | j < |all| ensures r(j) == row(j) && step(j) == Values(env, all)(j) {
      assert all[j] in all;
      assert Linearity.Avoids(Diff(e, all[j]), all);
      EvalAgree(I, env, env0, Diff(e, all[j]));
    }
    SumExt(|all|, (j: nat) => Prod(r(j), step(j)), (j: nat) => Prod(row(j), Values(env, all)(j)));
  }

  /** Minus the residuals at zero. */
  function MinusAtZero(I: Interp, env: Env, es: seq<Expr>, all: seq<nat>): Vec {
    var env0: Env := (v: nat) => if v in all then 0.0 else env(v);
    (i: nat) => if i < |es| then -Eval(I, env0, es[i]) else 0.0
  }

  ghost predicate AllLinear(es: seq<Expr>, all: seq<nat>) {
    forall i :: 0 <= i < |es| ==> Linearity.JacobianFree(es[i], all)
  }

  ghost predicate ResidualsZero(I: Interp, env: Env, es: seq<Expr>) {
    forall i :: 0 <= i < |es| ==> Eval(I, env, es[i]) == 0.0
  }

  lemma MinusAtZeroIs(I: Interp, env: Env, es: seq<Expr>, all: seq<nat>, i: nat)
    requires i < |es|
    ensures MinusAtZero(I, env, es, all)(i) == -Eval(I, Linearity.AtZero(env, all), es[i])
  {
    var env0: Env := (v: nat) => if v in all then 0.0 else env(v);
    EvalAgree(I, env0, Linearity.AtZero(env, all), es[i]);
  }

  /** Block::solveLinearSystem: xsolution = solve(jacobian, -b), b being the residuals with the block's
      variables put to zero. The equations hold exactly where every variable has its solution. */
  lemma LinearSystemIsSolved(solve: Solver, I: Interp, env: Env, es: seq<Expr>, xs: seq<nat>)
    requires IsSolver(solve) && |es| == |xs| && AllLinear(es, xs) && NoRepeats(xs)
    requires Nonsingular(|xs|, Jacobian(I, Linearity.AtZero(env, xs), es, xs))
    ensures ResidualsZero(I, env, es) <==>
            SameVec(|xs|, Values(env, xs),
                    Col(solve(|xs|, 1, Jacobian(I, Linearity.AtZero(env, xs), es, xs),
                        Column(MinusAtZero(I, env, es, xs))), 0))
  {
    var n, J, r, v := |xs|, Jacobian(I, Linearity.AtZero(env, xs), es, xs), MinusAtZero(I, env, es, xs),
        Values(env, xs);
    var sol := Col(solve(n, 1, J, Column(r)), 0);
    SolverSolves(solve, n, J, r);
    forall i: nat | i < n ensures Eval(I, env, es[i]) == 0.0 <==> MulVec(n, J, v)(i) == r(i) {
      ResidualRow(I, env, es[i], xs, Row(J, i));
      MinusAtZeroIs(I, env, es, xs, i);
    }
    if ResidualsZero(I, env, es) { UniqueSolution(n, J, v, sol, r); }
    if SameVec(n, v, sol) {
      forall i: nat | i < n ensures MulVec(n, J, v)(i) == r(i) { MulVecExt(n, J, v, sol, i); }
    }
  }

  /** A row over two lists of unknowns. */
  lemma RowOfTwo(n: nat, m: nat, row: Vec, rowX: Vec, rowY: Vec, v: Vec, vx: Vec, vy: Vec)
    requires forall j: nat :: j < n ==> row(j) == rowX(j) && v(j) == vx(j)
    requires forall j: nat :: j < m ==> row(n + j) == rowY(j) && v(n + j) == vy(j)
    ensures Dot(n + m, row, v) == Dot(n, rowX, vx) + Dot(m, rowY, vy)
  {
    var f := (j: nat) => Prod(row(j), v(j));
    SumSplit(n, m, f);
    DotExt(n, row, v, rowX, vx);
    SumExt(m, (j: nat) => f(n + j), (j: nat) => Prod(rowY(j), vy(j)));
  }

  /** One equation of a torn block: the row of (A B) or (C D). */
  lemma TornResidual(I: Interp, env: Env, es: seq<Expr>, xs: seq<nat>, ys: seq<nat>, i: nat)
    requires i < |es| && Linearity.JacobianFree(es[i], xs + ys) && NoRepeats(xs + ys)
    ensures var env0 := Linearity.AtZero(env, xs + ys);
            Eval(I, env, es[i]) == 0.0 <==>
            MulVec(|xs|, Jacobian(I, env0, es, xs), Values(env, xs))(i)
                + MulVec(|ys|, Jacobian(I, env0, es, ys), Values(env, ys))(i)
              == MinusAtZero(I, env, es, xs + ys)(i)
  {
    hide Eval, Diff, Linearity.JacobianFree, NoRepeats, Linearity.AtZero, Dot;
    var all, env0 := xs + ys, Linearity.AtZero(env, xs + ys);
    var row, rowX, rowY := Row(Jacobian(I, env0, es, all), i), Row(Jacobian(I, env0, es, xs), i),
        Row(Jacobian(I, env0, es, ys), i);
    ResidualRow(I, env, es[i], all, row);
    forall j: nat | j < |ys| ensures row(|xs| + j) == rowY(j) && Values(env, all)(|xs| + j) == Values(env, ys)(j) {
      assert all[|xs| + j] == ys[j];
    }
    forall j: nat | j < |xs| ensures row(j) == rowX(j) && Values(env, all)(j) == Values(env, xs)(j) {
      assert all[j] == xs[j];
    }
    RowOfTwo(|xs|, |ys|, row, rowX, rowY, Values(env, all), Values(env, xs), Values(env, ys));
    MinusAtZeroIs(I, env, es, all, i);
  }

  /** The torn linear solve makes every equation of the block zero, and nothing else does: es are the
      causal equations with unknowns xs, rs the residuals with tearing variables ys. */
  lemma TornBlockIsSolved(solve: Solver, I: Interp, env: Env, es: seq<Expr>, xs: seq<nat>, rs: seq<Expr>, ys: seq<nat>,
                          env0: Env,
                          A: Mat, B: Mat, C: Mat, D: Mat, a: Vec, b: Vec)
    requires IsSolver(solve) && |es| == |xs| && |rs| == |ys| && NoRepeats(xs + ys)
    requires AllLinear(es, xs + ys) && AllLinear(rs, xs + ys) && env0 == Linearity.AtZero(env, xs + ys)
    requires A == Jacobian(I, env0, es, xs) && B == Jacobian(I, env0, es, ys) && C == Jacobian(I, env0, rs, xs)
    requires D == Jacobian(I, env0, rs, ys)
    requires a == MinusAtZero(I, env, es, xs + ys) && b == MinusAtZero(I, env, rs, xs + ys)
    requires Nonsingular(|xs|, A) && Nonsingular(|ys|, Schur(|xs|, Inverse(solve, |xs|, A), B, C, D))
    ensures var torn := TornSol(solve, |xs|, |ys|, Inverse(solve, |xs|, A), B, C, D, a, b);
            ResidualsZero(I, env, es) && ResidualsZero(I, env, rs) <==>
            SameVec(|ys|, Values(env, ys), torn) &&
                SameVec(|xs|, Values(env, xs), CausalSol(|xs|, |ys|, Inverse(solve, |xs|, A), B, a, torn))
  {
    var x, y := Values(env, xs), Values(env, ys);
    forall i: nat | i < |es|
      ensures Eval(I, env, es[i]) == 0.0 <==> MulVec(|xs|, A, x)(i) + MulVec(|ys|, B, y)(i) == a(i)
    {
      TornResidual(I, env, es, xs, ys, i);
    }
    forall i: nat | i < |rs|
      ensures Eval(I, env, rs[i]) == 0.0 <==> MulVec(|xs|, C, x)(i) + MulVec(|ys|, D, y)(i) == b(i)
    {
      TornResidual(I, env, rs, xs, ys, i);
    }
    SchurIsTheSolution(solve, |xs|, |ys|, A, B, C, D, a, b, x, y);
  }
}
