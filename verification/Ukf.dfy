/**
 The unscented Kalman filter (ukf.py) for a process and measurements that are affine: sigma points,
 prediction, gain and update, on scaled variables.
 */
module Ukf {
  import opened RealSums
  import opened Matrices
  import opened LinearBlocks
  import opened SigmaPoints
  import opened KalmanGains

  /** x_next = F x + g and y = C x_next + d: what the simulation of one sample interval computes. */
  datatype Process = Process(F: Mat, g: Vec, C: Mat, d: Vec)

  /** alpha^2 (L + kappa) */
  function Spreading(L: nat, alpha: real, kappa: real): real {
    alpha * alpha * (L as real + kappa)
  }

  lemma WeightsAdd(L: nat, lambd: real, c: real, w0: real, h: real)
    requires c != 0.0 && c == L as real + lambd && w0 == lambd / c && h == 0.5 / c
    ensures w0 + Prod(2.0 * L as real, h) == 1.0 && Prod(2.0 * h, c) == 1.0
  {
    Shares(L as real, c, h);
    assert w0 + L as real / c == (lambd + L as real) / c;
  }

  lemma Shares(n: real, c: real, h: real)
    requires c != 0.0 && h == 0.5 / c
    ensures Prod(2.0 * n, h) == n / c && Prod(2.0 * h, c) == 1.0
  {}

  /** Weights for means and covariances; they differ in the first one. */
  method CalcWeights(L: nat, alpha: real, beta: real, kappa: real) returns (Wm: Vec, Wc: Vec)
    requires Spreading(L, alpha, kappa) != 0.0
    ensures MeanWeights(L, Wm, 0.5 / Spreading(L, alpha, kappa))
    ensures forall i: nat :: 1 <= i <= 2 * L ==> Wc(i) == Wm(i)
    ensures Wc(0) == Wm(0) + (1.0 - alpha * alpha + beta)
    ensures Prod(2.0 * (0.5 / Spreading(L, alpha, kappa)), Spreading(L, alpha, kappa)) == 1.0
    ensures Sum(2 * L + 1, Wm) == 1.0
    ensures forall i: nat :: 1 <= i <= 2 * L ==> Wm(i) == 0.5 / (alpha * alpha * (L as real + kappa))
  {
    var lambd := alpha * alpha * (L as real + kappa) - L as real;
    var c := L as real + lambd;
    var first, other := lambd / c, 0.5 / c;
    Wm := (i: nat) => if i == 0 then first else other;
    var firstC := first + (1.0 - alpha * alpha + beta);
    Wc := (i: nat) => if i == 0 then firstC else other;
    assert c == Spreading(L, alpha, kappa);
    WeightsAdd(L, lambd, c, first, other);
    WeightsSumToOne(L, Wm, other);
  }

  // ----- Arrays -----

  /** a holds the first rows and columns of M. */
  ghost predicate Holds(a: array2<real>, M: Mat)
    reads a
  {
    forall k: nat, i: nat :: k < a.Length0 && i < a.Length1 ==> a[k, i] == M(k, i)
  }

  ghost predicate HoldsColumns(a: array2<real>, M: Mat, n: nat)
    requires n <= a.Length1
    reads a
  {
    forall k: nat, i: nat :: k < a.Length0 && i < n ==> a[k, i] == M(k, i)
  }

  method SetColumn(a: array2<real>, i: nat, v: Vec)
    requires i < a.Length1
    modifies a
    ensures forall k: nat :: k < a.Length0 ==> a[k, i] == v(k)
    ensures forall k: nat, j: nat :: k < a.Length0 && j < a.Length1 && j != i ==> a[k, j] == old(a[k, j])
  {
    for r := 0 to a.Length0
      invariant forall k: nat :: k < r ==> a[k, i] == v(k)
      invariant forall k: nat, j: nat :: k < a.Length0 && j < a.Length1 && j != i ==> a[k, j] == old(a[k, j])
    {
      a[r, i] := v(r);
    }
  }

  method ColumnOf(a: array2<real>, i: nat) returns (v: Vec)
    requires i < a.Length1
    ensures forall k: nat :: k < a.Length0 ==> v(k) == a[k, i]
  {
    var s: seq<real> := [];
    for r := 0 to a.Length0
      invariant |s| == r && forall k :: 0 <= k < r ==> s[k] == a[k, i]
    {
      s := s + [a[r, i]];
    }
    v := (k: nat) => if k < |s| then s[k] else 0.0;
  }

  /** The matrix of sigma points, column by column. */
  method CalcSigma(L: nat, x: Vec, S: Mat) returns (sigma: array2<real>)
    ensures fresh(sigma) && sigma.Length0 == L && sigma.Length1 == 2 * L + 1 && Holds(sigma, Sigma(L, x, S))
  {
    sigma := new real[L, 2 * L + 1]((i, j) => 0.0);
    SetColumn(sigma, 0, x);
    for i := 1 to L + 1
      invariant HoldsColumns(sigma, Sigma(L, x, S), i)
    {
      SetColumn(sigma, i, (k: nat) => x(k) + S(k, i - 1));
    }
    for i := L + 1 to 2 * L + 1
      invariant HoldsColumns(sigma, Sigma(L, x, S), i)
    {
      SetColumn(sigma, i, (k: nat) => x(k) - S(k, i - (L + 1)));
    }
  }

  /** Simulates every sigma point, and collects states and measurements at the end of the interval. */
  method Simulate(L: nat, m: nat, p: Process, sigma: array2<real>, ghost points: Mat)
    returns (Xxp: array2<real>, Y: array2<real>)
    requires sigma.Length0 == L && Holds(sigma, points)
    ensures fresh(Xxp) && fresh(Y) && Xxp.Length0 == L && Y.Length0 == m && Xxp.Length1 == Y.Length1 == sigma.Length1
    ensures Holds(Xxp, Image(L, p.F, p.g, points)) && Holds(Y, Image(L, p.C, p.d, Image(L, p.F, p.g, points)))
  {
    hide MulVec;
    ghost var X := Image(L, p.F, p.g, points);
    Xxp := new real[L, sigma.Length1]((i, j) => 0.0);
    Y := new real[m, sigma.Length1]((i, j) => 0.0);
    for i := 0 to sigma.Length1
      invariant HoldsColumns(Xxp, X, i) && HoldsColumns(Y, Image(L, p.C, p.d, X), i)
      invariant Holds(sigma, points)
    {
      var point := ColumnOf(sigma, i);
      var result := Affine(L, p.F, p.g, point);
      SameImage(L, p.F, p.g, points, point, i);
      SetColumn(Xxp, i, result);
      var measured := Affine(L, p.C, p.d, result);
      SameImage(L, p.C, p.d, X, result, i);
      SetColumn(Y, i, measured);
    }
  }

  lemma SameImage(L: nat, G: Mat, g: Vec, points: Mat, point: Vec, i: nat)
    requires forall k: nat :: k < L ==> point(k) == points(k, i)
    ensures forall k: nat :: Affine(L, G, g, point)(k) == Image(L, G, g, points)(k, i)
  {
    forall k: nat ensures Affine(L, G, g, point)(k) == Image(L, G, g, points)(k, i) {
      MulVecExt(L, G, point, Col(points, i), k);
    }
  }

  /** The weighted sum of the columns. */
  method WeightedSum(W: Vec, a: array2<real>, ghost U: Mat) returns (v: Vec)
    requires Holds(a, U)
    ensures forall k: nat :: k < a.Length0 ==> v(k) == Mean(a.Length1, W, U, k)
  {
    var s: seq<real> := [];
    for r := 0 to a.Length0
      invariant |s| == r && forall k: nat :: k < r ==> s[k] == Mean(a.Length1, W, U, k)
    {
      var sum := 0.0;
      for i := 0 to a.Length1
        invariant sum == Mean(i, W, U, r)
      {
        sum := sum + Prod(W(i), a[r, i]);
      }
      s := s + [sum];
    }
    v := (k: nat) => if k < |s| then s[k] else 0.0;
  }

  /** M + w u v^T */
  function PlusOuter(M: Mat, w: real, u: Vec, v: Vec): Mat {
    (a: nat, b: nat) => M(a, b) + Prod(w, Prod(u(a), v(b)))
  }

  function PlusMat(A: Mat, B: Mat): Mat {
    (a: nat, b: nat) => A(a, b) + B(a, b)
  }

  function MinusMat(A: Mat, B: Mat): Mat {
    (a: nat, b: nat) => A(a, b) - B(a, b)
  }

  function Zeros(): Mat {
    (a: nat, b: nat) => 0.0
  }

  lemma CovNext(rows: nat, cols: nat, M: Mat, n: nat, w: Vec, U: Mat, u: Vec, V: Mat, v: Vec, du: Vec, dv: Vec)
    requires IsCov(rows, cols, M, n, w, U, u, V, v)
    requires forall a: nat :: a < rows ==> du(a) == U(a, n) - u(a)
    requires forall b: nat :: b < cols ==> dv(b) == V(b, n) - v(b)
    ensures IsCov(rows, cols, PlusOuter(M, w(n), du, dv), n + 1, w, U, u, V, v)
  {
    forall a: nat, b: nat | a < rows && b < cols
      ensures PlusOuter(M, w(n), du, dv)(a, b) == Cov(n + 1, w, U, u, V, v, a, b)
    {
      assert Cov(n + 1, w, U, u, V, v, a, b) == Cov(n, w, U, u, V, v, a, b)
             + Prod(w(n), Prod(U(a, n) - u(a), V(b, n) - v(b)));
    }
  }

  /** The three covariance matrices of the simulated points, without noise. */
  method Covariances(Wc: Vec, Xxp: array2<real>, xp: Vec, Y: array2<real>, yp: Vec, ghost X: Mat, ghost Z: Mat)
    returns (Pxx: Mat, Pyy: Mat, Pxy: Mat)
    requires Xxp.Length1 == Y.Length1 && Holds(Xxp, X) && Holds(Y, Z)
    ensures IsCov(Xxp.Length0, Xxp.Length0, Pxx, Xxp.Length1, Wc, X, xp, X, xp)
    ensures IsCov(Y.Length0, Y.Length0, Pyy, Xxp.Length1, Wc, Z, yp, Z, yp)
    ensures IsCov(Xxp.Length0, Y.Length0, Pxy, Xxp.Length1, Wc, X, xp, Z, yp)
  {
    hide PlusOuter, Cov;
    Pxx, Pyy, Pxy := Zeros(), Zeros(), Zeros();
    NoCov(Xxp.Length0, Xxp.Length0, Wc, X, xp, X, xp);
    NoCov(Y.Length0, Y.Length0, Wc, Z, yp, Z, yp);
    NoCov(Xxp.Length0, Y.Length0, Wc, X, xp, Z, yp);
    for i := 0 to Xxp.Length1
      invariant IsCov(Xxp.Length0, Xxp.Length0, Pxx, i, Wc, X, xp, X, xp)
      invariant IsCov(Y.Length0, Y.Length0, Pyy, i, Wc, Z, yp, Z, yp)
      invariant IsCov(Xxp.Length0, Y.Length0, Pxy, i, Wc, X, xp, Z, yp)
    {
      var xCol := ColumnOf(Xxp, i);
      var yCol := ColumnOf(Y, i);
      var xDev, yDev := Minus(xCol, xp), Minus(yCol, yp);
      CovNext(Xxp.Length0, Xxp.Length0, Pxx, i, Wc, X, xp, X, xp, xDev, xDev);
      CovNext(Y.Length0, Y.Length0, Pyy, i, Wc, Z, yp, Z, yp, yDev, yDev);
      CovNext(Xxp.Length0, Y.Length0, Pxy, i, Wc, X, xp, Z, yp, xDev, yDev);
      Pxx := PlusOuter(Pxx, Wc(i), xDev, xDev);
      Pyy := PlusOuter(Pyy, Wc(i), yDev, yDev);
      Pxy := PlusOuter(Pxy, Wc(i), xDev, yDev);
    }
  }

  lemma NoCov(rows: nat, cols: nat, w: Vec, U: Mat, u: Vec, V: Mat, v: Vec)
    ensures IsCov(rows, cols, Zeros(), 0, w, U, u, V, v)
  {}

  // ----- Gain -----

  /** The inverse of Pyy: one over it when there is one measurement, else by the solver. */
  function InverseOf(solve: Solver, m: nat, Pyy: Mat): Mat {
    if m == 1 then (i: nat, j: nat) => if Pyy(i, j) == 0.0 then 0.0 else 1.0 / Pyy(i, j)
    else solve(m, m, Pyy, Identity())
  }

  lemma ScalarInverse(a: real, l: real)
    requires Prod(l, a) == 1.0
    ensures a != 0.0 && Prod(a, 1.0 / a) == 1.0
  {}

  lemma OneByOne(A: Mat, B: Mat)
    ensures MatMul(1, A, B)(0, 0) == Prod(A(0, 0), B(0, 0))
  {
    var u, v := Row(A, 0), Col(B, 0);
    var f := (k: nat) => Prod(u(k), v(k));
    SumExt(1, f, (k: nat) => Prod(u(k), v(k)));
    assert Sum(1, f) == Sum(0, f) + f(0);
  }

  lemma InverseIsSolution(solve: Solver, m: nat, Pyy: Mat)
    requires IsSolver(solve) && Nonsingular(m, Pyy)
    ensures IsSolution(m, m, Pyy, InverseOf(solve, m, Pyy), Identity())
  {
    if m == 1 {
      var M: Mat :| LeftInverse(m, M, Pyy);
      OneByOne(M, Pyy);
      assert MatMul(1, M, Pyy)(0, 0) == Identity()(0, 0) == 1.0;
      ScalarInverse(Pyy(0, 0), M(0, 0));
      var X := InverseOf(solve, m, Pyy);
      OneByOne(Pyy, X);
    }
  }

  function UnitVec(b: nat): Vec {
    (k: nat) => if k == b then 1.0 else 0.0
  }

  lemma TimesUnit(m: nat, M: Mat, b: nat, a: nat)
    requires b < m
    ensures MulVec(m, M, UnitVec(b))(a) == M(a, b)
  {
    var f := (k: nat) => Prod(Row(M, a)(k), UnitVec(b)(k));
    forall k: nat | k < m && k != b ensures f(k) == 0.0 { ProdZero(M(a, k), UnitVec(b)(k)); }
    SumSingle(m, f, b);
    assert UnitVec(b)(b) == 1.0;
  }

  /** The gain K = Pxy Pyy^-1 satisfies K Pyy = Pxy. */
  lemma GainSolves(m: nat, Pxy: Mat, Pyy: Mat, X: Mat, a: nat, b: nat)
    requires Nonsingular(m, Pyy) && IsSolution(m, m, Pyy, X, Identity()) && b < m
    ensures MatMul(m, MatMul(m, Pxy, X), Pyy)(a, b) == Pxy(a, b)
  {
    var e, c := UnitVec(b), Col(Pyy, b);
    MulVecAssoc(m, m, Pxy, X, c, a);
    InverseApplies(m, Pyy, X, c);
    forall i: nat | i < m ensures MulVec(m, Pyy, e)(i) == c(i) { TimesUnit(m, Pyy, b, i); }
    UniqueSolution(m, Pyy, MulVec(m, X, c), e, c);
    MulVecExt(m, Pxy, MulVec(m, X, c), e, a);
    TimesUnit(m, Pxy, b, a);
  }

  // ----- The filter -----

  /** S S^T = c P: what the Cholesky factor of the scaled covariance satisfies. */
  ghost predicate Factors(L: nat, S: Mat, c: real, P: Mat) {
    forall k: nat, l: nat :: k < L && l < L ==> MatMul(L, S, Transpose(S))(k, l) == Prod(c, P(k, l))
  }

  /** M = G P H^T */
  ghost predicate IsSandwich(L: nat, rows: nat, cols: nat, M: Mat, G: Mat, P: Mat, H: Mat) {
    forall a: nat, b: nat :: a < rows && b < cols ==> M(a, b) == Sandwich(L, G, P, H, a, b)
  }

  /** M = G P H^T + N */
  ghost predicate IsNoisy(L: nat, rows: nat, cols: nat, M: Mat, G: Mat, P: Mat, H: Mat, N: Mat) {
    forall a: nat, b: nat :: a < rows && b < cols ==> M(a, b) == Sandwich(L, G, P, H, a, b) + N(a, b)
  }

  /** Predicted state and measurement: F x + g, and C (F x + g) + d. */
  ghost predicate IsPredicted(L: nat, m: nat, p: Process, x: Vec, xp: Vec, yp: Vec) {
    && (forall k: nat :: k < L ==> xp(k) == Affine(L, p.F, p.g, x)(k))
    && (forall q: nat :: q < m ==> yp(q) == Affine(L, p.C, p.d, Affine(L, p.F, p.g, x))(q))
  }

  lemma PredictedMeans(L: nat, m: nat, p: Process, x: Vec, S: Mat, w: Vec, h: real, xp: Vec, yp: Vec, X: Mat, Z: Mat)
    requires MeanWeights(L, w, h) && X == Image(L, p.F, p.g, Sigma(L, x, S)) && Z == Image(L, p.C, p.d, X)
    requires forall k: nat :: k < L ==> xp(k) == Mean(2 * L + 1, w, X, k)
    requires forall q: nat :: q < m ==> yp(q) == Mean(2 * L + 1, w, Z, q)
    ensures IsPredicted(L, m, p, x, xp, yp)
  {
    hide Mean, Image, Affine, Spread, MeanWeights, Sigma;
    var mean := Affine(L, p.F, p.g, x);
    forall a: nat ensures Spread(L, X, mean, p.F, S, a) { ImageSpreads(L, p.F, p.g, x, S, a); }
    forall k: nat | k < L ensures xp(k) == mean(k) {
      MeanIsExact(L, w, h, X, mean, p.F, S, k);
    }
    forall q: nat | q < m ensures yp(q) == Affine(L, p.C, p.d, mean)(q) {
      ImageOfSpread(L, p.C, p.d, X, mean, p.F, S, q);
      MeanIsExact(L, w, h, Z, Affine(L, p.C, p.d, mean), MatMul(L, p.C, p.F), S, q);
    }
  }

  /** Spread does not depend on the vector that holds the mean. */
  lemma SpreadAround(L: nat, U: Mat, mean: Vec, u: Vec, G: Mat, S: Mat, a: nat)
    requires Spread(L, U, mean, G, S, a) && u(a) == mean(a)
    ensures Spread(L, U, u, G, S, a)
  {}

  lemma PredictedCovariances(L: nat, m: nat, p: Process, x: Vec, P: Mat, S: Mat, c: real, w: Vec, h: real, xp: Vec,
                             yp: Vec, X: Mat, Z: Mat, Pxx: Mat, Pyy: Mat, Pxy: Mat)
    requires (forall i: nat :: 1 <= i <= 2 * L ==> w(i) == h) && Prod(2.0 * h, c) == 1.0 && Factors(L, S, c, P)
    requires X == Image(L, p.F, p.g, Sigma(L, x, S)) && Z == Image(L, p.C, p.d, X) && IsPredicted(L, m, p, x, xp, yp)
    requires IsCov(L, L, Pxx, 2 * L + 1, w, X, xp, X, xp) && IsCov(m, m, Pyy, 2 * L + 1, w, Z, yp, Z, yp)
    requires IsCov(L, m, Pxy, 2 * L + 1, w, X, xp, Z, yp)
    ensures IsSandwich(L, L, L, Pxx, p.F, P, p.F)
    ensures IsSandwich(L, m, m, Pyy, MatMul(L, p.C, p.F), P, MatMul(L, p.C, p.F))
    ensures IsSandwich(L, L, m, Pxy, p.F, P, MatMul(L, p.C, p.F))
  {
    hide Image, Affine, Spread, Sigma, Cov, Sandwich;
    var mean, CF := Affine(L, p.F, p.g, x), MatMul(L, p.C, p.F);
    forall a: nat ensures Spread(L, X, mean, p.F, S, a) { ImageSpreads(L, p.F, p.g, x, S, a); }
    forall a: nat | a < L ensures Spread(L, X, xp, p.F, S, a) { SpreadAround(L, X, mean, xp, p.F, S, a); }
    forall q: nat | q < m ensures Spread(L, Z, yp, CF, S, q) {
      ImageOfSpread(L, p.C, p.d, X, mean, p.F, S, q);
      SpreadAround(L, Z, Affine(L, p.C, p.d, mean), yp, CF, S, q);
    }
    forall a: nat, b: nat | a < L && b < L ensures Pxx(a, b) == Sandwich(L, p.F, P, p.F, a, b) {
      CovarianceIsExact(L, w, h, c, X, xp, p.F, X, xp, p.F, P, S, a, b);
    }
    forall a: nat, b: nat | a < m && b < m ensures Pyy(a, b) == Sandwich(L, CF, P, CF, a, b) {
      CovarianceIsExact(L, w, h, c, Z, yp, CF, Z, yp, CF, P, S, a, b);
    }
    forall a: nat, b: nat | a < L && b < m ensures Pxy(a, b) == Sandwich(L, p.F, P, CF, a, b) {
      CovarianceIsExact(L, w, h, c, X, xp, p.F, Z, yp, CF, P, S, a, b);
    }
  }

  class UKF {
    const L: nat
    const m: nat
    const alpha: real
    const beta: real
    const kappa: real
    const Pv: Mat
    const Pn: Mat
    var x: Vec
    var P: Mat
    var Wm: Vec
    var Wc: Vec
    var K: Mat
    var xp: Vec
    var yp: Vec

    /** The weights are those of the options. */
    ghost predicate Valid()
      reads `Wm, `Wc
    {
      && Spreading(L, alpha, kappa) != 0.0
      && MeanWeights(L, Wm, 0.5 / Spreading(L, alpha, kappa))
      && (forall i: nat :: 1 <= i <= 2 * L ==> Wc(i) == 0.5 / Spreading(L, alpha, kappa))
      && Prod(2.0 * (0.5 / Spreading(L, alpha, kappa)), Spreading(L, alpha, kappa)) == 1.0
    }

    constructor (L: nat, m: nat, x0: Vec, P0: Mat, Pv: Mat, Pn: Mat, alpha: real, beta: real, kappa: real)
      requires Spreading(L, alpha, kappa) != 0.0
      ensures Valid() && x == x0 && P == P0 && this.L == L && this.m == m && this.Pv == Pv && this.Pn == Pn
    {
      this.L, this.m, this.alpha, this.beta, this.kappa := L, m, alpha, beta, kappa;
      this.Pv, this.Pn, x, P := Pv, Pn, x0, P0;
      K, xp, yp := Zeros(), (k: nat) => 0.0, (k: nat) => 0.0;
      var wm, wc := CalcWeights(L, alpha, beta, kappa);
      Wm, Wc := wm, wc;
    }

    /** Predicts state and covariances at the next sample instant. S is the Cholesky factor of the
        scaled covariance. For an affine process everything but the gain is exact. */
    method Predict(p: Process, S: Mat, solve: Solver) returns (ghost Pxx: Mat, ghost Pxy: Mat, ghost Pyy: Mat)
      requires Valid() && Factors(L, S, Spreading(L, alpha, kappa), P) && IsSolver(solve)
      modifies `xp, `yp, `K, `P
      ensures Valid() && IsPredicted(L, m, p, x, xp, yp)
      ensures IsNoisy(L, L, L, Pxx, p.F, old(P), p.F, Pv)
      ensures IsSandwich(L, L, m, Pxy, p.F, old(P), MatMul(L, p.C, p.F))
      ensures IsNoisy(L, m, m, Pyy, MatMul(L, p.C, p.F), old(P), MatMul(L, p.C, p.F), Pn)
      ensures Nonsingular(m, Pyy) ==> SameMat(L, m, MatMul(m, K, Pyy), Pxy)
      ensures forall a: nat, b: nat :: P(a, b) == Pxx(a, b) - Quadratic(m, K, Pyy)(a, b)
      ensures Nonsingular(m, Pyy) ==> IsErrorCovariance(L, m, xp, yp, K, P, Pxx, Pxy, Pyy)
      ensures Nonsingular(m, Pyy) ==> HasLeastVariance(L, m, xp, yp, P, Pxx, Pxy, Pyy)
    {
      hide Spreading, MeanWeights, Sigma, Image, IsCov, Mean, IsPredicted, Sandwich, MatMul, IsSolver, Nonsingular,
           Factors, InverseOf,
           Quadratic, IsErrorCovariance, HasLeastVariance;
      ghost var h, X := 0.5 / Spreading(L, alpha, kappa), Image(L, p.F, p.g, Sigma(L, x, S));
      ghost var Z := Image(L, p.C, p.d, X);
      var sigma := CalcSigma(L, x, S);
      var Xxp, Y := Simulate(L, m, p, sigma, Sigma(L, x, S));
      xp := WeightedSum(Wm, Xxp, X);
      yp := WeightedSum(Wm, Y, Z);
      PredictedMeans(L, m, p, x, S, Wm, h, xp, yp, X, Z);
      var cxx, cyy, cxy := Covariances(Wc, Xxp, xp, Y, yp, X, Z);
      PredictedCovariances(L, m, p, x, P, S, Spreading(L, alpha, kappa), Wc, h, xp, yp, X, Z, cxx, cyy, cxy);
      var pxx, pyy := PlusMat(cxx, Pv), PlusMat(cyy, Pn);
      var invPyy := InverseOf(solve, m, pyy);
      K := MatMul(m, cxy, invPyy);
      if Nonsingular(m, pyy) {
        InverseIsSolution(solve, m, pyy);
        forall a: nat, b: nat | a < L && b < m ensures MatMul(m, K, pyy)(a, b) == cxy(a, b) {
          GainSolves(m, cxy, pyy, invPyy, a, b);
        }
      }
      P := MinusMat(pxx, Quadratic(m, K, pyy));
      Pxx, Pxy, Pyy := pxx, cxy, pyy;
      if Nonsingular(m, pyy) {
        GainIsBest(L, m, xp, yp, K, P, Pxx, Pxy, Pyy);
      }
    }

    /** Corrects the prediction by the measurement y. After Predict this is the estimate whose error has
        covariance P and the least variance. */
    method Update(y: Vec)
      modifies `x
      ensures forall k: nat :: x(k) == Corrected(m, xp, yp, K, y)(k)
    {
      var correction, predicted := MulVec(m, K, Minus(y, yp)), xp;
      x := (k: nat) => predicted(k) + correction(k);
    }
  }
}
