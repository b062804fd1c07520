/**
 What the gain and the stored covariance of the Kalman filter (ukf.py) are for: over any weighted
 ensemble of states and measurements with the predicted covariances, the stored covariance is that of
 the error of the corrected estimate, and no other gain makes an error variance smaller.
 */
module KalmanGains {
  import opened RealSums
  import opened Matrices
  import opened SigmaPoints

  function Minus(u: Vec, v: Vec): Vec {
    (k: nat) => u(k) - v(k)
  }

  /** The estimate after measurement y: xp + K (y - yp). */
  function Corrected(m: nat, xp: Vec, yp: Vec, K: Mat, y: Vec): Vec {
    (k: nat) => xp(k) + MulVec(m, K, Minus(y, yp))(k)
  }

  /** K (P K^T) */
  function Quadratic(m: nat, K: Mat, P: Mat): Mat {
    MatMul(m, K, MatMul(m, P, Transpose(K)))
  }

  function Difference(G: Mat, K: Mat): Mat {
    (a: nat, b: nat) => G(a, b) - K(a, b)
  }

  // ----- Second moments over weighted outcomes -----

  /** The sum of w_i f_i g_i. */
  function Moment(n: nat, w: Vec, f: Vec, g: Vec): real {
    Dot(n, Weighted(w, g), f)
  }

  function Weighted(w: Vec, g: Vec): Vec {
    (i: nat) => Prod(w(i), g(i))
  }

  lemma Regroup(w: real, f: real, g: real)
    ensures Prod(Prod(w, g), f) == Prod(w, Prod(f, g)) == Prod(Prod(w, f), g)
  {}

  lemma MomentComm(n: nat, w: Vec, f: Vec, g: Vec)
    ensures Moment(n, w, f, g) == Moment(n, w, g, f)
  {
    var u, v := Weighted(w, g), Weighted(w, f);
    forall i: nat | i < n ensures Prod(u(i), f(i)) == Prod(v(i), g(i)) { Regroup(w(i), f(i), g(i)); }
    SumExt(n, (i: nat) => Prod(u(i), f(i)), (i: nat) => Prod(v(i), g(i)));
  }

  lemma MomentSub(n: nat, w: Vec, f: Vec, p: Vec, q: Vec, g: Vec)
    requires forall i: nat :: i < n ==> f(i) == p(i) - q(i)
    ensures Moment(n, w, f, g) == Moment(n, w, p, g) - Moment(n, w, q, g)
  {
    DotAdd(n, Weighted(w, g), p, f, q);
  }

  /** k_0 D_0 + ... + k_(m-1) D_(m-1), of the rows of D. */
  function Comb(m: nat, k: Vec, D: Mat): Vec {
    (i: nat) => Dot(m, k, Col(D, i))
  }

  lemma CombMoment(n: nat, w: Vec, m: nat, k: Vec, D: Mat, g: Vec, c: Vec)
    requires forall b: nat :: b < m ==> c(b) == Moment(n, w, Row(D, b), g)
    ensures Moment(n, w, Comb(m, k, D), g) == Dot(m, k, c)
  {
    var u, T := Weighted(w, g), Transpose(D);
    forall i: nat | i < n ensures Comb(m, k, D)(i) == MulVec(m, T, k)(i) {
      DotComm(m, k, Col(D, i));
      DotExt(m, Col(D, i), k, Row(T, i), k);
    }
    DotExt(n, u, Comb(m, k, D), u, MulVec(m, T, k));
    DotMulVec(n, m, u, T, k);
    var d := (b: nat) => Dot(n, u, Col(T, b));
    forall b: nat | b < m ensures d(b) == c(b) { DotExt(n, u, Col(T, b), u, Row(D, b)); }
    DotExt(m, d, k, c, k);
    DotComm(m, c, k);
  }

  /** A combination of what is orthogonal to g is orthogonal to g. */
  lemma CombOrthogonal(n: nat, w: Vec, m: nat, k: Vec, D: Mat, g: Vec)
    requires forall b: nat :: b < m ==> Moment(n, w, Row(D, b), g) == 0.0
    ensures Moment(n, w, Comb(m, k, D), g) == 0.0
  {
    var zero: Vec := (b: nat) => 0.0;
    CombMoment(n, w, m, k, D, g, zero);
    DotZero(m, k, zero);
  }

  /** The moment of the combinations by rows a and b of K. */
  lemma CombsMoment(n: nat, w: Vec, m: nat, K: Mat, D: Mat, P: Mat, a: nat, b: nat)
    requires forall c: nat, d: nat :: c < m && d < m ==> Moment(n, w, Row(D, c), Row(D, d)) == P(c, d)
    ensures Moment(n, w, Comb(m, Row(K, a), D), Comb(m, Row(K, b), D)) == Quadratic(m, K, P)(a, b)
  {
    hide Moment, Comb;
    var PK, q := MatMul(m, P, Transpose(K)), Comb(m, Row(K, b), D);
    forall c: nat | c < m ensures Moment(n, w, Row(D, c), q) == Col(PK, b)(c) {
      MomentComm(n, w, Row(D, c), q);
      forall d: nat | d < m
        ensures Row(P, c)(d) == Moment(n, w, Row(D, d), Row(D, c))
      {
        MomentComm(n, w, Row(D, c), Row(D, d));
      }
      CombMoment(n, w, m, Row(K, b), D, Row(D, c), Row(P, c));
      DotComm(m, Row(K, b), Row(P, c));
      DotExt(m, Row(P, c), Row(K, b), Row(P, c), Col(Transpose(K), b));
    }
    CombMoment(n, w, m, Row(K, a), D, q, Col(PK, b));
  }

  // ----- Errors of the estimate -----

  /** The second moments of the rows of D and those of the rows of E. */
  ghost predicate IsMoment(rows: nat, cols: nat, M: Mat, n: nat, w: Vec, D: Mat, E: Mat) {
    forall a: nat, b: nat :: a < rows && b < cols ==> Moment(n, w, Row(D, a), Row(E, b)) == M(a, b)
  }

  /** What is left of deviation DX_a when gain G is used on the deviations DY. */
  function Left(m: nat, G: Mat, DX: Mat, DY: Mat, a: nat): Vec {
    (i: nat) => DX(a, i) - Comb(m, Row(G, a), DY)(i)
  }

  /** With K Pyy = Pxy, what is left has nothing to do with the measurements. */
  lemma LeftIsOrthogonal(L: nat, m: nat, n: nat, w: Vec, DX: Mat, DY: Mat, Pxy: Mat, Pyy: Mat, K: Mat, a: nat, c: nat)
    requires IsMoment(L, m, Pxy, n, w, DX, DY) && IsMoment(m, m, Pyy, n, w, DY, DY)
    requires SameMat(L, m, MatMul(m, K, Pyy), Pxy) && a < L && c < m
    ensures Moment(n, w, Row(DY, c), Left(m, K, DX, DY, a)) == 0.0
  {
    hide Moment;
    var e, y := Left(m, K, DX, DY, a), Row(DY, c);
    MomentComm(n, w, y, e);
    MomentSub(n, w, e, Row(DX, a), Comb(m, Row(K, a), DY), y);
    CombMoment(n, w, m, Row(K, a), DY, y, Col(Pyy, c));
    assert MatMul(m, K, Pyy)(a, c) == Pxy(a, c);
  }

  /** The moments of what is left with gain K are Pxx - K Pyy K^T. */
  lemma LeftMoment(L: nat, m: nat, n: nat, w: Vec, DX: Mat, DY: Mat, Pxx: Mat, Pxy: Mat, Pyy: Mat, K: Mat, a: nat,
                   b: nat)
    requires IsMoment(L, L, Pxx, n, w, DX, DX)
    requires IsMoment(L, m, Pxy, n, w, DX, DY) && IsMoment(m, m, Pyy, n, w, DY, DY)
    requires SameMat(L, m, MatMul(m, K, Pyy), Pxy) && a < L && b < L
    ensures Moment(n, w, Left(m, K, DX, DY, a), Left(m, K, DX, DY, b)) == Pxx(a, b) - Quadratic(m, K, Pyy)(a, b)
  {
    hide Moment, Quadratic, IsMoment, MatMul;
    var ea, eb, qa, qb := Left(m, K, DX, DY, a), Left(m, K, DX, DY, b), Comb(m, Row(K, a), DY), Comb(m, Row(K, b), DY);
    forall c: nat | c < m ensures Moment(n, w, Row(DY, c), ea) == 0.0 && Moment(n, w, Row(DY, c), eb) == 0.0 {
      LeftIsOrthogonal(L, m, n, w, DX, DY, Pxy, Pyy, K, a, c);
      LeftIsOrthogonal(L, m, n, w, DX, DY, Pxy, Pyy, K, b, c);
    }
    CombOrthogonal(n, w, m, Row(K, a), DY, eb);
    CombOrthogonal(n, w, m, Row(K, b), DY, ea);
    MomentSub(n, w, ea, Row(DX, a), qa, eb);
    MomentComm(n, w, Row(DX, a), eb);
    MomentSub(n, w, eb, Row(DX, b), qb, Row(DX, a));
    MomentComm(n, w, Row(DX, b), Row(DX, a));
    MomentComm(n, w, qb, ea);
    MomentSub(n, w, ea, Row(DX, a), qa, qb);
    MomentComm(n, w, Row(DX, a), qb);
    assert Moment(n, w, Row(DX, a), Row(DX, b)) == Pxx(a, b) &&
           (forall c: nat, d: nat :: c < m && d < m ==> Moment(n, w, Row(DY, c), Row(DY, d)) == Pyy(c, d)) by {
      MomentsOf(L, m, n, w, DX, DY, Pxx, Pyy, a, b);
    }
    CombsMoment(n, w, m, K, DY, Pyy, a, b);
  }

  lemma MomentsOf(L: nat, m: nat, n: nat, w: Vec, DX: Mat, DY: Mat, Pxx: Mat, Pyy: Mat, a: nat, b: nat)
    requires IsMoment(L, L, Pxx, n, w, DX, DX) && IsMoment(m, m, Pyy, n, w, DY, DY) && a < L && b < L
    ensures Moment(n, w, Row(DX, a), Row(DX, b)) == Pxx(a, b)
    ensures forall c: nat, d: nat :: c < m && d < m ==> Moment(n, w, Row(DY, c), Row(DY, d)) == Pyy(c, d)
  {}

  /** Any other gain G adds (G - K) Pyy (G - K)^T. */
  lemma OtherGainMoment(L: nat, m: nat, n: nat, w: Vec, DX: Mat, DY: Mat, Pxx: Mat, Pxy: Mat, Pyy: Mat, K: Mat, G: Mat,
                        a: nat, b: nat)
    requires IsMoment(L, L, Pxx, n, w, DX, DX)
    requires IsMoment(L, m, Pxy, n, w, DX, DY) && IsMoment(m, m, Pyy, n, w, DY, DY)
    requires SameMat(L, m, MatMul(m, K, Pyy), Pxy) && a < L && b < L
    ensures Moment(n, w, Left(m, G, DX, DY, a), Left(m, G, DX, DY, b)) ==
            Pxx(a, b) - Quadratic(m, K, Pyy)(a, b) + Quadratic(m, Difference(G, K), Pyy)(a, b)
  {
    hide Moment, Quadratic, IsMoment, MatMul, Left, Comb;
    var D := Difference(G, K);
    var ea, eb, ga, gb := Left(m, K, DX, DY, a), Left(m, K, DX, DY, b), Left(m, G, DX, DY, a), Left(m, G, DX, DY, b);
    var qa, qb := Comb(m, Row(D, a), DY), Comb(m, Row(D, b), DY);
    LeftDiffers(m, n, DX, DY, K, G, a);
    LeftDiffers(m, n, DX, DY, K, G, b);
    forall c: nat | c < m ensures Moment(n, w, Row(DY, c), ea) == 0.0 && Moment(n, w, Row(DY, c), eb) == 0.0 {
      LeftIsOrthogonal(L, m, n, w, DX, DY, Pxy, Pyy, K, a, c);
      LeftIsOrthogonal(L, m, n, w, DX, DY, Pxy, Pyy, K, b, c);
    }
    CombOrthogonal(n, w, m, Row(D, a), DY, eb);
    CombOrthogonal(n, w, m, Row(D, b), DY, ea);
    Pythagoras(n, w, ga, ea, qa, gb, eb, qb);
    LeftMoment(L, m, n, w, DX, DY, Pxx, Pxy, Pyy, K, a, b);
    MomentsOf(L, m, n, w, DX, DY, Pxx, Pyy, a, b);
    CombsMoment(n, w, m, D, DY, Pyy, a, b);
  }

  /** Orthogonal parts add up. */
  lemma Pythagoras(n: nat, w: Vec, ga: Vec, ea: Vec, qa: Vec, gb: Vec, eb: Vec, qb: Vec)
    requires forall i: nat :: i < n ==> ga(i) == ea(i) - qa(i) && gb(i) == eb(i) - qb(i)
    requires Moment(n, w, qa, eb) == 0.0 && Moment(n, w, qb, ea) == 0.0
    ensures Moment(n, w, ga, gb) == Moment(n, w, ea, eb) + Moment(n, w, qa, qb)
  {
    hide Moment;
    MomentSub(n, w, ga, ea, qa, gb);
    MomentComm(n, w, ea, gb);
    MomentSub(n, w, gb, eb, qb, ea);
    MomentComm(n, w, eb, ea);
    MomentComm(n, w, qa, gb);
    MomentSub(n, w, gb, eb, qb, qa);
    MomentComm(n, w, eb, qa);
    MomentComm(n, w, qb, qa);
  }

  lemma LeftDiffers(m: nat, n: nat, DX: Mat, DY: Mat, K: Mat, G: Mat, a: nat)
    ensures forall i: nat :: i < n ==>
      Left(m, G, DX, DY, a)(i) == Left(m, K, DX, DY, a)(i) - Comb(m, Row(Difference(G, K), a), DY)(i)
  {
    forall i: nat | i < n
      ensures Left(m, G, DX, DY, a)(i) == Left(m, K, DX, DY, a)(i) - Comb(m, Row(Difference(G, K), a), DY)(i)
    {
      var c, D := Col(DY, i), Difference(G, K);
      SubMulVec(m, D, G, K, c, a);
      assert Comb(m, Row(G, a), DY)(i) == MulVec(m, G, c)(a) && Comb(m, Row(K, a), DY)(i) == MulVec(m, K, c)(a);
      assert Comb(m, Row(D, a), DY)(i) == MulVec(m, D, c)(a);
    }
  }

  // ----- The filter -----

  /** The errors of the estimates made with gain G, outcome by outcome. */
  function Errors(m: nat, xp: Vec, yp: Vec, G: Mat, X: Mat, Z: Mat): Mat {
    (a: nat, i: nat) => X(a, i) - Corrected(m, xp, yp, G, Col(Z, i))(a)
  }

  /** n weighted outcomes, states in the columns of X and measurements in those of Z, have these
      covariances about xp and yp. */
  ghost predicate Ensemble(L: nat, m: nat, n: nat, w: Vec, X: Mat, Z: Mat, xp: Vec, yp: Vec, Pxx: Mat, Pxy: Mat,
                           Pyy: Mat)
  {
    IsCov(L, L, Pxx, n, w, X, xp, X, xp) && IsCov(L, m, Pxy, n, w, X, xp, Z, yp) && IsCov(m, m, Pyy, n, w, Z, yp, Z, yp)
  }

  function Deviations(U: Mat, u: Vec): Mat {
    (a: nat, i: nat) => U(a, i) - u(a)
  }

  lemma CovIsMoment(n: nat, w: Vec, U: Mat, u: Vec, V: Mat, v: Vec, a: nat, b: nat)
    ensures Cov(n, w, U, u, V, v, a, b) == Moment(n, w, Row(Deviations(U, u), a), Row(Deviations(V, v), b))
  {
    var f, g := Row(Deviations(U, u), a), Row(Deviations(V, v), b);
    var wg := Weighted(w, g);
    forall i: nat | i < n
      ensures Prod(wg(i), f(i)) == Prod(w(i), Prod(U(a, i) - u(a), V(b, i) - v(b)))
    {
      Regroup(w(i), f(i), g(i));
    }
    SumExt(n, (i: nat) => Prod(wg(i), f(i)), (i: nat) => Prod(w(i), Prod(U(a, i) - u(a), V(b, i) - v(b))));
  }

  lemma MomentExt(n: nat, w: Vec, f: Vec, g: Vec, f': Vec, g': Vec)
    requires SameVec(n, f, f') && SameVec(n, g, g')
    ensures Moment(n, w, f, g) == Moment(n, w, f', g')
  {
    DotExt(n, Weighted(w, g), f, Weighted(w, g'), f');
  }

  lemma ErrorsAreLeft(m: nat, n: nat, xp: Vec, yp: Vec, G: Mat, X: Mat, Z: Mat, a: nat)
    ensures SameVec(n, Row(Errors(m, xp, yp, G, X, Z), a), Left(m, G, Deviations(X, xp), Deviations(Z, yp), a))
  {
    forall i: nat | i < n
      ensures Row(Errors(m, xp, yp, G, X, Z), a)(i) == Left(m, G, Deviations(X, xp), Deviations(Z, yp), a)(i)
    {
      var c := Col(Deviations(Z, yp), i);
      MulVecExt(m, G, Minus(Col(Z, i), yp), c, a);
      assert Comb(m, Row(G, a), Deviations(Z, yp))(i) == MulVec(m, G, c)(a);
      assert Errors(m, xp, yp, G, X, Z)(a, i) == X(a, i) - Corrected(m, xp, yp, G, Col(Z, i))(a);
    }
  }

  /** The covariance of the error with gain G, when K is the gain of the filter: the covariance that the
      filter stores, and what G loses. */
  lemma ErrorCovariance(L: nat, m: nat, n: nat, w: Vec, X: Mat, Z: Mat, xp: Vec, yp: Vec, Pxx: Mat, Pxy: Mat, Pyy: Mat,
                        K: Mat, G: Mat, a: nat, b: nat)
    requires Ensemble(L, m, n, w, X, Z, xp, yp, Pxx, Pxy, Pyy) && SameMat(L, m, MatMul(m, K, Pyy), Pxy) && a < L
    requires b < L
    ensures var E := Errors(m, xp, yp, G, X, Z);
            Moment(n, w, Row(E, a), Row(E, b)) ==
            Pxx(a, b) - Quadratic(m, K, Pyy)(a, b) + Quadratic(m, Difference(G, K), Pyy)(a, b)
  {
    hide Moment, Quadratic, MatMul, Errors, Left, Cov;
    var DX, DY, E := Deviations(X, xp), Deviations(Z, yp), Errors(m, xp, yp, G, X, Z);
    forall c: nat, d: nat
      ensures Cov(n, w, X, xp, X, xp, c, d) == Moment(n, w, Row(DX, c), Row(DX, d))
    {
      CovIsMoment(n, w, X, xp, X, xp, c, d);
    }
    forall c: nat, d: nat
      ensures Cov(n, w, X, xp, Z, yp, c, d) == Moment(n, w, Row(DX, c), Row(DY, d))
    {
      CovIsMoment(n, w, X, xp, Z, yp, c, d);
    }
    forall c: nat, d: nat
      ensures Cov(n, w, Z, yp, Z, yp, c, d) == Moment(n, w, Row(DY, c), Row(DY, d))
    {
      CovIsMoment(n, w, Z, yp, Z, yp, c, d);
    }
    ErrorsAreLeft(m, n, xp, yp, G, X, Z, a);
    ErrorsAreLeft(m, n, xp, yp, G, X, Z, b);
    MomentExt(n, w, Row(E, a), Row(E, b), Left(m, G, DX, DY, a), Left(m, G, DX, DY, b));
    OtherGainMoment(L, m, n, w, DX, DY, Pxx, Pxy, Pyy, K, G, a, b);
  }

  lemma NothingLost(m: nat, K: Mat, Pyy: Mat, a: nat, b: nat)
    ensures Quadratic(m, Difference(K, K), Pyy)(a, b) == 0.0
  {
    var D := Difference(K, K);
    var v := Col(MatMul(m, Pyy, Transpose(D)), b);
    DotComm(m, Row(D, a), v);
    DotZero(m, v, Row(D, a));
  }

  /** P is the covariance of the error of the estimate that the filter makes, whatever the ensemble. */
  ghost predicate IsErrorCovariance(L: nat, m: nat, xp: Vec, yp: Vec, K: Mat, P: Mat, Pxx: Mat, Pxy: Mat, Pyy: Mat) {
    forall n: nat, w: Vec, X: Mat, Z: Mat, a: nat, b: nat ::
      Ensemble(L, m, n, w, X, Z, xp, yp, Pxx, Pxy, Pyy) && a < L && b < L ==>
        Moment(n, w, Row(Errors(m, xp, yp, K, X, Z), a), Row(Errors(m, xp, yp, K, X, Z), b)) == P(a, b)
  }

  /** No gain has errors of smaller variance, in any state, over any ensemble with weights that are not
      negative. */
  ghost predicate HasLeastVariance(L: nat, m: nat, xp: Vec, yp: Vec, P: Mat, Pxx: Mat, Pxy: Mat, Pyy: Mat) {
    forall n: nat, w: Vec, X: Mat, Z: Mat, G: Mat, a: nat ::
      Ensemble(L, m, n, w, X, Z, xp, yp, Pxx, Pxy, Pyy) && (forall i: nat :: i < n ==> w(i) >= 0.0) && a < L ==>
        Moment(n, w, Row(Errors(m, xp, yp, G, X, Z), a), Row(Errors(m, xp, yp, G, X, Z), a)) >= P(a, a)
  }

  lemma GainIsBest(L: nat, m: nat, xp: Vec, yp: Vec, K: Mat, P: Mat, Pxx: Mat, Pxy: Mat, Pyy: Mat)
    requires SameMat(L, m, MatMul(m, K, Pyy), Pxy)
    requires forall a: nat, b: nat :: P(a, b) == Pxx(a, b) - Quadratic(m, K, Pyy)(a, b)
    ensures IsErrorCovariance(L, m, xp, yp, K, P, Pxx, Pxy, Pyy)
    ensures HasLeastVariance(L, m, xp, yp, P, Pxx, Pxy, Pyy)
  {
    hide Moment, Quadratic, MatMul, Errors, Ensemble;
    forall n: nat, w: Vec, X: Mat, Z: Mat, a: nat, b: nat | Ensemble(L, m, n, w, X, Z, xp, yp, Pxx, Pxy, Pyy) &&
        a < L && b < L
      ensures Moment(n, w, Row(Errors(m, xp, yp, K, X, Z), a), Row(Errors(m, xp, yp, K, X, Z), b)) == P(a, b)
    {
      ErrorCovariance(L, m, n, w, X, Z, xp, yp, Pxx, Pxy, Pyy, K, K, a, b);
      NothingLost(m, K, Pyy, a, b);
    }
    forall n: nat, w: Vec, X: Mat, Z: Mat, G: Mat, a: nat |
      Ensemble(L, m, n, w, X, Z, xp, yp, Pxx, Pxy, Pyy) && (forall i: nat :: i < n ==> w(i) >= 0.0) && a < L
      ensures Moment(n, w, Row(Errors(m, xp, yp, G, X, Z), a), Row(Errors(m, xp, yp, G, X, Z), a)) >= P(a, a)
    {
      ErrorCovariance(L, m, n, w, X, Z, xp, yp, Pxx, Pxy, Pyy, K, G, a, a);
      LossIsNotNegative(L, m, n, w, X, Z, xp, yp, Pxx, Pxy, Pyy, Difference(G, K), a);
    }
  }

  lemma LossIsNotNegative(L: nat, m: nat, n: nat, w: Vec, X: Mat, Z: Mat, xp: Vec, yp: Vec, Pxx: Mat, Pxy: Mat,
                          Pyy: Mat, D: Mat, a: nat)
    requires Ensemble(L, m, n, w, X, Z, xp, yp, Pxx, Pxy, Pyy) && forall i: nat :: i < n ==> w(i) >= 0.0
    ensures Quadratic(m, D, Pyy)(a, a) >= 0.0
  {
    hide Moment, Quadratic, MatMul, Cov;
    var DY := Deviations(Z, yp);
    forall c: nat, d: nat | c < m && d < m
      ensures Moment(n, w, Row(DY, c), Row(DY, d)) == Pyy(c, d)
    {
      CovIsMoment(n, w, Z, yp, Z, yp, c, d);
    }
    CombsMoment(n, w, m, D, DY, Pyy, a, a);
    SquareMoment(n, w, Comb(m, Row(D, a), DY));
  }

  lemma SquareMoment(n: nat, w: Vec, f: Vec)
    requires forall i: nat :: i < n ==> w(i) >= 0.0
    ensures Moment(n, w, f, f) >= 0.0
  {
    var terms := (i: nat) => Prod(Weighted(w, f)(i), f(i));
    forall i: nat | i < n ensures terms(i) >= 0.0 { WeightedSquare(w(i), f(i)); }
    SumNotNegative(n, terms);
  }

  lemma WeightedSquare(w: real, f: real)
    requires w >= 0.0
    ensures Prod(Prod(w, f), f) >= 0.0
  {
    Regroup(w, f, f);
    assert f * f >= 0.0;
  }

  lemma {:induction false} SumNotNegative(n: nat, f: Vec)
    requires forall i: nat :: i < n ==> f(i) >= 0.0
    ensures Sum(n, f) >= 0.0
  {
    if n > 0 { SumNotNegative(n - 1, f); }
  }
}
