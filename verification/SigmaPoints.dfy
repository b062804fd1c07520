/**
 Sigma points of the unscented transform (ukf.py): weighted means and covariances of affine images
 are exact.
 */
module SigmaPoints {
  import opened RealSums
  import opened Matrices

  // ----- Weights -----

  /** Every weight after the first is h, and w(0) + 2 L h = 1. */
  ghost predicate MeanWeights(L: nat, w: Vec, h: real) {
    (forall i: nat :: 1 <= i <= 2 * L ==> w(i) == h) && w(0) + Prod(2.0 * L as real, h) == 1.0
  }

  lemma {:induction false} SumConst(n: nat, f: Vec, c: real)
    requires forall i: nat :: i < n ==> f(i) == c
    ensures Sum(n, f) == Prod(n as real, c)
  {
    if n > 0 {
      SumConst(n - 1, f, c);
      OneMore(n - 1, c);
    }
  }

  lemma OneMore(n: nat, c: real)
    ensures Prod(n as real, c) + c == Prod((n + 1) as real, c)
  {}

  /** The first point, the points on one side, the points on the other side. */
  lemma SumSigma(L: nat, f: Vec)
    ensures Sum(2 * L + 1, f) == f(0) + Sum(L, (i: nat) => f(1 + i)) + Sum(L, (i: nat) => f(1 + L + i))
  {
    SumSplit(1 + L, L, f);
    SumSplit(1, L, f);
    assert Sum(1, f) == f(0);
    SumExt(L, (i: nat) => f(1 + L + i), (i: nat) => f((1 + L) + i));
  }

  lemma WeightsSumToOne(L: nat, w: Vec, h: real)
    requires MeanWeights(L, w, h)
    ensures Sum(2 * L + 1, w) == 1.0
  {
    SumSigma(L, w);
    SumConst(L, (i: nat) => w(1 + i), h);
    SumConst(L, (i: nat) => w(1 + L + i), h);
    Twice(L as real, h);
  }

  lemma Twice(n: real, h: real)
    ensures Prod(n, h) + Prod(n, h) == Prod(2.0 * n, h)
  {}

  // ----- Points -----

  /** The columns: x, x + S_i, x - S_i. */
  function Sigma(L: nat, x: Vec, S: Mat): Mat {
    (k: nat, i: nat) => if i == 0 then x(k) else if i <= L then x(k) + S(k, i - 1) else x(k) - S(k, i - (L + 1))
  }

  /** f(v) = G v + g for every column v of the points. */
  function Image(L: nat, G: Mat, g: Vec, points: Mat): Mat {
    (k: nat, i: nat) => MulVec(L, G, Col(points, i))(k) + g(k)
  }

  function Affine(L: nat, G: Mat, g: Vec, x: Vec): Vec {
    (k: nat) => MulVec(L, G, x)(k) + g(k)
  }

  /** Row a of U is spread around the mean by the columns of G S. */
  ghost predicate Spread(L: nat, U: Mat, mean: Vec, G: Mat, S: Mat, a: nat) {
    U(a, 0) == mean(a) && forall i: nat :: i < L ==> SpreadAt(L, U, mean(a), MatMul(L, G, S)(a, i), a, i)
  }

  ghost predicate SpreadAt(L: nat, U: Mat, mean: real, step: real, a: nat, i: nat) {
    U(a, 1 + i) == mean + step && U(a, 1 + L + i) == mean - step
  }

  lemma ColumnImage(L: nat, G: Mat, x: Vec, S: Mat, a: nat, i: nat)
    requires i < L
    ensures MulVec(L, G, Col(Sigma(L, x, S), 1 + i))(a) == MulVec(L, G, x)(a) + MatMul(L, G, S)(a, i)
    ensures MulVec(L, G, Col(Sigma(L, x, S), 1 + L + i))(a) == MulVec(L, G, x)(a) - MatMul(L, G, S)(a, i)
  {
    MulVecAdd(L, G, Col(Sigma(L, x, S), 1 + i), x, Col(S, i), a);
    MulVecSub(L, G, Col(Sigma(L, x, S), 1 + L + i), x, Col(S, i), a);
  }

  lemma MulVecExtFirst(L: nat, G: Mat, x: Vec, S: Mat, a: nat)
    ensures MulVec(L, G, Col(Sigma(L, x, S), 0))(a) == MulVec(L, G, x)(a)
  {
    MulVecExt(L, G, Col(Sigma(L, x, S), 0), x, a);
  }

  /** The image of the sigma points under G v + g. */
  lemma ImageSpreads(L: nat, G: Mat, g: Vec, x: Vec, S: Mat, a: nat)
    ensures Spread(L, Image(L, G, g, Sigma(L, x, S)), Affine(L, G, g, x), G, S, a)
  {
    hide MulVec, MatMul, Sigma;
    MulVecExtFirst(L, G, x, S, a);
    forall i: nat | i < L
      ensures SpreadAt(L, Image(L, G, g, Sigma(L, x, S)), Affine(L, G, g, x)(a), MatMul(L, G, S)(a, i), a, i)
    {
      ColumnImage(L, G, x, S, a, i);
    }
  }

  lemma MatMulAssoc(L: nat, C: Mat, G: Mat, S: Mat, a: nat, i: nat)
    ensures MulVec(L, C, Col(MatMul(L, G, S), i))(a) == MatMul(L, MatMul(L, C, G), S)(a, i)
  {
    MulVecExt(L, C, Col(MatMul(L, G, S), i), MulVec(L, G, Col(S, i)), a);
    MulVecAssoc(L, L, C, G, Col(S, i), a);
  }

  /** The image of an image: C (G v + g) + d spreads by C G. */
  lemma ImageOfSpread(L: nat, C: Mat, d: Vec, U: Mat, mean: Vec, G: Mat, S: Mat, a: nat)
    requires forall b: nat :: b < L ==> Spread(L, U, mean, G, S, b)
    ensures Spread(L, Image(L, C, d, U), Affine(L, C, d, mean), MatMul(L, C, G), S, a)
  {
    hide MulVec, MatMul;
    forall b: nat | b < L ensures Col(U, 0)(b) == mean(b) { assert Spread(L, U, mean, G, S, b); }
    MulVecExt(L, C, Col(U, 0), mean, a);
    forall i: nat | i < L
      ensures SpreadAt(L, Image(L, C, d, U), Affine(L, C, d, mean)(a), MatMul(L, MatMul(L, C, G), S)(a, i), a, i)
    {
      var GS := Col(MatMul(L, G, S), i);
      forall b: nat | b < L ensures Col(U, 1 + i)(b) == mean(b) + GS(b) && Col(U, 1 + L + i)(b) == mean(b) - GS(b) {
        assert Spread(L, U, mean, G, S, b);
        assert SpreadAt(L, U, mean(b), MatMul(L, G, S)(b, i), b, i);
      }
      MulVecAdd(L, C, Col(U, 1 + i), mean, GS, a);
      MulVecSub(L, C, Col(U, 1 + L + i), mean, GS, a);
      MatMulAssoc(L, C, G, S, a, i);
    }
  }

  // ----- Means -----

  function Mean(n: nat, w: Vec, U: Mat, a: nat): real {
    Sum(n, (i: nat) => Prod(w(i), U(a, i)))
  }

  lemma Around(h: real, m: real, s: real, u: real, v: real)
    requires u == m + s && v == m - s
    ensures Prod(h, u) + Prod(h, v) == Prod(2.0 * h, m)
  {}

  lemma WholeMean(w0: real, h: real, n: real, m: real)
    requires w0 + Prod(2.0 * n, h) == 1.0
    ensures Prod(w0, m) + Prod(n, Prod(2.0 * h, m)) == m
  {
    assert Prod(n, Prod(2.0 * h, m)) == Prod(Prod(2.0 * n, h), m);
    assert Prod(w0, m) + Prod(Prod(2.0 * n, h), m) == Prod(w0 + Prod(2.0 * n, h), m);
  }

  /** The weighted sum of spread points is their mean. */
  lemma MeanIsExact(L: nat, w: Vec, h: real, U: Mat, mean: Vec, G: Mat, S: Mat, a: nat)
    requires MeanWeights(L, w, h) && Spread(L, U, mean, G, S, a)
    ensures Mean(2 * L + 1, w, U, a) == mean(a)
  {
    var f := (i: nat) => Prod(w(i), U(a, i));
    var up, down := (i: nat) => f(1 + i), (i: nat) => f(1 + L + i);
    var both := (i: nat) => up(i) + down(i);
    SumSigma(L, f);
    SumAdd(L, both, up, down);
    forall i: nat | i < L ensures both(i) == Prod(2.0 * h, mean(a)) {
      assert SpreadAt(L, U, mean(a), MatMul(L, G, S)(a, i), a, i);
      Around(h, mean(a), MatMul(L, G, S)(a, i), U(a, 1 + i), U(a, 1 + L + i));
    }
    SumConst(L, both, Prod(2.0 * h, mean(a)));
    WholeMean(w(0), h, L as real, mean(a));
  }

  // ----- Covariances -----

  /** The sum of w_i u_i v_i over the points, u and v being the deviations in rows a of U and b of V. */
  function Cov(n: nat, w: Vec, U: Mat, u: Vec, V: Mat, v: Vec, a: nat, b: nat): real {
    Sum(n, (i: nat) => Prod(w(i), Prod(U(a, i) - u(a), V(b, i) - v(b))))
  }

  ghost predicate IsCov(rows: nat, cols: nat, M: Mat, n: nat, w: Vec, U: Mat, u: Vec, V: Mat, v: Vec) {
    forall a: nat, b: nat :: a < rows && b < cols ==> M(a, b) == Cov(n, w, U, u, V, v, a, b)
  }

  /** G P H^T at (a, b). */
  function Sandwich(L: nat, G: Mat, P: Mat, H: Mat, a: nat, b: nat): real {
    MulVec(L, G, MulVec(L, P, Row(H, b)))(a)
  }

  lemma ProdNeg(a: real, b: real, c: real, d: real)
    requires c == -a && d == -b
    ensures Prod(c, d) == Prod(a, b)
  {}

  /** S S^T = c P turns the sum over the columns into G P H^T. */
  lemma ColumnsGiveCovariance(L: nat, G: Mat, H: Mat, P: Mat, S: Mat, c: real, a: nat, b: nat)
    requires forall k: nat, l: nat :: k < L && l < L ==> MatMul(L, S, Transpose(S))(k, l) == Prod(c, P(k, l))
    ensures Dot(L, Row(MatMul(L, G, S), a), Row(MatMul(L, H, S), b)) == Prod(c, Sandwich(L, G, P, H, a, b))
  {
    var row, v := Row(H, b), Row(MatMul(L, H, S), b);
    var Sv, Pv := MulVec(L, S, MulVec(L, Transpose(S), row)), MulVec(L, P, row);
    forall i: nat | i < L ensures v(i) == MulVec(L, Transpose(S), row)(i) {
      DotComm(L, row, Col(S, i));
      DotExt(L, Col(S, i), row, Row(Transpose(S), i), row);
    }
    DotExt(L, Row(MatMul(L, G, S), a), v, Row(MatMul(L, G, S), a), MulVec(L, Transpose(S), row));
    MulVecAssoc(L, L, G, S, MulVec(L, Transpose(S), row), a);
    forall k: nat | k < L ensures Sv(k) == Prod(c, Pv(k)) {
      MulVecAssoc(L, L, S, Transpose(S), row, k);
      DotComm(L, Row(MatMul(L, S, Transpose(S)), k), row);
      DotScale(L, row, Row(MatMul(L, S, Transpose(S)), k), c, Row(P, k));
      DotComm(L, row, Row(P, k));
    }
    DotScale(L, Row(G, a), Sv, c, Pv);
  }

  lemma HalfScale(h: real, c: real, q: real)
    requires Prod(2.0 * h, c) == 1.0
    ensures Prod(2.0 * h, Prod(c, q)) == q
  {
    assert Prod(2.0 * h, Prod(c, q)) == Prod(Prod(2.0 * h, c), q);
  }

  lemma TwoSides(h: real, p: real, t: real, u: real)
    requires t == Prod(h, p) && u == Prod(h, p)
    ensures t + u == Prod(2.0 * h, p)
  {}

  /** The weighted covariance of two images is G P H^T, whatever the weight of the first point. */
  lemma CovarianceIsExact(L: nat, w: Vec, h: real, c: real, U: Mat, u: Vec, G: Mat, V: Mat, v: Vec, H: Mat, P: Mat,
                          S: Mat, a: nat, b: nat)
    requires (forall i: nat :: 1 <= i <= 2 * L ==> w(i) == h) && Prod(2.0 * h, c) == 1.0
    requires Spread(L, U, u, G, S, a) && Spread(L, V, v, H, S, b)
    requires forall k: nat, l: nat :: k < L && l < L ==> MatMul(L, S, Transpose(S))(k, l) == Prod(c, P(k, l))
    ensures Cov(2 * L + 1, w, U, u, V, v, a, b) == Sandwich(L, G, P, H, a, b)
  {
    hide MatMul, Sandwich, Sum;
    var GS, HS := Row(MatMul(L, G, S), a), Row(MatMul(L, H, S), b);
    var f := (i: nat) => Prod(w(i), Prod(U(a, i) - u(a), V(b, i) - v(b)));
    var up, down := (i: nat) => f(1 + i), (i: nat) => f(1 + L + i);
    var both, dots := (i: nat) => up(i) + down(i), (i: nat) => Prod(GS(i), HS(i));
    SumSigma(L, f);
    ProdZero(w(0), Prod(U(a, 0) - u(a), V(b, 0) - v(b)));
    SumAdd(L, both, up, down);
    forall i: nat | i < L ensures both(i) == Prod(2.0 * h, dots(i)) {
      assert SpreadAt(L, U, u(a), GS(i), a, i) && SpreadAt(L, V, v(b), HS(i), b, i);
      ProdNeg(GS(i), HS(i), U(a, 1 + L + i) - u(a), V(b, 1 + L + i) - v(b));
      TwoSides(h, dots(i), up(i), down(i));
    }
    SumScale(L, both, 2.0 * h, dots);
    ColumnsGiveCovariance(L, G, H, P, S, c, a, b);
    HalfScale(h, c, Sandwich(L, G, P, H, a, b));
  }
}
