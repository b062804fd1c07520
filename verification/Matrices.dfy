/** Vectors and matrices of reals as functions of the indices; the dimensions are parameters. */
module Matrices {
  import opened RealSums

  type Vec = nat -> real

  type Mat = (nat, nat) -> real

  function Dot(n: nat, u: Vec, v: Vec): real {
    Sum(n, (k: nat) => Prod(u(k), v(k)))
  }

  function Row(M: Mat, i: nat): Vec {
    (j: nat) => M(i, j)
  }

  function Col(M: Mat, j: nat): Vec {
    (i: nat) => M(i, j)
  }

  function MulVec(n: nat, M: Mat, v: Vec): Vec {
    (i: nat) => Dot(n, Row(M, i), v)
  }

  /** The product of A with n columns and B with n rows. */
  function MatMul(n: nat, A: Mat, B: Mat): Mat {
    (i: nat, k: nat) => Dot(n, Row(A, i), Col(B, k))
  }

  function Identity(): Mat {
    (i: nat, j: nat) => if i == j then 1.0 else 0.0
  }

  function Transpose(M: Mat): Mat {
    (i: nat, j: nat) => M(j, i)
  }

  ghost predicate SameVec(n: nat, u: Vec, v: Vec) {
    forall i: nat :: i < n ==> u(i) == v(i)
  }

  ghost predicate SameMat(m: nat, n: nat, A: Mat, B: Mat) {
    forall i: nat, j: nat :: i < m && j < n ==> A(i, j) == B(i, j)
  }

  // ----- Dot products -----

  lemma DotExt(n: nat, u: Vec, v: Vec, u': Vec, v': Vec)
    requires SameVec(n, u, u') && SameVec(n, v, v')
    ensures Dot(n, u, v) == Dot(n, u', v')
  {
    SumExt(n, (k: nat) => Prod(u(k), v(k)), (k: nat) => Prod(u'(k), v'(k)));
  }

  lemma DotComm(n: nat, u: Vec, v: Vec)
    ensures Dot(n, u, v) == Dot(n, v, u)
  {
    forall k: nat | k < n ensures Prod(u(k), v(k)) == Prod(v(k), u(k)) { ProdComm(u(k), v(k)); }
    SumExt(n, (k: nat) => Prod(u(k), v(k)), (k: nat) => Prod(v(k), u(k)));
  }

  lemma ProdComm(a: real, b: real)
    ensures Prod(a, b) == Prod(b, a)
  {}

  lemma ProdAssoc(a: real, b: real, c: real)
    ensures Prod(Prod(a, b), c) == Prod(a, Prod(b, c))
  {}

  lemma DotAdd(n: nat, u: Vec, v: Vec, a: Vec, b: Vec)
    requires forall k: nat :: k < n ==> v(k) == a(k) + b(k)
    ensures Dot(n, u, v) == Dot(n, u, a) + Dot(n, u, b)
  {
    forall k: nat | k < n
      ensures Prod(u(k), v(k)) == Prod(u(k), a(k)) + Prod(u(k), b(k))
    {
      Distribute(u(k), a(k), b(k), v(k));
    }
    SumAdd(n, (k: nat) => Prod(u(k), v(k)), (k: nat) => Prod(u(k), a(k)), (k: nat) => Prod(u(k), b(k)));
  }

  lemma DotScale(n: nat, u: Vec, v: Vec, c: real, a: Vec)
    requires forall k: nat :: k < n ==> v(k) == Prod(c, a(k))
    ensures Dot(n, u, v) == Prod(c, Dot(n, u, a))
  {
    forall k: nat | k < n ensures Prod(u(k), v(k)) == Prod(c, Prod(u(k), a(k))) { MiddleOut(u(k), c, a(k), v(k)); }
    SumScale(n, (k: nat) => Prod(u(k), v(k)), c, (k: nat) => Prod(u(k), a(k)));
  }

  lemma MiddleOut(u: real, c: real, a: real, v: real)
    requires v == Prod(c, a)
    ensures Prod(u, v) == Prod(c, Prod(u, a))
  {}

  lemma DotZero(n: nat, u: Vec, v: Vec)
    requires forall k: nat :: k < n ==> v(k) == 0.0
    ensures Dot(n, u, v) == 0.0
  {
    forall k: nat | k < n ensures Prod(u(k), v(k)) == 0.0 { ProdZero(u(k), v(k)); }
    SumZero(n, (k: nat) => Prod(u(k), v(k)));
  }

  lemma ProdZero(a: real, b: real)
    requires b == 0.0
    ensures Prod(a, b) == 0.0 && Prod(b, a) == 0.0
  {}

  /** u . (M v) = (u M) . v */
  lemma DotMulVec(m: nat, n: nat, u: Vec, M: Mat, v: Vec)
    ensures Dot(m, u, MulVec(n, M, v)) == Dot(n, (k: nat) => Dot(m, u, Col(M, k)), v)
  {
    var term := (i: nat, k: nat) => Prod(Prod(u(i), M(i, k)), v(k));
    var outer, inner := (i: nat) => Sum(n, (k: nat) => term(i, k)), (k: nat) => Sum(m, (i: nat) => term(i, k));
    forall i: nat | i < m ensures Prod(u(i), MulVec(n, M, v)(i)) == outer(i) {
      RowTerm(n, u(i), Row(M, i), v, (k: nat) => term(i, k));
    }
    SumExt(m, (i: nat) => Prod(u(i), MulVec(n, M, v)(i)), outer);
    SumSwap(m, n, term);
    var w := (k: nat) => Dot(m, u, Col(M, k));
    forall k: nat | k < n ensures Prod(w(k), v(k)) == inner(k) {
      ColTerm(m, u, Col(M, k), v(k), (i: nat) => term(i, k));
    }
    SumExt(n, (k: nat) => Prod(w(k), v(k)), inner);
  }

  lemma RowTerm(n: nat, a: real, row: Vec, v: Vec, term: Vec)
    requires forall k: nat :: k < n ==> term(k) == Prod(Prod(a, row(k)), v(k))
    ensures Prod(a, Dot(n, row, v)) == Sum(n, term)
  {
    forall k: nat | k < n ensures term(k) == Prod(a, Prod(row(k), v(k))) { ProdAssoc(a, row(k), v(k)); }
    SumScale(n, term, a, (k: nat) => Prod(row(k), v(k)));
  }

  lemma ColTerm(m: nat, u: Vec, col: Vec, b: real, term: Vec)
    requires forall i: nat :: i < m ==> term(i) == Prod(Prod(u(i), col(i)), b)
    ensures Prod(Dot(m, u, col), b) == Sum(m, term)
  {
    forall i: nat | i < m ensures term(i) == Prod(b, Prod(u(i), col(i))) { ProdComm(Prod(u(i), col(i)), b); }
    SumScale(m, term, b, (i: nat) => Prod(u(i), col(i)));
    ProdComm(Dot(m, u, col), b);
  }

  /** A (B v) = (A B) v */
  lemma MulVecAssoc(m: nat, n: nat, A: Mat, B: Mat, v: Vec, i: nat)
    ensures MulVec(m, A, MulVec(n, B, v))(i) == MulVec(n, MatMul(m, A, B), v)(i)
  {
    DotMulVec(m, n, Row(A, i), B, v);
    DotExt(n, (k: nat) => Dot(m, Row(A, i), Col(B, k)), v, Row(MatMul(m, A, B), i), v);
  }

  lemma MulIdentity(n: nat, I: Mat, v: Vec, i: nat)
    requires i < n && SameMat(n, n, I, Identity())
    ensures MulVec(n, I, v)(i) == v(i)
  {
    forall k: nat | k < n && k != i ensures Prod(Row(I, i)(k), v(k)) == 0.0 { ProdZero(v(k), I(i, k)); }
    SumSingle(n, (k: nat) => Prod(Row(I, i)(k), v(k)), i);
    assert I(i, i) == 1.0;
  }

  lemma MulVecExt(n: nat, M: Mat, u: Vec, v: Vec, i: nat)
    requires SameVec(n, u, v)
    ensures MulVec(n, M, u)(i) == MulVec(n, M, v)(i)
  {
    DotExt(n, Row(M, i), u, Row(M, i), v);
  }

  lemma MulVecAdd(n: nat, M: Mat, v: Vec, a: Vec, b: Vec, i: nat)
    requires forall k: nat :: k < n ==> v(k) == a(k) + b(k)
    ensures MulVec(n, M, v)(i) == MulVec(n, M, a)(i) + MulVec(n, M, b)(i)
  {
    DotAdd(n, Row(M, i), v, a, b);
  }

  lemma MulVecSub(n: nat, M: Mat, v: Vec, a: Vec, b: Vec, i: nat)
    requires forall k: nat :: k < n ==> v(k) == a(k) - b(k)
    ensures MulVec(n, M, v)(i) == MulVec(n, M, a)(i) - MulVec(n, M, b)(i)
  {
    DotAdd(n, Row(M, i), a, v, b);
  }

  /** (A - B) v = A v - B v */
  lemma SubMulVec(n: nat, M: Mat, A: Mat, B: Mat, v: Vec, i: nat)
    requires forall k: nat :: k < n ==> M(i, k) == A(i, k) - B(i, k)
    ensures MulVec(n, M, v)(i) == MulVec(n, A, v)(i) - MulVec(n, B, v)(i)
  {
    DotComm(n, Row(M, i), v);
    DotComm(n, Row(A, i), v);
    DotComm(n, Row(B, i), v);
    DotAdd(n, v, Row(A, i), Row(M, i), Row(B, i));
  }

  // ----- Linear systems -----

  ghost predicate Solves(n: nat, A: Mat, x: Vec, b: Vec) {
    forall i: nat :: i < n ==> MulVec(n, A, x)(i) == b(i)
  }

  ghost predicate LeftInverse(n: nat, L: Mat, A: Mat) {
    SameMat(n, n, MatMul(n, L, A), Identity())
  }

  ghost predicate Nonsingular(n: nat, A: Mat) {
    exists L: Mat :: LeftInverse(n, L, A)
  }

  /** What a linear solver with several right-hand sides returns: X with A X = B, for B with m columns. */
  ghost predicate IsSolution(n: nat, m: nat, A: Mat, X: Mat, B: Mat) {
    SameMat(n, m, MatMul(n, A, X), B)
  }

  lemma UniqueSolution(n: nat, A: Mat, x: Vec, y: Vec, b: Vec)
    requires Nonsingular(n, A) && Solves(n, A, x, b) && Solves(n, A, y, b)
    ensures SameVec(n, x, y)
  {
    var L: Mat :| LeftInverse(n, L, A);
    forall i: nat | i < n ensures x(i) == y(i) {
      MulVecAssoc(n, n, L, A, x, i);
      MulVecAssoc(n, n, L, A, y, i);
      MulIdentity(n, MatMul(n, L, A), x, i);
      MulIdentity(n, MatMul(n, L, A), y, i);
      MulVecExt(n, L, MulVec(n, A, x), MulVec(n, A, y), i);
    }
  }

  /** The solution by the solved right-hand sides: A (X v) = B v. */
  lemma SolutionApplies(n: nat, m: nat, A: Mat, X: Mat, B: Mat, v: Vec, i: nat)
    requires IsSolution(n, m, A, X, B) && i < n
    ensures MulVec(n, A, MulVec(m, X, v))(i) == MulVec(m, B, v)(i)
  {
    MulVecAssoc(n, m, A, X, v, i);
    DotExt(m, Row(MatMul(n, A, X), i), v, Row(B, i), v);
  }

  /** A X = I gives A (X v) = v. */
  lemma InverseApplies(n: nat, A: Mat, X: Mat, v: Vec)
    requires IsSolution(n, n, A, X, Identity())
    ensures Solves(n, A, MulVec(n, X, v), v)
  {
    forall i: nat | i < n ensures MulVec(n, A, MulVec(n, X, v))(i) == v(i) {
      SolutionApplies(n, n, A, X, Identity(), v, i);
      MulIdentity(n, Identity(), v, i);
    }
  }
}
