/** Finite sums of reals, for the matrix and covariance computations. */
module RealSums {

  /** A product with a name of its own: equal factors give equal products without arithmetic. */
  function Prod(a: real, b: real): real {
    a * b
  }

  function Sum(n: nat, f: nat -> real): real {
    if n == 0 then 0.0 else Sum(n - 1, f) + f(n - 1)
  }

  lemma {:induction false} SumExt(n: nat, f: nat -> real, g: nat -> real)
    requires forall i: nat :: i < n ==> f(i) == g(i)
    ensures Sum(n, f) == Sum(n, g)
  {
    if n > 0 { SumExt(n - 1, f, g); }
  }

  lemma {:induction false} SumZero(n: nat, f: nat -> real)
    requires forall i: nat :: i < n ==> f(i) == 0.0
    ensures Sum(n, f) == 0.0
  {
    if n > 0 { SumZero(n - 1, f); }
  }

  lemma {:induction false} SumAdd(n: nat, h: nat -> real, f: nat -> real, g: nat -> real)
    requires forall i: nat :: i < n ==> h(i) == f(i) + g(i)
    ensures Sum(n, h) == Sum(n, f) + Sum(n, g)
  {
    if n > 0 { SumAdd(n - 1, h, f, g); }
  }

  lemma {:induction false} SumScale(n: nat, h: nat -> real, k: real, f: nat -> real)
    requires forall i: nat :: i < n ==> h(i) == Prod(k, f(i))
    ensures Sum(n, h) == Prod(k, Sum(n, f))
  {
    if n > 0 {
      SumScale(n - 1, h, k, f);
      Distribute(k, Sum(n - 1, f), f(n - 1), Sum(n, f));
    }
  }

  lemma Distribute(k: real, a: real, b: real, s: real)
    requires s == a + b
    ensures Prod(k, a) + Prod(k, b) == Prod(k, s)
  {}

  /** Products with the same second factors, the first factors scaled. */
  lemma {:induction false} SumOfScaledProducts(n: nat, k: real, d: nat -> real, a: nat -> real, step: nat -> real)
    requires forall i: nat :: i < n ==> d(i) == Prod(k, a(i))
    ensures Sum(n, (i: nat) => Prod(d(i), step(i))) == Prod(k, Sum(n, (i: nat) => Prod(a(i), step(i))))
  {
    var td, ta := (i: nat) => Prod(d(i), step(i)), (i: nat) => Prod(a(i), step(i));
    forall i: nat | i < n ensures td(i) == Prod(k, ta(i)) {
      ProductScaled(k, d(i), a(i), step(i));
    }
    SumScale(n, td, k, ta);
  }

  lemma ProductScaled(k: real, d: real, a: real, step: real)
    requires d == Prod(k, a)
    ensures Prod(d, step) == Prod(k, Prod(a, step))
  {}

  lemma ProductSum(d: real, a: real, b: real, step: real)
    requires d == a + b
    ensures Prod(d, step) == Prod(a, step) + Prod(b, step)
  {}

  /** Products with the same second factors, the first factors added. */
  lemma SumOfAddedProducts(n: nat, d: nat -> real, a: nat -> real, b: nat -> real, step: nat -> real)
    requires forall i: nat :: i < n ==> d(i) == a(i) + b(i)
    ensures Sum(n, (i: nat) => Prod(d(i), step(i))) == Sum(n, (i: nat) => Prod(a(i), step(i)))
              + Sum(n, (i: nat) => Prod(b(i), step(i)))
  {
    var td, ta, tb := (i: nat) => Prod(d(i), step(i)), (i: nat) => Prod(a(i), step(i)), (i: nat) => Prod(b(i), step(i));
    forall i: nat | i < n ensures td(i) == ta(i) + tb(i) {
      ProductSum(d(i), a(i), b(i), step(i));
    }
    SumAdd(n, td, ta, tb);
  }

  /** Only one term is not zero. */
  lemma {:induction false} SumSingle(n: nat, f: nat -> real, k: nat)
    requires forall i: nat :: i < n && i != k ==> f(i) == 0.0
    ensures Sum(n, f) == if k < n then f(k) else 0.0
  {
    if n > 0 { SumSingle(n - 1, f, k); }
  }

  /** The first m terms, then the rest. */
  lemma {:induction false} SumSplit(m: nat, n: nat, f: nat -> real)
    ensures Sum(m + n, f) == Sum(m, f) + Sum(n, (i: nat) => f(m + i))
  {
    if n > 0 {
      SumSplit(m, n - 1, f);
    }
  }

  /** Exchange of the order of summation. */
  lemma {:induction false} SumSwap(m: nat, n: nat, f: (nat, nat) -> real)
    ensures Sum(m, (i: nat) => Sum(n, (j: nat) => f(i, j))) == Sum(n, (j: nat) => Sum(m, (i: nat) => f(i, j)))
  {
    var rows, cols := (i: nat) => Sum(n, (j: nat) => f(i, j)), (j: nat) => Sum(m, (i: nat) => f(i, j));
    if m == 0 {
      SumZero(n, cols);
    } else {
      var shorter := (j: nat) => Sum(m - 1, (i: nat) => f(i, j));
      SumSwap(m - 1, n, f);
      assert Sum(m - 1, rows) == Sum(n, shorter);
      SumAdd(n, cols, shorter, (j: nat) => f(m - 1, j));
    }
  }
}
