/**
 The linearity test of a block (Component._is_linear) and the linear system built from it
 (Component.create_lin_eq): no entry of the Jacobian mentions a block unknown.
 */
module Linearity {
  import opened Lists
  import opened Expressions
  import opened RealSums

  ghost predicate Avoids(e: Expr, xs: seq<nat>) {
    forall v :: v in xs ==> v !in Vars(e)
  }

  /** No partial derivative of e in one of xs mentions any of xs. */
  ghost predicate JacobianFree(e: Expr, xs: seq<nat>) {
    forall v :: v in xs ==> Avoids(Diff(e, v), xs)
  }

  ghost predicate AgreeOutside(e1: Env, e2: Env, xs: seq<nat>) {
    forall v :: v !in xs ==> e1(v) == e2(v)
  }

  /** The row of the Jacobian of e in xs, at env. */
  ghost function Row(I: Interp, env: Env, e: Expr, xs: seq<nat>): nat -> real {
    (i: nat) => if i < |xs| then Eval(I, env, Diff(e, xs[i])) else 0.0
  }

  /** The steps of xs from `from` to env. */
  ghost function Step(env: Env, from: Env, xs: seq<nat>): nat -> real {
    (i: nat) => if i < |xs| then env(xs[i]) - from(xs[i]) else 0.0
  }

  /** The row of the Jacobian of e in xs, at env, times the step from `from` to env. */
  ghost function Slope(I: Interp, env: Env, from: Env, e: Expr, xs: seq<nat>): real {
    RowTimes(|xs|, Row(I, env, e, xs), Step(env, from, xs))
  }

  ghost function RowTimes(n: nat, row: nat -> real, step: nat -> real): real {
    RealSums.Sum(n, (i: nat) => Prod(row(i), step(i)))
  }

  // ----- The simplifying constructors -----

  lemma EvalPlus(I: Interp, env: Env, a: Expr, b: Expr)
    ensures Eval(I, env, Plus(a, b)) == Eval(I, env, a) + Eval(I, env, b)
  {}

  lemma EvalTimes(I: Interp, env: Env, a: Expr, b: Expr)
    ensures Eval(I, env, Times(a, b)) == Prod(Eval(I, env, a), Eval(I, env, b))
  {
    if IsZero(a) || IsZero(b) {
      assert Eval(I, env, ZERO) == 0.0;
    } else {
      EvalOfProduct(I, env, a, b);
    }
  }

  lemma DiffOfMul(a: Expr, b: Expr, v: nat)
    requires IsZero(Diff(a, v))
    ensures Diff(Bin(Product, a, b), v) == Times(a, Diff(b, v))
    ensures Diff(Bin(Product, b, a), v) == Times(Diff(b, v), a)
  {}

  lemma DiffOfDiv(a: Expr, b: Expr, v: nat)
    requires IsZero(Diff(b, v))
    ensures Diff(Bin(Ratio, a, b), v) == Over(Diff(a, v), b)
  {}

  lemma EvalOver(I: Interp, env: Env, a: Expr, b: Expr)
    ensures Eval(I, env, Over(a, b)) == Quotient(Eval(I, env, a), Eval(I, env, b))
  {
    EvalOfRatio(I, env, a, b);
  }

  lemma VarsSimplified(a: Expr, b: Expr)
    ensures Vars(Plus(a, b)) == Vars(a) + Vars(b)
    ensures !IsZero(a) && !IsZero(b) ==> Vars(Times(a, b)) == Vars(a) + Vars(b)
    ensures Vars(Minus(a)) == Vars(a)
    ensures !IsZero(a) ==> Vars(Over(a, b)) == Vars(a) + Vars(b)
  {}

  lemma {:induction false} DiffOfAbsent(e: Expr, v: nat)
    requires v !in Vars(e)
    ensures IsZero(Diff(e, v))
  {
    match e
    case Const(_) =>
    case Sym(_) =>
    case Neg(a) => DiffOfAbsent(a, v);
    case Bin(_, l, r) => DiffOfAbsent(l, v); DiffOfAbsent(r, v);
  }

  lemma ProductWithZero(I: Interp, env: Env, e: Expr)
    requires e.Bin? && e.op == Product && (IsZero(e.left) || IsZero(e.right))
    ensures Eval(I, env, e) == 0.0
  {
    EvalOfProduct(I, env, e.left, e.right);
    assert Eval(I, env, if IsZero(e.left) then e.left else e.right) == 0.0;
  }

  /** A derivative that simplifies to 0 means that the value does not change. */
  lemma {:induction false} ZeroSlopeIsConstant(I: Interp, e1: Env, e2: Env, e: Expr, xs: seq<nat>)
    requires AgreeOutside(e1, e2, xs)
    requires forall v :: v in xs ==> IsZero(Diff(e, v))
    ensures Eval(I, e1, e) == Eval(I, e2, e)
  {
    match e
    case Const(_) =>
    case Sym(w) =>
      assert Diff(e, w) == ONE;
    case Neg(a) =>
      ZeroSlopeIsConstant(I, e1, e2, a, xs);
    case Bin(op, l, r) =>
      if op == Product && (IsZero(l) || IsZero(r)) {
        ProductWithZero(I, e1, e); ProductWithZero(I, e2, e);
      } else {
        ZeroSlopeIsConstant(I, e1, e2, l, xs);
        ZeroSlopeIsConstant(I, e1, e2, r, xs);
        SameOperands(I, e1, e, e2, e);
      }
  }

  lemma SlopeSum(I: Interp, env: Env, from: Env, xs: seq<nat>, e: Expr, a: Expr, b: Expr)
    requires forall i: nat :: i < |xs| ==> Row(I, env, e, xs)(i) == Row(I, env, a, xs)(i) + Row(I, env, b, xs)(i)
    ensures Slope(I, env, from, e, xs) == Slope(I, env, from, a, xs) + Slope(I, env, from, b, xs)
  {
    SumOfAddedProducts(|xs|, Row(I, env, e, xs), Row(I, env, a, xs), Row(I, env, b, xs), Step(env, from, xs));
  }

  lemma SlopeOfConstant(I: Interp, env: Env, from: Env, e: Expr, xs: seq<nat>)
    requires forall v :: v in xs ==> IsZero(Diff(e, v))
    ensures Slope(I, env, from, e, xs) == 0.0
  {
    var row, step := Row(I, env, e, xs), Step(env, from, xs);
    forall i: nat | i < |xs| ensures Prod(row(i), step(i)) == 0.0 {
      assert xs[i] in xs && Eval(I, env, ZERO) == 0.0;
    }
    SumZero(|xs|, (i: nat) => Prod(row(i), step(i)));
  }

  lemma SlopeOfVariable(I: Interp, env: Env, from: Env, w: nat, xs: seq<nat>)
    requires NoRepeats(xs)
    ensures Slope(I, env, from, Sym(w), xs) == if w in xs then env(w) - from(w) else 0.0
  {
    if w in xs {
      var k :| 0 <= k < |xs| && xs[k] == w;
      var row, step := Row(I, env, Sym(w), xs), Step(env, from, xs);
      forall i: nat | i < |xs| && i != k ensures Prod(row(i), step(i)) == 0.0 {
        assert xs[i] != w && Diff(Sym(w), xs[i]) == ZERO;
      }
      assert row(k) == 1.0;
      SumSingle(|xs|, (i: nat) => Prod(row(i), step(i)), k);
    } else {
      SlopeOfConstant(I, env, from, Sym(w), xs);
    }
  }

  // ----- The test is sound -----

  lemma ConstantCase(I: Interp, env: Env, from: Env, e: Expr, xs: seq<nat>)
    requires AgreeOutside(env, from, xs)
    requires forall v :: v in xs ==> IsZero(Diff(e, v))
    ensures Eval(I, env, e) == Eval(I, from, e) + Slope(I, env, from, e, xs)
  {
    ZeroSlopeIsConstant(I, env, from, e, xs);
    SlopeOfConstant(I, env, from, e, xs);
  }

  /** Scaling an affine value scales its base point and its slopes. */
  lemma ScaledValue(n: nat, scale: real, v: real, base: real, row: nat -> real, va: real, baseA: real,
                    rowA: nat -> real, step: nat -> real)
    requires va == baseA + RowTimes(n, rowA, step)
    requires v == Prod(scale, va) && base == Prod(scale, baseA)
    requires forall i: nat :: i < n ==> row(i) == Prod(scale, rowA(i))
    ensures v == base + RowTimes(n, row, step)
  {
    SumOfScaledProducts(n, scale, row, rowA, step);
    Distribute(scale, baseA, RowTimes(n, rowA, step), va);
  }

  /** e is a product of p and q, in either order. */
  ghost predicate ProductOf(e: Expr, p: Expr, q: Expr) {
    e == Bin(Product, p, q) || e == Bin(Product, q, p)
  }

  lemma ProductValue(I: Interp, env: Env, e: Expr, p: Expr, q: Expr)
    requires ProductOf(e, p, q)
    ensures Eval(I, env, e) == Prod(Eval(I, env, p), Eval(I, env, q))
  {
    if e == Bin(Product, p, q) {
      EvalOfProduct(I, env, p, q);
    } else {
      EvalOfProduct(I, env, q, p);
    }
  }

  lemma TimesValue(I: Interp, env: Env, d: Expr, p: Expr, dq: Expr)
    requires d == Times(p, dq) || d == Times(dq, p)
    ensures Eval(I, env, d) == Prod(Eval(I, env, p), Eval(I, env, dq))
  {
    if d == Times(p, dq) {
      EvalTimes(I, env, p, dq);
    } else {
      EvalTimes(I, env, dq, p);
    }
  }

  lemma DiffOfScaled(e: Expr, p: Expr, q: Expr, v: nat)
    requires ProductOf(e, p, q) && v !in Vars(p)
    ensures Diff(e, v) == Times(p, Diff(q, v)) || Diff(e, v) == Times(Diff(q, v), p)
  {
    DiffOfAbsent(p, v);
    DiffOfMul(p, q, v);
  }

  lemma SlopeOfScaled(I: Interp, env: Env, e: Expr, d: Expr, p: Expr, q: Expr, dq: Expr, v: nat)
    requires ProductOf(e, p, q) && v !in Vars(p) && d == Diff(e, v) && dq == Diff(q, v)
    ensures Eval(I, env, d) == Prod(Eval(I, env, p), Eval(I, env, dq))
  {
    DiffOfScaled(e, p, q, v);
    TimesValue(I, env, d, p, dq);
  }

  lemma RowOfScaled(I: Interp, env: Env, e: Expr, p: Expr, q: Expr, xs: seq<nat>, k: real, row: nat -> real,
                    rowQ: nat -> real)
    requires ProductOf(e, p, q) && Avoids(p, xs)
    requires k == Eval(I, env, p) && row == Row(I, env, e, xs) && rowQ == Row(I, env, q, xs)
    ensures forall i: nat :: i < |xs| ==> row(i) == Prod(k, rowQ(i))
  {
    forall i: nat | i < |xs| ensures row(i) == Prod(k, rowQ(i)) {
      var v := xs[i];
      var d, dq := Diff(e, v), Diff(q, v);
      SlopeOfScaled(I, env, e, d, p, q, dq, v);
      assert row(i) == Eval(I, env, d) && rowQ(i) == Eval(I, env, dq);
    }
  }

  lemma ValuesOfScaled(I: Interp, env: Env, from: Env, e: Expr, p: Expr, q: Expr, xs: seq<nat>, k: real)
    requires ProductOf(e, p, q) && Avoids(p, xs) && AgreeOutside(env, from, xs) && k == Eval(I, env, p)
    ensures Eval(I, env, e) == Prod(k, Eval(I, env, q)) && Eval(I, from, e) == Prod(k, Eval(I, from, q))
  {
    EvalAgree(I, env, from, p);
    ProductValue(I, env, e, p, q);
    ProductValue(I, from, e, p, q);
  }

  /** One factor p does not mention xs: the slopes of the product are those of the other factor q, scaled. */
  lemma MulByConstant(I: Interp, env: Env, from: Env, e: Expr, p: Expr, q: Expr, xs: seq<nat>, k: real)
    requires ProductOf(e, p, q) && Avoids(p, xs) && AgreeOutside(env, from, xs) && k == Eval(I, env, p)
    requires Eval(I, env, q) == Eval(I, from, q) + Slope(I, env, from, q, xs)
    ensures Eval(I, env, e) == Eval(I, from, e) + Slope(I, env, from, e, xs)
  {
    var row, rowQ := Row(I, env, e, xs), Row(I, env, q, xs);
    ValuesOfScaled(I, env, from, e, p, q, xs, k);
    RowOfScaled(I, env, e, p, q, xs, k, row, rowQ);
    ScaledValue(|xs|, k, Eval(I, env, e), Eval(I, from, e), row, Eval(I, env, q), Eval(I, from, q), rowQ,
        Step(env, from, xs));
  }

  /** What the Jacobian of a product says about the factors. */
  lemma MulJacobian(e: Expr, xs: seq<nat>, v: nat)
    requires e.Bin? && e.op == Product && v in xs && JacobianFree(e, xs) && !IsZero(e.left) && !IsZero(e.right)
    ensures Avoids(Diff(e.left, v), xs) && Avoids(Diff(e.right, v), xs)
    ensures !IsZero(Diff(e.left, v)) ==> Avoids(e.right, xs)
    ensures !IsZero(Diff(e.right, v)) ==> Avoids(e.left, xs)
  {
    var l, r := e.left, e.right;
    var a, b := Times(Diff(l, v), r), Times(l, Diff(r, v));
    assert Avoids(Diff(e, v), xs);
    VarsSimplified(a, b);
    VarsSimplified(Diff(l, v), r);
    VarsSimplified(l, Diff(r, v));
  }

  lemma {:induction false} MulCase(I: Interp, env: Env, from: Env, e: Expr, xs: seq<nat>)
    requires e.Bin? && e.op == Product && JacobianFree(e, xs) && AgreeOutside(env, from, xs) && NoRepeats(xs)
    ensures Eval(I, env, e) == Eval(I, from, e) + Slope(I, env, from, e, xs)
    decreases e, 0
  {
    var l, r := e.left, e.right;
    if IsZero(l) || IsZero(r) {
      ConstantCase(I, env, from, e, xs);
    } else {
      forall v | v in xs ensures Avoids(Diff(l, v), xs) && Avoids(Diff(r, v), xs) {
        MulJacobian(e, xs, v);
      }
      if v :| v in xs && !IsZero(Diff(l, v)) {
        MulJacobian(e, xs, v);
        Affine(I, env, from, l, xs);
        MulByConstant(I, env, from, e, r, l, xs, Eval(I, env, r));
      } else if v :| v in xs && !IsZero(Diff(r, v)) {
        MulJacobian(e, xs, v);
        Affine(I, env, from, r, xs);
        MulByConstant(I, env, from, e, l, r, xs, Eval(I, env, l));
      } else {
        ConstantCase(I, env, from, e, xs);
      }
    }
  }

  /** What the Jacobian of a quotient says: the denominator has no slope. */
  lemma DivJacobian(e: Expr, xs: seq<nat>, v: nat)
    requires e.Bin? && e.op == Ratio && v in xs && JacobianFree(e, xs)
    ensures IsZero(Diff(e.right, v)) && Avoids(Diff(e.left, v), xs)
  {
    var l, r := e.left, e.right;
    var a, b := Over(Diff(l, v), r), Times(Over(e, r), Diff(r, v));
    assert Avoids(Diff(e, v), xs);
    VarsSimplified(a, Minus(b));
    VarsSimplified(b, b);
    VarsSimplified(Over(e, r), Diff(r, v));
    VarsSimplified(e, r);
    VarsSimplified(Diff(l, v), r);
    if !IsZero(Diff(r, v)) { DiffOfAbsent(r, v); }
  }

  lemma QuotientScales(a: real, b: real, scale: real)
    requires scale == if b == 0.0 then 0.0 else 1.0 / b
    ensures Quotient(a, b) == Prod(scale, a)
  {}

  lemma RowOfRatio(I: Interp, env: Env, e: Expr, xs: seq<nat>, scale: real, row: nat -> real, rowL: nat -> real)
    requires e.Bin? && e.op == Ratio && forall v :: v in xs ==> IsZero(Diff(e.right, v))
    requires scale == var d := Eval(I, env, e.right); if d == 0.0 then 0.0 else 1.0 / d
    requires row == Row(I, env, e, xs) && rowL == Row(I, env, e.left, xs)
    ensures forall i: nat :: i < |xs| ==> row(i) == Prod(scale, rowL(i))
  {
    var bottom := Eval(I, env, e.right);
    forall i: nat | i < |xs| ensures row(i) == Prod(scale, rowL(i)) {
      var dl := Diff(e.left, xs[i]);
      DiffOfDiv(e.left, e.right, xs[i]);
      EvalOver(I, env, dl, e.right);
      QuotientScales(Eval(I, env, dl), bottom, scale);
    }
  }

  lemma QuotientValue(I: Interp, env: Env, from: Env, e: Expr, scale: real)
    requires e.Bin? && e.op == Ratio && Eval(I, env, e.right) == Eval(I, from, e.right)
    requires scale == var d := Eval(I, env, e.right); if d == 0.0 then 0.0 else 1.0 / d
    ensures Eval(I, env, e) == Prod(scale, Eval(I, env, e.left))
    ensures Eval(I, from, e) == Prod(scale, Eval(I, from, e.left))
  {
    EvalOfRatio(I, env, e.left, e.right);
    EvalOfRatio(I, from, e.left, e.right);
    QuotientScales(Eval(I, env, e.left), Eval(I, env, e.right), scale);
    QuotientScales(Eval(I, from, e.left), Eval(I, env, e.right), scale);
  }

  lemma {:induction false} DivCase(I: Interp, env: Env, from: Env, e: Expr, xs: seq<nat>)
    requires e.Bin? && e.op == Ratio && JacobianFree(e, xs) && AgreeOutside(env, from, xs) && NoRepeats(xs)
    ensures Eval(I, env, e) == Eval(I, from, e) + Slope(I, env, from, e, xs)
    decreases e, 0
  {
    var l, r := e.left, e.right;
    forall v | v in xs ensures IsZero(Diff(r, v)) && Avoids(Diff(l, v), xs) {
      DivJacobian(e, xs, v);
    }
    ZeroSlopeIsConstant(I, env, from, r, xs);
    Affine(I, env, from, l, xs);
    var d := Eval(I, env, r);
    var scale := if d == 0.0 then 0.0 else 1.0 / d;
    var row, rowL := Row(I, env, e, xs), Row(I, env, l, xs);
    RowOfRatio(I, env, e, xs, scale, row, rowL);
    QuotientValue(I, env, from, e, scale);
    ScaledValue(|xs|, scale, Eval(I, env, e), Eval(I, from, e), row, Eval(I, env, l), Eval(I, from, l), rowL,
        Step(env, from, xs));
  }

  /** What the Jacobian of an operator application says: neither argument has a slope. */
  lemma AppJacobian(e: Expr, xs: seq<nat>, v: nat)
    requires e.Bin? && e.op.Fn? && v in xs && JacobianFree(e, xs)
    ensures IsZero(Diff(e.left, v)) && IsZero(Diff(e.right, v))
  {
    var l, r := e.left, e.right;
    var dl, dr := Bin(Fn(2 * e.op.f + 1), l, r), Bin(Fn(2 * e.op.f + 2), l, r);
    assert Avoids(Diff(e, v), xs);
    VarsSimplified(Times(dl, Diff(l, v)), Times(dr, Diff(r, v)));
    VarsSimplified(dl, Diff(l, v));
    VarsSimplified(dr, Diff(r, v));
    if !IsZero(Diff(l, v)) { DiffOfAbsent(l, v); }
    if !IsZero(Diff(r, v)) { DiffOfAbsent(r, v); }
  }

  /** Soundness: such an expression is jointly affine in xs, and the Jacobian row has its slopes. */
  lemma {:induction false} Affine(I: Interp, env: Env, from: Env, e: Expr, xs: seq<nat>)
    requires JacobianFree(e, xs) && AgreeOutside(env, from, xs) && NoRepeats(xs)
    ensures Eval(I, env, e) == Eval(I, from, e) + Slope(I, env, from, e, xs)
    decreases e, 1
  {
    match e
    case Const(_) =>
      ConstantCase(I, env, from, e, xs);
    case Sym(w) =>
      SlopeOfVariable(I, env, from, w, xs);
    case Neg(a) =>
      forall v | v in xs ensures Avoids(Diff(a, v), xs) {
        assert Avoids(Diff(e, v), xs);
        VarsSimplified(Diff(a, v), ZERO);
      }
      Affine(I, env, from, a, xs);
      forall i: nat | i < |xs| ensures Row(I, env, e, xs)(i) == Prod(-1.0, Row(I, env, a, xs)(i)) {}
      ScaledValue(|xs|, -1.0, Eval(I, env, e), Eval(I, from, e), Row(I, env, e, xs),
                  Eval(I, env, a), Eval(I, from, a), Row(I, env, a, xs), Step(env, from, xs));
    case Bin(Sum, l, r) =>
      forall v | v in xs ensures Avoids(Diff(l, v), xs) && Avoids(Diff(r, v), xs) {
        assert Avoids(Diff(e, v), xs);
        VarsSimplified(Diff(l, v), Diff(r, v));
      }
      Affine(I, env, from, l, xs);
      Affine(I, env, from, r, xs);
      forall i: nat | i < |xs| ensures Row(I, env, e, xs)(i) == Row(I, env, l, xs)(i) + Row(I, env, r, xs)(i) {
        EvalPlus(I, env, Diff(l, xs[i]), Diff(r, xs[i]));
      }
      SlopeSum(I, env, from, xs, e, l, r);
    case Bin(Product, _, _) =>
      MulCase(I, env, from, e, xs);
    case Bin(Ratio, _, _) =>
      DivCase(I, env, from, e, xs);
    case Bin(Fn(_), _, _) =>
      forall v | v in xs ensures IsZero(Diff(e, v)) {
        AppJacobian(e, xs, v);
      }
      ConstantCase(I, env, from, e, xs);
  }

  // ----- The linear system A x = b -----

  /** env with every one of xs set to zero: "any real value" at which b is computed. */
  ghost function AtZero(env: Env, xs: seq<nat>): Env {
    (v: nat) => if v in xs then 0.0 else env(v)
  }

  /** One row of A x = b, with b taken at x = 0, says that the residual is zero. */
  lemma RowSolvesResidual(I: Interp, env: Env, res: Expr, xs: seq<nat>)
    requires JacobianFree(res, xs) && NoRepeats(xs)
    ensures Eval(I, env, res) == 0.0 <==>
            Slope(I, env, AtZero(env, xs), res, xs) == -Eval(I, AtZero(env, xs), res)
  {
    Affine(I, env, AtZero(env, xs), res, xs);
  }
}
