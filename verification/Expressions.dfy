/**
 Symbolic expressions over real-valued variables, in place of CasADi's MX graphs:
 evaluation, simultaneous substitution, dependency and symbolic differentiation.
 Variables are identified by number. The operators Fn(f) are uninterpreted: an
 interpretation gives each of them, their partial derivatives included, some meaning.
 */
module Expressions {
  import opened Lists
  import RealSums

  datatype Op = Sum | Product | Ratio | Fn(f: nat)

  datatype Expr =
    | Const(value: real)
    | Sym(v: nat)
    | Neg(arg: Expr)
    | Bin(op: Op, left: Expr, right: Expr)

  /** What the uninterpreted operators compute. */
  type Interp = (nat, real, real) -> real

  /** A value for every variable. */
  type Env = nat -> real

  type Subst = map<nat, Expr>

  function Eval(I: Interp, env: Env, e: Expr): real
    decreases e, 2
  {
    match e
    case Const(c) => c
    case Sym(v) => env(v)
    case Neg(a) => -Eval(I, env, a)
    case Bin(_, _, _) => EvalBin(I, env, e)
  }

  // Products and ratios stand apart, so that the verifier multiplies and divides only where a
  // proof asks for it (EvalOfProduct and EvalOfRatio).
  function EvalBin(I: Interp, env: Env, e: Expr): real
    requires e.Bin?
    decreases e, 1
  {
    match e.op
    case Sum => Eval(I, env, e.left) + Eval(I, env, e.right)
    case Product => EvalProduct(I, env, e)
    case Ratio => EvalRatio(I, env, e)
    case Fn(f) => I(f, Eval(I, env, e.left), Eval(I, env, e.right))
  }

  function EvalProduct(I: Interp, env: Env, e: Expr): real
    requires e.Bin?
    decreases e, 0
  {
    RealSums.Prod(Eval(I, env, e.left), Eval(I, env, e.right))
  }

  function EvalRatio(I: Interp, env: Env, e: Expr): real
    requires e.Bin?
    decreases e, 0
  {
    Quotient(Eval(I, env, e.left), Eval(I, env, e.right))
  }

  /** Exact reals. A quotient with denominator zero is some number; results that need a
      nonzero denominator say so. */
  function Quotient(a: real, b: real): real {
    if b == 0.0 then 0.0 else a / b
  }

  /** The variables that occur in e: what dependsOn reports. */
  function Vars(e: Expr): set<nat> {
    match e
    case Const(_) => {}
    case Sym(v) => {v}
    case Neg(a) => Vars(a)
    case Bin(_, l, r) => Vars(l) + Vars(r)
  }

  /** casadi::substitute: all variables at once. */
  function Apply(s: Subst, e: Expr): Expr {
    match e
    case Const(_) => e
    case Sym(v) => if v in s then s[v] else e
    case Neg(a) => Neg(Apply(s, a))
    case Bin(op, l, r) => Bin(op, Apply(s, l), Apply(s, r))
  }

  function ApplyAll(s: Subst, es: seq<Expr>): (r: seq<Expr>)
    ensures |r| == |es|
    ensures forall i :: 0 <= i < |es| ==> r[i] == Apply(s, es[i])
  {
    seq(|es|, i requires 0 <= i < |es| => Apply(s, es[i]))
  }

  /** The substitution given by two lists. */
  function SubstOf(vars: seq<nat>, exprs: seq<Expr>): Subst
    requires |vars| == |exprs|
  {
    map v | v in vars :: exprs[IndexOf(vars, v)]
  }

  /** The value that s gives variable v. */
  function Substituted(I: Interp, env: Env, s: Subst): Env {
    (v: nat) => if v in s then Eval(I, env, s[v]) else env(v)
  }

  lemma EvalOfProduct(I: Interp, env: Env, a: Expr, b: Expr)
    ensures Eval(I, env, Bin(Product, a, b)) == RealSums.Prod(Eval(I, env, a), Eval(I, env, b))
  {
    assert EvalProduct(I, env, Bin(Product, a, b)) == RealSums.Prod(Eval(I, env, a), Eval(I, env, b));
  }

  lemma EvalOfRatio(I: Interp, env: Env, a: Expr, b: Expr)
    ensures Eval(I, env, Bin(Ratio, a, b)) == Quotient(Eval(I, env, a), Eval(I, env, b))
  {
    assert EvalRatio(I, env, Bin(Ratio, a, b)) == Quotient(Eval(I, env, a), Eval(I, env, b));
  }

  lemma SameOperands(I: Interp, e1: Env, a: Expr, e2: Env, b: Expr)
    requires a.Bin? && b.Bin? && a.op == b.op
    requires Eval(I, e1, a.left) == Eval(I, e2, b.left) && Eval(I, e1, a.right) == Eval(I, e2, b.right)
    ensures Eval(I, e1, a) == Eval(I, e2, b)
  {
    assert EvalProduct(I, e1, a) == EvalProduct(I, e2, b);
    assert EvalRatio(I, e1, a) == EvalRatio(I, e2, b);
  }

  // ----- Evaluation, substitution and occurrence -----

  lemma {:induction false} EvalAgree(I: Interp, e1: Env, e2: Env, e: Expr)
    requires forall v :: v in Vars(e) ==> e1(v) == e2(v)
    ensures Eval(I, e1, e) == Eval(I, e2, e)
  {
    match e
    case Const(_) =>
    case Sym(_) =>
    case Neg(a) => EvalAgree(I, e1, e2, a);
    case Bin(_, l, r) =>
      EvalAgree(I, e1, e2, l);
      EvalAgree(I, e1, e2, r);
      SameOperands(I, e1, e, e2, e);
  }

  lemma {:induction false} EvalApply(I: Interp, env: Env, s: Subst, e: Expr)
    ensures Eval(I, env, Apply(s, e)) == Eval(I, Substituted(I, env, s), e)
  {
    match e
    case Const(_) =>
    case Sym(_) =>
    case Neg(a) => EvalApply(I, env, s, a);
    case Bin(_, l, r) =>
      EvalApply(I, env, s, l);
      EvalApply(I, env, s, r);
      SameOperands(I, env, Apply(s, e), Substituted(I, env, s), e);
  }

  /** Substituting equals for equals does not change a value. */
  lemma ApplyPreservesValue(I: Interp, env: Env, s: Subst, e: Expr)
    requires forall v :: v in s && v in Vars(e) ==> env(v) == Eval(I, env, s[v])
    ensures Eval(I, env, Apply(s, e)) == Eval(I, env, e)
  {
    EvalApply(I, env, s, e);
    EvalAgree(I, Substituted(I, env, s), env, e);
  }

  /** What can occur after a substitution: variables that were not replaced, and variables
      of the expressions put in. */
  lemma {:induction false} VarsApply(s: Subst, e: Expr, w: nat)
    ensures w in Vars(Apply(s, e)) <==>
            (w in Vars(e) && w !in s) || (exists v :: v in Vars(e) && v in s && w in Vars(s[v]))
  {
    match e
    case Const(_) =>
    case Sym(_) =>
    case Neg(a) => VarsApply(s, a, w);
    case Bin(_, l, r) => VarsApply(s, l, w); VarsApply(s, r, w);
  }

  // ----- Differentiation -----

  const ZERO := Const(0.0)
  const ONE := Const(1.0)

  predicate IsZero(e: Expr) {
    e.Const? && e.value == 0.0
  }

  predicate IsOne(e: Expr) {
    e.Const? && e.value == 1.0
  }

  // Sums and products simplify against the constants 0 and 1, as CasADi's do.
  function Plus(a: Expr, b: Expr): Expr {
    if IsZero(a) then b else if IsZero(b) then a else Bin(Sum, a, b)
  }

  function Times(a: Expr, b: Expr): Expr {
    if IsZero(a) || IsZero(b) then ZERO
    else if IsOne(a) then b
    else if IsOne(b) then a
    else Bin(Product, a, b)
  }

  function Minus(a: Expr): Expr {
    if IsZero(a) then ZERO else Neg(a)
  }

  function Over(a: Expr, b: Expr): Expr {
    if IsZero(a) then ZERO else Bin(Ratio, a, b)
  }

  /** The partial derivative of e in v. The derivatives of operator f in its first and second
      argument are operators 2f+1 and 2f+2, uninterpreted like f. */
  function Diff(e: Expr, v: nat): Expr {
    match e
    case Const(_) => ZERO
    case Sym(w) => if w == v then ONE else ZERO
    case Neg(a) => Minus(Diff(a, v))
    case Bin(Sum, l, r) => Plus(Diff(l, v), Diff(r, v))
    case Bin(Product, l, r) => Plus(Times(Diff(l, v), r), Times(l, Diff(r, v)))
    case Bin(Ratio, l, r) => Plus(Over(Diff(l, v), r), Minus(Times(Over(e, r), Diff(r, v))))
    case Bin(Fn(f), l, r) =>
      Plus(Times(Bin(Fn(2 * f + 1), l, r), Diff(l, v)), Times(Bin(Fn(2 * f + 2), l, r), Diff(r, v)))
  }
}
