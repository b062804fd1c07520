/**
 Symbolic elimination block by block (BLTModel._create_residuals), as a list of steps: a step
 solves one equation for one variable, or keeps equations as residuals and their variables as
 unknowns. What the steps compute is equivalent to the original equations.
 */
module Elimination {
  import opened Lists
  import opened Expressions
  import opened Linearity
  import RealSums

  datatype Step = Solve(eq: Expr, x: nat) | Keep(eqs: seq<Expr>, xs: seq<nat>)

  datatype State = State(residuals: seq<Expr>, solvedVars: seq<nat>, solvedExpr: seq<Expr>)

  const START := State([], [], [])

  /** The solved variables with their expressions. */
  function Solutions(s: State): Subst
    requires |s.solvedVars| == |s.solvedExpr|
  {
    SubstOf(s.solvedVars, s.solvedExpr)
  }

  /** A x - res: the right-hand side of the linear equation A x = b, before x is set to zero. */
  function RightHandSide(eq: Expr, x: nat): Expr {
    Bin(Sum, Bin(Product, Diff(eq, x), Sym(x)), Neg(eq))
  }

  /** The solution of eq for x: b over A, both with earlier solutions put in, x set to zero in b
      and to anything in A. */
  function Solution(s: State, eq: Expr, x: nat, anything: real): Expr
    requires |s.solvedVars| == |s.solvedExpr|
  {
    var A := Apply(Solutions(s)[x := Const(anything)], Diff(eq, x));
    var b := Apply(Solutions(s)[x := Const(0.0)], RightHandSide(eq, x));
    Bin(Ratio, b, A)
  }

  function Symbols(xs: seq<nat>): seq<Expr> {
    seq(|xs|, i requires 0 <= i < |xs| => Sym(xs[i]))
  }

  function Advance(s: State, step: Step, anything: real): (r: State)
    requires |s.solvedVars| == |s.solvedExpr|
    ensures |r.solvedVars| == |r.solvedExpr|
  {
    match step
    case Solve(eq, x) =>
      State(s.residuals, s.solvedVars + [x], s.solvedExpr + [Solution(s, eq, x, anything)])
    case Keep(eqs, xs) =>
      State(s.residuals + ApplyAll(Solutions(s), eqs), s.solvedVars + xs, s.solvedExpr + Symbols(xs))
  }

  function Run(steps: seq<Step>, anything: real): (r: State)
    ensures |r.solvedVars| == |r.solvedExpr|
  {
    if steps == [] then START else Advance(Run(steps[..|steps| - 1], anything), steps[|steps| - 1], anything)
  }

  // ----- What the steps are about -----

  function EquationsOf(step: Step): seq<Expr> {
    if step.Solve? then [step.eq] else step.eqs
  }

  function VariablesOf(step: Step): seq<nat> {
    if step.Solve? then [step.x] else step.xs
  }

  /** The variable of the step is eliminated. */
  ghost predicate Eliminates(step: Step, v: nat) {
    step.Solve? && step.x == v
  }

  ghost predicate Eliminated(steps: seq<Step>, v: nat) {
    exists k :: 0 <= k < |steps| && Eliminates(steps[k], v)
  }

  ghost predicate Handled(steps: seq<Step>, v: nat) {
    exists k :: 0 <= k < |steps| && v in VariablesOf(steps[k])
  }

  ghost predicate KeptBy(steps: seq<Step>, v: nat) {
    exists k :: 0 <= k < |steps| && steps[k].Keep? && v in steps[k].xs
  }

  ghost predicate IsEquation(steps: seq<Step>, eq: Expr) {
    exists k :: 0 <= k < |steps| && eq in EquationsOf(steps[k])
  }

  /** The condition on the order: an equation mentions no variable that is eliminated at a later
      step, and none of `future`. */
  ghost predicate InOrder(steps: seq<Step>, future: set<nat>) {
    && (forall k, eq, v :: 0 <= k < |steps| && eq in EquationsOf(steps[k]) && v in Vars(eq) ==> v !in future)
    && (forall k, eq, j, v ::
          0 <= k <= j < |steps| && eq in EquationsOf(steps[k]) && v in Vars(eq) && Eliminates(steps[j], v) ==> j == k)
  }

  /** Every variable is handled once; a step that keeps has as many equations as variables. */
  ghost predicate OneToOne(steps: seq<Step>) {
    && (forall k :: 0 <= k < |steps| ==>
        NoRepeats(VariablesOf(steps[k])) && |EquationsOf(steps[k])| == |VariablesOf(steps[k])|)
    && (forall j, k, v :: 0 <= j < k < |steps| && v in VariablesOf(steps[j]) ==> v !in VariablesOf(steps[k]))
  }

  /** The equations that are solved passed the linearity test. */
  ghost predicate SolvesLinear(steps: seq<Step>) {
    forall k :: 0 <= k < |steps| && steps[k].Solve? ==> JacobianFree(steps[k].eq, [steps[k].x])
  }

  ghost predicate WellFormed(steps: seq<Step>, future: set<nat>) {
    InOrder(steps, future) && OneToOne(steps) && SolvesLinear(steps)
  }

  // ----- Values -----

  ghost predicate AllZero(I: Interp, env: Env, es: seq<Expr>) {
    forall e :: e in es ==> Eval(I, env, e) == 0.0
  }

  /** Every original equation holds. */
  ghost predicate OriginalHolds(I: Interp, env: Env, steps: seq<Step>) {
    forall k :: 0 <= k < |steps| ==> AllZero(I, env, EquationsOf(steps[k]))
  }

  /** Every solved variable has the value of its expression. */
  ghost predicate SolutionsHold(I: Interp, env: Env, s: State) {
    |s.solvedVars| == |s.solvedExpr| && forall i :: 0 <= i < |s.solvedVars| ==>
        env(s.solvedVars[i]) == Eval(I, env, s.solvedExpr[i])
  }

  ghost predicate ReducedHolds(I: Interp, env: Env, s: State) {
    AllZero(I, env, s.residuals) && SolutionsHold(I, env, s)
  }

  /** No pivot is zero. */
  ghost predicate PivotsNonzero(I: Interp, env: Env, steps: seq<Step>) {
    forall k :: 0 <= k < |steps| && steps[k].Solve? ==> Eval(I, env, Diff(steps[k].eq, steps[k].x)) != 0.0
  }

  lemma SolutionsAgree(I: Interp, env: Env, s: State)
    requires SolutionsHold(I, env, s)
    ensures forall v :: v in Solutions(s) ==> env(v) == Eval(I, env, Solutions(s)[v])
  {
    forall v | v in Solutions(s) ensures env(v) == Eval(I, env, Solutions(s)[v]) {
      var i := IndexOf(s.solvedVars, v);
    }
  }

  lemma QuotientSolves(x: real, pivot: real, b: real)
    requires pivot != 0.0
    ensures x == Quotient(b, pivot) <==> RealSums.Prod(pivot, x) == b
  {}

  lemma ProductByZero(a: real)
    ensures RealSums.Prod(a, 0.0) == 0.0
  {}

  /** The value of A: x does not matter, and earlier solutions have the values of their variables. */
  lemma PivotValue(I: Interp, env: Env, s: State, eq: Expr, x: nat, anything: real)
    requires SolutionsHold(I, env, s) && JacobianFree(eq, [x])
    ensures Eval(I, env, Apply(Solutions(s)[x := Const(anything)], Diff(eq, x))) == Eval(I, env, Diff(eq, x))
  {
    SolutionsAgree(I, env, s);
    assert x in [x];
    assert Avoids(Diff(eq, x), [x]);
    ApplyPreservesValue(I, env, Solutions(s)[x := Const(anything)], Diff(eq, x));
  }

  /** The value of b: minus the residual at x = 0. */
  lemma RightHandSideValue(I: Interp, env: Env, s: State, eq: Expr, x: nat)
    requires SolutionsHold(I, env, s)
    ensures Eval(I, env, Apply(Solutions(s)[x := Const(0.0)], RightHandSide(eq, x))) == -Eval(I, AtZero(env, [x]), eq)
  {
    var sub, env0, rhs := Solutions(s)[x := Const(0.0)], AtZero(env, [x]), RightHandSide(eq, x);
    SolutionsAgree(I, env, s);
    EvalApply(I, env, sub, rhs);
    assert env0(x) == 0.0 by { assert x in [x]; }
    forall v ensures Substituted(I, env, sub)(v) == env0(v) {
      if v == x { assert Eval(I, env, Const(0.0)) == 0.0; }
    }
    EvalAgree(I, Substituted(I, env, sub), env0, rhs);
    EvalOfProduct(I, env0, Diff(eq, x), Sym(x));
    ProductByZero(Eval(I, env0, Diff(eq, x)));
    assert EvalBin(I, env0, rhs) == Eval(I, env0, rhs.left) + Eval(I, env0, rhs.right);
  }

  lemma SlopeOfOne(I: Interp, env: Env, eq: Expr, x: nat)
    ensures Slope(I, env, AtZero(env, [x]), eq, [x]) == RealSums.Prod(Eval(I, env, Diff(eq, x)), env(x))
  {
    var row, step := Row(I, env, eq, [x]), Linearity.Step(env, AtZero(env, [x]), [x]);
    assert x in [x];
    assert step(0) == env(x) - 0.0;
    assert RealSums.Sum(1, (i: nat) => RealSums.Prod(row(i), step(i))) == RealSums.Prod(row(0), step(0));
  }

  /** The heart of a Solve step: x has the value of its solution exactly when the equation holds. */
  lemma SolutionIsExact(I: Interp, env: Env, s: State, eq: Expr, x: nat, anything: real)
    requires SolutionsHold(I, env, s) && JacobianFree(eq, [x]) && Eval(I, env, Diff(eq, x)) != 0.0
    ensures env(x) == Eval(I, env, Solution(s, eq, x, anything)) <==> Eval(I, env, eq) == 0.0
  {
    hide Eval, Diff, JacobianFree, Solutions, Apply, AtZero, Slope, RightHandSide, Quotient, RealSums.Prod;
    var A := Apply(Solutions(s)[x := Const(anything)], Diff(eq, x));
    var b := Apply(Solutions(s)[x := Const(0.0)], RightHandSide(eq, x));
    PivotValue(I, env, s, eq, x, anything);
    RightHandSideValue(I, env, s, eq, x);
    EvalOfRatio(I, env, b, A);
    RowSolvesResidual(I, env, eq, [x]);
    SlopeOfOne(I, env, eq, x);
    QuotientSolves(env(x), Eval(I, env, Diff(eq, x)), -Eval(I, AtZero(env, [x]), eq));
  }

  // ----- Step by step -----

  lemma {:induction false} SolvedVarsAreHandled(steps: seq<Step>, anything: real, v: nat)
    ensures v in Run(steps, anything).solvedVars <==> Handled(steps, v)
  {
    if steps != [] {
      var init, last := steps[..|steps| - 1], steps[|steps| - 1];
      SolvedVarsAreHandled(init, anything, v);
      HandledSplit(steps, v);
    }
  }

  lemma HandledSplit(steps: seq<Step>, v: nat)
    requires steps != []
    ensures Handled(steps, v) <==> Handled(steps[..|steps| - 1], v) || v in VariablesOf(steps[|steps| - 1])
  {
    var init := steps[..|steps| - 1];
    if k :| 0 <= k < |steps| && v in VariablesOf(steps[k]) {
      if k < |init| { assert v in VariablesOf(init[k]); }
    }
    if k :| 0 <= k < |init| && v in VariablesOf(init[k]) { assert v in VariablesOf(steps[k]); }
  }

  lemma SolutionsHoldSplit(I: Interp, env: Env, s: State, t: State, xs: seq<nat>, es: seq<Expr>)
    requires |s.solvedVars| == |s.solvedExpr| && |xs| == |es|
    requires t.solvedVars == s.solvedVars + xs && t.solvedExpr == s.solvedExpr + es
    ensures SolutionsHold(I, env, t) <==>
            SolutionsHold(I, env, s) && forall i :: 0 <= i < |xs| ==> env(xs[i]) == Eval(I, env, es[i])
  {
    var n := |s.solvedVars|;
    if SolutionsHold(I, env, t) {
      forall i | 0 <= i < n ensures env(s.solvedVars[i]) == Eval(I, env, s.solvedExpr[i]) {
        assert t.solvedVars[i] == s.solvedVars[i] && t.solvedExpr[i] == s.solvedExpr[i];
      }
      forall i | 0 <= i < |xs| ensures env(xs[i]) == Eval(I, env, es[i]) {
        assert t.solvedVars[n + i] == xs[i] && t.solvedExpr[n + i] == es[i];
      }
    }
  }

  lemma KeepIsExact(I: Interp, env: Env, s: State, eqs: seq<Expr>)
    requires SolutionsHold(I, env, s)
    ensures AllZero(I, env, ApplyAll(Solutions(s), eqs)) <==> AllZero(I, env, eqs)
  {
    var rs := ApplyAll(Solutions(s), eqs);
    SolutionsAgree(I, env, s);
    forall i | 0 <= i < |eqs| ensures Eval(I, env, rs[i]) == Eval(I, env, eqs[i]) && rs[i] in rs && eqs[i] in eqs {
      ApplyPreservesValue(I, env, Solutions(s), eqs[i]);
    }
  }

  lemma AllZeroConcat(I: Interp, env: Env, a: seq<Expr>, b: seq<Expr>)
    ensures AllZero(I, env, a + b) <==> AllZero(I, env, a) && AllZero(I, env, b)
  {
    forall e ensures e in a + b <==> e in a || e in b {}
  }

  lemma OriginalSplit(I: Interp, env: Env, steps: seq<Step>)
    requires steps != []
    ensures OriginalHolds(I, env, steps) <==>
            OriginalHolds(I, env, steps[..|steps| - 1]) && AllZero(I, env, EquationsOf(steps[|steps| - 1]))
  {
    var init := steps[..|steps| - 1];
    assert forall k :: 0 <= k < |init| ==> init[k] == steps[k];
    if OriginalHolds(I, env, steps) {
      forall k | 0 <= k < |init|
        ensures AllZero(I, env, EquationsOf(init[k]))
      {
        assert AllZero(I, env, EquationsOf(steps[k]));
      }
    }
  }

  /** Elimination preserves meaning: where no pivot is zero, the original equations hold exactly when
      the residuals are zero and every solved variable has the value of its expression. */
  lemma {:induction false} EliminationIsEquivalent(I: Interp, env: Env, steps: seq<Step>, anything: real)
    requires SolvesLinear(steps) && PivotsNonzero(I, env, steps)
    ensures OriginalHolds(I, env, steps) <==> ReducedHolds(I, env, Run(steps, anything))
  {
    if steps != [] {
      var init, last := steps[..|steps| - 1], steps[|steps| - 1];
      var s, t := Run(init, anything), Run(steps, anything);
      assert forall k :: 0 <= k < |init| ==> init[k] == steps[k];
      EliminationIsEquivalent(I, env, init, anything);
      OriginalSplit(I, env, steps);
      match last
      case Solve(eq, x) =>
        SolutionsHoldSplit(I, env, s, t, [x], [Solution(s, eq, x, anything)]);
        if SolutionsHold(I, env, s) {
          SolutionIsExact(I, env, s, eq, x, anything);
        }
      case Keep(eqs, xs) =>
        SolutionsHoldSplit(I, env, s, t, xs, Symbols(xs));
        AllZeroConcat(I, env, s.residuals, ApplyAll(Solutions(s), eqs));
        if SolutionsHold(I, env, s) {
          KeepIsExact(I, env, s, eqs);
        }
    }
  }

  // ----- What the results mention -----

  lemma SimplifiedMentions(a: Expr, b: Expr)
    ensures Vars(Plus(a, b)) <= Vars(a) + Vars(b) && Vars(Times(a, b)) <= Vars(a) + Vars(b)
    ensures Vars(Over(a, b)) <= Vars(a) + Vars(b) && Vars(Minus(a)) <= Vars(a)
  {}

  /** A derivative mentions no new variable. */
  lemma {:induction false} DiffMentions(e: Expr, x: nat)
    ensures Vars(Diff(e, x)) <= Vars(e)
  {
    match e
    case Const(_) =>
    case Sym(_) =>
    case Neg(a) =>
      DiffMentions(a, x);
      SimplifiedMentions(Diff(a, x), ZERO);
    case Bin(op, l, r) =>
      DiffMentions(l, x);
      DiffMentions(r, x);
      DiffBinMentions(e, x);
  }

  lemma DiffBinMentions(e: Expr, x: nat)
    requires e.Bin? && Vars(Diff(e.left, x)) <= Vars(e.left) && Vars(Diff(e.right, x)) <= Vars(e.right)
    ensures Vars(Diff(e, x)) <= Vars(e)
  {
    var l, r, dl, dr := e.left, e.right, Diff(e.left, x), Diff(e.right, x);
    match e.op
    case Sum => SimplifiedMentions(dl, dr);
    case Product =>
      SimplifiedMentions(Times(dl, r), Times(l, dr));
      SimplifiedMentions(dl, r);
      SimplifiedMentions(l, dr);
    case Ratio =>
      SimplifiedMentions(Over(dl, r), Minus(Times(Over(e, r), dr)));
      SimplifiedMentions(Times(Over(e, r), dr), ZERO);
      SimplifiedMentions(Over(e, r), dr);
      SimplifiedMentions(e, r);
      SimplifiedMentions(dl, r);
    case Fn(f) =>
      var fl, fr := Bin(Fn(2 * f + 1), l, r), Bin(Fn(2 * f + 2), l, r);
      SimplifiedMentions(Times(fl, dl), Times(fr, dr));
      SimplifiedMentions(fl, dl);
      SimplifiedMentions(fr, dr);
  }

  /** e mentions no eliminated variable, and nothing that is not kept or outside the system. */
  ghost predicate Clean(e: Expr, steps: seq<Step>) {
    forall v :: v in Vars(e) ==> !Eliminated(steps, v)
  }

  ghost predicate AllClean(es: seq<Expr>, steps: seq<Step>) {
    forall e :: e in es ==> Clean(e, steps)
  }

  /** What putting the solutions into e leaves. */
  lemma ApplyIsClean(s: State, all: seq<Step>, e: Expr, extra: Subst)
    requires |s.solvedVars| == |s.solvedExpr| && AllClean(s.solvedExpr, all)
    requires forall v :: v in Vars(e) && Eliminated(all, v) ==> v in s.solvedVars || v in extra
    requires forall v :: v in extra ==> Vars(extra[v]) == {}
    ensures Clean(Apply(Solutions(s) + extra, e), all)
  {
    var sub := Solutions(s) + extra;
    forall w | w in Vars(Apply(sub, e)) ensures !Eliminated(all, w) {
      VarsApply(sub, e, w);
      if v :| v in Vars(e) && v in sub && w in Vars(sub[v]) {
        assert v !in extra;
        var i := IndexOf(s.solvedVars, v);
        assert sub[v] == s.solvedExpr[i] && s.solvedExpr[i] in s.solvedExpr;
      }
    }
  }

  lemma RightHandSideMentions(eq: Expr, x: nat)
    ensures Vars(RightHandSide(eq, x)) <= Vars(eq) + {x}
  {
    var d, v := Diff(eq, x), Sym(x);
    var a, n := Bin(Product, d, v), Neg(eq);
    DiffMentions(eq, x);
    assert Vars(v) == {x} && Vars(n) == Vars(eq);
    assert Vars(a) == Vars(d) + Vars(v);
    assert RightHandSide(eq, x) == Bin(Sum, a, n);
  }

  lemma SolutionIsClean(s: State, all: seq<Step>, eq: Expr, x: nat, anything: real)
    requires |s.solvedVars| == |s.solvedExpr| && AllClean(s.solvedExpr, all)
    requires forall v :: v in Vars(eq) && Eliminated(all, v) ==> v in s.solvedVars || v == x
    ensures Clean(Solution(s, eq, x, anything), all)
  {
    var toA, toB := map[x := Const(anything)], map[x := Const(0.0)];
    DiffMentions(eq, x);
    RightHandSideMentions(eq, x);
    assert Solutions(s)[x := Const(anything)] == Solutions(s) + toA;
    assert Solutions(s)[x := Const(0.0)] == Solutions(s) + toB;
    ApplyIsClean(s, all, Diff(eq, x), toA);
    ApplyIsClean(s, all, RightHandSide(eq, x), toB);
  }

  /** The equation of step k mentions, of the eliminated variables, only those of earlier steps and its own. */
  lemma EarlierOnly(steps: seq<Step>, k: nat, eq: Expr, v: nat, anything: real)
    requires InOrder(steps, {}) && k < |steps| && eq in EquationsOf(steps[k]) && v in Vars(eq) && Eliminated(steps, v)
    ensures v in Run(steps[..k], anything).solvedVars || Eliminates(steps[k], v)
  {
    var j :| 0 <= j < |steps| && Eliminates(steps[j], v);
    if j < k {
      assert steps[..k][j] == steps[j] && v in VariablesOf(steps[..k][j]);
      SolvedVarsAreHandled(steps[..k], anything, v);
    }
  }

  ghost predicate CleanState(s: State, steps: seq<Step>) {
    AllClean(s.residuals, steps) && AllClean(s.solvedExpr, steps)
  }

  lemma AllCleanConcat(a: seq<Expr>, b: seq<Expr>, steps: seq<Step>)
    requires AllClean(a, steps) && AllClean(b, steps)
    ensures AllClean(a + b, steps)
  {
    forall e | e in a + b ensures Clean(e, steps) {}
  }

  /** No expression that comes out mentions an eliminated variable. */
  lemma {:induction false} ResultsAreClean(steps: seq<Step>, k: nat, anything: real)
    requires WellFormed(steps, {}) && k <= |steps|
    ensures CleanState(Run(steps[..k], anything), steps)
  {
    if k > 0 {
      ResultsAreClean(steps, k - 1, anything);
      assert steps[..k][..k - 1] == steps[..k - 1];
      var s, step := Run(steps[..k - 1], anything), steps[k - 1];
      forall eq, v | eq in EquationsOf(step) && v in Vars(eq) && Eliminated(steps, v)
        ensures v in s.solvedVars || Eliminates(step, v)
      {
        EarlierOnly(steps, k - 1, eq, v, anything);
      }
      match step
      case Solve(eq, x) =>
        assert eq in EquationsOf(step);
        SolutionIsClean(s, steps, eq, x, anything);
        AllCleanConcat(s.solvedExpr, [Solution(s, eq, x, anything)], steps);
      case Keep(eqs, xs) =>
        KeepIsClean(s, steps, k - 1, eqs, xs);
    }
  }

  lemma KeepIsClean(s: State, steps: seq<Step>, k: nat, eqs: seq<Expr>, xs: seq<nat>)
    requires |s.solvedVars| == |s.solvedExpr| && CleanState(s, steps) && OneToOne(steps)
    requires k < |steps| && steps[k] == Keep(eqs, xs)
    requires forall eq, v :: eq in eqs && v in Vars(eq) && Eliminated(steps, v) ==> v in s.solvedVars
    ensures AllClean(s.residuals + ApplyAll(Solutions(s), eqs), steps)
    ensures AllClean(s.solvedExpr + Symbols(xs), steps)
  {
    var rs := ApplyAll(Solutions(s), eqs);
    forall i | 0 <= i < |rs| ensures Clean(rs[i], steps) {
      assert eqs[i] in eqs && Solutions(s) + map[] == Solutions(s);
      ApplyIsClean(s, steps, eqs[i], map[]);
    }
    AllCleanConcat(s.residuals, rs, steps);
    forall i | 0 <= i < |xs| ensures Clean(Symbols(xs)[i], steps) {
      KeptIsNotEliminated(steps, k, xs[i]);
    }
    AllCleanConcat(s.solvedExpr, Symbols(xs), steps);
  }

  lemma NotHandled(step: Step, v: nat)
    requires v !in VariablesOf(step)
    ensures !Eliminates(step, v)
  {}

  lemma KeptIsNotEliminated(steps: seq<Step>, k: nat, v: nat)
    requires OneToOne(steps) && k < |steps| && steps[k].Keep? && v in steps[k].xs
    ensures !Eliminated(steps, v)
  {
    assert v in VariablesOf(steps[k]);
    forall j | 0 <= j < |steps| ensures !Eliminates(steps[j], v) {
      if j != k { NotHandled(steps[j], v); }
    }
  }

  // ----- Counting -----

  /** The variables that stay, in order. */
  ghost function KeptVars(steps: seq<Step>): seq<nat> {
    if steps == [] then []
    else KeptVars(steps[..|steps| - 1]) + if steps[|steps| - 1].Keep? then steps[|steps| - 1].xs else []
  }

  /** The equations that stay, in order. */
  ghost function KeptEqs(steps: seq<Step>): seq<Expr> {
    if steps == [] then []
    else KeptEqs(steps[..|steps| - 1]) + if steps[|steps| - 1].Keep? then steps[|steps| - 1].eqs else []
  }

  /** The residuals are the expressions es with solutions put in: one by one they have the same value
      wherever the solved variables have that of their solutions. */
  ghost predicate ResidualsAre(s: State, es: seq<Expr>) {
    && |s.residuals| == |es|
    && forall I: Interp, env: Env :: SolutionsHold(I, env, s) ==>
         forall i :: 0 <= i < |es| ==> Eval(I, env, s.residuals[i]) == Eval(I, env, es[i])
  }

  /** Keeping equations appends their residuals: whatever was there stays, and the new ones have, one by
      one, the values of the equations wherever the solved variables have that of their solutions. */
  ghost predicate AppendsValues(before: State, after: State, es: seq<Expr>) {
    && before.residuals <= after.residuals && |after.residuals| == |before.residuals| + |es|
    && forall I: Interp, env: Env :: SolutionsHold(I, env, before) ==>
         forall i :: 0 <= i < |es| ==> Eval(I, env, after.residuals[|before.residuals| + i]) == Eval(I, env, es[i])
  }

  lemma KeepAppendsValues(s: State, eqs: seq<Expr>, xs: seq<nat>, anything: real)
    requires |s.solvedVars| == |s.solvedExpr|
    ensures AppendsValues(s, Advance(s, Keep(eqs, xs), anything), eqs)
  {
    var t := Advance(s, Keep(eqs, xs), anything);
    forall I: Interp, env: Env | SolutionsHold(I, env, s)
      ensures forall i :: 0 <= i < |eqs| ==> Eval(I, env, t.residuals[|s.residuals| + i]) == Eval(I, env, eqs[i])
    {
      SolutionsAgree(I, env, s);
      forall i | 0 <= i < |eqs| ensures Eval(I, env, t.residuals[|s.residuals| + i]) == Eval(I, env, eqs[i]) {
        ApplyPreservesValue(I, env, Solutions(s), eqs[i]);
      }
    }
  }

  lemma {:induction false} ResidualsKeepValues(steps: seq<Step>, anything: real)
    ensures ResidualsAre(Run(steps, anything), KeptEqs(steps))
  {
    if steps != [] {
      var init, last := steps[..|steps| - 1], steps[|steps| - 1];
      var s, t, es := Run(init, anything), Run(steps, anything), KeptEqs(init);
      ResidualsKeepValues(init, anything);
      forall I: Interp, env: Env | SolutionsHold(I, env, t)
        ensures forall i :: 0 <= i < |KeptEqs(steps)| ==>
                  Eval(I, env, t.residuals[i]) == Eval(I, env, KeptEqs(steps)[i])
      {
        match last
        case Solve(eq, x) => SolutionsHoldSplit(I, env, s, t, [x], [Solution(s, eq, x, anything)]);
        case Keep(eqs, xs) =>
          SolutionsHoldSplit(I, env, s, t, xs, Symbols(xs));
          SolutionsAgree(I, env, s);
          forall i | |es| <= i < |KeptEqs(steps)|
            ensures Eval(I, env, t.residuals[i]) == Eval(I, env, KeptEqs(steps)[i])
          {
            ApplyPreservesValue(I, env, Solutions(s), eqs[i - |es|]);
          }
      }
    }
  }

  /** As many residuals as variables that stay. */
  lemma {:induction false} AsManyResidualsAsUnknowns(steps: seq<Step>, anything: real)
    requires OneToOne(steps)
    ensures |Run(steps, anything).residuals| == |KeptVars(steps)|
  {
    if steps != [] {
      var init := steps[..|steps| - 1];
      assert forall k :: 0 <= k < |init| ==> init[k] == steps[k];
      AsManyResidualsAsUnknowns(init, anything);
      assert |EquationsOf(steps[|steps| - 1])| == |VariablesOf(steps[|steps| - 1])|;
    }
  }

  lemma {:induction false} KeptVarsAreKept(steps: seq<Step>, v: nat)
    ensures v in KeptVars(steps) <==> KeptBy(steps, v)
  {
    if steps != [] {
      var init, last := steps[..|steps| - 1], steps[|steps| - 1];
      KeptVarsAreKept(init, v);
      if k :| 0 <= k < |steps| && steps[k].Keep? && v in steps[k].xs {
        if k < |init| { assert init[k].Keep? && v in init[k].xs; }
      }
      if k :| 0 <= k < |init| && init[k].Keep? && v in init[k].xs {
        assert steps[k].Keep? && v in steps[k].xs;
      }
    }
  }

  /** Every handled variable is either eliminated or kept. */
  lemma EliminatedOrKept(steps: seq<Step>, v: nat)
    requires OneToOne(steps)
    ensures Handled(steps, v) <==> Eliminated(steps, v) || KeptBy(steps, v)
    ensures !(Eliminated(steps, v) && KeptBy(steps, v))
  {
    if k :| 0 <= k < |steps| && v in VariablesOf(steps[k]) {
      if steps[k].Solve? { assert Eliminates(steps[k], v); }
    }
    if k :| 0 <= k < |steps| && Eliminates(steps[k], v) { assert v in VariablesOf(steps[k]); }
    if k :| 0 <= k < |steps| && steps[k].Keep? && v in steps[k].xs {
      assert v in VariablesOf(steps[k]);
      KeptIsNotEliminated(steps, k, v);
    }
  }

  // ----- Objective and constraints -----

  /** solved holds the solutions of eliminated variables. */
  ghost predicate SomeSolutions(solved: Subst, s: State) {
    && |s.solvedVars| == |s.solvedExpr|
    && forall v :: v in solved ==> v in s.solvedVars && solved[v] == Solutions(s)[v]
  }

  /** Substituting solutions into an expression keeps its value wherever the solutions hold. */
  lemma SolutionsKeepValue(I: Interp, env: Env, s: State, solved: Subst, e: Expr)
    requires SomeSolutions(solved, s) && SolutionsHold(I, env, s)
    ensures Eval(I, env, Apply(solved, e)) == Eval(I, env, e)
  {
    SolutionsAgree(I, env, s);
    ApplyPreservesValue(I, env, solved, e);
  }

  lemma SolutionsRemove(steps: seq<Step>, anything: real, solved: Subst, e: Expr)
    requires WellFormed(steps, {}) && SomeSolutions(solved, Run(steps, anything))
    requires forall v :: Eliminated(steps, v) ==> v in solved
    ensures Clean(Apply(solved, e), steps)
  {
    var s := Run(steps, anything);
    ResultsAreClean(steps, |steps|, anything);
    assert steps[..|steps|] == steps;
    forall w | w in Vars(Apply(solved, e)) ensures !Eliminated(steps, w) {
      VarsApply(solved, e, w);
      if v :| v in Vars(e) && v in solved && w in Vars(solved[v]) {
        var i := IndexOf(s.solvedVars, v);
        assert solved[v] == s.solvedExpr[i] && s.solvedExpr[i] in s.solvedExpr;
      }
    }
  }

  /** No variable is solved twice. */
  lemma {:induction false} SolvedOnce(steps: seq<Step>, anything: real)
    requires OneToOne(steps)
    ensures NoRepeats(Run(steps, anything).solvedVars)
  {
    if steps != [] {
      var init, last := steps[..|steps| - 1], steps[|steps| - 1];
      assert forall k :: 0 <= k < |init| ==> init[k] == steps[k];
      SolvedOnce(init, anything);
      var vs, xs := Run(init, anything).solvedVars, VariablesOf(last);
      assert Run(steps, anything).solvedVars == vs + xs;
      forall i, j | 0 <= i < |vs| && 0 <= j < |xs| ensures vs[i] != xs[j] {
        assert vs[i] in vs;
        SolvedVarsAreHandled(init, anything, vs[i]);
        var k :| 0 <= k < |init| && vs[i] in VariablesOf(init[k]);
        assert vs[i] in VariablesOf(steps[k]) && xs[j] in xs;
      }
      assert NoRepeats(xs);
    }
  }
}
