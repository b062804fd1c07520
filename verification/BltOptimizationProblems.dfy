/** BLTOptimizationProblem of symbolic_elimination.py: the objective integrand and the path
    constraints after the elimination. */
module BltOptimizationProblems {
  import opened Lists
  import opened Expressions
  import opened Components
  import opened Elimination
  import opened EliminationPlans
  import opened BltModels

  datatype Relation = Equal | LessEqual | GreaterEqual

  datatype Constraint = Constraint(lhs: Expr, rhs: Expr, relation: Relation)

  function LhsOf(c: Constraint): Expr {
    c.lhs
  }

  function RhsOf(c: Constraint): Expr {
    c.rhs
  }

  /** The new expressions have the values of the old ones, side by side. */
  ghost predicate SameMeaning(I: Interp, env: Env, given: seq<Constraint>, cs: seq<Constraint>, integrand: Expr,
                              newIntegrand: Expr)
  {
    && Eval(I, env, newIntegrand) == Eval(I, env, integrand)
    && |cs| == |given|
    && forall i :: 0 <= i < |cs| ==>
         && Eval(I, env, cs[i].lhs) == Eval(I, env, given[i].lhs)
         && Eval(I, env, cs[i].rhs) == Eval(I, env, given[i].rhs)
         && cs[i].relation == given[i].relation
  }

  ghost predicate MentionsNone(cs: seq<Constraint>, integrand: Expr, steps: seq<Elimination.Step>) {
    && Clean(integrand, steps)
    && (forall i :: 0 <= i < |cs| ==> Clean(cs[i].lhs, steps) && Clean(cs[i].rhs, steps))
  }

  ghost predicate SubstitutedBy(sub: Subst, given: seq<Constraint>, cs: seq<Constraint>) {
    && |cs| == |given|
    && forall i :: 0 <= i < |cs| ==>
        cs[i] == Constraint(Apply(sub, given[i].lhs), Apply(sub, given[i].rhs), given[i].relation)
  }

  /** The pairs give the solution of every eliminated variable. */
  lemma PairsAreSolutions(pairs: seq<(nat, Variable)>, vars: seq<nat>, exprs: seq<Expr>, s: State,
                          steps: seq<Elimination.Step>, nan: real)
    requires s == Run(steps, nan) && OneToOne(steps) && ListsSolved(pairs, s.solvedVars, steps)
    requires |vars| == |exprs| == |pairs|
    requires forall k :: 0 <= k < |pairs| ==>
               pairs[k].0 < |s.solvedExpr| && vars[k] == pairs[k].1.mxVar && exprs[k] == s.solvedExpr[pairs[k].0]
    ensures SomeSolutions(SubstOf(vars, exprs), s)
    ensures forall v :: Eliminated(steps, v) ==> v in SubstOf(vars, exprs)
  {
    hide Run, OneToOne, Eliminated;
    SolvedOnce(steps, nan);
    forall v | v in SubstOf(vars, exprs) ensures v in s.solvedVars && SubstOf(vars, exprs)[v] == Solutions(s)[v] {
      var k := IndexOf(vars, v);
      assert pairs[k] in pairs;
      assert s.solvedVars[pairs[k].0] == v;
      var i := IndexOf(s.solvedVars, v);
    }
    forall v | Eliminated(steps, v) ensures v in SubstOf(vars, exprs) {
      var p :| p in pairs && p.1.mxVar == v;
      var k :| 0 <= k < |pairs| && pairs[k] == p;
      assert vars[k] == v;
    }
  }

  lemma SubstitutedMeansSame(I: Interp, env: Env, s: State, sub: Subst, given: seq<Constraint>, cs: seq<Constraint>,
                             integrand: Expr)
    requires SomeSolutions(sub, s) && SolutionsHold(I, env, s) && SubstitutedBy(sub, given, cs)
    ensures SameMeaning(I, env, given, cs, integrand, Apply(sub, integrand))
  {
    SolutionsKeepValue(I, env, s, sub, integrand);
    forall i | 0 <= i < |cs|
      ensures Eval(I, env, cs[i].lhs) == Eval(I, env, given[i].lhs)
      ensures Eval(I, env, cs[i].rhs) == Eval(I, env, given[i].rhs)
    {
      SolutionsKeepValue(I, env, s, sub, given[i].lhs);
      SolutionsKeepValue(I, env, s, sub, given[i].rhs);
    }
  }

  lemma SubstitutedMentionsNone(steps: seq<Elimination.Step>, nan: real, sub: Subst, given: seq<Constraint>,
                                cs: seq<Constraint>, integrand: Expr)
    requires WellFormed(steps, {}) && SomeSolutions(sub, Run(steps, nan)) && SubstitutedBy(sub, given, cs)
    requires forall v :: Eliminated(steps, v) ==> v in sub
    ensures MentionsNone(cs, Apply(sub, integrand), steps)
  {
    hide WellFormed, SomeSolutions, Clean;
    SolutionsRemove(steps, nan, sub, integrand);
    forall i | 0 <= i < |cs| ensures Clean(cs[i].lhs, steps) && Clean(cs[i].rhs, steps) {
      SolutionsRemove(steps, nan, sub, given[i].lhs);
      SolutionsRemove(steps, nan, sub, given[i].rhs);
    }
  }

  class BLTOptimizationProblem {
    var pathConstraints: seq<Constraint>
    var objectiveIntegrand: Expr

    constructor (constraints: seq<Constraint>, integrand: Expr)
      ensures pathConstraints == constraints && objectiveIntegrand == integrand
    {
      pathConstraints, objectiveIntegrand := constraints, integrand;
    }

    /** Substitutes the eliminated variables in the objective integrand and both sides of the path
        constraints: one flat list, substituted at once and cut up again. */
    method SubstituteObjectiveAndConstraint(model: BLTModel, ghost handled: set<nat>, ghost done: set<Expr>,
                                            ghost fixed: set<nat>)
      requires model.Consistent() && Planned(model.steps, {}, handled, done, fixed)
      modifies this
      ensures MentionsNone(pathConstraints, objectiveIntegrand, model.steps)
      ensures forall I, env :: SolutionsHold(I, env, model.Result()) ==>
                SameMeaning(I, env, old(pathConstraints), pathConstraints, old(objectiveIntegrand), objectiveIntegrand)
    {
      hide ListsSolved, WellFormed, SolutionsHold, SameMeaning, MentionsNone, SomeSolutions;
      ghost var s, steps := model.Result(), model.steps;
      ghost var given, integrand := pathConstraints, objectiveIntegrand;
      PlannedIsWellFormed(steps, handled, done, fixed);
      var solvedVars: seq<nat>, solvedExpr: seq<Expr> := [], [];
      PositionsInRange(model.explicitSolvedAlgebraics, model.solvedVars, steps);
      for k := 0 to |model.explicitSolvedAlgebraics|
        modifies {}
        invariant |solvedVars| == |solvedExpr| == k
        invariant forall l :: 0 <= l < k ==> var p := model.explicitSolvedAlgebraics[l];
                    p.0 < |s.solvedExpr| && solvedVars[l] == p.1.mxVar && solvedExpr[l] == s.solvedExpr[p.0]
      {
        var (i, x) := model.explicitSolvedAlgebraics[k];
        assert model.explicitSolvedAlgebraics[k] in model.explicitSolvedAlgebraics;
        solvedVars := solvedVars + [x.mxVar];
        solvedExpr := solvedExpr + [model.solvedExpr[i]];
      }
      PairsAreSolutions(model.explicitSolvedAlgebraics, solvedVars, solvedExpr, s, steps, model.nan);
      var sub := SubstOf(solvedVars, solvedExpr);
      var nPath := |pathConstraints|;
      var all := Map(pathConstraints, LhsOf) + Map(pathConstraints, RhsOf) + [objectiveIntegrand];
      var newExpr := ApplyAll(sub, all);
      var lhs, rhs := newExpr[..nPath], newExpr[nPath..|newExpr| - 1];
      var cs: seq<Constraint> := [];
      for k := 0 to nPath
        modifies {}
        invariant |cs| == k
        invariant forall l :: 0 <= l < k ==>
                    cs[l] == Constraint(Apply(sub, given[l].lhs), Apply(sub, given[l].rhs), given[l].relation)
      {
        assert all[k] == given[k].lhs && all[nPath + k] == given[k].rhs;
        cs := cs + [pathConstraints[k].(lhs := lhs[k], rhs := rhs[k])];
      }
      assert all[2 * nPath] == integrand;
      pathConstraints := cs;
      objectiveIntegrand := newExpr[|newExpr| - 1];
      SubstitutedMentionsNone(steps, model.nan, sub, given, cs, integrand);
      forall I, env | SolutionsHold(I, env, s)
        ensures SameMeaning(I, env, given, cs, integrand, objectiveIntegrand)
      {
        SubstitutedMeansSame(I, env, s, sub, given, cs, integrand);
      }
    }
  }

  lemma PlannedIsWellFormed(steps: seq<Elimination.Step>, handled: set<nat>, done: set<Expr>, fixed: set<nat>)
    requires Planned(steps, {}, handled, done, fixed)
    ensures WellFormed(steps, {}) && OneToOne(steps)
  {}

  lemma PositionsInRange(pairs: seq<(nat, Variable)>, solvedVars: seq<nat>, steps: seq<Elimination.Step>)
    requires ListsSolved(pairs, solvedVars, steps)
    ensures forall p :: p in pairs ==> p.0 < |solvedVars|
  {}
}
