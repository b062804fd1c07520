/** Walking the blocks in order: the steps made so far are well formed at every block, and inside
    a torn block at every causal equation. */
module BlockPlans {
  import opened Lists
  import opened Expressions
  import opened Elimination
  import opened EliminationPlans
  import opened Components
  import Linearity

  /** The variables of the blocks from c on. */
  ghost function Pending(bs: seq<Component>, c: nat): set<nat> {
    set d, x | c <= d < |bs| && x in bs[d].variables :: x.mxVar
  }

  ghost function Before(bs: seq<Component>, c: nat): set<nat>
    requires c <= |bs|
  {
    set d, x | 0 <= d < c && x in bs[d].variables :: x.mxVar
  }

  ghost function DoneBefore(bs: seq<Component>, c: nat): set<Expr>
    requires c <= |bs|
  {
    set d, eq | 0 <= d < c && eq in bs[d].equations :: eq.expression
  }

  function Xs(xs: seq<Variable>): seq<nat> {
    Map(xs, MxOf)
  }

  function Es(eqs: seq<Equation>): seq<Expr> {
    Map(eqs, ExprOf)
  }

  lemma InXs(xs: seq<Variable>, v: nat)
    ensures v in Xs(xs) <==> exists x :: x in xs && x.mxVar == v
  {
    if v in Xs(xs) {
      var i :| 0 <= i < |xs| && Xs(xs)[i] == v;
      assert xs[i] in xs;
    }
    if x :| x in xs && x.mxVar == v {
      var i :| 0 <= i < |xs| && xs[i] == x;
      assert Xs(xs)[i] == v;
    }
  }

  lemma InEs(eqs: seq<Equation>, e: Expr)
    ensures e in Es(eqs) <==> exists eq :: eq in eqs && eq.expression == e
  {
    if e in Es(eqs) {
      var i :| 0 <= i < |eqs| && Es(eqs)[i] == e;
      assert eqs[i] in eqs;
    }
    if eq :| eq in eqs && eq.expression == e {
      var i :| 0 <= i < |eqs| && eqs[i] == eq;
      assert Es(eqs)[i] == e;
    }
  }

  lemma BlockSplit(bs: seq<Component>, c: nat)
    requires Separate(bs) && c < |bs|
    ensures Pending(bs, c) == Pending(bs, c + 1) + Set(Xs(bs[c].variables))
    ensures Before(bs, c + 1) == Before(bs, c) + Set(Xs(bs[c].variables))
    ensures DoneBefore(bs, c + 1) == DoneBefore(bs, c) + Set(Es(bs[c].equations))
    ensures Set(Xs(bs[c].variables)) !! Pending(bs, c + 1) && Set(Xs(bs[c].variables)) !! Before(bs, c)
  {
    var now := Set(Xs(bs[c].variables));
    forall v: nat ensures v in now <==> exists x :: x in bs[c].variables && x.mxVar == v { InXs(bs[c].variables, v); }
    forall e
      ensures e in Es(bs[c].equations) <==> exists eq :: eq in bs[c].equations && eq.expression == e
    {
      InEs(bs[c].equations, e);
    }
    forall d, x, y | 0 <= d < |bs| && d != c && x in bs[c].variables && y in bs[d].variables
      ensures x.mxVar != y.mxVar
    {
      assert HasVariable(bs, c, x) && HasVariable(bs, d, y);
    }
    assert Pending(bs, c) == Pending(bs, c + 1) + now;
    assert Before(bs, c + 1) == Before(bs, c) + now;
  }

  lemma BlockAvoidsLater(bs: seq<Component>, c: nat, e: Expr, v: nat)
    requires LowerTriangular(bs) && c < |bs| && e in Es(bs[c].equations) && v in Vars(e)
    ensures v !in Pending(bs, c + 1)
  {
    InEs(bs[c].equations, e);
    var eq :| eq in bs[c].equations && eq.expression == e;
    forall d, x | c + 1 <= d < |bs| && x in bs[d].variables ensures x.mxVar != v {
      assert HasEquation(bs, c, eq) && HasVariable(bs, d, x);
    }
  }

  /** The step treats block c: it solves a linear scalar block for a variable that is not fixed, or
      keeps the block. */
  ghost predicate Treats(step: Step, co: Component, fixed: set<nat>) {
    && EquationsOf(step) == Es(co.equations) && VariablesOf(step) == Xs(co.variables)
    && (step.Solve? ==> LinearBlock(co) && step.x !in fixed)
  }

  /** One block on; P, H and D hold what is pending, handled and done outside these blocks. */
  lemma PlanBlock(bs: seq<Component>, c: nat, steps: seq<Step>, step: Step, P: set<nat>, H: set<nat>, D: set<Expr>,
                  fixed: set<nat>)
    requires Separate(bs) && LowerTriangular(bs) && c < |bs| && Treats(step, bs[c], fixed)
    requires Planned(steps, P + Pending(bs, c), H + Before(bs, c), D + DoneBefore(bs, c), fixed)
    requires forall e, v :: e in Es(bs[c].equations) && v in Vars(e) ==> v !in P
    requires Set(Xs(bs[c].variables)) !! P && Set(Xs(bs[c].variables)) !! H
    ensures Planned(steps + [step], P + Pending(bs, c + 1), H + Before(bs, c + 1), D + DoneBefore(bs, c + 1), fixed)
  {
    hide Planned, LinearBlock, Pending, Before, DoneBefore, LowerTriangular, Separate;
    var now := Set(Xs(bs[c].variables));
    var future, handled, done := P + Pending(bs, c), H + Before(bs, c), D + DoneBefore(bs, c);
    BlockSplit(bs, c);
    forall e, v | e in EquationsOf(step) && v in Vars(e) ensures v !in future || v in VariablesOf(step) {
      BlockAvoidsLater(bs, c, e, v);
    }
    SquareBlock(bs, c);
    if step.Solve? { SolvedIsLinear(bs[c], step); }
    assert MayFollow(step, future, handled);
    PlanStep(steps, step, future, handled, done, fixed);
    assert future - now == P + Pending(bs, c + 1);
    assert handled + now == H + Before(bs, c + 1);
    assert done + Set(EquationsOf(step)) == D + DoneBefore(bs, c + 1);
  }

  lemma SquareBlock(bs: seq<Component>, c: nat)
    requires Separate(bs) && c < |bs|
    ensures |bs[c].variables| == |bs[c].equations| > 0 && NoRepeats(Xs(bs[c].variables))
  {}

  lemma SolvedIsLinear(co: Component, step: Step)
    requires step.Solve? && LinearBlock(co) && EquationsOf(step) == Es(co.equations)
    requires VariablesOf(step) == Xs(co.variables)
    ensures Linearity.JacobianFree(step.eq, [step.x]) && step.x in Set(Xs(co.variables))
  {
    assert step.eq in Es(co.equations) by { assert step.eq in EquationsOf(step); }
    assert step.x in VariablesOf(step);
    InEs(co.equations, step.eq);
    assert VariablesOf(step) == [step.x] == Map(co.variables, MxOf);
  }

  // ----- Torn blocks -----

  lemma {:induction false} FilteredDistinct(xs: seq<Variable>, p: Variable -> bool)
    requires DistinctVariables(xs)
    ensures DistinctVariables(Filter(xs, p))
  {
    if xs != [] {
      var init, last := xs[..|xs| - 1], xs[|xs| - 1];
      assert Map(init, MxOf) == Map(xs, MxOf)[..|init|];
      FilteredDistinct(init, p);
      var f := Filter(init, p);
      forall i | 0 <= i < |f| ensures f[i].mxVar != last.mxVar {
        assert f[i] in f && f[i] in init;
        var k :| 0 <= k < |init| && init[k] == f[i];
        assert Map(xs, MxOf)[k] != Map(xs, MxOf)[|xs| - 1];
      }
    }
  }

  lemma SameMxSameVariable(xs: seq<Variable>, x: Variable, y: Variable)
    requires DistinctVariables(xs) && x in xs && y in xs && x.mxVar == y.mxVar
    ensures x == y
  {
    var i :| 0 <= i < |xs| && xs[i] == x;
    var j :| 0 <= j < |xs| && xs[j] == y;
    assert Map(xs, MxOf)[i] == Map(xs, MxOf)[j];
  }

  /** The tearing variables and the causal variables of a block are all its variables, each once. */
  lemma TearingSplits(co: Component)
    requires |co.variables| == |co.equations| && DistinctVariables(co.variables)
    requires |TearingOf(co).tearVars| == |TearingOf(co).tearRes|
    ensures var t := TearingOf(co);
      && |t.causalVars| == |t.causalEqs| && DistinctVariables(t.causalVars) && DistinctVariables(t.tearVars)
      && Set(Xs(t.causalVars)) + Set(Xs(t.tearVars)) == Set(Xs(co.variables))
      && Set(Xs(t.causalVars)) !! Set(Xs(t.tearVars))
      && Set(Es(t.causalEqs)) + Set(Es(t.tearRes)) == Set(Es(co.equations))
  {
    var t := TearingOf(co);
    FilterCounts(co.variables, IsTearVar, IsCausalVar);
    FilterCounts(co.equations, IsTearRes, IsCausalEq);
    FilteredDistinct(co.variables, IsTearVar);
    FilteredDistinct(co.variables, IsCausalVar);
    forall v: nat ensures v in Set(Xs(t.causalVars)) + Set(Xs(t.tearVars)) <==> v in Set(Xs(co.variables)) {
      InXs(t.causalVars, v); InXs(t.tearVars, v); InXs(co.variables, v);
    }
    forall v: nat ensures !(v in Set(Xs(t.causalVars)) && v in Set(Xs(t.tearVars))) {
      InXs(t.causalVars, v); InXs(t.tearVars, v);
      forall x, y | x in t.causalVars && y in t.tearVars ensures x.mxVar != y.mxVar {
        if x.mxVar == y.mxVar { SameMxSameVariable(co.variables, x, y); }
      }
    }
    forall e ensures e in Set(Es(t.causalEqs)) + Set(Es(t.tearRes)) <==> e in Set(Es(co.equations)) {
      InEs(t.causalEqs, e); InEs(t.tearRes, e); InEs(co.equations, e);
    }
  }

  /** All blocks together hold the variables and equations they cover. */
  lemma BlocksHoldAll(bs: seq<Component>, equations: seq<Equation>, variables: seq<Variable>)
    requires Covers(bs, equations, variables)
    ensures Pending(bs, 0) == Before(bs, |bs|) == Set(Xs(variables)) && DoneBefore(bs, |bs|) == Set(Es(equations))
    ensures Pending(bs, |bs|) == {} && Before(bs, 0) == {} && DoneBefore(bs, 0) == {}
  {
    forall v: nat ensures v in Set(Xs(variables)) <==> v in Before(bs, |bs|) {
      InXs(variables, v);
      if x :| x in variables && x.mxVar == v {
        var c :| HasVariable(bs, c, x);
      }
      if c, x :| 0 <= c < |bs| && x in bs[c].variables && x.mxVar == v { assert HasVariable(bs, c, x); }
    }
    forall e ensures e in Set(Es(equations)) <==> e in DoneBefore(bs, |bs|) {
      InEs(equations, e);
      if eq :| eq in equations && eq.expression == e {
        var c :| HasEquation(bs, c, eq);
      }
      if c, eq :| 0 <= c < |bs| && eq in bs[c].equations && eq.expression == e { assert HasEquation(bs, c, eq); }
    }
    assert Pending(bs, 0) == Before(bs, |bs|);
  }

  /** Entering the torn block c: its tearing variables are no longer ahead. */
  lemma TornStart(bs: seq<Component>, c: nat, cs: seq<Component>, steps: seq<Step>, fixed: set<nat>)
    requires Separate(bs) && c < |bs| && |TearingOf(bs[c]).tearVars| == |TearingOf(bs[c]).tearRes|
    requires OrderedBlocks(cs, TearingOf(bs[c]).causalEqs, TearingOf(bs[c]).causalVars)
    requires Planned(steps, Pending(bs, c), Before(bs, c), DoneBefore(bs, c), fixed)
    ensures Planned(steps, Pending(bs, c + 1) + Pending(cs, 0), Before(bs, c) + Before(cs, 0),
              DoneBefore(bs, c) + DoneBefore(cs, 0), fixed)
  {
    hide Planned, Pending, Before, DoneBefore, LowerTriangular;
    var t := TearingOf(bs[c]);
    SquareBlock(bs, c);
    TearingSplits(bs[c]);
    BlockSplit(bs, c);
    BlocksHoldAll(cs, t.causalEqs, t.causalVars);
    ForgetFuture(steps, Pending(bs, c), Pending(bs, c + 1) + Pending(cs, 0), Before(bs, c), DoneBefore(bs, c), fixed);
    assert Before(bs, c) + {} == Before(bs, c) && DoneBefore(bs, c) + {} == DoneBefore(bs, c);
  }

  /** One causal equation on. */
  lemma TornNext(bs: seq<Component>, c: nat, cs: seq<Component>, k: nat, steps: seq<Step>, step: Step, fixed: set<nat>)
    requires Separate(bs) && LowerTriangular(bs) && c < |bs|
    requires |TearingOf(bs[c]).tearVars| == |TearingOf(bs[c]).tearRes|
    requires OrderedBlocks(cs, TearingOf(bs[c]).causalEqs, TearingOf(bs[c]).causalVars) && k < |cs|
    requires Treats(step, cs[k], fixed)
    requires Planned(steps, Pending(bs, c + 1) + Pending(cs, k), Before(bs, c) + Before(cs, k),
               DoneBefore(bs, c) + DoneBefore(cs, k), fixed)
    ensures Planned(steps + [step], Pending(bs, c + 1) + Pending(cs, k + 1), Before(bs, c) + Before(cs, k + 1),
              DoneBefore(bs, c) + DoneBefore(cs, k + 1), fixed)
  {
    hide Planned, Pending, Before, DoneBefore, LowerTriangular, Treats, Separate;
    var t := TearingOf(bs[c]);
    SquareBlock(bs, c);
    TearingSplits(bs[c]);
    BlockSplit(bs, c);
    CausalInBlock(cs, k, t.causalEqs, t.causalVars);
    forall e, v | e in Es(cs[k].equations) && v in Vars(e) ensures v !in Pending(bs, c + 1) {
      assert e in Set(Es(bs[c].equations));
      BlockAvoidsLater(bs, c, e, v);
    }
    PlanBlock(cs, k, steps, step, Pending(bs, c + 1), Before(bs, c), DoneBefore(bs, c), fixed);
  }

  lemma CausalInBlock(cs: seq<Component>, k: nat, equations: seq<Equation>, variables: seq<Variable>)
    requires Covers(cs, equations, variables) && k < |cs|
    ensures Set(Es(cs[k].equations)) <= Set(Es(equations)) && Set(Xs(cs[k].variables)) <= Set(Xs(variables))
  {
    forall e | e in Es(cs[k].equations) ensures e in Es(equations) {
      InEs(cs[k].equations, e); InEs(equations, e);
      var eq :| eq in cs[k].equations && eq.expression == e;
      assert HasEquation(cs, k, eq);
    }
    forall v: nat | v in Xs(cs[k].variables) ensures v in Xs(variables) {
      InXs(cs[k].variables, v); InXs(variables, v);
      var x :| x in cs[k].variables && x.mxVar == v;
      assert HasVariable(cs, k, x);
    }
  }

  /** Leaving the torn block: the residuals are kept, with the tearing variables as their unknowns. */
  lemma TornEnd(bs: seq<Component>, c: nat, cs: seq<Component>, steps: seq<Step>, step: Step, fixed: set<nat>)
    requires Separate(bs) && LowerTriangular(bs) && c < |bs|
    requires |TearingOf(bs[c]).tearVars| == |TearingOf(bs[c]).tearRes|
    requires OrderedBlocks(cs, TearingOf(bs[c]).causalEqs, TearingOf(bs[c]).causalVars)
    requires step == Keep(Es(TearingOf(bs[c]).tearRes), Xs(TearingOf(bs[c]).tearVars))
    requires Planned(steps, Pending(bs, c + 1) + Pending(cs, |cs|), Before(bs, c) + Before(cs, |cs|),
               DoneBefore(bs, c) + DoneBefore(cs, |cs|), fixed)
    ensures Planned(steps + [step], Pending(bs, c + 1), Before(bs, c + 1), DoneBefore(bs, c + 1), fixed)
  {
    hide Planned, Pending, Before, DoneBefore, LowerTriangular, Separate;
    var t := TearingOf(bs[c]);
    var future, handled, done := Pending(bs, c + 1) + Pending(cs, |cs|), Before(bs, c) + Before(cs, |cs|),
        DoneBefore(bs, c) + DoneBefore(cs, |cs|);
    SquareBlock(bs, c);
    TearingSplits(bs[c]);
    BlockSplit(bs, c);
    BlocksHoldAll(cs, t.causalEqs, t.causalVars);
    forall e, v | e in EquationsOf(step) && v in Vars(e) ensures v !in future {
      assert e in Set(Es(bs[c].equations));
      BlockAvoidsLater(bs, c, e, v);
    }
    forall v | v in VariablesOf(step) ensures v !in handled {
      assert v in Set(Xs(t.tearVars));
    }
    assert MayFollow(step, future, handled);
    PlanStep(steps, step, future, handled, done, fixed);
    assert future - Set(VariablesOf(step)) == Pending(bs, c + 1);
    assert handled + Set(VariablesOf(step)) == Before(bs, c + 1);
    assert done + Set(EquationsOf(step)) == DoneBefore(bs, c + 1);
  }
}
