/** BLTModel of symbolic_elimination.py: from a square system to residuals and solved expressions. */
module BltModels {
  import opened Lists
  import opened Expressions
  import opened BlockOrder
  import opened Components
  import opened TornBlocks
  import opened Elimination
  import opened EliminationPlans
  import opened BlockPlans
  import opened EliminationChoices
  import BipartiteGraphs
  import opened Matchings

  /** The explicitly solved variables, each with its position in solvedVars. */
  ghost predicate ListsSolved(pairs: seq<(nat, Variable)>, solvedVars: seq<nat>, steps: seq<Elimination.Step>) {
    && (forall p :: p in pairs ==> p.0 < |solvedVars| && solvedVars[p.0] == p.1.mxVar)
    && (forall v: nat :: Eliminated(steps, v) <==> exists p :: p in pairs && p.1.mxVar == v)
  }

  lemma ListSolved(pairs: seq<(nat, Variable)>, solvedVars: seq<nat>, steps: seq<Elimination.Step>, eq: Expr,
                   x: Variable)
    requires ListsSolved(pairs, solvedVars, steps)
    ensures ListsSolved(pairs + [(|solvedVars|, x)], solvedVars + [x.mxVar], steps + [Solve(eq, x.mxVar)])
  {
    var all := pairs + [(|solvedVars|, x)];
    assert all[|pairs|] == (|solvedVars|, x);
    forall v: nat ensures Eliminated(steps + [Solve(eq, x.mxVar)], v) <==> exists p :: p in all && p.1.mxVar == v {
      EliminatedNext(steps, Solve(eq, x.mxVar), v);
      if p :| p in pairs && p.1.mxVar == v { assert p in all; }
      if v == x.mxVar { assert all[|pairs|] in all; }
    }
  }

  lemma ListKept(pairs: seq<(nat, Variable)>, solvedVars: seq<nat>, steps: seq<Elimination.Step>, eqs: seq<Expr>,
                 xs: seq<nat>)
    requires ListsSolved(pairs, solvedVars, steps)
    ensures ListsSolved(pairs, solvedVars + xs, steps + [Keep(eqs, xs)])
  {
    forall v: nat ensures Eliminated(steps + [Keep(eqs, xs)], v) <==> Eliminated(steps, v) {
      EliminatedNext(steps, Keep(eqs, xs), v);
    }
  }

  lemma RunNext(steps: seq<Elimination.Step>, step: Elimination.Step, anything: real)
    ensures Run(steps + [step], anything) == Advance(Run(steps, anything), step, anything)
    ensures KeptVars(steps + [step]) == KeptVars(steps) + if step.Keep? then step.xs else []
  {
    assert (steps + [step])[..|steps|] == steps;
  }

  ghost predicate AllDescribed(classes: seq<Properties>, components: seq<Component>, ineliminable: set<nat>) {
    |classes| == |components| && forall c :: 0 <= c < |components| ==>
        Describes(classes[c], components[c], ineliminable)
  }

  /** The variables that may not be eliminated. */
  ghost function Fixed(variables: seq<Variable>, ineliminable: set<nat>): set<nat> {
    set x | x in variables && !Eliminable(x, ineliminable) :: x.mxVar
  }

  lemma EliminableIsNotFixed(variables: seq<Variable>, ineliminable: set<nat>, x: Variable)
    requires DistinctVariables(variables) && x in variables && Eliminable(x, ineliminable)
    ensures x.mxVar !in Fixed(variables, ineliminable)
  {
    forall y | y in variables && !Eliminable(y, ineliminable) ensures y.mxVar != x.mxVar {
      if y.mxVar == x.mxVar { SameMxSameVariable(variables, x, y); }
    }
  }

  /** Equation values of all the equations. */
  ghost predicate SystemHolds(I: Interp, env: Env, equations: seq<Equation>) {
    AllZero(I, env, Es(equations))
  }

  lemma PlannedSystem(I: Interp, env: Env, steps: seq<Elimination.Step>, equations: seq<Equation>, handled: set<nat>,
                      fixed: set<nat>)
    requires Planned(steps, {}, handled, Set(Es(equations)), fixed)
    ensures SystemHolds(I, env, equations) <==> OriginalHolds(I, env, steps)
  {
    if SystemHolds(I, env, equations) {
      forall k, e | 0 <= k < |steps| && e in EquationsOf(steps[k]) ensures Eval(I, env, e) == 0.0 {
        assert IsEquation(steps, e);
      }
    }
    if OriginalHolds(I, env, steps) {
      forall e | e in Es(equations) ensures Eval(I, env, e) == 0.0 {
        assert IsEquation(steps, e);
        var k :| 0 <= k < |steps| && e in EquationsOf(steps[k]);
        assert AllZero(I, env, EquationsOf(steps[k]));
      }
    }
  }

  /** The mark says that the equation of the edge is in a later block than its variable. */
  ghost predicate MarkedBelow(e: Edge, parts: seq<seq<Edge>>, mark: bool) {
    forall c, k, d, l :: (At(parts, c, k) && At(parts, d, l) && parts[c][k].0 == e.0 && parts[d][l].1 == e.1) ==>
        (mark <==> c > d)
  }

  ghost predicate MarksBelow(edges: seq<Edge>, parts: seq<seq<Edge>>, unknown: seq<bool>) {
    |unknown| == |edges| && forall i :: 0 <= i < |edges| ==> MarkedBelow(edges[i], parts, unknown[i])
  }

  ghost predicate VarsPlaced(parts: seq<seq<Edge>>, c: nat, k: nat, varComponent: seq<nat>) {
    forall d, l :: At(parts, d, l) && (d < c || (d == c && l < k)) ==>
      parts[d][l].1 < |varComponent| && varComponent[parts[d][l].1] == d
  }

  /** The number of vertices before every block, and the block of every variable. */
  method PlaceVariables(parts: seq<seq<Edge>>, n: nat, ghost edges: seq<Edge>, ghost m: set<Edge>)
    returns (cumidx: seq<nat>, varComponent: seq<nat>)
    requires Triangularized(edges, m, n, parts)
    ensures |cumidx| == |parts| && forall d :: 0 <= d < |parts| ==> cumidx[d] == Offset(parts, d)
    ensures |varComponent| == n && VarsPlaced(parts, |parts|, 0, varComponent)
  {
    hide Triangularized;
    NothingBefore(parts);
    cumidx, varComponent := [], seq(n, _ => 0);
    var total: nat := 0;
    for c := 0 to |parts|
      invariant |cumidx| == c && total == Offset(parts, c) && |varComponent| == n
      invariant forall d :: 0 <= d < c ==> cumidx[d] == Offset(parts, d)
      invariant VarsPlaced(parts, c, 0, varComponent)
    {
      for k := 0 to |parts[c]|
        invariant |varComponent| == n && VarsPlaced(parts, c, k, varComponent)
      {
        assert At(parts, c, k);
        AtIsMatched(edges, m, n, parts, c, k);
        forall d, l | At(parts, d, l) && (d < c || (d == c && l < k)) ensures parts[d][l].1 != parts[c][k].1 {
          if parts[d][l].1 == parts[c][k].1 { PlacesDiffer(edges, m, n, parts, d, l, c, k); }
        }
        varComponent := varComponent[parts[c][k].1 := c];
      }
      cumidx := cumidx + [total];
      total := total + |parts[c]|;
    }
  }

  /** Identifies the edges strictly below the diagonal blocks. */
  method MarkUnknown(edges: seq<Edge>, parts: seq<seq<Edge>>, n: nat, eqGlobalBlt: seq<nat>,
                     ghost varGlobalBlt: seq<nat>, ghost m: set<Edge>)
    returns (unknown: seq<bool>)
    requires Triangularized(edges, m, n, parts) && NumberedFrom(parts, n, eqGlobalBlt, varGlobalBlt, 0)
    ensures MarksBelow(edges, parts, unknown)
  {
    hide Triangularized, NumberedFrom, MarkedBelow, Offset, VarsPlaced;
    var cumidx, varComponent := PlaceVariables(parts, n, edges, m);
    unknown := [];
    NumbersLength(parts, n, eqGlobalBlt, varGlobalBlt);
    for i := 0 to |edges|
      invariant |unknown| == i && forall j :: 0 <= j < i ==> MarkedBelow(edges[j], parts, unknown[j])
    {
      var edge := edges[i];
      EdgeInRange(edges, m, n, parts, i);
      ghost var d, l := VariablePlace(edges, m, n, parts, edge.1);
      PlacedAt(parts, varComponent, d, l);
      var block := varComponent[edge.1];
      var mark := eqGlobalBlt[edge.0] >= cumidx[block] + |parts[block]|;
      MarkIsBelow(edges, m, n, parts, eqGlobalBlt, varGlobalBlt, edge, d, l, mark);
      unknown := unknown + [mark];
    }
  }

  lemma NumbersLength(parts: seq<seq<Edge>>, n: nat, eqNumber: seq<nat>, varNumber: seq<nat>)
    requires NumberedFrom(parts, n, eqNumber, varNumber, 0)
    ensures |eqNumber| == n
  {}

  lemma PlacedAt(parts: seq<seq<Edge>>, varComponent: seq<nat>, d: nat, l: nat)
    requires VarsPlaced(parts, |parts|, 0, varComponent) && At(parts, d, l)
    ensures parts[d][l].1 < |varComponent| && varComponent[parts[d][l].1] == d
  {}

  lemma MarkIsBelow(edges: seq<Edge>, m: set<Edge>, n: nat, parts: seq<seq<Edge>>, eqNumber: seq<nat>,
                    varNumber: seq<nat>, e: Edge, d: nat, l: nat, mark: bool)
    requires Triangularized(edges, m, n, parts) && NumberedFrom(parts, n, eqNumber, varNumber, 0)
    requires At(parts, d, l) && parts[d][l].1 == e.1 && e.0 < |eqNumber|
    requires mark == (eqNumber[e.0] >= Offset(parts, d) + |parts[d]|)
    ensures MarkedBelow(e, parts, mark)
  {
    hide Triangularized, NumberedFrom, Offset;
    forall c, k, d', l' | At(parts, c, k) && At(parts, d', l') && parts[c][k].0 == e.0 && parts[d'][l'].1 == e.1
      ensures mark <==> c > d'
    {
      PlacesDiffer(edges, m, n, parts, d, l, d', l');
      UnknownIsBelowDiagonal(parts, n, eqNumber, varNumber, c, k, d', l', e);
    }
  }

  lemma EdgeInRange(edges: seq<Edge>, m: set<Edge>, n: nat, parts: seq<seq<Edge>>, i: nat)
    requires Triangularized(edges, m, n, parts) && i < |edges|
    ensures edges[i].0 < n && edges[i].1 < n
  {
    assert edges[i] in Set(edges);
  }

  /** Every variable is in a block. */
  lemma VariablePlace(edges: seq<Edge>, m: set<Edge>, n: nat, parts: seq<seq<Edge>>, vari: nat) returns (d: nat, l: nat)
    requires Triangularized(edges, m, n, parts) && vari < n
    ensures At(parts, d, l) && parts[d][l].1 == vari
  {
    hide BlockTriangular, IsMatching;
    var f := Flatten(parts);
    PerfectMatchesAll(Set(edges), f, n);
    assert vari in Map(f, VarIndex);
    var q :| 0 <= q < |f| && Map(f, VarIndex)[q] == vari;
    d, l := PartOfPosition(parts, q);
    FlattenPosition(parts, d, l);
  }

  class BLTModel {
    const ineliminable: set<nat>
    const nan: real
    var equations: seq<Equation>
    var variables: seq<Variable>
    var edges: seq<Edge>
    var matches: seq<Edge>
    var parts: seq<seq<Edge>>
    var unknown: seq<bool>
    var components: seq<Component>
    var classes: seq<Properties>
    var residuals: seq<Expr>
    var solvedVars: seq<nat>
    var solvedExpr: seq<Expr>
    var explicitSolvedAlgebraics: seq<(nat, Variable)>
    var explicitUnsolvedVars: seq<nat>
    /** The causal blocks of every torn block. */
    var causalGraphs: seq<seq<Component>>
    ghost var steps: seq<Elimination.Step>

    /** The value put in for an unknown where it cannot matter is not specified. */
    constructor (ineliminable: set<nat>, nan: real)
      ensures this.ineliminable == ineliminable && this.nan == nan
    {
      this.ineliminable, this.nan := ineliminable, nan;
      equations, variables, edges, unknown := [], [], [], [];
      matches, parts, causalGraphs := [], [], [];
      components, classes := [], [];
      residuals, solvedVars, solvedExpr, explicitSolvedAlgebraics, explicitUnsolvedVars := [], [], [], [], [];
      steps := [];
    }

    function Result(): State
      reads `residuals, `solvedVars, `solvedExpr
    {
      State(residuals, solvedVars, solvedExpr)
    }

    /** The lists are what the steps so far compute. */
    ghost predicate Consistent()
      reads `residuals, `solvedVars, `solvedExpr, `explicitSolvedAlgebraics, `explicitUnsolvedVars, `steps
    {
      && Result() == Run(steps, nan) && explicitUnsolvedVars == KeptVars(steps)
      && ListsSolved(explicitSolvedAlgebraics, solvedVars, steps)
    }

    method ClearResults()
      modifies `residuals, `solvedVars, `solvedExpr, `explicitSolvedAlgebraics, `explicitUnsolvedVars, `steps
      ensures Consistent() && steps == []
    {
      residuals, solvedVars, solvedExpr, explicitSolvedAlgebraics, explicitUnsolvedVars := [], [], [], [], [];
      steps := [];
    }

    /** Solves a scalar block: A and b with the earlier solutions put in, then b over A. */
    method SolveScalar(co: Component)
      requires |co.variables| == |co.equations| == 1 && Consistent()
      modifies `residuals, `solvedVars, `solvedExpr, `explicitSolvedAlgebraics, `explicitUnsolvedVars, `steps
      ensures Consistent() && steps == old(steps) + [Solve(co.equations[0].expression, co.variables[0].mxVar)]
    {
      hide ListsSolved;
      var eq, x := co.equations[0].expression, co.variables[0];
      ghost var step := Solve(eq, x.mxVar);
      RunNext(steps, step, nan);
      ListSolved(explicitSolvedAlgebraics, solvedVars, steps, eq, x);
      var solutions := Solutions(Result());
      var a := Apply(solutions[x.mxVar := Const(nan)], Diff(eq, x.mxVar));
      var b := Apply(solutions[x.mxVar := Const(0.0)], RightHandSide(eq, x.mxVar));
      var sol := Bin(Ratio, b, a);
      explicitSolvedAlgebraics := explicitSolvedAlgebraics + [(|solvedVars|, x)];
      solvedVars := solvedVars + [x.mxVar];
      solvedExpr := solvedExpr + [sol];
      steps := steps + [step];
    }

    /** Keeps equations as residuals, with the earlier solutions put in, and their variables as unknowns. */
    method KeepEquations(eqs: seq<Equation>, xs: seq<Variable>)
      requires Consistent()
      modifies `residuals, `solvedVars, `solvedExpr, `explicitSolvedAlgebraics, `explicitUnsolvedVars, `steps
      ensures Consistent() && steps == old(steps) + [Keep(Es(eqs), Xs(xs))]
      ensures AppendsValues(old(Result()), Result(), Es(eqs))
      ensures explicitUnsolvedVars == old(explicitUnsolvedVars) + Xs(xs)
    {
      hide ListsSolved, AppendsValues, Run, Solutions, Symbols, KeptVars, ApplyAll;
      KeepAppendsValues(Result(), Es(eqs), Xs(xs), nan);
      var mxVars := Map(xs, MxOf);
      ghost var step := Keep(Es(eqs), mxVars);
      RunNext(steps, step, nan);
      ListKept(explicitSolvedAlgebraics, solvedVars, steps, Es(eqs), mxVars);
      explicitUnsolvedVars := explicitUnsolvedVars + mxVars;
      residuals := residuals + ApplyAll(Solutions(Result()), Map(eqs, ExprOf));
      solvedExpr := solvedExpr + Symbols(mxVars);
      solvedVars := solvedVars + mxVars;
      steps := steps + [step];
    }

    /** The causal equations of torn block c: solved where that keeps the system sparse and the
        variable may be eliminated, and kept otherwise. */
    method EliminateCausal(c: nat, causal: seq<Component>, sparsityPreserving: nat -> bool, ghost fixed: set<nat>,
                           ghost pieces: seq<Component>)
      requires OrderedBlocks(components, equations, variables) && c < |components| && DistinctVariables(variables)
      requires |TearingOf(components[c]).tearVars| == |TearingOf(components[c]).tearRes|
      requires OrderedBlocks(causal, TearingOf(components[c]).causalEqs, TearingOf(components[c]).causalVars)
      requires CausalBlocks(causal)
      requires fixed == Fixed(variables, ineliminable) && Consistent() && Keeps(steps, pieces)
      requires Planned(steps, Pending(components, c), Before(components, c), DoneBefore(components, c), fixed)
      modifies `residuals, `solvedVars, `solvedExpr, `explicitSolvedAlgebraics, `explicitUnsolvedVars, `steps
      ensures Consistent()
      ensures Planned(steps, Pending(components, c + 1) + Pending(causal, |causal|),
                Before(components, c) + Before(causal, |causal|),
                      DoneBefore(components, c) + DoneBefore(causal, |causal|), fixed)
      ensures CausalChosen(old(steps), steps, causal, |causal|, ineliminable, sparsityPreserving)
      ensures Keeps(steps, pieces + CausalPieces(causal, |causal|, ineliminable, sparsityPreserving))
    {
      hide Planned, Pending, Before, DoneBefore, Separate, LowerTriangular, Covers, DistinctVariables, LinearBlock,
           Fixed, Consistent, CausalChosen, Keeps;
      NoneChosen(steps, causal, ineliminable, sparsityPreserving);
      TornStart(components, c, causal, steps, fixed);
      assert pieces + CausalPieces(causal, 0, ineliminable, sparsityPreserving) == pieces;
      for k := 0 to |causal|
        invariant Consistent()
        invariant Planned(steps, Pending(components, c + 1) + Pending(causal, k),
                    Before(components, c) + Before(causal, k),
                          DoneBefore(components, c) + DoneBefore(causal, k), fixed)
        invariant CausalChosen(old(steps), steps, causal, k, ineliminable, sparsityPreserving)
        invariant Keeps(steps, pieces + CausalPieces(causal, k, ineliminable, sparsityPreserving))
      {
        ghost var kept := pieces + CausalPieces(causal, k, ineliminable, sparsityPreserving);
        var co := causal[k];
        SquareBlock(causal, k);
        ghost var before := steps;
        var x := co.variables[0];
        if sparsityPreserving(x.mxVar) && x.mxVar !in ineliminable && !x.isDer {
          CausalVariable(components, equations, variables, c, causal, k, x);
          EliminableIsNotFixed(variables, ineliminable, x);
          SolveScalar(co);
          ScalarTreated(co, fixed);
          TornNext(components, c, causal, k, before, Solve(co.equations[0].expression, x.mxVar), fixed);
          assert Xs(co.variables) == [x.mxVar];
          CausalStepChosen(old(steps), before, Solve(co.equations[0].expression, x.mxVar), causal, k, ineliminable,
              sparsityPreserving);
          SolveKeepsNothing(before, kept, co.equations[0].expression, x.mxVar);
          assert pieces + CausalPieces(causal, k + 1, ineliminable, sparsityPreserving) == kept;
        } else {
          KeepEquations(co.equations, co.variables);
          TornNext(components, c, causal, k, before, Keep(Es(co.equations), Xs(co.variables)), fixed);
          CausalStepChosen(old(steps), before, Keep(Es(co.equations), Xs(co.variables)), causal, k, ineliminable,
              sparsityPreserving);
          KeepKeepsPiece(before, kept, co);
          assert pieces + CausalPieces(causal, k + 1, ineliminable, sparsityPreserving) == kept + [co];
        }
      }
    }

    /** Torn block c: its causal equations, and then its tearing residuals and variables. */
    method EliminateTorn(c: nat, t: Tearing, causal: seq<Component>, sparsityPreserving: nat -> bool,
                         ghost fixed: set<nat>)
      requires OrderedBlocks(components, equations, variables) && c < |components| && DistinctVariables(variables)
      requires Torn(components[c]) && t == TearingOf(components[c]) && |t.tearVars| == |t.tearRes|
      requires OrderedBlocks(causal, t.causalEqs, t.causalVars) && CausalBlocks(causal)
      requires fixed == Fixed(variables, ineliminable) && Consistent()
      requires Planned(steps, Pending(components, c), Before(components, c), DoneBefore(components, c), fixed)
      requires Chosen(steps, components, c, ineliminable, sparsityPreserving)
      requires |causalGraphs| == c && CausalGraphs(components, causalGraphs)
      requires Keeps(steps, Pieces(components, causalGraphs, ineliminable, sparsityPreserving))
      modifies `residuals, `solvedVars, `solvedExpr, `explicitSolvedAlgebraics, `explicitUnsolvedVars, `steps,
                 `causalGraphs
      ensures Consistent() && causalGraphs == old(causalGraphs) + [causal] && CausalGraphs(components, causalGraphs)
      ensures Planned(steps, Pending(components, c + 1), Before(components, c + 1), DoneBefore(components, c + 1),
                fixed)
      ensures Chosen(steps, components, c + 1, ineliminable, sparsityPreserving)
      ensures Keeps(steps, Pieces(components, causalGraphs, ineliminable, sparsityPreserving))
    {
      hide Planned, Chosen, CausalChosen, Pending, Before, DoneBefore, Separate, LowerTriangular, Covers,
           DistinctVariables,
           Fixed, Consistent, Torn, CausalBlocks, TearingOf, Keeps, Pieces, CausalGraphs, CausalPieces;
      ghost var start, pieces := steps, Pieces(components, causalGraphs, ineliminable, sparsityPreserving);
      EliminateCausal(c, causal, sparsityPreserving, fixed, pieces);
      ghost var before, step := steps, Keep(Es(t.tearRes), Xs(t.tearVars));
      KeepEquations(t.tearRes, t.tearVars);
      TornEnd(components, c, causal, before, step, fixed);
      TornChosen(start, before, step, components, c, causal, ineliminable, sparsityPreserving);
      TornPiece(components, causalGraphs, before, causal, ineliminable, sparsityPreserving);
      causalGraphs := causalGraphs + [causal];
    }

    /** The lists of residuals, unknowns and solutions, block by block. sparsityPreserving stands for
        the density heuristic, asked at most once for a variable. */
    method CreateResiduals(sparsityPreserving: nat -> bool) returns (r: Components.Result<()>)
      requires OrderedBlocks(components, equations, variables) && DistinctVariables(variables)
      requires AllDescribed(classes, components, ineliminable)
      modifies `residuals, `solvedVars, `solvedExpr, `explicitSolvedAlgebraics, `explicitUnsolvedVars, `steps,
                 `causalGraphs
      ensures r.Ok? ==>
                Consistent() && Planned(steps, {}, Set(Xs(variables)), Set(Es(equations)),
                    Fixed(variables, ineliminable))
      ensures r.Ok? ==> Chosen(steps, components, |components|, ineliminable, sparsityPreserving)
      ensures r.Ok? ==> |causalGraphs| == |components| && CausalGraphs(components, causalGraphs)
      ensures r.Ok? ==> Keeps(steps, Pieces(components, causalGraphs, ineliminable, sparsityPreserving))
      ensures r.Ok? <==> TornSolvable(components, |components|)
      ensures r.Err? ==> r.error in {CausalSingular, CausalNotTriangular, CausalNotSolvable}
      ensures r.Err? ==> exists c :: FirstRefused(components, c, r.error)
    {
      hide TornSolvable, Planned, CausalSolvable, Chosen, CausalChosen, Goes, Refused, Pending, Before, DoneBefore,
           Separate,
           LowerTriangular, Covers, DistinctVariables, LinearBlock, Fixed, Consistent, Torn,
           CausalBlocks, StructurallySingular, TearingOf, Keeps, Pieces, CausalGraphs, CausalPieces;
      ghost var fixed := Fixed(variables, ineliminable);
      ClearResults();
      causalGraphs := [];
      NoGraphs(components, ineliminable, sparsityPreserving);
      BlocksHoldAll(components, equations, variables);
      NothingPlanned(Pending(components, 0), fixed);
      NothingChosen(components, ineliminable, sparsityPreserving);
      NoneTorn(components);
      var globalIndex: nat := 0;
      for c := 0 to |components|
        invariant Consistent()
        invariant Planned(steps, Pending(components, c), Before(components, c), DoneBefore(components, c), fixed)
        invariant Chosen(steps, components, c, ineliminable, sparsityPreserving)
        invariant TornSolvable(components, c)
        invariant |causalGraphs| == c && CausalGraphs(components, causalGraphs)
        invariant Keeps(steps, Pieces(components, causalGraphs, ineliminable, sparsityPreserving))
      {
        var co, p := components[c], classes[c];
        SquareBlock(components, c);
        FirstGoes(co, p, ineliminable, sparsityPreserving);
        TornSolvableNext(components, c);
        ghost var before := steps;
        if p.solvable && p.linear && sparsityPreserving(co.variables[0].mxVar) {
          SolvableIsScalar(co, p, ineliminable);
          BlockVariable(components, equations, variables, c, co.variables[0]);
          EliminableIsNotFixed(variables, ineliminable, co.variables[0]);
          SolveScalar(co);
          ScalarTreated(co, fixed);
          PlanTopBlock(components, c, before, Solve(co.equations[0].expression, co.variables[0].mxVar), fixed);
          assert Xs(co.variables) == [co.variables[0].mxVar];
          StepChosen(before, Solve(co.equations[0].expression, co.variables[0].mxVar), components, c, ineliminable,
              sparsityPreserving);
          SolvedPiece(components, causalGraphs, before, Solve(co.equations[0].expression, co.variables[0].mxVar),
              ineliminable,
              sparsityPreserving);
          causalGraphs := causalGraphs + [[]];
        } else if p.torn {
          TearingSplits(co);
          CausalAreNotTearing(co);
          var causal := TearNonlinEq(p.tearing, globalIndex);
          if causal.Err? {
            assert FirstRefused(components, c, causal.error);
            return Err(causal.error);
          }
          EliminateTorn(c, p.tearing, causal.value, sparsityPreserving, fixed);
        } else {
          KeepEquations(co.equations, co.variables);
          PlanTopBlock(components, c, before, Keep(Es(co.equations), Xs(co.variables)), fixed);
          StepChosen(before, Keep(Es(co.equations), Xs(co.variables)), components, c, ineliminable, sparsityPreserving);
          KeptPiece(components, causalGraphs, before, ineliminable, sparsityPreserving);
          causalGraphs := causalGraphs + [[]];
        }
        globalIndex := globalIndex + |co.variables|;
      }
      r := Ok(());
    }

    /** Component.__init__ for every block: fails when tearing variables and residuals do not match. */
    method ClassifyAll() returns (r: Components.Result<()>)
      modifies `classes
      ensures r.Ok? ==> AllDescribed(classes, components, ineliminable)
      ensures r.Err? ==> r.error == TearingMismatch
      ensures r.Err? <==> exists co :: co in components && Mismatched(co)
    {
      hide Describes, Mismatched;
      classes := [];
      for c := 0 to |components|
        invariant |classes| == c && forall d :: 0 <= d < c ==> Describes(classes[d], components[d], ineliminable)
      {
        var p := Classify(components[c], ineliminable);
        if p.Err? {
          MismatchFound(components[c]);
          assert components[c] in components;
          return Err(p.error);
        }
        classes := classes + [p.value];
      }
      NoneMismatched(classes, components, ineliminable);
      r := Ok(());
    }

    /** Matching, block lower triangular form and marks of the edges. */
    method ComputeBlt() returns (r: Components.Result<()>)
      requires |equations| == |variables| && DistinctVariables(variables)
      requires forall e :: e in edges <==> Incident(equations, variables, e)
      modifies `matches, `parts, `components, `classes, `unknown
      ensures (r.Err? && r.error.Singular?) <==> StructurallySingular(equations, variables)
      ensures r.Err? ==> r.error == TearingMismatch || r.error.Singular?
      ensures r.Ok? || r.error == TearingMismatch ==>
                && OrderedBlocks(components, equations, variables)
                && StrongBlocks(edges, matches, equations, variables, parts, components)
                && (r.Err? <==> exists co :: co in components && Mismatched(co))
      ensures r.Ok? ==> AllDescribed(classes, components, ineliminable) && MarksBelow(edges, parts, unknown)
    {
      hide OrderedBlocks, AllDescribed, Incident, DistinctVariables, MarksBelow, BlocksOf, StructurallySingular,
           Mismatched, Triangularized,
           NumberedFrom, IsMatching, CoversEquations, HallViolator, StrongBlocks;
      EdgesInRange(equations, variables, edges);
      var graph := new BipartiteGraphs.BipartiteGraph(|equations|, edges);
      var matched, _ := graph.MaximumMatch();
      SingularOrMatched(edges, graph.M(), equations, variables, matched.Done?);
      if matched.Raised? {
        return Err(Singular(matched.error));
      }
      components := ConnectComponents(graph, equations, variables, 0);
      matches, parts := graph.matches, graph.components;
      StrongIsTriangularized(edges, matches, equations, variables, parts, components);
      r := ClassifyAll();
      if r.Err? {
        return;
      }
      unknown := MarkUnknown(edges, graph.components, graph.n, graph.eqGlobalBlt, graph.varGlobalBlt, graph.M());
    }

    /** The whole elimination. */
    method Build(equations: seq<Equation>, variables: seq<Variable>, sparsityPreserving: nat -> bool)
      returns (r: Components.Result<()>)
      requires DistinctVariables(variables)
      modifies this
      ensures this.equations == equations && this.variables == variables
      ensures forall e :: e in edges <==> Incident(equations, variables, e)
      ensures r == Err(SystemNotSquare) <==> |equations| != |variables|
      ensures (r.Err? && r.error.Singular?) <==>
                |equations| == |variables| && StructurallySingular(equations, variables)
      ensures |equations| == |variables| && !StructurallySingular(equations, variables) ==>
                && OrderedBlocks(components, equations, variables)
                && StrongBlocks(edges, matches, equations, variables, parts, components)
                && (r == Err(TearingMismatch) <==> exists co :: co in components && Mismatched(co))
      ensures r.Ok? <==>
                && |equations| == |variables| && !StructurallySingular(equations, variables)
                && (forall co :: co in components ==> !Mismatched(co)) && TornSolvable(components, |components|)
      ensures r.Err? && (r.error.CausalSingular? || r.error.CausalNotTriangular? || r.error.CausalNotSolvable?) ==>
                exists c :: FirstRefused(components, c, r.error)
      ensures r.Ok? ==> MarksBelow(edges, parts, unknown)
      ensures r.Ok? ==>
                Consistent() && Planned(steps, {}, Set(Xs(variables)), Set(Es(equations)),
                    Fixed(variables, ineliminable))
      ensures r.Ok? ==> Equivalent(equations, steps, Result())
      ensures r.Ok? ==>
                OnlyKeptRemain(variables, Result(), explicitUnsolvedVars) && |residuals| == |explicitUnsolvedVars|
      ensures r.Ok? ==> |causalGraphs| == |components| && CausalGraphs(components, causalGraphs)
      ensures r.Ok? ==> var pieces := Pieces(components, causalGraphs, ineliminable, sparsityPreserving);
                ResidualsAre(Result(), PieceEqs(pieces)) && explicitUnsolvedVars == PieceVars(pieces)
      ensures r.Ok? ==> forall x :: x in variables && (x.isDer || x.mxVar in ineliminable) ==>
                x.mxVar in explicitUnsolvedVars
      ensures r.Ok? ==> forall v :: v in Xs(variables) ==>
                (v in explicitUnsolvedVars <==>
                    !GoesBefore(components, |components|, ineliminable, sparsityPreserving, v))
    {
      hide OrderedBlocks, AllDescribed, Incident, DistinctVariables, MarksBelow, BlocksOf, StructurallySingular,
           Mismatched, Planned, Consistent, ResidualsAre, Pieces, CausalGraphs,
           StrongBlocks, TornSolvable, FirstRefused, Chosen, GoesBefore, TearingOf, Fixed, Torn, Equivalent,
               OnlyKeptRemain;
      this.equations, this.variables := equations, variables;
      edges := CreateEdges(equations, variables);
      if |equations| != |variables| {
        return Err(SystemNotSquare);
      }
      r := ComputeBlt();
      if r.Err? {
        return;
      }
      r := CreateResiduals(sparsityPreserving);
      if r.Ok? {
        PlannedIsEquivalent(steps, equations, nan, Set(Xs(variables)), Fixed(variables, ineliminable));
        PlannedRemains(steps, equations, variables, nan, Fixed(variables, ineliminable));
        FixedAreVariables(variables, ineliminable);
        ConsistentLists();
        ResidualsKeepValues(steps, nan);
        FixedAre(variables, ineliminable);
        forall v | v in Xs(variables)
          ensures v in KeptVars(steps) <==> !GoesBefore(components, |components|, ineliminable, sparsityPreserving, v)
        {
          UnsolvedAreTheRest(steps, components, ineliminable, sparsityPreserving, Set(Xs(variables)),
              Set(Es(equations)), Fixed(variables, ineliminable), v);
        }
      }
    }

    lemma ConsistentLists()
      requires Consistent()
      ensures Result() == Run(steps, nan) && explicitUnsolvedVars == KeptVars(steps)
    {}
  }

  /** The causal parts of the torn ones among the first c blocks can be ordered and solved. */
  ghost predicate TornSolvable(bs: seq<Component>, c: int) {
    forall d :: 0 <= d < c <= |bs| && Torn(bs[d]) ==> CausalSolvable(TearingOf(bs[d]))
  }

  lemma NoneTorn(bs: seq<Component>)
    ensures TornSolvable(bs, 0)
  {}

  lemma TornSolvableNext(bs: seq<Component>, c: nat)
    requires c < |bs| && TornSolvable(bs, c)
    ensures TornSolvable(bs, c + 1) <==> (Torn(bs[c]) ==> CausalSolvable(TearingOf(bs[c])))
    ensures TornSolvable(bs, |bs|) ==> TornSolvable(bs, c + 1)
  {}

  /** Block c is the first whose causal part is refused. */
  ghost predicate FirstRefused(bs: seq<Component>, c: int, error: BuildError) {
    0 <= c < |bs| && Torn(bs[c]) && Refused(TearingOf(bs[c]), error) && TornSolvable(bs, c)
  }

  lemma NoneMismatched(classes: seq<Properties>, bs: seq<Component>, ineliminable: set<nat>)
    requires AllDescribed(classes, bs, ineliminable)
    ensures forall co :: co in bs ==> !Mismatched(co)
  {
    forall co | co in bs ensures !Mismatched(co) {
      var c :| 0 <= c < |bs| && bs[c] == co;
      assert Describes(classes[c], bs[c], ineliminable);
    }
  }

  lemma StrongIsTriangularized(edges: seq<Edge>, matches: seq<Edge>, equations: seq<Equation>, variables: seq<Variable>,
                               parts: seq<seq<Edge>>, bs: seq<Component>)
    requires StrongBlocks(edges, matches, equations, variables, parts, bs)
    ensures Triangularized(edges, Set(matches), |equations|, parts)
  {}

  ghost predicate Mismatched(co: Component) {
    |TearingOf(co).tearVars| != |TearingOf(co).tearRes|
  }

  lemma MismatchFound(co: Component)
    requires |TearingOf(co).tearVars| != |TearingOf(co).tearRes|
    ensures Mismatched(co)
  {}

  lemma FixedAre(variables: seq<Variable>, ineliminable: set<nat>)
    ensures forall x :: x in variables && (x.isDer || x.mxVar in ineliminable) ==>
              x.mxVar in Fixed(variables, ineliminable)
  {}

  lemma FixedAreVariables(variables: seq<Variable>, ineliminable: set<nat>)
    ensures Fixed(variables, ineliminable) <= Set(Xs(variables))
  {
    forall v | v in Fixed(variables, ineliminable) ensures v in Xs(variables) { InXs(variables, v); }
  }

  /** Where no pivot is zero, the system and the result say the same. */
  ghost predicate Equivalent(equations: seq<Equation>, steps: seq<Elimination.Step>, result: State) {
    forall I: Interp, env: Env :: PivotsNonzero(I, env, steps) ==>
      (SystemHolds(I, env, equations) <==> ReducedHolds(I, env, result))
  }

  /** Residuals and solved expressions mention, of the variables of the system, only the unsolved ones. */
  ghost predicate OnlyKeptRemain(variables: seq<Variable>, result: State, unsolved: seq<nat>) {
    forall e, v :: e in result.residuals + result.solvedExpr && v in Vars(e) && v in Xs(variables) ==> v in unsolved
  }

  lemma PlannedIsEquivalent(steps: seq<Elimination.Step>, equations: seq<Equation>, nan: real, handled: set<nat>,
                            fixed: set<nat>)
    requires Planned(steps, {}, handled, Set(Es(equations)), fixed)
    ensures Equivalent(equations, steps, Run(steps, nan))
  {
    forall I: Interp, env: Env | PivotsNonzero(I, env, steps)
      ensures SystemHolds(I, env, equations) <==> ReducedHolds(I, env, Run(steps, nan))
    {
      PlannedSystem(I, env, steps, equations, handled, fixed);
      EliminationIsEquivalent(I, env, steps, nan);
    }
  }

  lemma PlannedRemains(steps: seq<Elimination.Step>, equations: seq<Equation>, variables: seq<Variable>, nan: real,
                       fixed: set<nat>)
    requires Planned(steps, {}, Set(Xs(variables)), Set(Es(equations)), fixed)
    ensures OnlyKeptRemain(variables, Run(steps, nan), KeptVars(steps))
    ensures |Run(steps, nan).residuals| == |KeptVars(steps)|
    ensures fixed <= Set(Xs(variables)) ==> fixed <= Set(KeptVars(steps))
  {
    var s := Run(steps, nan);
    ResultsAreClean(steps, |steps|, nan);
    assert steps[..|steps|] == steps;
    AsManyResidualsAsUnknowns(steps, nan);
    forall v: nat | v in Xs(variables) && !Eliminated(steps, v) ensures v in KeptVars(steps) {
      assert v in Set(Xs(variables));
      EliminatedOrKept(steps, v);
      KeptVarsAreKept(steps, v);
    }
    forall e, v | e in s.residuals + s.solvedExpr && v in Vars(e) ensures !Eliminated(steps, v) {
      assert Clean(e, steps);
    }
  }


  lemma ScalarTreated(co: Component, fixed: set<nat>)
    requires |co.variables| == |co.equations| == 1 && LinearBlock(co) && co.variables[0].mxVar !in fixed
    ensures Treats(Solve(co.equations[0].expression, co.variables[0].mxVar), co, fixed)
  {}

  lemma CausalAreNotTearing(co: Component)
    ensures forall x :: x in TearingOf(co).causalVars ==> !x.tearing
  {}

  lemma SolvableIsScalar(co: Component, p: Properties, ineliminable: set<nat>)
    requires Describes(p, co, ineliminable) && p.solvable && p.linear && |co.variables| > 0
    ensures |co.variables| == 1 && Eliminable(co.variables[0], ineliminable) && LinearBlock(co)
  {
    assert co.variables[0] in co.variables;
  }

  /** The question asked about a block is whether its first variable goes. */
  lemma FirstGoes(co: Component, p: Properties, ineliminable: set<nat>, sparsityPreserving: nat -> bool)
    requires Describes(p, co, ineliminable) && |co.variables| > 0
    ensures p.torn ==> !p.linear
    ensures !p.torn ==>
              (p.solvable && p.linear && sparsityPreserving(co.variables[0].mxVar) <==>
                  Goes(co.variables[0], co, ineliminable, sparsityPreserving))
  {
    hide Torn, LinearBlock;
    assert co.variables[0] in co.variables;
  }

  lemma BlockVariable(bs: seq<Component>, equations: seq<Equation>, variables: seq<Variable>, c: nat, x: Variable)
    requires OrderedBlocks(bs, equations, variables) && c < |bs| && x in bs[c].variables
    ensures x in variables
  {
    assert HasVariable(bs, c, x);
  }

  lemma CausalVariable(bs: seq<Component>, equations: seq<Equation>, variables: seq<Variable>, c: nat,
                       cs: seq<Component>, k: nat, x: Variable)
    requires OrderedBlocks(bs, equations, variables) && c < |bs|
    requires OrderedBlocks(cs, TearingOf(bs[c]).causalEqs, TearingOf(bs[c]).causalVars) && k < |cs|
    requires x in cs[k].variables
    ensures x in variables
  {
    BlockVariable(cs, TearingOf(bs[c]).causalEqs, TearingOf(bs[c]).causalVars, k, x);
    BlockVariable(bs, equations, variables, c, x);
  }

  lemma PlanTopBlock(bs: seq<Component>, c: nat, steps: seq<Elimination.Step>, step: Elimination.Step, fixed: set<nat>)
    requires Separate(bs) && LowerTriangular(bs) && c < |bs| && Treats(step, bs[c], fixed)
    requires Planned(steps, Pending(bs, c), Before(bs, c), DoneBefore(bs, c), fixed)
    ensures Planned(steps + [step], Pending(bs, c + 1), Before(bs, c + 1), DoneBefore(bs, c + 1), fixed)
  {
    hide Planned, Treats, Separate, LowerTriangular, Pending, Before, DoneBefore;
    assert {} + Pending(bs, c) == Pending(bs, c) && {} + Pending(bs, c + 1) == Pending(bs, c + 1);
    assert {} + Before(bs, c) == Before(bs, c) && {} + Before(bs, c + 1) == Before(bs, c + 1);
    assert {} + DoneBefore(bs, c) == DoneBefore(bs, c) && {} + DoneBefore(bs, c + 1) == DoneBefore(bs, c + 1);
    PlanBlock(bs, c, steps, step, {}, {}, {}, fixed);
  }
}
