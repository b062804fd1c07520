/** Which variables an elimination removes: the choices of BLTModel._create_residuals, said without its loops. */
module EliminationChoices {
  import Expressions
  import opened Components
  import opened TornBlocks
  import opened Elimination
  import opened EliminationPlans
  import opened BlockPlans
  import Linearity
  import Lists

  /** x may be eliminated, and that keeps the system sparse. */
  predicate Allowed(x: Variable, ineliminable: set<nat>, sparsityPreserving: nat -> bool) {
    Eliminable(x, ineliminable) && sparsityPreserving(x.mxVar)
  }

  /** Variable x of block co goes: it is allowed to, and its block is scalar and linear or it is a
      causal variable of a torn block. */
  ghost predicate Goes(x: Variable, co: Component, ineliminable: set<nat>, sparsityPreserving: nat -> bool) {
    && Allowed(x, ineliminable, sparsityPreserving)
    && if Torn(co) then !x.tearing else |co.variables| == 1 && LinearBlock(co)
  }

  ghost predicate BlockGoes(co: Component, ineliminable: set<nat>, sparsityPreserving: nat -> bool, v: nat) {
    exists x :: x in co.variables && x.mxVar == v && Goes(x, co, ineliminable, sparsityPreserving)
  }

  /** v is a variable of one of the first c blocks that goes. */
  ghost predicate GoesBefore(bs: seq<Component>, c: int, ineliminable: set<nat>, sparsityPreserving: nat -> bool,
                             v: nat)
  {
    exists d :: 0 <= d < c <= |bs| && BlockGoes(bs[d], ineliminable, sparsityPreserving, v)
  }

  /** The steps eliminate exactly what goes in the first c blocks. */
  ghost predicate Chosen(steps: seq<Step>, bs: seq<Component>, c: int, ineliminable: set<nat>,
                         sparsityPreserving: nat -> bool)
  {
    forall v: nat :: Eliminated(steps, v) <==> GoesBefore(bs, c, ineliminable, sparsityPreserving, v)
  }

  lemma NothingChosen(bs: seq<Component>, ineliminable: set<nat>, sparsityPreserving: nat -> bool)
    ensures Chosen([], bs, 0, ineliminable, sparsityPreserving)
  {}

  /** One block on. */
  lemma BlockChosen(before: seq<Step>, steps: seq<Step>, bs: seq<Component>, c: nat, ineliminable: set<nat>,
                    sparsityPreserving: nat -> bool)
    requires c < |bs| && Chosen(before, bs, c, ineliminable, sparsityPreserving)
    requires forall v: nat :: Eliminated(steps, v) <==>
               Eliminated(before, v) || BlockGoes(bs[c], ineliminable, sparsityPreserving, v)
    ensures Chosen(steps, bs, c + 1, ineliminable, sparsityPreserving)
  {
    hide BlockGoes, Eliminated;
    forall v: nat ensures Eliminated(steps, v) <==> GoesBefore(bs, c + 1, ineliminable, sparsityPreserving, v) {
      if GoesBefore(bs, c, ineliminable, sparsityPreserving, v) {
        var d :| 0 <= d < c <= |bs| && BlockGoes(bs[d], ineliminable, sparsityPreserving, v);
      }
      if GoesBefore(bs, c + 1, ineliminable, sparsityPreserving, v) {
        var d :| 0 <= d < c + 1 <= |bs| && BlockGoes(bs[d], ineliminable, sparsityPreserving, v);
        if d < c { assert GoesBefore(bs, c, ineliminable, sparsityPreserving, v); }
      }
    }
  }

  /** A block that is not torn, treated by one step. */
  lemma StepChosen(before: seq<Step>, step: Step, bs: seq<Component>, c: nat, ineliminable: set<nat>,
                   sparsityPreserving: nat -> bool)
    requires c < |bs| && Chosen(before, bs, c, ineliminable, sparsityPreserving)
    requires !Torn(bs[c]) && VariablesOf(step) == Xs(bs[c].variables) && |bs[c].variables| > 0
    requires step.Solve? <==> Goes(bs[c].variables[0], bs[c], ineliminable, sparsityPreserving)
    ensures Chosen(before + [step], bs, c + 1, ineliminable, sparsityPreserving)
  {
    hide Chosen, Eliminated, LinearBlock, Torn;
    forall v: nat
      ensures Eliminated(before + [step], v) <==>
                Eliminated(before, v) || BlockGoes(bs[c], ineliminable, sparsityPreserving, v)
    {
      EliminatedNext(before, step, v);
      if step.Solve? {
        assert Xs(bs[c].variables)[0] == bs[c].variables[0].mxVar && bs[c].variables[0] in bs[c].variables;
      }
    }
    BlockChosen(before, before + [step], bs, c, ineliminable, sparsityPreserving);
  }

  /** v is a variable of one of the first k causal blocks that may go. */
  ghost predicate CausalGoes(cs: seq<Component>, k: int, ineliminable: set<nat>, sparsityPreserving: nat -> bool,
                             v: nat)
  {
    exists d, x :: HasVariable(cs, d, x) && d < k && x.mxVar == v && Allowed(x, ineliminable, sparsityPreserving)
  }

  ghost predicate CausalChosen(before: seq<Step>, steps: seq<Step>, cs: seq<Component>, k: int, ineliminable: set<nat>,
                               sparsityPreserving: nat -> bool)
  {
    forall v: nat :: Eliminated(steps, v) <==>
        Eliminated(before, v) || CausalGoes(cs, k, ineliminable, sparsityPreserving, v)
  }

  lemma NoneChosen(steps: seq<Step>, cs: seq<Component>, ineliminable: set<nat>, sparsityPreserving: nat -> bool)
    ensures CausalChosen(steps, steps, cs, 0, ineliminable, sparsityPreserving)
  {}

  /** One causal block on. */
  lemma CausalStepChosen(before: seq<Step>, steps: seq<Step>, step: Step, cs: seq<Component>, k: nat,
                         ineliminable: set<nat>, sparsityPreserving: nat -> bool)
    requires k < |cs| && |cs[k].variables| == 1 && CausalChosen(before, steps, cs, k, ineliminable, sparsityPreserving)
    requires VariablesOf(step) == Xs(cs[k].variables)
    requires (step.Solve? <==> Allowed(cs[k].variables[0], ineliminable, sparsityPreserving))
    ensures CausalChosen(before, steps + [step], cs, k + 1, ineliminable, sparsityPreserving)
  {
    hide Eliminated, Allowed;
    var x := cs[k].variables[0];
    assert HasVariable(cs, k, x) && Xs(cs[k].variables)[0] == x.mxVar;
    forall v: nat
      ensures Eliminated(steps + [step], v) <==>
                Eliminated(before, v) || CausalGoes(cs, k + 1, ineliminable, sparsityPreserving, v)
    {
      EliminatedNext(steps, step, v);
      if CausalGoes(cs, k + 1, ineliminable, sparsityPreserving, v) &&
          !CausalGoes(cs, k, ineliminable, sparsityPreserving, v) {
        var d, y :| HasVariable(cs, d, y) && d < k + 1 && y.mxVar == v && Allowed(y, ineliminable, sparsityPreserving);
        assert d == k && y == x;
      }
    }
  }

  /** A torn block: its causal blocks, and then the tearing variables, which are kept. */
  lemma TornChosen(before: seq<Step>, steps: seq<Step>, step: Step, bs: seq<Component>, c: nat, cs: seq<Component>,
                   ineliminable: set<nat>, sparsityPreserving: nat -> bool)
    requires c < |bs| && Chosen(before, bs, c, ineliminable, sparsityPreserving) && Torn(bs[c]) && step.Keep?
    requires Covers(cs, TearingOf(bs[c]).causalEqs, TearingOf(bs[c]).causalVars)
    requires CausalChosen(before, steps, cs, |cs|, ineliminable, sparsityPreserving)
    ensures Chosen(steps + [step], bs, c + 1, ineliminable, sparsityPreserving)
  {
    hide Chosen, Eliminated, Torn, LinearBlock;
    forall v: nat
      ensures Eliminated(steps + [step], v) <==>
                Eliminated(before, v) || BlockGoes(bs[c], ineliminable, sparsityPreserving, v)
    {
      EliminatedNext(steps, step, v);
      CausalVariablesGo(bs[c], cs, ineliminable, sparsityPreserving, v);
    }
    BlockChosen(before, steps + [step], bs, c, ineliminable, sparsityPreserving);
  }

  lemma CausalVariablesGo(co: Component, cs: seq<Component>, ineliminable: set<nat>, sparsityPreserving: nat -> bool,
                          v: nat)
    requires Torn(co) && Covers(cs, TearingOf(co).causalEqs, TearingOf(co).causalVars)
    ensures CausalGoes(cs, |cs|, ineliminable, sparsityPreserving, v) <==>
              BlockGoes(co, ineliminable, sparsityPreserving, v)
  {
    hide Torn, LinearBlock, Allowed;
    if BlockGoes(co, ineliminable, sparsityPreserving, v) {
      var x :| x in co.variables && x.mxVar == v && Goes(x, co, ineliminable, sparsityPreserving);
      assert x in TearingOf(co).causalVars && SomeHasVariable(cs, x);
    }
    if CausalGoes(cs, |cs|, ineliminable, sparsityPreserving, v) {
      var d, x :| HasVariable(cs, d, x) && d < |cs| && x.mxVar == v && Allowed(x, ineliminable, sparsityPreserving);
      assert SomeHasVariable(cs, x) && x in TearingOf(co).causalVars;
    }
  }

  /** Which variables go, said of the variable and its block alone. */
  lemma WhoGoes(bs: seq<Component>, c: nat, x: Variable, ineliminable: set<nat>, sparsityPreserving: nat -> bool)
    requires Separate(bs) && c < |bs| && x in bs[c].variables
    ensures GoesBefore(bs, |bs|, ineliminable, sparsityPreserving, x.mxVar) <==>
              && !x.isDer && x.mxVar !in ineliminable && sparsityPreserving(x.mxVar)
              && if (exists y :: y in bs[c].variables && y.tearing) && (exists y :: y in bs[c].variables && !y.tearing)
                 then !x.tearing
                 else |bs[c].variables| == 1 && forall eq :: eq in bs[c].equations ==>
                     Linearity.JacobianFree(eq.expression, [x.mxVar])
  {
    hide Torn;
    TornMeans(bs[c]);
    if |bs[c].variables| == 1 { assert Lists.Map(bs[c].variables, MxOf) == [x.mxVar]; }
    assert LinearBlock(bs[c]) && |bs[c].variables| == 1 <==>
             |bs[c].variables| == 1 && forall eq :: eq in bs[c].equations ==>
                 Linearity.JacobianFree(eq.expression, [x.mxVar]);
    if GoesBefore(bs, |bs|, ineliminable, sparsityPreserving, x.mxVar) {
      var d :| 0 <= d < |bs| && BlockGoes(bs[d], ineliminable, sparsityPreserving, x.mxVar);
      var y :| y in bs[d].variables && y.mxVar == x.mxVar && Goes(y, bs[d], ineliminable, sparsityPreserving);
      assert HasVariable(bs, c, x) && HasVariable(bs, d, y);
      SameMxSameVariable(bs[c].variables, x, y);
    }
    if Goes(x, bs[c], ineliminable, sparsityPreserving) {
      assert BlockGoes(bs[c], ineliminable, sparsityPreserving, x.mxVar);
    }
  }

  // ----- What is kept, in order -----

  /** Those of the first k causal blocks whose variable may not go. */
  function CausalPieces(cs: seq<Component>, k: nat, ineliminable: set<nat>,
                        sparsityPreserving: nat -> bool): seq<Component>
    requires k <= |cs|
  {
    if k == 0 then [] else
      var co := cs[k - 1];
      CausalPieces(cs, k - 1, ineliminable, sparsityPreserving) +
      if |co.variables| == 1 && Allowed(co.variables[0], ineliminable, sparsityPreserving) then [] else [co]
  }

  /** A torn block keeps causal blocks, in solving order, and then its tearing variables and residuals;
      any other block is kept as it is, unless its variable goes. */
  ghost function BlockPieces(co: Component, cs: seq<Component>, ineliminable: set<nat>,
                             sparsityPreserving: nat -> bool): seq<Component>
  {
    if Torn(co) then
      CausalPieces(cs, |cs|, ineliminable, sparsityPreserving)
          + [Component(TearingOf(co).tearVars, TearingOf(co).tearRes)]
    else if |co.variables| > 0 && Goes(co.variables[0], co, ineliminable, sparsityPreserving) then []
    else [co]
  }

  /** What is kept of the first |graphs| blocks, graphs holding the causal blocks of the torn ones. */
  ghost function Pieces(bs: seq<Component>, graphs: seq<seq<Component>>, ineliminable: set<nat>,
                        sparsityPreserving: nat -> bool): seq<Component>
    requires |graphs| <= |bs|
  {
    if graphs == [] then [] else
      var c := |graphs| - 1;
      Pieces(bs, graphs[..c], ineliminable, sparsityPreserving)
          + BlockPieces(bs[c], graphs[c], ineliminable, sparsityPreserving)
  }

  /** The equations of the pieces, piece by piece, and their variables. */
  ghost function PieceEqs(pieces: seq<Component>): seq<Expressions.Expr> {
    if pieces == [] then [] else PieceEqs(pieces[..|pieces| - 1]) + Es(pieces[|pieces| - 1].equations)
  }

  ghost function PieceVars(pieces: seq<Component>): seq<nat> {
    if pieces == [] then [] else PieceVars(pieces[..|pieces| - 1]) + Xs(pieces[|pieces| - 1].variables)
  }

  /** The steps keep exactly the equations and variables of the pieces, in this order. */
  ghost predicate Keeps(steps: seq<Step>, pieces: seq<Component>) {
    KeptEqs(steps) == PieceEqs(pieces) && KeptVars(steps) == PieceVars(pieces)
  }

  lemma SolveKeepsNothing(steps: seq<Step>, pieces: seq<Component>, eq: Expressions.Expr, x: nat)
    requires Keeps(steps, pieces)
    ensures Keeps(steps + [Solve(eq, x)], pieces)
  {
    assert (steps + [Solve(eq, x)])[..|steps|] == steps;
  }

  lemma KeepKeepsPiece(steps: seq<Step>, pieces: seq<Component>, co: Component)
    requires Keeps(steps, pieces)
    ensures Keeps(steps + [Keep(Es(co.equations), Xs(co.variables))], pieces + [co])
  {
    assert (steps + [Keep(Es(co.equations), Xs(co.variables))])[..|steps|] == steps;
    assert (pieces + [co])[..|pieces|] == pieces;
  }

  /** The causal blocks of the torn ones among the first |graphs| blocks. */
  ghost predicate CausalGraphs(bs: seq<Component>, graphs: seq<seq<Component>>) {
    |graphs| <= |bs| && forall c :: 0 <= c < |graphs| && Torn(bs[c]) ==>
        OrderedBlocks(graphs[c], TearingOf(bs[c]).causalEqs, TearingOf(bs[c]).causalVars) && CausalBlocks(graphs[c])
  }

  lemma NoGraphs(bs: seq<Component>, ineliminable: set<nat>, sparsityPreserving: nat -> bool)
    ensures CausalGraphs(bs, []) && Pieces(bs, [], ineliminable, sparsityPreserving) == [] && Keeps([], [])
  {}

  lemma NextGraph(bs: seq<Component>, graphs: seq<seq<Component>>, cs: seq<Component>, ineliminable: set<nat>,
                  sparsityPreserving: nat -> bool)
    requires CausalGraphs(bs, graphs) && |graphs| < |bs|
    requires Torn(bs[|graphs|]) ==>
               var t := TearingOf(bs[|graphs|]); OrderedBlocks(cs, t.causalEqs, t.causalVars) && CausalBlocks(cs)
    ensures CausalGraphs(bs, graphs + [cs])
    ensures Pieces(bs, graphs + [cs], ineliminable, sparsityPreserving) ==
            Pieces(bs, graphs, ineliminable, sparsityPreserving)
                + BlockPieces(bs[|graphs|], cs, ineliminable, sparsityPreserving)
  {
    hide OrderedBlocks, CausalBlocks, Torn, TearingOf, BlockPieces;
    assert (graphs + [cs])[..|graphs|] == graphs;
  }

  /** A block that is solved, one that is kept, and a torn one. */
  lemma SolvedPiece(bs: seq<Component>, graphs: seq<seq<Component>>, steps: seq<Step>, step: Step,
                    ineliminable: set<nat>,
                    sparsityPreserving: nat -> bool)
    requires CausalGraphs(bs, graphs) && |graphs| < |bs| && step.Solve? && !Torn(bs[|graphs|])
    requires Keeps(steps, Pieces(bs, graphs, ineliminable, sparsityPreserving))
    requires |bs[|graphs|].variables| > 0
    requires Goes(bs[|graphs|].variables[0], bs[|graphs|], ineliminable, sparsityPreserving)
    ensures CausalGraphs(bs, graphs + [[]])
    ensures Keeps(steps + [step], Pieces(bs, graphs + [[]], ineliminable, sparsityPreserving))
  {
    hide Keeps, Pieces, CausalGraphs, Torn, Goes;
    var pieces := Pieces(bs, graphs, ineliminable, sparsityPreserving);
    SolveKeepsNothing(steps, pieces, step.eq, step.x);
    assert pieces + BlockPieces(bs[|graphs|], [], ineliminable, sparsityPreserving) == pieces;
    NextGraph(bs, graphs, [], ineliminable, sparsityPreserving);
  }

  lemma KeptPiece(bs: seq<Component>, graphs: seq<seq<Component>>, steps: seq<Step>, ineliminable: set<nat>,
                  sparsityPreserving: nat -> bool)
    requires CausalGraphs(bs, graphs) && |graphs| < |bs| && !Torn(bs[|graphs|])
    requires Keeps(steps, Pieces(bs, graphs, ineliminable, sparsityPreserving))
    requires |bs[|graphs|].variables| > 0
    requires !Goes(bs[|graphs|].variables[0], bs[|graphs|], ineliminable, sparsityPreserving)
    ensures CausalGraphs(bs, graphs + [[]])
    ensures Keeps(steps + [Keep(Es(bs[|graphs|].equations), Xs(bs[|graphs|].variables))],
                  Pieces(bs, graphs + [[]], ineliminable, sparsityPreserving))
  {
    hide Keeps, Pieces, CausalGraphs, Torn, Goes;
    KeepKeepsPiece(steps, Pieces(bs, graphs, ineliminable, sparsityPreserving), bs[|graphs|]);
    NextGraph(bs, graphs, [], ineliminable, sparsityPreserving);
  }

  lemma TornPiece(bs: seq<Component>, graphs: seq<seq<Component>>, steps: seq<Step>, cs: seq<Component>,
                  ineliminable: set<nat>,
                  sparsityPreserving: nat -> bool)
    requires CausalGraphs(bs, graphs) && |graphs| < |bs| && Torn(bs[|graphs|])
    requires var t := TearingOf(bs[|graphs|]); OrderedBlocks(cs, t.causalEqs, t.causalVars) && CausalBlocks(cs)
    requires Keeps(steps, Pieces(bs, graphs, ineliminable, sparsityPreserving) +
                          CausalPieces(cs, |cs|, ineliminable, sparsityPreserving))
    ensures CausalGraphs(bs, graphs + [cs])
    ensures var t := TearingOf(bs[|graphs|]);
            Keeps(steps + [Keep(Es(t.tearRes), Xs(t.tearVars))],
                Pieces(bs, graphs + [cs], ineliminable, sparsityPreserving))
  {
    hide Keeps, Pieces, CausalGraphs, Torn, Goes, TearingOf, OrderedBlocks, CausalBlocks, CausalPieces;
    var t := TearingOf(bs[|graphs|]);
    var kept := Pieces(bs, graphs, ineliminable, sparsityPreserving)
        + CausalPieces(cs, |cs|, ineliminable, sparsityPreserving);
    KeepKeepsPiece(steps, kept, Component(t.tearVars, t.tearRes));
    assert Pieces(bs, graphs, ineliminable, sparsityPreserving) +
           BlockPieces(bs[|graphs|], cs, ineliminable, sparsityPreserving) == kept + [Component(t.tearVars, t.tearRes)];
    NextGraph(bs, graphs, cs, ineliminable, sparsityPreserving);
  }

  /** What remains unknown is what does not go. */
  lemma UnsolvedAreTheRest(steps: seq<Step>, bs: seq<Component>, ineliminable: set<nat>,
                           sparsityPreserving: nat -> bool, handled: set<nat>,
                           done: set<Expressions.Expr>, fixed: set<nat>, v: nat)
    requires Planned(steps, {}, handled, done, fixed) && Chosen(steps, bs, |bs|, ineliminable, sparsityPreserving)
    requires v in handled
    ensures v in KeptVars(steps) <==> !GoesBefore(bs, |bs|, ineliminable, sparsityPreserving, v)
  {
    hide GoesBefore;
    EliminatedOrKept(steps, v);
    KeptVarsAreKept(steps, v);
  }
}
