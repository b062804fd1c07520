/** Solving a linear block of the C++ interface at once keeps the meaning of its equations. */
module BlockSolving {
  import opened Lists
  import opened Expressions
  import opened Options
  import Linearity
  import opened Matrices
  import opened LinearBlocks
  import opened BltValues
  import opened Blocks

  function ResidualOf(eq: Eq): Expr {
    Bin(Op.Sum, eq.lhs, Neg(eq.rhs))
  }

  function Residuals(eqs: seq<Eq>): seq<Expr> {
    Map(eqs, ResidualOf)
  }

  lemma ResidualsSay(I: Interp, env: Env, eqs: seq<Eq>)
    ensures AllEqHold(I, env, eqs) <==> ResidualsZero(I, env, Residuals(eqs))
  {
    forall k | 0 <= k < |eqs|
      ensures Eval(I, env, Residuals(eqs)[k]) == Eval(I, env, eqs[k].lhs) - Eval(I, env, eqs[k].rhs)
    {
      var e := ResidualOf(eqs[k]);
      assert EvalBin(I, env, e) == Eval(I, env, e.left) + Eval(I, env, e.right);
    }
  }

  /** The values of casadi::solve(jacobian, -b) for the variables in the order of their numbers. */
  ghost function SolvedValues(solve: Solver, I: Interp, env: Env, eqs: seq<Eq>, xs: seq<nat>): Vec {
    var es := Residuals(eqs);
    Col(solve(|xs|, 1, Jacobian(I, Linearity.AtZero(env, xs), es, xs), Column(MinusAtZero(I, env, es, xs))), 0)
  }

  /** Variables in the order of their numbers. */
  ghost predicate ListedByNumber(xs: seq<nat>, index: map<nat, nat>) {
    Set(xs) == index.Keys && NoRepeats(xs) && forall k :: 0 <= k < |xs| ==> xs[k] in index && index[xs[k]] == k
  }

  /** The solution of the linear system of a block: the numbers of its variables, and an expression for
      every number. */
  datatype System = System(index: map<nat, nat>, xsolution: seq<Expr>)

  ghost predicate Fits(b: BlockValue, s: System) {
    NumbersAll(b.variables, s.index) && |s.xsolution| == |b.variables|
  }

  /** The block after Block::solveLinearSystem. */
  ghost function SolvedBlock(b: BlockValue, s: System): BlockValue
    requires Fits(b, s)
  {
    b.(solutions := SolutionMap(b.variables, s.index, s.xsolution) + b.solutions, unsolved := [])
  }

  /** The expressions are what casadi::solve(jacobian, -b) gives for the equations of the block, none of
      which is solved, and its Jacobian is nonsingular at env. */
  ghost predicate SolvesBlock(solve: Solver, I: Interp, env: Env, b: BlockValue, s: System, xs: seq<nat>) {
    && Fits(b, s) && ListedByNumber(xs, s.index) && |xs| == |b.equations| && b.unsolved == b.equations
    && AllLinear(Residuals(b.equations), xs)
    && Nonsingular(|xs|, Jacobian(I, Linearity.AtZero(env, xs), Residuals(b.equations), xs))
    && |xs| == |s.xsolution|
    && forall k: nat :: k < |xs| ==> Eval(I, env, s.xsolution[k]) == SolvedValues(solve, I, env, b.equations, xs)(k)
  }

  ghost predicate SolvableAt(solve: Solver, I: Interp, env: Env, b: BlockValue, s: System) {
    exists xs :: SolvesBlock(solve, I, env, b, s, xs)
  }

  /** Solutions that the block has already, and keeps, have the values of the new ones. */
  ghost predicate SolutionsAgree(I: Interp, env: Env, b: BlockValue, s: System)
    requires Fits(b, s)
  {
    forall v :: v in b.solutions && v in b.variables ==>
        Eval(I, env, b.solutions[v]) == Eval(I, env, s.xsolution[s.index[v]])
  }

  ghost predicate BlockHolds(I: Interp, env: Env, b: BlockValue) {
    MapHolds(I, env, b.solutions) && AllEqHold(I, env, b.unsolved)
  }

  /** Block::solveLinearSystem on a linear block: where the Jacobian is nonsingular, the block says what
      it said before, save that a solution which it had already is no longer compared with the new one. */
  lemma SolvedBlockMeansSame(solve: Solver, I: Interp, env: Env, b: BlockValue, s: System)
    requires IsSolver(solve) && SolvableAt(solve, I, env, b, s)
    ensures BlockHolds(I, env, b) <==> BlockHolds(I, env, SolvedBlock(b, s)) && SolutionsAgree(I, env, b, s)
  {
    hide Jacobian, MinusAtZero, SolvedValues, Residuals, AllEqHold, Nonsingular, IsSolver, AllLinear, Eval, MapHolds,
         SolutionMap,
         SolutionsAgree, NumbersAll, SameVec, NoRepeats;
    var xs :| SolvesBlock(solve, I, env, b, s, xs);
    ResidualsSay(I, env, b.equations);
    BlockIsSolved(solve, I, env, b.equations, xs);
    NothingToHold(I, env);
    ValuesSay(I, env, b, s, xs, SolvedValues(solve, I, env, b.equations, xs));
    SolutionsSplit(I, env, b, s);
  }

  /** Old and new solutions together. */
  lemma SolutionsSplit(I: Interp, env: Env, b: BlockValue, s: System)
    requires Fits(b, s)
    ensures MapHolds(I, env, b.solutions) &&
              (forall v :: v in b.variables ==> env(v) == Eval(I, env, s.xsolution[s.index[v]])) <==>
            MapHolds(I, env, SolvedBlock(b, s).solutions) && SolutionsAgree(I, env, b, s)
  {
    hide Eval;
    var all, after := SolutionMap(b.variables, s.index, s.xsolution), SolvedBlock(b, s).solutions;
    forall v | v in b.variables ensures v in all && all[v] == s.xsolution[s.index[v]] {}
    forall v ensures v in after <==> v in b.variables || v in b.solutions {}
    forall v | v in after ensures after[v] == if v in b.solutions then b.solutions[v] else all[v] {}
  }

  /** The values of the unknowns, one by one. */
  lemma ValuesSay(I: Interp, env: Env, b: BlockValue, s: System, xs: seq<nat>, values: Vec)
    requires Fits(b, s) && ListedByNumber(xs, s.index) && |xs| == |s.xsolution|
    requires forall k: nat :: k < |xs| ==> Eval(I, env, s.xsolution[k]) == values(k)
    ensures SameVec(|xs|, LinearBlocks.Values(env, xs), values) <==>
            forall v :: v in b.variables ==> env(v) == Eval(I, env, s.xsolution[s.index[v]])
  {
    hide Eval;
    var u := LinearBlocks.Values(env, xs);
    forall k: nat | k < |xs| ensures xs[k] in b.variables && s.index[xs[k]] == k && u(k) == env(xs[k]) {}
    forall v | v in b.variables ensures exists k: nat :: k < |xs| && xs[k] == v { assert v in Set(xs); }
  }

  lemma NothingToHold(I: Interp, env: Env)
    ensures AllEqHold(I, env, [])
  {}

  lemma BlockIsSolved(solve: Solver, I: Interp, env: Env, eqs: seq<Eq>, xs: seq<nat>)
    requires |eqs| == |xs| && NoRepeats(xs) && IsSolver(solve) && AllLinear(Residuals(eqs), xs)
    requires Nonsingular(|xs|, Jacobian(I, Linearity.AtZero(env, xs), Residuals(eqs), xs))
    ensures ResidualsZero(I, env, Residuals(eqs)) <==>
              SameVec(|xs|, LinearBlocks.Values(env, xs), SolvedValues(solve, I, env, eqs, xs))
  {
    LinearSystemIsSolved(solve, I, env, Residuals(eqs), xs);
  }

  // ----- All blocks -----

  ghost predicate Fitting(b: BlockValue, s: Option<System>) {
    s.Some? ==> Fits(b, s.value)
  }

  ghost function SolvedIf(b: BlockValue, s: Option<System>): BlockValue
    requires Fitting(b, s)
  {
    if s.Some? then SolvedBlock(b, s.value) else b
  }

  /** The solved system of every block, or none where the block is left alone. */
  ghost predicate AllFit(bs: seq<BlockValue>, systems: seq<Option<System>>) {
    |systems| == |bs| && forall i :: 0 <= i < |bs| ==> Fitting(bs[i], systems[i])
  }

  /** All blocks after BLT::solveBlocksWithLinearSystems. */
  ghost function SolvedBlocks(bs: seq<BlockValue>, systems: seq<Option<System>>): (r: seq<BlockValue>)
    requires AllFit(bs, systems)
    ensures |r| == |bs| && forall i :: 0 <= i < |bs| ==> r[i] == SolvedIf(bs[i], systems[i])
  {
    seq(|bs|, i requires 0 <= i < |bs| => SolvedIf(bs[i], systems[i]))
  }

  ghost predicate AllSolvable(solve: Solver, I: Interp, env: Env, bs: seq<BlockValue>, systems: seq<Option<System>>)
    requires AllFit(bs, systems)
  {
    forall i :: 0 <= i < |bs| && systems[i].Some? ==> SolvableAt(solve, I, env, bs[i], systems[i].value)
  }

  ghost predicate AllAgree(I: Interp, env: Env, bs: seq<BlockValue>, systems: seq<Option<System>>)
    requires AllFit(bs, systems)
  {
    forall i :: 0 <= i < |bs| && systems[i].Some? ==> SolutionsAgree(I, env, bs[i], systems[i].value)
  }

  lemma DaeByBlocks(I: Interp, env: Env, bs: seq<BlockValue>)
    ensures DaeHolds(I, env, bs) <==> forall i :: 0 <= i < |bs| ==> BlockHolds(I, env, bs[i])
  {}

  /** Solving the linear blocks keeps the meaning of the whole system. */
  lemma SolvingKeepsMeaning(solve: Solver, I: Interp, env: Env, bs: seq<BlockValue>, systems: seq<Option<System>>)
    requires IsSolver(solve) && AllFit(bs, systems) && AllSolvable(solve, I, env, bs, systems)
    ensures DaeHolds(I, env, bs) <==> DaeHolds(I, env, SolvedBlocks(bs, systems)) && AllAgree(I, env, bs, systems)
  {
    hide BlockHolds, SolvedBlock, SolvableAt, IsSolver, DaeHolds, SolutionsAgree, Fits;
    var after := SolvedBlocks(bs, systems);
    DaeByBlocks(I, env, bs);
    DaeByBlocks(I, env, after);
    forall i | 0 <= i < |bs|
      ensures BlockHolds(I, env, bs[i]) <==>
              BlockHolds(I, env, after[i]) && (systems[i].Some? ==> SolutionsAgree(I, env, bs[i], systems[i].value))
    {
      if systems[i].Some? { SolvedBlockMeansSame(solve, I, env, bs[i], systems[i].value); }
    }
  }

  /** The equations of a block mention no variable of a later one. */
  ghost predicate EquationsTriangular(bs: seq<BlockValue>) {
    forall i, j, w :: 0 <= i < |bs| && EquationsMention(bs[i], w) && Owns(bs, j, w) ==> j <= i
  }

  /** What the solution of a linear system mentions: what the equations mention, without the unknowns. */
  ghost predicate MentionsKnown(b: BlockValue, s: System) {
    forall x, w :: x in s.xsolution && w in Vars(x) ==> w !in b.variables && EquationsMention(b, w)
  }

  ghost predicate EquationsMention(b: BlockValue, w: nat) {
    exists k :: 0 <= k < |b.equations| && w in Vars(b.equations[k].lhs) + Vars(b.equations[k].rhs)
  }

  /** Solving the linear blocks keeps the block lower triangular form. */
  lemma SolvingKeepsForm(bs: seq<BlockValue>, systems: seq<Option<System>>)
    requires WellFormed(bs) && EquationsTriangular(bs) && AllFit(bs, systems)
    requires forall i :: 0 <= i < |bs| && systems[i].Some? ==> MentionsKnown(bs[i], systems[i].value)
    ensures WellFormed(SolvedBlocks(bs, systems))
  {
    var after := SolvedBlocks(bs, systems);
    forall i, v ensures Owns(after, i, v) <==> Owns(bs, i, v) {}
    forall i, v | HasSolution(after, i, v) ensures Owns(after, i, v) && OnlyEarlier(after, i, after[i].solutions[v]) {
      if HasSolution(bs, i, v) {
        assert after[i].solutions[v] == bs[i].solutions[v] && OnlyEarlier(bs, i, bs[i].solutions[v]);
      } else {
        var s := systems[i].value;
        SolutionAt(bs[i].variables, s.index, s.xsolution, v);
        SolutionIsEarlier(bs, i, s, s.xsolution[s.index[v]]);
      }
    }
  }

  lemma SolutionIsEarlier(bs: seq<BlockValue>, i: nat, s: System, x: Expr)
    requires i < |bs| && EquationsTriangular(bs) && MentionsKnown(bs[i], s) && x in s.xsolution
    ensures OnlyEarlier(bs, i, x)
  {
    forall j, w | w in Vars(x) && Owns(bs, j, w) ensures j < i {
      assert w !in bs[i].variables && EquationsMention(bs[i], w);
      assert j <= i && !Owns(bs, i, w);
    }
  }
}
