/** Block and Equation of the C++ interface (Block.hpp, Block.cpp, Equation.hpp): objects that are
    changed in place. The lists of all and of unsolved equations may hold the same objects. */
module Blocks {
  import opened Lists
  import opened Expressions
  import opened BltValues

  class Equation {
    var lhs: Expr
    var rhs: Expr

    constructor (lhs: Expr, rhs: Expr)
      ensures this.lhs == lhs && this.rhs == rhs
    {
      this.lhs, this.rhs := lhs, rhs;
    }

    function Value(): Eq
      reads this
    {
      Eq(lhs, rhs)
    }
  }

  ghost function EqsOf(es: seq<Equation>): (r: seq<Eq>)
    reads es
    ensures |r| == |es| && forall k :: 0 <= k < |es| ==> r[k] == es[k].Value()
  {
    if es == [] then [] else EqsOf(es[..|es| - 1]) + [es[|es| - 1].Value()]
  }

  /** The sides of the equations, one after the other. */
  ghost function Sides(eqs: seq<Eq>): (r: seq<Expr>)
    ensures |r| == 2 * |eqs|
    ensures forall k :: 0 <= k < |eqs| ==> r[2 * k] == eqs[k].lhs && r[2 * k + 1] == eqs[k].rhs
  {
    if eqs == [] then [] else Sides(eqs[..|eqs| - 1]) + [eqs[|eqs| - 1].lhs, eqs[|eqs| - 1].rhs]
  }

  /** Appends left- and right-hand sides. */
  method PushSides(es: seq<Equation>, expressions: seq<Expr>) returns (r: seq<Expr>)
    ensures r == expressions + Sides(EqsOf(es))
  {
    r := expressions;
    for k := 0 to |es|
      invariant r == expressions + Sides(EqsOf(es[..k]))
    {
      assert es[..k + 1][..k] == es[..k];
      r := r + [es[k].lhs, es[k].rhs];
    }
    assert es[..|es|] == es;
  }

  /** The sides at `from` in the list are those of the equations, substituted. */
  ghost predicate SidesAt(s: Subst, was: map<Equation, Eq>, es: seq<Equation>, sides: seq<Expr>, from: nat) {
    && |sides| >= from + 2 * |es|
    && (forall k :: 0 <= k < |es| ==> es[k] in was && sides[from + 2 * k] == Apply(s, was[es[k]].lhs))
    && (forall k :: 0 <= k < |es| ==> sides[from + 2 * k + 1] == Apply(s, was[es[k]].rhs))
  }

  ghost function Snapshot(es: seq<Equation>, us: seq<Equation>): (was: map<Equation, Eq>)
    reads es, us
    ensures forall e :: e in es + us ==> e in was && was[e] == e.Value()
  {
    map e | e in es + us :: e.Value()
  }

  /** Writes sides back to the equations, by a running counter. An equation that is listed twice is
      written twice, with the same sides. */
  method WriteBack(ghost s: Subst, ghost was: map<Equation, Eq>, es: seq<Equation>, sides: seq<Expr>, from: nat)
    requires SidesAt(s, was, es, sides, from)
    modifies es
    ensures forall e :: e in es ==> e in was && e.Value() == ApplyEq(s, was[e])
  {
    var i, j := from, 0;
    while j < |es|
      invariant 0 <= j <= |es| && i == from + 2 * j
      invariant forall e :: e in es[..j] ==> e in was && e.Value() == ApplyEq(s, was[e])
    {
      es[j].lhs := sides[i];
      es[j].rhs := sides[i + 1];
      i := i + 2;
      j := j + 1;
    }
    assert es[..|es|] == es;
  }

  /** The keys of a map in some order: the C++ map is ordered by address. */
  method KeysOf<V>(m: map<nat, V>) returns (keys: seq<nat>)
    ensures NoRepeats(keys) && Set(keys) == m.Keys
  {
    keys := [];
    var rest := m.Keys;
    while rest != {}
      invariant rest <= m.Keys && NoRepeats(keys) && Set(keys) == m.Keys - rest
      decreases rest
    {
      var v :| v in rest;
      assert forall k :: 0 <= k < |keys| ==> keys[k] in Set(keys);
      assert Set(keys + [v]) == Set(keys) + {v};
      rest := rest - {v};
      keys := keys + [v];
    }
  }

  class Block {
    var equations: seq<Equation>
    var unSolvedEquations: seq<Equation>
    var variables: set<nat>
    var unSolvedVariables: set<nat>
    var externalVariables: set<nat>
    var variableToSolution: map<nat, Expr>
    var variableToIndex: map<nat, nat>
    var simple: bool
    var linear: bool
    var solvable: bool

    constructor ()
      ensures equations == [] && unSolvedEquations == [] && Indexed()
      ensures variables == unSolvedVariables == externalVariables == {} && variableToSolution == map[]
    {
      equations, unSolvedEquations := [], [];
      variables, unSolvedVariables, externalVariables := {}, {}, {};
      variableToSolution, variableToIndex := map[], map[];
      simple, linear, solvable := false, false, false;
    }

    /** The equation objects of the block. */
    ghost function Objects(): set<Equation>
      reads `equations, `unSolvedEquations
    {
      set e | e in equations + unSolvedEquations
    }

    ghost function Value(): BlockValue
      reads this, Objects()
    {
      BlockValue(variableToSolution, EqsOf(equations), EqsOf(unSolvedEquations), variables, externalVariables)
    }

    // ----- Variables -----

    /** The variables of the block are numbered 0, 1, ..., each number once. */
    ghost predicate Indexed()
      reads `variables, `variableToIndex
    {
      NumbersAll(variables, variableToIndex)
    }

    /** A variable that is new gets the next number; the order of the additions decides. */
    method AddVariable(v: nat, solvable: bool)
      requires Indexed()
      modifies `variables, `variableToIndex, `unSolvedVariables
      ensures Indexed() && variables == old(variables) + {v}
      ensures variableToIndex == if v in old(variables) then old(variableToIndex)
                else old(variableToIndex)[v := |old(variables)|]
      ensures unSolvedVariables == if solvable then old(unSolvedVariables) else old(unSolvedVariables) + {v}
    {
      hide NumbersAll;
      if v !in variables {
        NumberOneMore(variables, variableToIndex, v);
        variableToIndex := variableToIndex[v := |variables|];
      } else {
        assert variables + {v} == variables;
      }
      variables := variables + {v};
      if !solvable {
        unSolvedVariables := unSolvedVariables + {v};
      }
    }

    predicate IsExternal(v: nat)
      reads `externalVariables
    {
      v in externalVariables
    }

    predicate HasSolution(v: nat)
      reads `variableToSolution
    {
      v in variableToSolution
    }

    /** A variable keeps its first solution. */
    method AddSolutionToVariable(v: nat, sol: Expr)
      modifies `variableToSolution
      ensures variableToSolution == map[v := sol] + old(variableToSolution)
    {
      if v !in variableToSolution {
        variableToSolution := variableToSolution[v := sol];
      }
      assert variableToSolution == map[v := sol] + old(variableToSolution);
    }

    method RemoveSolutionOfVariable(v: nat) returns (removed: bool)
      modifies `variableToSolution
      ensures removed == (v in old(variableToSolution))
      ensures Value() == old(Value()).(solutions := old(Value()).solutions - {v})
    {
      removed := v in variableToSolution;
      if removed {
        variableToSolution := variableToSolution - {v};
      } else {
        assert variableToSolution - {v} == variableToSolution;
      }
    }

    // ----- Equations -----

    method MoveAllEquationsToUnsolvable()
      modifies `unSolvedEquations, `unSolvedVariables
      ensures unSolvedEquations == equations && unSolvedVariables == variables
      ensures Value() == old(Value()).(unsolved := old(Value()).equations)
    {
      hide EqsOf;
      unSolvedEquations := [];
      for k := 0 to |equations|
        modifies `unSolvedEquations
        invariant unSolvedEquations == equations[..k]
      {
        unSolvedEquations := unSolvedEquations + [equations[k]];
      }
      assert unSolvedEquations == equations;
      unSolvedVariables := variables;
    }

    /** A linear system of several unknowns that is not solved. */
    predicate IsLinearSystem()
      reads `unSolvedVariables, `linear, `solvable, `simple
    {
      |unSolvedVariables| > 1 && linear && !solvable && !simple
    }

    /** Gives every variable of a linear block its entry of the solution of the linear system, and leaves
        no equation unsolved. A variable that has a solution keeps it. */
    method SolveLinearSystem(xsolution: seq<Expr>)
      requires Indexed() && |xsolution| == |variables|
      modifies `variableToSolution, `unSolvedEquations, `unSolvedVariables, `solvable
      ensures if old(linear && !solvable && !simple) then
                solvable && Value() == old(Value()).(solutions := SolutionMap(variables, variableToIndex, xsolution)
                    + old(variableToSolution), unsolved := [])
              else solvable == old(solvable) && Value() == old(Value())
      ensures unSolvedVariables == if old(linear && !solvable && !simple) then {} else old(unSolvedVariables)
      ensures Objects() <= old(Objects())
    {
      hide NumbersAll, SolutionMap, Restrict, EqsOf;
      if linear && !solvable && !simple {
        var rest := variables;
        ghost var all := SolutionMap(variables, variableToIndex, xsolution);
        NoneGiven(all, variableToSolution);
        assert variables - rest == {};
        while rest != {}
          modifies `variableToSolution
          invariant rest <= variables && variableToSolution == Restrict(all, variables - rest) + old(variableToSolution)
          decreases rest
        {
          var v :| v in rest;
          ghost var done := variables - rest;
          SolutionAt(variables, variableToIndex, xsolution, v);
          OneGiven(all, done, v, old(variableToSolution));
          AddSolutionToVariable(v, xsolution[variableToIndex[v]]);
          rest := rest - {v};
          assert variables - rest == done + {v};
        }
        AllGiven(variables, variableToIndex, xsolution);
        assert variables - rest == variables;
        unSolvedEquations := [];
        unSolvedVariables := {};
        solvable := true;
        NoEqs();
      }
    }

    /** The substituted variables: those of the map that are external to the block. */
    method SelectExternal(m: map<nat, Expr>) returns (vars: seq<nat>, exprs: seq<Expr>)
      ensures |vars| == |exprs| && SubstOf(vars, exprs) == Restrict(m, externalVariables)
    {
      vars, exprs := [], [];
      var keys := KeysOf(m);
      for k := 0 to |keys|
        invariant |vars| == |exprs|
        invariant forall j :: 0 <= j < |vars| ==> vars[j] in m && vars[j] in externalVariables && exprs[j] == m[vars[j]]
        invariant forall j :: 0 <= j < k && keys[j] in externalVariables ==> keys[j] in vars
      {
        assert keys[k] in Set(keys);
        if IsExternal(keys[k]) {
          vars := vars + [keys[k]];
          exprs := exprs + [m[keys[k]]];
        }
      }
      forall v | v in m && v in externalVariables ensures v in vars { assert v in Set(keys); }
    }

    /** All expressions of the block in one list: solutions, equations, unsolved equations. */
    method CollectExpressions(keys: seq<nat>) returns (expressions: seq<Expr>)
      requires Set(keys) == variableToSolution.Keys
      ensures |expressions| == |keys| + 2 * |equations| + 2 * |unSolvedEquations|
      ensures SolutionsListed(keys, variableToSolution, expressions)
      ensures expressions[|keys|..] == Sides(EqsOf(equations)) + Sides(EqsOf(unSolvedEquations))
    {
      hide Sides, EqsOf;
      expressions := [];
      for k := 0 to |keys|
        invariant |expressions| == k && forall j :: 0 <= j < k ==>
                    keys[j] in variableToSolution && expressions[j] == variableToSolution[keys[j]]
      {
        assert keys[k] in Set(keys);
        expressions := expressions + [variableToSolution[keys[k]]];
      }
      ghost var solutions := expressions;
      expressions := PushSides(equations, expressions);
      expressions := PushSides(unSolvedEquations, expressions);
      ConcatThree(solutions, Sides(EqsOf(equations)), Sides(EqsOf(unSolvedEquations)));
    }

    /** Writes the solutions back. */
    method WriteSolutions(ghost s: Subst, keys: seq<nat>, subExpressions: seq<Expr>)
      requires Set(keys) == variableToSolution.Keys && NoRepeats(keys)
      requires SolutionsAt(s, keys, variableToSolution, subExpressions)
      modifies `variableToSolution
      ensures variableToSolution == ApplySolutions(s, old(variableToSolution))
    {
      for k := 0 to |keys|
        invariant variableToSolution.Keys == old(variableToSolution).Keys
        invariant forall j :: 0 <= j < k ==> variableToSolution[keys[j]] == Apply(s, old(variableToSolution)[keys[j]])
      {
        variableToSolution := variableToSolution[keys[k] := subExpressions[k]];
      }
      SolutionsApplied(s, keys, old(variableToSolution), variableToSolution);
    }

    /** The expressions of the block with the external variables substituted. */
    method SubstitutedExpressions(m: map<nat, Expr>, keys: seq<nat>, ghost was: map<Equation, Eq>)
      returns (subExpressions: seq<Expr>)
      requires Set(keys) == variableToSolution.Keys && forall e :: e in equations + unSolvedEquations ==>
                 e in was && was[e] == e.Value()
      ensures SolutionsAt(Restrict(m, externalVariables), keys, variableToSolution, subExpressions)
      ensures SidesAt(Restrict(m, externalVariables), was, equations, subExpressions, |keys|)
      ensures SidesAt(Restrict(m, externalVariables), was, unSolvedEquations, subExpressions, |keys| + 2 * |equations|)
    {
      hide EqsOf, Sides, SubstOf, Apply, Restrict, Set, NoRepeats, SidesAt, SolutionsAt, SolutionsListed;
      var vars, exprs := SelectExternal(m);
      var expressions := CollectExpressions(keys);
      subExpressions := ApplyAll(SubstOf(vars, exprs), expressions);
      ghost var s := Restrict(m, externalVariables);
      SidesOfBoth(s, was, equations, unSolvedEquations, expressions, subExpressions, |keys|);
      SolutionsAreAt(s, keys, variableToSolution, expressions, subExpressions);
    }

    /** One flat list of all expressions, substituted at once and written back by position. */
    method Substitute(m: map<nat, Expr>)
      modifies `variableToSolution, Objects()
      ensures Value() == SubstituteIn(m, old(Value()))
      ensures ReplacesInBlock(m, old(Value()), Value(), {})
    {
      hide ReplacesInBlock, EqsOf, Apply, Restrict, Set, NoRepeats, SidesAt, SolutionsAt, Snapshot;
      ghost var was := Snapshot(equations, unSolvedEquations);
      ghost var before, s := Value(), Restrict(m, externalVariables);
      var keys := KeysOf(variableToSolution);
      var subExpressions := SubstitutedExpressions(m, keys, was);
      WriteSolutions(s, keys, subExpressions);
      WriteBack(s, was, equations, subExpressions, |keys|);
      WriteBack(s, was, unSolvedEquations, subExpressions, |keys| + 2 * |equations|);
      BothWritten(s, was, equations, before.equations);
      BothWritten(s, was, unSolvedEquations, before.unsolved);
      SubstituteReplaces(m, before);
    }

    /** The equations that the model sees: z = f(z) for every solution, as new objects, and the
        unsolved ones. */
    method GetEquationsForModel() returns (modelEqs: seq<Equation>, ghost keys: seq<nat>)
      ensures NoRepeats(keys) && Set(keys) == variableToSolution.Keys && |modelEqs| == |keys| + |unSolvedEquations|
      ensures forall k :: 0 <= k < |keys| ==>
                modelEqs[k].Value() == Eq(Sym(keys[k]), variableToSolution[keys[k]]) && fresh(modelEqs[k])
      ensures modelEqs[|keys|..] == unSolvedEquations
    {
      modelEqs := [];
      var order := KeysOf(variableToSolution);
      for k := 0 to |order|
        invariant |modelEqs| == k
        invariant forall j :: 0 <= j < k ==> order[j] in variableToSolution && fresh(modelEqs[j])
        invariant forall j :: 0 <= j < k ==> modelEqs[j].Value() == Eq(Sym(order[j]), variableToSolution[order[j]])
      {
        assert order[k] in Set(order);
        var eq := new Equation(Sym(order[k]), variableToSolution[order[k]]);
        modelEqs := modelEqs + [eq];
      }
      for k := 0 to |unSolvedEquations|
        invariant |modelEqs| == |order| + k && modelEqs[|order|..] == unSolvedEquations[..k]
        invariant forall j :: 0 <= j < |order| ==> order[j] in variableToSolution && fresh(modelEqs[j])
        invariant forall j :: 0 <= j < |order| ==>
                    modelEqs[j].Value() == Eq(Sym(order[j]), variableToSolution[order[j]])
      {
        modelEqs := modelEqs + [unSolvedEquations[k]];
      }
      keys := order;
    }
  }

  /** Every variable with its entry of the solution. */
  function SolutionMap(vs: set<nat>, index: map<nat, nat>, xsolution: seq<Expr>): map<nat, Expr>
    requires NumbersAll(vs, index) && |xsolution| == |vs|
  {
    map v | v in vs :: xsolution[index[v]]
  }

  lemma NoEqs()
    ensures EqsOf([]) == []
  {}

  lemma NoneGiven(all: Subst, base: Subst)
    ensures Restrict(all, {}) + base == base
  {}

  lemma OneGiven(all: Subst, done: set<nat>, v: nat, base: Subst)
    requires v in all && v !in done
    ensures map[v := all[v]] + (Restrict(all, done) + base) == Restrict(all, done + {v}) + base
  {}

  lemma SolutionAt(vs: set<nat>, index: map<nat, nat>, xsolution: seq<Expr>, v: nat)
    requires NumbersAll(vs, index) && |xsolution| == |vs| && v in vs
    ensures v in index && index[v] < |xsolution|
    ensures v in SolutionMap(vs, index, xsolution) && SolutionMap(vs, index, xsolution)[v] == xsolution[index[v]]
  {}

  lemma AllGiven(vs: set<nat>, index: map<nat, nat>, xsolution: seq<Expr>)
    requires NumbersAll(vs, index) && |xsolution| == |vs|
    ensures Restrict(SolutionMap(vs, index, xsolution), vs) == SolutionMap(vs, index, xsolution)
  {}

  /** index numbers vs with 0, 1, ..., each number once. */
  ghost predicate NumbersAll(vs: set<nat>, index: map<nat, nat>) {
    && index.Keys == vs
    && (forall v :: v in vs ==> index[v] < |vs|)
    && (forall v, w :: v in vs && w in vs && index[v] == index[w] ==> v == w)
  }

  lemma NumberOneMore(vs: set<nat>, index: map<nat, nat>, v: nat)
    requires NumbersAll(vs, index) && v !in vs
    ensures NumbersAll(vs + {v}, index[v := |vs|])
  {
    assert |vs + {v}| == |vs| + 1;
  }

  ghost predicate SolutionsListed(keys: seq<nat>, solutions: Subst, expressions: seq<Expr>) {
    |expressions| >= |keys| && forall k :: 0 <= k < |keys| ==>
        keys[k] in solutions && expressions[k] == solutions[keys[k]]
  }

  ghost predicate SolutionsAt(s: Subst, keys: seq<nat>, solutions: Subst, sub: seq<Expr>) {
    |sub| >= |keys| && forall k :: 0 <= k < |keys| ==> keys[k] in solutions && sub[k] == Apply(s, solutions[keys[k]])
  }

  lemma SolutionsAreAt(s: Subst, keys: seq<nat>, solutions: Subst, expressions: seq<Expr>, sub: seq<Expr>)
    requires SolutionsListed(keys, solutions, expressions) && |sub| == |expressions|
    requires forall k :: 0 <= k < |sub| ==> sub[k] == Apply(s, expressions[k])
    ensures SolutionsAt(s, keys, solutions, sub)
  {}

  lemma ConcatThree<T>(a: seq<T>, b: seq<T>, c: seq<T>)
    ensures ((a + b) + c)[|a|..] == b + c
  {}

  /** Where the substituted sides of the equations and of the unsolved equations are in the list. */
  lemma SidesOfBoth(s: Subst, was: map<Equation, Eq>, es: seq<Equation>, us: seq<Equation>, expressions: seq<Expr>,
                    sub: seq<Expr>, from: nat)
    requires |expressions| == from + 2 * |es| + 2 * |us| == |sub|
    requires expressions[from..] == Sides(EqsOf(es)) + Sides(EqsOf(us))
    requires forall k :: 0 <= k < |sub| ==> sub[k] == Apply(s, expressions[k])
    requires forall e :: e in es + us ==> e in was && was[e] == e.Value()
    ensures SidesAt(s, was, es, sub, from) && SidesAt(s, was, us, sub, from + 2 * |es|)
  {
    hide Sides, EqsOf, Apply;
    var a, b := Sides(EqsOf(es)), Sides(EqsOf(us));
    forall k | 0 <= k < |es|
      ensures sub[from + 2 * k] == Apply(s, was[es[k]].lhs) && sub[from + 2 * k + 1] == Apply(s, was[es[k]].rhs)
    {
      assert es[k] in es + us && EqsOf(es)[k] == es[k].Value();
      assert expressions[from + 2 * k] == expressions[from..][2 * k] == (a + b)[2 * k] == a[2 * k];
      assert expressions[from + 2 * k + 1] == expressions[from..][2 * k + 1] == (a + b)[2 * k + 1] == a[2 * k + 1];
    }
    forall k | 0 <= k < |us|
      ensures sub[from + 2 * |es| + 2 * k] == Apply(s, was[us[k]].lhs)
      ensures sub[from + 2 * |es| + 2 * k + 1] == Apply(s, was[us[k]].rhs)
    {
      assert us[k] in es + us && EqsOf(us)[k] == us[k].Value();
      assert expressions[from + 2 * |es| + 2 * k] == expressions[from..][2 * |es| + 2 * k] ==
             (a + b)[2 * |es| + 2 * k] == b[2 * k];
      assert expressions[from + 2 * |es| + 2 * k + 1] == expressions[from..][2 * |es| + 2 * k + 1] ==
             (a + b)[2 * |es| + 2 * k + 1] == b[2 * k + 1];
    }
  }

  lemma BothWritten(s: Subst, was: map<Equation, Eq>, es: seq<Equation>, before: seq<Eq>)
    requires |before| == |es| && forall k :: 0 <= k < |es| ==> es[k] in was && was[es[k]] == before[k]
    requires forall e :: e in es ==> e in was && e.Value() == ApplyEq(s, was[e])
    ensures EqsOf(es) == ApplyEqs(s, before)
  {
    hide EqsOf;
    forall k | 0 <= k < |es| ensures EqsOf(es)[k] == ApplyEq(s, before[k]) {
      assert es[k] in es;
    }
  }

  lemma SolutionsApplied(s: Subst, keys: seq<nat>, before: Subst, after: Subst)
    requires Set(keys) == before.Keys == after.Keys
    requires forall j :: 0 <= j < |keys| ==> keys[j] in after && after[keys[j]] == Apply(s, before[keys[j]])
    ensures after == ApplySolutions(s, before)
  {
    forall v | v in before ensures after[v] == Apply(s, before[v]) {
      assert v in Set(keys);
    }
  }
}
