/** OptimizationProblem of the C++ interface (OptimizationProblem.cpp): elimination that also reaches
    the time interval, the objective and the constraints. */
module OptimizationProblems {
  import opened Lists
  import opened Expressions
  import opened BltValues
  import opened Blocks
  import opened Blts
  import opened CasadiModels

  datatype Relation = EQ | LEQ | GEQ

  class Constraint {
    const relation: Relation
    var lhs: Expr
    var rhs: Expr

    constructor (lhs: Expr, rhs: Expr, relation: Relation)
      ensures this.lhs == lhs && this.rhs == rhs && this.relation == relation
    {
      this.lhs, this.rhs, this.relation := lhs, rhs, relation;
    }
  }

  /** The sides of the constraints are in the list from position `from` on. */
  ghost predicate SidesListed(cs: seq<Constraint>, list: seq<Expr>, from: nat)
    reads cs
  {
    && |list| >= from + 2 * |cs|
    && forall k :: 0 <= k < |cs| ==> list[from + 2 * k] == cs[k].lhs && list[from + 2 * k + 1] == cs[k].rhs
  }

  /** Every constraint has the sides that was gives it, substituted by s. */
  ghost predicate AllSubstituted(s: Subst, was: map<Constraint, Eq>, cs: seq<Constraint>)
    reads cs
  {
    forall c :: c in cs ==> c in was && Eq(c.lhs, c.rhs) == ApplyEq(s, was[c])
  }

  ghost predicate Records(was: map<Constraint, Eq>, cs: seq<Constraint>)
    reads cs
  {
    forall k :: 0 <= k < |cs| ==> cs[k] in was && Eq(cs[k].lhs, cs[k].rhs) == was[cs[k]]
  }

  ghost function Record(cs: seq<Constraint>): (was: map<Constraint, Eq>)
    reads cs
    ensures was.Keys == set c | c in cs
    ensures forall c :: c in cs ==> was[c] == Eq(c.lhs, c.rhs)
  {
    map c | c in cs :: Eq(c.lhs, c.rhs)
  }

  ghost predicate SubstitutedSides(s: Subst, was: map<Constraint, Eq>, cs: seq<Constraint>, sides: seq<Expr>,
                                   from: nat)
  {
    && |sides| >= from + 2 * |cs|
    && (forall k :: 0 <= k < |cs| ==> cs[k] in was && sides[from + 2 * k] == Apply(s, was[cs[k]].lhs))
    && (forall k :: 0 <= k < |cs| ==> sides[from + 2 * k + 1] == Apply(s, was[cs[k]].rhs))
  }

  method PushConstraints(cs: seq<Constraint>, expressions: seq<Expr>) returns (r: seq<Expr>)
    ensures |r| == |expressions| + 2 * |cs| && r[..|expressions|] == expressions && SidesListed(cs, r, |expressions|)
  {
    r := expressions;
    for k := 0 to |cs|
      invariant |r| == |expressions| + 2 * k && r[..|expressions|] == expressions
      invariant forall j :: 0 <= j < k ==>
                  r[|expressions| + 2 * j] == cs[j].lhs && r[|expressions| + 2 * j + 1] == cs[j].rhs
    {
      r := r + [cs[k].lhs, cs[k].rhs];
    }
  }

  /** Writes the sides back, by a running counter. */
  method WriteConstraints(ghost s: Subst, ghost was: map<Constraint, Eq>, cs: seq<Constraint>, sides: seq<Expr>,
                          from: nat)
    requires SubstitutedSides(s, was, cs, sides, from)
    modifies cs`lhs, cs`rhs
    ensures AllSubstituted(s, was, cs)
  {
    var counter := from;
    for k := 0 to |cs|
      invariant counter == from + 2 * k
      invariant AllSubstituted(s, was, cs[..k])
    {
      cs[k].lhs := sides[counter];
      cs[k].rhs := sides[counter + 1];
      counter := counter + 2;
    }
    assert cs[..|cs|] == cs;
  }

  lemma SidesSubstituted(s: Subst, was: map<Constraint, Eq>, cs: seq<Constraint>, expressions: seq<Expr>,
                         sides: seq<Expr>, from: nat)
    requires Records(was, cs) && SidesListed(cs, expressions, from) && |sides| == |expressions|
    requires forall k :: 0 <= k < |sides| ==> sides[k] == Apply(s, expressions[k])
    ensures SubstitutedSides(s, was, cs, sides, from)
  {}

  lemma SidesKept(cs: seq<Constraint>, a: seq<Expr>, b: seq<Expr>, from: nat)
    requires SidesListed(cs, a, from) && |b| >= |a| && b[..|a|] == a
    ensures SidesListed(cs, b, from)
  {
    forall k | 0 <= k < |cs| ensures b[from + 2 * k] == cs[k].lhs && b[from + 2 * k + 1] == cs[k].rhs {
      assert b[..|a|][from + 2 * k] == a[from + 2 * k];
      assert b[..|a|][from + 2 * k + 1] == a[from + 2 * k + 1];
    }
  }

  /** A constraint substituted by a map that holds has sides of the same values. */
  ghost predicate SameSides(I: Interp, env: Env, was: map<Constraint, Eq>, cs: seq<Constraint>)
    reads cs
  {
    && (forall k :: 0 <= k < |cs| ==> cs[k] in was && Eval(I, env, cs[k].lhs) == Eval(I, env, was[cs[k]].lhs))
    && (forall k :: 0 <= k < |cs| ==> Eval(I, env, cs[k].rhs) == Eval(I, env, was[cs[k]].rhs))
  }

  lemma SubstitutedHasSameSides(I: Interp, env: Env, m: Subst, was: map<Constraint, Eq>, cs: seq<Constraint>)
    requires MapHolds(I, env, m) && AllSubstituted(m, was, cs)
    ensures SameSides(I, env, was, cs)
  {
    forall k | 0 <= k < |cs|
      ensures Eval(I, env, cs[k].lhs) == Eval(I, env, was[cs[k]].lhs)
      ensures Eval(I, env, cs[k].rhs) == Eval(I, env, was[cs[k]].rhs)
    {
      ApplyPreservesValue(I, env, m, was[cs[k]].lhs);
      ApplyPreservesValue(I, env, m, was[cs[k]].rhs);
    }
  }

  /** No variable of the map is left. */
  lemma SubstitutionRemoves(bs: seq<BlockValue>, list: seq<Listed>, e: Expr)
    requires WellFormed(bs) && AllListed(bs, list) && SortedById(list)
    ensures Vars(Apply(Substitutes(bs, list), e)) !! Substitutes(bs, list).Keys
  {
    var m := Substitutes(bs, list);
    forall w | w in m ensures w !in Vars(Apply(m, e)) {
      VarsApply(m, e, w);
      forall v | v in m ensures w !in Vars(m[v]) { SubstitutesAreClosed(bs, list, v); }
    }
  }

  class OptimizationProblem {
    var startTime: Expr
    var finalTime: Expr
    var objectiveIntegrand: Expr
    var objective: Expr
    const pathConstraints: seq<Constraint>
    const pointConstraints: seq<Constraint>

    constructor (startTime: Expr, finalTime: Expr, objectiveIntegrand: Expr, objective: Expr, path: seq<Constraint>,
                 point: seq<Constraint>)
      ensures this.startTime == startTime && this.finalTime == finalTime
      ensures this.objectiveIntegrand == objectiveIntegrand
      ensures this.objective == objective && pathConstraints == path && pointConstraints == point
    {
      this.startTime, this.finalTime, this.objectiveIntegrand, this.objective := startTime, finalTime,
          objectiveIntegrand, objective;
      pathConstraints, pointConstraints := path, point;
    }

    function Constraints(): seq<Constraint> {
      pathConstraints + pointConstraints
    }

    function Terms(): seq<Expr>
      reads `startTime, `finalTime, `objectiveIntegrand, `objective
    {
      [startTime, finalTime, objectiveIntegrand, objective]
    }

    /** All expressions in one list, substituted at once. */
    method SubstitutedExpressions(m: map<nat, Expr>, ghost was: map<Constraint, Eq>) returns (sub: seq<Expr>)
      requires Records(was, pathConstraints) && Records(was, pointConstraints)
      ensures |sub| >= 4 && sub[..4] == ApplyAll(m, Terms())
      ensures SubstitutedSides(m, was, pathConstraints, sub, 4)
      ensures SubstitutedSides(m, was, pointConstraints, sub, 4 + 2 * |pathConstraints|)
    {
      hide Apply, SubstOf, SidesListed, SubstitutedSides, Records;
      var eliminated := KeysOf(m);
      var substitutes: seq<Expr> := [];
      for k := 0 to |eliminated|
        invariant |substitutes| == k && forall j :: 0 <= j < k ==>
                    eliminated[j] in m && substitutes[j] == m[eliminated[j]]
      {
        assert eliminated[k] in Set(eliminated);
        substitutes := substitutes + [m[eliminated[k]]];
      }
      KeysGiveMap(m, eliminated, substitutes);
      var upToPath := PushConstraints(pathConstraints, Terms());
      var expressions := PushConstraints(pointConstraints, upToPath);
      SidesKept(pathConstraints, upToPath, expressions, 4);
      sub := ApplyAll(SubstOf(eliminated, substitutes), expressions);
      SidesSubstituted(m, was, pathConstraints, expressions, sub, 4);
      SidesSubstituted(m, was, pointConstraints, expressions, sub, |upToPath|);
      TermsFirst(Terms(), upToPath, expressions);
    }

    /** Substitutes and writes back by a running counter. A constraint object may be in both lists, and
        more than once. */
    method SubstituteExpressions(m: map<nat, Expr>)
      modifies `startTime, `finalTime, `objectiveIntegrand, `objective
      modifies pathConstraints`lhs, pathConstraints`rhs, pointConstraints`lhs, pointConstraints`rhs
      ensures Terms() == ApplyAll(m, old(Terms()))
      ensures AllSubstituted(m, old(Record(Constraints())), Constraints())
    {
      hide Apply, SubstitutedSides, Record, Records;
      ghost var was, terms := Record(Constraints()), Terms();
      Recorded(pathConstraints, pointConstraints);
      var sub := SubstitutedExpressions(m, was);
      assert forall k :: 0 <= k < 4 ==> sub[k] == sub[..4][k] == Apply(m, terms[k]);
      startTime := sub[0];
      finalTime := sub[1];
      objectiveIntegrand := sub[2];
      objective := sub[3];
      WriteConstraints(m, was, pathConstraints, sub, 4);
      WriteConstraints(m, was, pointConstraints, sub, 4 + 2 * |pathConstraints|);
    }

    /** The substitution of a closed map, beside a model that it does not touch. */
    method ApplyMap(m: map<nat, Expr>, ghost model: Model, ghost bs: seq<BlockValue>, ghost list: seq<Listed>)
      requires WellFormed(bs) && AllListed(bs, list) && SortedById(list) && m == Substitutes(bs, list)
      modifies `startTime, `finalTime, `objectiveIntegrand, `objective
      modifies pathConstraints`lhs, pathConstraints`rhs, pointConstraints`lhs, pointConstraints`rhs
      ensures ValuesKept(m, old(Terms()), Terms(), old(Record(Constraints())), Constraints())
      ensures FreeOf(m.Keys, Terms(), Constraints())
      ensures model.equations.Values() == old(model.equations.Values())
      ensures model.equations.Valid() == old(model.equations.Valid())
      ensures EquationsOf(model.equations.blt) == old(EquationsOf(model.equations.blt))
    {
      hide AllSubstituted, BLT.Values, Apart, Record, AllListed, SortedById, Substitutes, WellFormed, ValuesKept,
           FreeOf;
      ghost var terms, was := Terms(), Record(Constraints());
      SubstituteExpressions(m);
      SubstitutedKeepsValues(m, terms, Terms(), was, Constraints());
      SubstitutedIsFree(bs, list, terms, Terms(), was, Constraints());
      assert EquationsOf(model.equations.blt) == old(EquationsOf(model.equations.blt));
    }

    /** Model's substitution, and the same map in the optimization expressions. */
    method SubstituteAllEliminables(model: Model) returns (tmpMap: map<nat, Expr>)
      requires model.Valid()
      modifies this, pathConstraints`lhs, pathConstraints`rhs, pointConstraints`lhs, pointConstraints`rhs
      modifies model.equations.blt`variableToSolution, EquationsOf(model.equations.blt)
      ensures model.Valid()
      ensures ValuesKept(tmpMap, old(Terms()), Terms(), old(Record(Constraints())), Constraints())
      ensures FreeOf(tmpMap.Keys, Terms(), Constraints())
      ensures tmpMap.Keys == Candidates(old(model.equations.Values()), model.z, model.eliminable)
      ensures ImpliesMap(old(model.equations.Values()), tmpMap)
      ensures SameSolutions(old(model.equations.Values()), model.equations.Values())
      ensures model.equations.Values() == SubstituteInAll(tmpMap, old(model.equations.Values()))
    {
      hide AllSubstituted, BLT.Values, Apart, Sound, Record, Candidates, ImpliesMap, SameSolutions, SubstituteInAll,
           AllListed, SortedById, Substitutes,
           EquationCount, WellFormed, ValuesKept, FreeOf;
      ghost var bs, list := model.equations.Values(), [];
      SoundParts(model.original, bs, model.listToEliminate, model.eliminatedVariableToSolution,
          model.callCountEliminations);
      tmpMap, list := model.SubstituteAllEliminables();
      MapHoldsWithDae(bs, list);
      ApplyMap(tmpMap, model, bs, list);
    }

    /** Eliminates the marked variables, in the equations and in the optimization expressions, the first
        time it is called. */
    method EliminateVariables(model: Model)
      requires model.Valid()
      modifies this, pathConstraints`lhs, pathConstraints`rhs, pointConstraints`lhs, pointConstraints`rhs
      modifies model, model.equations.blt`variableToSolution, EquationsOf(model.equations.blt)
      ensures model.Valid() && model.callCountEliminations == old(model.callCountEliminations) + 1
      ensures old(model.callCountEliminations) == 0 ==>
                Eliminated(old(model.equations.Values()), old(model.listToEliminate), model.equations.Values(),
                           model.listToEliminate, model.eliminatedVariableToSolution)
      ensures old(model.callCountEliminations) == 0 ==>
                && ValuesKept(model.eliminatedVariableToSolution, old(Terms()), Terms(),
                              old(Record(Constraints())), Constraints())
                && FreeOf(model.eliminatedVariableToSolution.Keys, Terms(), Constraints())
      ensures old(model.callCountEliminations) > 0 ==>
                && model.equations.Values() == old(model.equations.Values()) && Terms() == old(Terms())
                && model.eliminatedVariableToSolution == old(model.eliminatedVariableToSolution)
                && Record(Constraints()) == old(Record(Constraints()))
    {
      hide AllSubstituted, BLT.Values, Apart, Sound, Record, AllListed, SortedById, Substitutes, WellFormed, ValuesKept,
           FreeOf, Eliminated;
      if model.callCountEliminations < 1 {
        EliminateOnce(model);
      } else {
        SoundLater(model.original, model.equations.Values(), model.listToEliminate, model.eliminatedVariableToSolution,
            model.callCountEliminations);
      }
      label Done:
      model.callCountEliminations := model.callCountEliminations + 1;
      assert EquationsOf(model.equations.blt) == old@Done(EquationsOf(model.equations.blt));
      assert model.equations.Values() == old@Done(model.equations.Values());
    }

    method EliminateOnce(model: Model)
      requires model.Valid() && model.callCountEliminations == 0
      modifies this, pathConstraints`lhs, pathConstraints`rhs, pointConstraints`lhs, pointConstraints`rhs
      modifies model`listToEliminate, model`eliminated, model`eliminatedVariableToSolution
      modifies model.equations.blt`variableToSolution, EquationsOf(model.equations.blt)
      ensures model.equations.Valid()
      ensures Sound(model.original, model.equations.Values(), model.listToEliminate, model.eliminatedVariableToSolution,
                1)
      ensures Eliminated(old(model.equations.Values()), old(model.listToEliminate), model.equations.Values(),
                         model.listToEliminate, model.eliminatedVariableToSolution)
      ensures ValuesKept(model.eliminatedVariableToSolution, old(Terms()), Terms(),
                         old(Record(Constraints())), Constraints())
      ensures FreeOf(model.eliminatedVariableToSolution.Keys, Terms(), Constraints())
    {
      hide AllSubstituted, BLT.Values, Apart, Sound, Record, AllListed, SortedById, Substitutes, WellFormed, ValuesKept,
           FreeOf, GoneUnlessOwn, EliminateIn;
      ghost var bs := model.equations.Values();
      SoundParts(model.original, bs, model.listToEliminate, model.eliminatedVariableToSolution, 0);
      model.EliminateListed();
      ApplyMap(model.eliminatedVariableToSolution, model, bs, model.listToEliminate);
    }
  }

  /** The expressions have the values they had, wherever the substituted variables have theirs. */
  ghost predicate ValuesKept(m: Subst, terms: seq<Expr>, newTerms: seq<Expr>, was: map<Constraint, Eq>,
                             cs: seq<Constraint>)
    reads cs
  {
    && |newTerms| == |terms|
    && forall I: Interp, env: Env :: MapHolds(I, env, m) ==>
        SameValues(I, env, terms, newTerms) && SameSides(I, env, was, cs)
  }

  ghost predicate SameValues(I: Interp, env: Env, terms: seq<Expr>, newTerms: seq<Expr>)
    requires |newTerms| == |terms|
  {
    forall k :: 0 <= k < |terms| ==> Eval(I, env, newTerms[k]) == Eval(I, env, terms[k])
  }

  /** None of vs is left. */
  ghost predicate FreeOf(vs: set<nat>, terms: seq<Expr>, cs: seq<Constraint>)
    reads cs
  {
    && (forall k :: 0 <= k < |terms| ==> Vars(terms[k]) !! vs)
    && (forall c :: c in cs ==> Vars(c.lhs) !! vs && Vars(c.rhs) !! vs)
  }

  lemma SubstitutedKeepsValues(m: Subst, terms: seq<Expr>, newTerms: seq<Expr>, was: map<Constraint, Eq>,
                               cs: seq<Constraint>)
    requires newTerms == ApplyAll(m, terms) && AllSubstituted(m, was, cs)
    ensures ValuesKept(m, terms, newTerms, was, cs)
  {
    forall I: Interp, env: Env | MapHolds(I, env, m)
      ensures SameValues(I, env, terms, newTerms) && SameSides(I, env, was, cs)
    {
      forall k | 0 <= k < |terms| ensures Eval(I, env, newTerms[k]) == Eval(I, env, terms[k]) {
        ApplyPreservesValue(I, env, m, terms[k]);
      }
      SubstitutedHasSameSides(I, env, m, was, cs);
    }
  }

  lemma SubstitutedIsFree(bs: seq<BlockValue>, list: seq<Listed>, terms: seq<Expr>, newTerms: seq<Expr>,
                          was: map<Constraint, Eq>, cs: seq<Constraint>)
    requires WellFormed(bs) && AllListed(bs, list) && SortedById(list)
    requires newTerms == ApplyAll(Substitutes(bs, list), terms) && AllSubstituted(Substitutes(bs, list), was, cs)
    ensures FreeOf(Substitutes(bs, list).Keys, newTerms, cs)
  {
    var m := Substitutes(bs, list);
    forall k | 0 <= k < |terms| ensures Vars(newTerms[k]) !! m.Keys { SubstitutionRemoves(bs, list, terms[k]); }
    forall c | c in cs ensures Vars(c.lhs) !! m.Keys && Vars(c.rhs) !! m.Keys {
      SubstitutionRemoves(bs, list, was[c].lhs);
      SubstitutionRemoves(bs, list, was[c].rhs);
    }
  }

  /** Wherever the equations hold, the substituted variables have the values of their expressions. */
  ghost predicate ImpliesMap(bs: seq<BlockValue>, m: Subst) {
    forall I: Interp, env: Env :: DaeHolds(I, env, bs) ==> MapHolds(I, env, m)
  }

  lemma MapHoldsWithDae(bs: seq<BlockValue>, list: seq<Listed>)
    requires WellFormed(bs) && AllListed(bs, list)
    ensures ImpliesMap(bs, Substitutes(bs, list))
  {
    forall I, env | DaeHolds(I, env, bs) ensures MapHolds(I, env, Substitutes(bs, list)) {
      ListHoldsInDae(I, env, bs, list);
      MapHoldsFromList(I, env, bs, list);
    }
  }

  lemma Recorded(path: seq<Constraint>, point: seq<Constraint>)
    ensures Records(Record(path + point), path) && Records(Record(path + point), point)
  {
    forall k | 0 <= k < |path| ensures path[k] in path + point {
      assert (path + point)[k] == path[k];
    }
    forall k | 0 <= k < |point| ensures point[k] in path + point {
      assert (path + point)[|path| + k] == point[k];
    }
  }

  lemma KeysGiveMap(m: map<nat, Expr>, keys: seq<nat>, values: seq<Expr>)
    requires Set(keys) == m.Keys && |values| == |keys|
    requires forall j :: 0 <= j < |keys| ==> keys[j] in m && values[j] == m[keys[j]]
    ensures SubstOf(keys, values) == m
  {
    forall v: nat ensures v in keys <==> v in m { assert v in Set(keys) <==> v in m; }
  }

  lemma TermsFirst(terms: seq<Expr>, upToPath: seq<Expr>, expressions: seq<Expr>)
    requires |terms| == 4 <= |upToPath| <= |expressions| && upToPath[..4] == terms
    requires expressions[..|upToPath|] == upToPath
    ensures forall k :: 0 <= k < 4 ==> expressions[k] == terms[k]
  {
    forall k | 0 <= k < 4 ensures expressions[k] == terms[k] {
      assert expressions[..|upToPath|][k] == upToPath[k] == upToPath[..4][k];
    }
  }
}
