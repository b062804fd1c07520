/** Elimination in Model and OptimizationProblem of the C++ interface (Model.cpp, OptimizationProblem.cpp). */
module CasadiModels {
  import opened Expressions
  import opened BltValues
  import opened Blts
  import opened Options
  import opened BlockSolving
  import LinearBlocks

  // ----- std::list::sort -----

  lemma SortedFrom(l: Listed, list: seq<Listed>)
    requires SortedById(list) && forall x :: x in list ==> l.0 <= x.0
    ensures SortedById([l] + list)
  {
    forall i, j | 0 <= i < j < |[l] + list| ensures ([l] + list)[i].0 <= ([l] + list)[j].0 {
      assert list[j - 1] in list;
    }
  }

  /** Puts l before the first entry whose block is not smaller. */
  function InsertById(l: Listed, list: seq<Listed>): (r: seq<Listed>)
    requires SortedById(list)
    ensures SortedById(r) && forall x :: x in r <==> x == l || x in list
  {
    if list == [] || l.0 <= list[0].0 then
      SortedFrom(l, list);
      [l] + list
    else
      assert list == [list[0]] + list[1..];
      var rest := InsertById(l, list[1..]);
      SortedFrom(list[0], rest);
      [list[0]] + rest
  }

  /** Sorted by block; entries of the same block stay in order. */
  function SortById(list: seq<Listed>): (r: seq<Listed>)
    ensures SortedById(r) && forall x :: x in r <==> x in list
  {
    if list == [] then [] else
      assert list == [list[0]] + list[1..];
      InsertById(list[0], SortById(list[1..]))
  }

  lemma {:induction false} InsertKeepsElements(l: Listed, list: seq<Listed>)
    requires SortedById(list)
    ensures multiset(InsertById(l, list)) == multiset(list) + multiset{l}
  {
    if !(list == [] || l.0 <= list[0].0) {
      assert list == [list[0]] + list[1..];
      InsertKeepsElements(l, list[1..]);
    }
  }

  /** Sorting keeps every entry as often as it is listed. */
  lemma {:induction false} SortKeepsElements(list: seq<Listed>)
    ensures multiset(SortById(list)) == multiset(list)
  {
    if list != [] {
      assert list == [list[0]] + list[1..];
      SortKeepsElements(list[1..]);
      InsertKeepsElements(list[0], SortById(list[1..]));
    }
  }

  lemma SortedIsListed(bs: seq<BlockValue>, list: seq<Listed>)
    requires AllListed(bs, list)
    ensures AllListed(bs, SortById(list))
  {
    var r := SortById(list);
    forall k | 0 <= k < |r| ensures HasSolution(bs, r[k].0, r[k].1) {
      assert r[k] in list;
    }
  }

  /** The original equations say what the present ones and the eliminated variables' expressions say. */
  ghost predicate Faithful(original: seq<BlockValue>, bs: seq<BlockValue>, eliminated: Subst) {
    forall I: Interp, env: Env :: DaeHolds(I, env, original) <==> DaeHolds(I, env, bs) && MapHolds(I, env, eliminated)
  }

  /** The same values solve the equations before and after. */
  ghost predicate SameSolutions(before: seq<BlockValue>, after: seq<BlockValue>) {
    forall I: Interp, env: Env :: DaeHolds(I, env, before) <==> DaeHolds(I, env, after)
  }

  /** The variables in z with the flag and a solution. */
  ghost function Candidates(bs: seq<BlockValue>, z: seq<nat>, eliminable: set<nat>): set<nat> {
    set v | v in z && v in eliminable && exists i :: HasSolution(bs, i, v)
  }

  lemma SubstitutionStaysFaithful(original: seq<BlockValue>, bs: seq<BlockValue>, list: seq<Listed>, eliminated: Subst)
    requires WellFormed(bs) && AllListed(bs, list) && SortedById(list) && Faithful(original, bs, eliminated)
    ensures Faithful(original, SubstituteInAll(Substitutes(bs, list), bs), eliminated)
  {
    forall I: Interp, env: Env
      ensures DaeHolds(I, env, bs) <==> DaeHolds(I, env, SubstituteInAll(Substitutes(bs, list), bs))
    {
      SubstitutionKeepsMeaning(I, env, bs, list);
    }
  }

  lemma EliminationStaysFaithful(original: seq<BlockValue>, bs: seq<BlockValue>, list: seq<Listed>)
    requires WellFormed(bs) && AllListed(bs, list) && Faithful(original, bs, map[])
    ensures Faithful(original, EliminateIn(Substitutes(bs, list), bs), Substitutes(bs, list))
  {
    forall I: Interp, env: Env
      ensures DaeHolds(I, env, original) <==>
              DaeHolds(I, env, EliminateIn(Substitutes(bs, list), bs)) && MapHolds(I, env, Substitutes(bs, list))
    {
      EliminationKeepsMeaning(I, env, bs, list);
      assert MapHolds(I, env, map[]);
    }
  }

  lemma ListStaysValid(bs: seq<BlockValue>, m: Subst, list: seq<Listed>)
    requires AllListed(bs, list)
    ensures AllListed(SubstituteInAll(m, bs), list)
  {
    forall k | 0 <= k < |list| ensures HasSolution(SubstituteInAll(m, bs), list[k].0, list[k].1) {
      assert HasSolution(bs, list[k].0, list[k].1);
    }
  }

  lemma {:induction false} SubstitutionKeepsCount(m: Subst, bs: seq<BlockValue>)
    ensures EquationCount(SubstituteInAll(m, bs)) == EquationCount(bs)
  {
    if bs != [] {
      var last := bs[|bs| - 1];
      SubstitutionKeepsCount(m, bs[..|bs| - 1]);
      assert SubstituteInAll(m, bs)[..|bs| - 1] == SubstituteInAll(m, bs[..|bs| - 1]);
      assert SubstituteIn(m, last).solutions.Keys == last.solutions.Keys;
      assert |SubstituteIn(m, last).solutions| == |SubstituteIn(m, last).solutions.Keys| == |last.solutions|;
    }
  }

  /** What a model keeps at all times: the form is block lower triangular, the marked variables have
      solutions while nothing has been eliminated, and the meaning is that of the original equations. */
  ghost predicate Sound(original: seq<BlockValue>, bs: seq<BlockValue>, list: seq<Listed>, eliminated: Subst,
                        calls: nat)
  {
    && WellFormed(bs) && Faithful(original, bs, eliminated)
    && (calls == 0 ==> AllListed(bs, list) && eliminated == map[])
  }

  lemma InitiallySound(bs: seq<BlockValue>)
    requires WellFormed(bs)
    ensures Sound(bs, bs, [], map[], 0)
  {
    forall I: Interp, env: Env ensures MapHolds(I, env, map[]) {}
  }

  lemma SoundParts(original: seq<BlockValue>, bs: seq<BlockValue>, list: seq<Listed>, eliminated: Subst, calls: nat)
    requires Sound(original, bs, list, eliminated, calls)
    ensures WellFormed(bs) && (calls == 0 ==> AllListed(bs, list))
  {}

  lemma SoundAfterMarking(original: seq<BlockValue>, bs: seq<BlockValue>, list: seq<Listed>, added: seq<Listed>,
                          eliminated: Subst, calls: nat)
    requires Sound(original, bs, list, eliminated, calls) && AllListed(bs, added)
    ensures Sound(original, bs, list + added, eliminated, calls)
  {}

  lemma SoundAfterSubstitution(original: seq<BlockValue>, bs: seq<BlockValue>, marked: seq<Listed>, list: seq<Listed>,
                               eliminated: Subst, calls: nat)
    requires Sound(original, bs, marked, eliminated, calls) && AllListed(bs, list) && SortedById(list)
    ensures Sound(original, SubstituteInAll(Substitutes(bs, list), bs), marked, eliminated, calls)
    ensures SameSolutions(bs, SubstituteInAll(Substitutes(bs, list), bs))
  {
    SubstitutionKeepsForm(bs, list);
    SubstitutionStaysFaithful(original, bs, list, eliminated);
    if calls == 0 { ListStaysValid(bs, Substitutes(bs, list), marked); }
    forall I, env ensures DaeHolds(I, env, bs) <==> DaeHolds(I, env, SubstituteInAll(Substitutes(bs, list), bs)) {
      SubstitutionKeepsMeaning(I, env, bs, list);
    }
  }

  /** The systems are linear, and nonsingular whatever the values of the variables; none of the unknowns
      has a solution yet. */
  ghost predicate SolvableSystems(solve: LinearBlocks.Solver, bs: seq<BlockValue>, systems: seq<Option<System>>) {
    && LinearBlocks.IsSolver(solve) && AllFit(bs, systems)
    && (forall i :: 0 <= i < |bs| && systems[i].Some? ==>
          MentionsKnown(bs[i], systems[i].value) && bs[i].solutions.Keys !! bs[i].variables)
    && (forall I: Interp, env: Env :: AllSolvable(solve, I, env, bs, systems))
  }

  /** A model stays sound when the linear systems in its blocks are solved. */
  lemma SoundAfterSolving(original: seq<BlockValue>, bs: seq<BlockValue>, list: seq<Listed>, eliminated: Subst,
                          calls: nat,
                          solve: LinearBlocks.Solver, systems: seq<Option<System>>)
    requires Sound(original, bs, list, eliminated, calls) && EquationsTriangular(bs)
    requires SolvableSystems(solve, bs, systems)
    ensures Sound(original, SolvedBlocks(bs, systems), list, eliminated, calls)
    ensures SameSolutions(bs, SolvedBlocks(bs, systems))
  {
    hide DaeHolds, SolvedBlock, LinearBlocks.IsSolver, AllSolvable, SolutionsAgree, MentionsKnown, EquationsTriangular,
         WellFormed, MapHolds;
    var after := SolvedBlocks(bs, systems);
    SolvingKeepsForm(bs, systems);
    forall I: Interp, env: Env ensures DaeHolds(I, env, bs) <==> DaeHolds(I, env, after) {
      SolvingKeepsMeaning(solve, I, env, bs, systems);
      forall i | 0 <= i < |bs| && systems[i].Some? ensures SolutionsAgree(I, env, bs[i], systems[i].value) {
        NothingToCompare(I, env, bs[i], systems[i].value);
      }
    }
    if calls == 0 {
      forall k | 0 <= k < |list| ensures HasSolution(after, list[k].0, list[k].1) {
        assert HasSolution(bs, list[k].0, list[k].1);
        SolutionsStay(bs, systems, list[k].0, list[k].1);
      }
    }
  }

  lemma NothingToCompare(I: Interp, env: Env, b: BlockValue, s: System)
    requires Fits(b, s) && b.solutions.Keys !! b.variables
    ensures SolutionsAgree(I, env, b, s)
  {}

  lemma SolutionsStay(bs: seq<BlockValue>, systems: seq<Option<System>>, i: nat, v: nat)
    requires AllFit(bs, systems) && HasSolution(bs, i, v)
    ensures HasSolution(SolvedBlocks(bs, systems), i, v)
  {}

  lemma SoundAfterElimination(original: seq<BlockValue>, bs: seq<BlockValue>, list: seq<Listed>, calls: nat)
    requires Sound(original, bs, list, map[], 0) && SortedById(list) && calls > 0
    ensures Sound(original, EliminateIn(Substitutes(bs, list), bs), list, Substitutes(bs, list), calls)
    ensures GoneUnlessOwn(bs, EliminateIn(Substitutes(bs, list), bs), Substitutes(bs, list))
  {
    SubstitutionKeepsForm(bs, list);
    EliminationStaysFaithful(original, bs, list);
    EliminationGone(bs, list);
  }

  lemma SoundWhenSorted(original: seq<BlockValue>, bs: seq<BlockValue>, list: seq<Listed>, eliminated: Subst)
    requires Sound(original, bs, list, eliminated, 0)
    ensures eliminated == map[] && Sound(original, bs, SortById(list), map[], 0)
  {
    SortedIsListed(bs, list);
  }

  lemma SoundLater(original: seq<BlockValue>, bs: seq<BlockValue>, list: seq<Listed>, eliminated: Subst, calls: nat)
    requires Sound(original, bs, list, eliminated, calls) && calls > 0
    ensures Sound(original, bs, list, eliminated, calls + 1)
  {}

  /** After the elimination: which eliminated variables the remaining equations still mention. */
  ghost predicate GoneUnlessOwn(before: seq<BlockValue>, after: seq<BlockValue>, m: Subst) {
    forall w: nat :: w in m && ExternalsKnown(before, {w}) ==>
        (DaeMentions(after, w) <==> OwnUnsolvedMention(before, w))
  }

  class Model {
    const equations: BLT
    const z: seq<nat>
    const eliminable: set<nat>
    var eliminated: set<nat>
    var listToEliminate: seq<Listed>
    var eliminatedVariableToSolution: map<nat, Expr>
    var callCountEliminations: nat
    ghost const original: seq<BlockValue>

    ghost predicate Valid()
      reads this, equations, equations.blt, EquationsOf(equations.blt)
    {
      && equations.Valid()
      && Sound(original, equations.Values(), listToEliminate, eliminatedVariableToSolution, callCountEliminations)
    }

    /** z are the model's variables, eliminable those with the flag set. */
    constructor (equations: BLT, z: seq<nat>, eliminable: set<nat>)
      requires equations.Valid() && WellFormed(equations.Values())
      ensures Valid() && this.equations == equations && original == equations.Values()
      ensures this.z == z && this.eliminable == eliminable && callCountEliminations == 0 && listToEliminate == []
    {
      hide Sound, BLT.Values, Apart, WellFormed;
      this.equations, this.z, this.eliminable := equations, z, eliminable;
      eliminated, listToEliminate, eliminatedVariableToSolution, callCountEliminations := {}, [], map[], 0;
      original := equations.Values();
      InitiallySound(equations.Values());
      new;
      assert EquationsOf(equations.blt) == old(EquationsOf(equations.blt)) &&
             equations.Values() == old(equations.Values());
    }

    /** The variables of vars that have the flag and a solution, with the block of the solution. */
    method FindSolved(vars: seq<nat>) returns (list: seq<Listed>)
      ensures equations.Values() == old(equations.Values())
      ensures EquationsOf(equations.blt) == old(EquationsOf(equations.blt))
      ensures equations.Valid() == old(equations.Valid())
      ensures AllListed(equations.Values(), list)
      ensures forall v :: v in Candidates(equations.Values(), vars, eliminable) <==> exists l :: l in list && l.1 == v
    {
      hide BLT.Values, Candidates;
      list := [];
      ghost var bs := equations.Values();
      for k := 0 to |vars|
        modifies {}
        invariant EquationsOf(equations.blt) == old(EquationsOf(equations.blt))
        invariant equations.Valid() == old(equations.Valid())
        invariant equations.Values() == bs && AllListed(bs, list)
        invariant forall l :: l in list ==> l.1 in Candidates(bs, vars, eliminable)
        invariant forall j :: 0 <= j < k && vars[j] in Candidates(bs, vars, eliminable) ==>
                    exists l :: l in list && l.1 == vars[j]
      {
        if vars[k] in eliminable {
          var id := equations.GetBlockIDWithSolutionOf(vars[k]);
          assert EquationsOf(equations.blt) == old(EquationsOf(equations.blt)) && equations.Values() == bs;
          IsCandidate(bs, vars, eliminable, k, id);
          if id >= 0 {
            assert (id, vars[k]) in list + [(id, vars[k])];
            list := list + [(id, vars[k])];
          }
        } else {
          NotCandidate(bs, vars, eliminable, k);
        }
      }
      CandidatesAreListed(bs, vars, eliminable);
    }

    /** Appends the variables that have the flag and a solution. */
    method MarkVariablesForElimination(vars: seq<nat>)
      requires Valid()
      modifies `listToEliminate
      ensures Valid() && old(listToEliminate) <= listToEliminate
      ensures forall v :: v in Candidates(equations.Values(), vars, eliminable) <==>
                exists l :: l in listToEliminate[|old(listToEliminate)|..] && l.1 == v
    {
      hide Sound, BLT.Values, Apart, Candidates, AllListed;
      ghost var before, bs := listToEliminate, equations.Values();
      var added := FindSolved(vars);
      SoundAfterMarking(original, bs, listToEliminate, added, eliminatedVariableToSolution, callCountEliminations);
      listToEliminate := listToEliminate + added;
      assert listToEliminate[|before|..] == added;
      assert EquationsOf(equations.blt) == old(EquationsOf(equations.blt)) && equations.Values() == bs;
    }

    /** Substitutes all eliminable variables in the equations and keeps the equations z = f(z). */
    method SubstituteAllEliminables() returns (tmpMap: map<nat, Expr>, ghost list: seq<Listed>)
      requires Valid()
      modifies equations.blt`variableToSolution, EquationsOf(equations.blt)
      ensures Valid()
      ensures AllListed(old(equations.Values()), list) && SortedById(list)
      ensures tmpMap == Substitutes(old(equations.Values()), list)
      ensures tmpMap.Keys == Candidates(old(equations.Values()), z, eliminable)
      ensures equations.Values() == SubstituteInAll(tmpMap, old(equations.Values()))
      ensures SameSolutions(old(equations.Values()), equations.Values())
      ensures Replaced(tmpMap, old(equations.Values()), equations.Values(), {})
      ensures EquationCount(equations.Values()) == EquationCount(old(equations.Values()))
    {
      hide Sound, SameSolutions, Replaced, SubstituteInAll, AllListed, BLT.Values, Apart, Candidates, Substitutes,
           SortedById,
           ReplacesInBlocks;
      ghost var bs := equations.Values();
      var toSubstituteList := FindSolved(z);
      SortedIsListed(bs, toSubstituteList);
      toSubstituteList := SortById(toSubstituteList);
      list := toSubstituteList;
      tmpMap := equations.GetSubstitues(toSubstituteList);
      SubstitutesKeys(bs, list, z, eliminable);
      SoundAfterSubstitution(original, bs, listToEliminate, list, eliminatedVariableToSolution, callCountEliminations);
      SubstitutionKeepsCount(tmpMap, bs);
      SoundParts(original, bs, listToEliminate, eliminatedVariableToSolution, callCountEliminations);
      SubstitutesReplace(bs, list);
      equations.Substitute(tmpMap);
    }

    /** Marks the listed variables as eliminated. */
    method MarkEliminated()
      modifies `eliminated
      ensures equations.Values() == old(equations.Values())
      ensures EquationsOf(equations.blt) == old(EquationsOf(equations.blt))
      ensures equations.Valid() == old(equations.Valid())
      ensures eliminated == old(eliminated) + (set l | l in listToEliminate :: l.1)
    {
      hide BLT.Values, Apart;
      for k := 0 to |listToEliminate|
        invariant eliminated == old(eliminated) + (set j | 0 <= j < k :: listToEliminate[j].1)
      {
        if listToEliminate[k].1 !in eliminated {
          eliminated := eliminated + {listToEliminate[k].1};
        }
      }
      EliminatedSet(listToEliminate);
      assert EquationsOf(equations.blt) == old(EquationsOf(equations.blt));
    }

    /** Sorts the list, marks its variables as eliminated, and eliminates them from the equations. */
    method EliminateListed()
      requires Valid() && callCountEliminations == 0
      modifies `listToEliminate, `eliminated, `eliminatedVariableToSolution, equations.blt`variableToSolution,
                 EquationsOf(equations.blt)
      ensures equations.Valid() && Sound(original, equations.Values(), listToEliminate, eliminatedVariableToSolution, 1)
      ensures Eliminated(old(equations.Values()), old(listToEliminate), equations.Values(), listToEliminate,
                eliminatedVariableToSolution)
      ensures eliminated == old(eliminated) + (set l | l in listToEliminate :: l.1)
    {
      hide Sound, Replaced, ReplacesInBlocks, EliminateIn, AllListed, GoneUnlessOwn, BLT.Values, Apart, Substitutes,
           SortedById, SortById;
      ghost var bs, sorted := equations.Values(), SortById(listToEliminate);
      SoundWhenSorted(original, bs, listToEliminate, eliminatedVariableToSolution);
      SortKeepsElements(listToEliminate);
      SoundParts(original, bs, sorted, map[], 0);
      listToEliminate := SortById(listToEliminate);
      MarkEliminated();
      var m := equations.GetSubstitues(listToEliminate);
      SoundAfterElimination(original, bs, sorted, 1);
      SubstitutesReplace(bs, sorted);
      equations.EliminateVariables(m, sorted);
      eliminatedVariableToSolution := m;
      assert EquationsOf(equations.blt) == old(EquationsOf(equations.blt)) && equations.Values() == EliminateIn(m, bs);
    }

    /** Eliminates the marked variables, the first time it is called. */
    method EliminateVariables()
      requires Valid()
      modifies this, equations.blt`variableToSolution, EquationsOf(equations.blt)
      ensures Valid() && callCountEliminations == old(callCountEliminations) + 1
      ensures old(callCountEliminations) == 0 ==>
                Eliminated(old(equations.Values()), old(listToEliminate), equations.Values(), listToEliminate,
                    eliminatedVariableToSolution)
      ensures old(callCountEliminations) == 0 ==> eliminated == old(eliminated) + (set l | l in listToEliminate :: l.1)
      ensures old(callCountEliminations) > 0 ==>
                equations.Values() == old(equations.Values()) && eliminated == old(eliminated) &&
                    listToEliminate == old(listToEliminate)
      ensures old(callCountEliminations) > 0 ==> eliminatedVariableToSolution == old(eliminatedVariableToSolution)
    {
      hide Sound, Eliminated, BLT.Values, Apart;
      if callCountEliminations < 1 {
        EliminateListed();
      } else {
        SoundLater(original, equations.Values(), listToEliminate, eliminatedVariableToSolution, callCountEliminations);
      }
      label Done:
      callCountEliminations := callCountEliminations + 1;
      assert EquationsOf(equations.blt) == old@Done(EquationsOf(equations.blt)) &&
             equations.Values() == old@Done(equations.Values());
    }
  }

  /** What the first elimination does: from blocks and marked list to blocks, sorted list and map. */
  ghost predicate Eliminated(before: seq<BlockValue>, marked: seq<Listed>, after: seq<BlockValue>, list: seq<Listed>,
                             m: Subst)
  {
    && AllListed(before, list) && SortedById(list) && multiset(list) == multiset(marked)
    && m == Substitutes(before, list) && after == EliminateIn(m, before) && GoneUnlessOwn(before, after, m)
    && Replaced(m, before, after, m.Keys)
  }

  lemma IsCandidate(bs: seq<BlockValue>, vars: seq<nat>, eliminable: set<nat>, k: nat, id: int)
    requires k < |vars| && vars[k] in eliminable
    requires if id >= 0 then HasSolution(bs, id, vars[k]) else forall i :: !HasSolution(bs, i, vars[k])
    ensures vars[k] in Candidates(bs, vars, eliminable) <==> id >= 0
  {}

  lemma NotCandidate(bs: seq<BlockValue>, vars: seq<nat>, eliminable: set<nat>, k: nat)
    requires k < |vars| && vars[k] !in eliminable
    ensures vars[k] !in Candidates(bs, vars, eliminable)
  {}

  lemma CandidatesAreListed(bs: seq<BlockValue>, vars: seq<nat>, eliminable: set<nat>)
    ensures forall v :: v in Candidates(bs, vars, eliminable) ==> exists j :: 0 <= j < |vars| && vars[j] == v
  {}

  lemma SubstitutesKeys(bs: seq<BlockValue>, list: seq<Listed>, z: seq<nat>, eliminable: set<nat>)
    requires AllListed(bs, list)
    requires forall v :: v in Candidates(bs, z, eliminable) <==> exists l :: l in list && l.1 == v
    ensures Substitutes(bs, list).Keys == Candidates(bs, z, eliminable)
  {
    forall v: nat ensures v in Substitutes(bs, list) <==> v in Candidates(bs, z, eliminable) {
      SubstitutesAt(bs, list, 0, v);
      if j :| 0 <= j < |list| && list[j].1 == v { assert list[j] in list; }
    }
  }

  lemma EliminatedSet(list: seq<Listed>)
    ensures (set j | 0 <= j < |list| :: list[j].1) == (set l | l in list :: l.1)
  {
    forall l | l in list ensures l.1 in (set j | 0 <= j < |list| :: list[j].1) {
      var j :| 0 <= j < |list| && list[j] == l;
    }
    forall j | 0 <= j < |list| ensures list[j].1 in (set l | l in list :: l.1) { assert list[j] in list; }
  }

  lemma EliminationGone(bs: seq<BlockValue>, list: seq<Listed>)
    requires WellFormed(bs) && AllListed(bs, list) && SortedById(list)
    ensures GoneUnlessOwn(bs, EliminateIn(Substitutes(bs, list), bs), Substitutes(bs, list))
  {
    forall w: nat | w in Substitutes(bs, list) && ExternalsKnown(bs, {w})
      ensures DaeMentions(EliminateIn(Substitutes(bs, list), bs), w) <==> OwnUnsolvedMention(bs, w)
    {
      EliminatedVariablesAreGone(bs, list, w);
    }
  }
}
