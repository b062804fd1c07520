/** BLT of the C++ interface (BLT.cpp): the blocks in order, changed in place. */
module Blts {
  import opened Lists
  import opened Expressions
  import opened BltValues
  import opened Blocks
  import opened Options
  import opened BlockSolving

  /** Different blocks are different objects and share no equation objects. */
  ghost predicate Apart(blocks: seq<Block>)
    reads blocks`equations, blocks`unSolvedEquations
  {
    forall i, j :: 0 <= i < j < |blocks| ==> blocks[i] != blocks[j] && blocks[i].Objects() !! blocks[j].Objects()
  }

  ghost function EquationsOf(blocks: seq<Block>): set<Equation>
    reads blocks`equations, blocks`unSolvedEquations
  {
    set b, e | b in blocks && e in b.Objects() :: e
  }

  ghost function ValuesOf(blocks: seq<Block>): (r: seq<BlockValue>)
    reads blocks, EquationsOf(blocks)
    ensures |r| == |blocks| && forall i :: 0 <= i < |r| ==> r[i] == blocks[i].Value()
  {
    if blocks == [] then [] else
      assert blocks[|blocks| - 1] in blocks && forall b :: b in blocks[..|blocks| - 1] ==> b in blocks;
      ValuesOf(blocks[..|blocks| - 1]) + [blocks[|blocks| - 1].Value()]
  }

  /** Solutions of v are only in one block. */
  lemma OneSolution(bs: seq<BlockValue>, i: nat, j: nat, v: nat)
    requires WellFormed(bs) && HasSolution(bs, i, v) && HasSolution(bs, j, v)
    ensures i == j
  {
    assert Owns(bs, i, v) && Owns(bs, j, v);
  }

  /** The system that solves block b, if it is to be solved. */
  ghost function SystemOf(b: Block, xsolution: seq<Expr>): Option<System>
    reads b
  {
    if b.IsLinearSystem() then Some(System(b.variableToIndex, xsolution)) else None
  }

  ghost function SystemsOf(blocks: seq<Block>, xsolutions: seq<seq<Expr>>): (r: seq<Option<System>>)
    requires |xsolutions| == |blocks|
    reads blocks
    ensures |r| == |blocks| && forall i :: 0 <= i < |r| ==> r[i] == SystemOf(blocks[i], xsolutions[i])
  {
    seq(|blocks|, i requires 0 <= i < |blocks| reads blocks => SystemOf(blocks[i], xsolutions[i]))
  }

  class BLT {
    var blt: seq<Block>

    constructor ()
      ensures blt == []
    {
      blt := [];
    }

    ghost predicate Valid()
      reads this, blt`equations, blt`unSolvedEquations
    {
      Apart(blt)
    }

    ghost function Values(): seq<BlockValue>
      reads this, blt, EquationsOf(blt)
    {
      ValuesOf(blt)
    }

    /** The map of the listed variables: walks the list from the end, and for every variable
        substitutes along the list from the variable itself to the front. */
    method GetSubstitues(list: seq<Listed>) returns (storageMap: map<nat, Expr>)
      requires AllListed(Values(), list)
      ensures Values() == old(Values()) && EquationsOf(blt) == old(EquationsOf(blt)) && Valid() == old(Valid())
      ensures storageMap == Substitutes(Values(), list)
    {
      hide BackSubstitute, Apply, EqsOf;
      ghost var bs := Values();
      storageMap := map[];
      var k := |list|;
      while k > 0
        invariant 0 <= k <= |list| && storageMap == SubstitutesFrom(bs, list, k)
      {
        k := k - 1;
        assert HasSolution(bs, list[k].0, list[k].1);
        var solution := blt[list[k].0].variableToSolution[list[k].1];
        var j := k + 1;
        while j > 0
          invariant 0 <= j <= k + 1 && BackSubstitute(bs, list, j, solution) == Closed(bs, list, k)
        {
          j := j - 1;
          assert HasSolution(bs, list[j].0, list[j].1);
          var tmp := solution;
          BackSubstituteStep(bs, list, j, tmp);
          solution := Apply(map[list[j].1 := blt[list[j].0].variableToSolution[list[j].1]], tmp);
        }
        BackSubstituteDone(bs, list, solution);
        storageMap := storageMap[list[k].1 := solution];
      }
      assert storageMap == Substitutes(bs, list) && bs == Values();
    }

    /** Substitutes in block i; the other blocks keep their values. */
    method SubstituteBlock(i: nat, substituteMap: map<nat, Expr>)
      requires Valid() && i < |blt|
      modifies {blt[i]}`variableToSolution, blt[i].Objects()
      ensures blt[i].Value() == SubstituteIn(substituteMap, old(blt[i].Value()))
      ensures forall j :: 0 <= j < |blt| && j != i ==> blt[j].Value() == old(blt[j].Value())
    {
      hide SubstituteIn;
      assert forall j :: 0 <= j < |blt| && j != i ==> blt[j] != blt[i] && blt[j].Objects() !! blt[i].Objects();
      blt[i].Substitute(substituteMap);
    }

    /** Substitutes in every block. */
    method Substitute(substituteMap: map<nat, Expr>)
      requires Valid()
      modifies blt`variableToSolution, EquationsOf(blt)
      ensures Valid() && EquationsOf(blt) == old(EquationsOf(blt))
      ensures Values() == SubstituteInAll(substituteMap, old(Values()))
      ensures ReplacesInBlocks(substituteMap, old(Values()), Values(), {})
    {
      hide ReplacesInBlocks, SubstituteIn, Block.Value, Block.Objects, Apart;
      ghost var bs, objects := Values(), EquationsOf(blt);
      for i := 0 to |blt|
        invariant forall j :: 0 <= j < i ==> blt[j].Value() == SubstituteIn(substituteMap, bs[j])
        invariant forall j :: i <= j < |blt| ==> blt[j].Value() == bs[j]
      {
        assert blt[i] in blt && forall e :: e in blt[i].Objects() ==> e in objects;
        SubstituteBlock(i, substituteMap);
      }
      SubstituteAllReplaces(substituteMap, bs);
    }

    method RemoveInBlock(i: nat, v: nat) returns (removed: bool)
      requires Valid() && i < |blt|
      modifies {blt[i]}`variableToSolution
      ensures removed <==> v in old(blt[i].Value()).solutions
      ensures blt[i].Value() == old(blt[i].Value()).(solutions := old(blt[i].Value()).solutions - {v})
      ensures forall j :: 0 <= j < |blt| && j != i ==> blt[j].Value() == old(blt[j].Value())
    {
      removed := blt[i].RemoveSolutionOfVariable(v);
    }

    /** Removes the solution in the first block that has it. */
    method RemoveSolutionOfVariable(v: nat)
      requires Valid() && WellFormed(Values())
      modifies blt`variableToSolution
      ensures Valid() && EquationsOf(blt) == old(EquationsOf(blt))
      ensures Values() == RemoveSolutions({v}, old(Values()))
    {
      hide Block.Value, WellFormed, Apart;
      ghost var bs := Values();
      var found := false;
      var i := 0;
      while i < |blt| && !found
        invariant 0 <= i <= |blt|
        invariant forall j :: 0 <= j < i ==> blt[j].Value() == bs[j].(solutions := bs[j].solutions - {v})
        invariant forall j :: i <= j < |blt| ==> blt[j].Value() == bs[j]
        invariant found ==> i > 0 && HasSolution(bs, i - 1, v)
      {
        assert blt[i] in blt;
        found := RemoveInBlock(i, v);
        i := i + 1;
      }
      forall j | i <= j < |blt| ensures bs[j].(solutions := bs[j].solutions - {v}) == bs[j] {
        if HasSolution(bs, j, v) { OneSolution(bs, i - 1, j, v); }
        assert bs[j].solutions - {v} == bs[j].solutions;
      }
    }

    /** Substitutes everywhere, then removes the solutions of the substituted variables. */
    method EliminateVariables(substituteMap: map<nat, Expr>, ghost list: seq<Listed>)
      requires Valid() && WellFormed(Values()) && AllListed(Values(), list)
      requires substituteMap == Substitutes(Values(), list)
      modifies blt`variableToSolution, EquationsOf(blt)
      ensures Valid() && EquationsOf(blt) == old(EquationsOf(blt))
      ensures Values() == EliminateIn(substituteMap, old(Values()))
      ensures ReplacesInBlocks(substituteMap, old(Values()), Values(), substituteMap.Keys)
    {
      hide ReplacesInBlocks, WellFormed, SubstituteInAll, RemoveSolutions, Substitutes, AllListed, BLT.Values, Apart;
      SubstitutionKeepsForm(Values(), list);
      EliminationReplaces(substituteMap, Values());
      Substitute(substituteMap);
      ghost var sub := Values();
      var keys := KeysOf(substituteMap);
      NothingRemoved(sub);
      assert Set(keys[..0]) == {};
      for k := 0 to |keys|
        invariant Valid() && EquationsOf(blt) == old(EquationsOf(blt))
        invariant WellFormed(Values()) && Values() == RemoveSolutions(Set(keys[..k]), sub)
      {
        RemovingKeepsForm(Values(), {keys[k]});
        RemoveOneMore(sub, keys, k);
        RemoveSolutionOfVariable(keys[k]);
      }
      assert keys[..|keys|] == keys;
    }

    /** Solves block i when it is a linear system of several unknowns. */
    method SolveBlock(i: nat, xsolution: seq<Expr>)
      requires Valid() && i < |blt| && blt[i].Indexed() && |xsolution| == |blt[i].variables|
      modifies {blt[i]}`variableToSolution, {blt[i]}`unSolvedEquations, {blt[i]}`unSolvedVariables, {blt[i]}`solvable
      ensures Valid()
      ensures Fitting(old(blt[i].Value()), old(SystemOf(blt[i], xsolution)))
      ensures blt[i].Value() == SolvedIf(old(blt[i].Value()), old(SystemOf(blt[i], xsolution)))
      ensures !blt[i].IsLinearSystem()
      ensures forall j :: 0 <= j < |blt| && j != i ==>
        blt[j].Value() == old(blt[j].Value()) && blt[j].IsLinearSystem() == old(blt[j].IsLinearSystem())
    {
      hide SolutionMap, NumbersAll;
      assert forall j :: 0 <= j < |blt| && j != i ==> blt[j] != blt[i] && blt[j].Objects() !! blt[i].Objects();
      if |blt[i].unSolvedVariables| > 1 {
        blt[i].SolveLinearSystem(xsolution);
      }
    }

    /** Solves all linear systems of several unknowns; xsolutions are what the linear solver finds. */
    method SolveBlocksWithLinearSystems(xsolutions: seq<seq<Expr>>)
      requires Valid() && |xsolutions| == |blt|
      requires forall i :: 0 <= i < |blt| ==> blt[i].Indexed() && |xsolutions[i]| == |blt[i].variables|
      modifies blt`variableToSolution, blt`unSolvedEquations, blt`unSolvedVariables, blt`solvable
      ensures Valid()
      ensures AllFit(old(Values()), old(SystemsOf(blt, xsolutions)))
      ensures Values() == SolvedBlocks(old(Values()), old(SystemsOf(blt, xsolutions)))
      ensures forall b :: b in blt ==> !(b.linear && !b.simple && !b.solvable && |b.unSolvedVariables| > 1)
    {
      hide Block.Value, Block.Objects, Block.Indexed, Apart, SolutionMap, NumbersAll, SolvedBlock, Fits;
      ghost var bs, systems := Values(), SystemsOf(blt, xsolutions);
      for i := 0 to |blt|
        invariant Valid()
        invariant forall j :: 0 <= j < |blt| ==> blt[j].Indexed()
        invariant forall j :: i <= j < |blt| ==>
                    SystemOf(blt[j], xsolutions[j]) == systems[j] && blt[j].Value() == bs[j]
        invariant forall j :: 0 <= j < i ==> Fitting(bs[j], systems[j]) && blt[j].Value() == SolvedIf(bs[j], systems[j])
        invariant forall j :: 0 <= j < i ==> !blt[j].IsLinearSystem()
      {
        assert blt[i] in blt;
        SolveBlock(i, xsolutions[i]);
      }
    }

    /** The first block with a solution of v, or -1. */
    method GetBlockIDWithSolutionOf(v: nat) returns (id: int)
      ensures Values() == old(Values()) && EquationsOf(blt) == old(EquationsOf(blt)) && Valid() == old(Valid())
      ensures id >= 0 ==> HasSolution(Values(), id, v) && forall i :: 0 <= i < id ==> !HasSolution(Values(), i, v)
      ensures id < 0 ==> id == -1 && forall i :: !HasSolution(Values(), i, v)
    {
      for counter := 0 to |blt|
        invariant forall i :: 0 <= i < counter ==> !HasSolution(Values(), i, v)
      {
        if blt[counter].HasSolution(v) {
          return counter;
        }
      }
      id := -1;
    }

    /** The equations of all blocks, in order. */
    method GetDaeEquations() returns (modelEquations: seq<Equation>, ghost parts: seq<seq<Equation>>)
      ensures ListsDae(Values(), EqsOf(modelEquations))
      ensures modelEquations == Flatten(parts) && |parts| == |blt|
      ensures forall i :: 0 <= i < |blt| ==>
                IsPart(blt[i].Value(), EqsOf(parts[i])) && EndsWith(parts[i], blt[i].unSolvedEquations)
    {
      hide EqsOf, ListsDae, ListsBlock, AllEqHold, MapHolds, UnsolvedMention, SolutionsMention, IsPart, EndsWith, Apart,
           Flatten, NoRepeats;
      modelEquations, parts := [], [];
      ghost var bs := Values();
      NoEquations();
      for i := 0 to |blt|
        modifies {}
        invariant ListsDae(bs[..i], EqsOf(modelEquations))
        invariant forall j :: 0 <= j < |blt| ==> blt[j].Value() == bs[j]
        invariant modelEquations == Flatten(parts) && |parts| == i
        invariant forall j :: 0 <= j < i ==>
                    IsPart(bs[j], EqsOf(parts[j])) && EndsWith(parts[j], blt[j].unSolvedEquations)
      {
        var blockEqs, keys := blt[i].GetEquationsForModel();
        BlockEquationsListed(blt[i], blockEqs, keys);
        BlockPart(blt[i], blockEqs, keys);
        ListsDaeNext(bs, i, EqsOf(modelEquations), EqsOf(blockEqs));
        EqsOfConcat(modelEquations, blockEqs);
        modelEquations := modelEquations + blockEqs;
        FlattenNext(parts, blockEqs);
        parts := parts + [blockEqs];
      }
      assert bs[..|blt|] == bs == Values();
    }
  }

  lemma FlattenNext<T>(parts: seq<seq<T>>, part: seq<T>)
    ensures Flatten(parts + [part]) == Flatten(parts) + part
  {
    assert (parts + [part])[..|parts|] == parts;
  }

  /** The equations of a block: z = f(z) for every solution, in some order, and then the unsolved ones. */
  ghost predicate IsPart(b: BlockValue, eqs: seq<Eq>) {
    exists keys :: IsPartBy(b, eqs, keys)
  }

  ghost predicate IsPartBy(b: BlockValue, eqs: seq<Eq>, keys: seq<nat>) {
    && NoRepeats(keys) && Set(keys) == b.solutions.Keys && |eqs| == |keys| + |b.unsolved|
    && (forall k :: 0 <= k < |keys| ==> keys[k] in b.solutions && eqs[k] == Eq(Sym(keys[k]), b.solutions[keys[k]]))
    && eqs[|keys|..] == b.unsolved
  }

  ghost predicate EndsWith(eqs: seq<Equation>, tail: seq<Equation>) {
    |tail| <= |eqs| && eqs[|eqs| - |tail|..] == tail
  }

  lemma BlockPart(b: Block, eqs: seq<Equation>, keys: seq<nat>)
    requires NoRepeats(keys) && Set(keys) == b.variableToSolution.Keys && |eqs| == |keys| + |b.unSolvedEquations|
    requires forall k :: 0 <= k < |keys| ==>
               eqs[k].Value() == Eq(Sym(keys[k]), b.variableToSolution[assert keys[k] in Set(keys); keys[k]])
    requires eqs[|keys|..] == b.unSolvedEquations
    ensures IsPart(b.Value(), EqsOf(eqs)) && EndsWith(eqs, b.unSolvedEquations)
  {
    hide NoRepeats;
    EqsOfTail(eqs, |keys|, b.unSolvedEquations);
    forall k | 0 <= k < |keys| ensures keys[k] in b.variableToSolution { assert keys[k] in Set(keys); }
    assert IsPartBy(b.Value(), EqsOf(eqs), keys);
  }

  lemma NoEquations()
    ensures EqsOf([]) == [] && ListsDae([], []) && Flatten<Equation>([]) == []
  {}

  lemma BackSubstituteStep(bs: seq<BlockValue>, list: seq<Listed>, j: nat, e: Expr)
    requires AllListed(bs, list) && j < |list|
    ensures BackSubstitute(bs, list, j + 1, e) ==
              BackSubstitute(bs, list, j, Apply(map[list[j].1 := RawSolution(bs, list[j])], e))
  {}

  lemma BackSubstituteDone(bs: seq<BlockValue>, list: seq<Listed>, e: Expr)
    requires AllListed(bs, list)
    ensures BackSubstitute(bs, list, 0, e) == e
  {}

  lemma NothingRemoved(bs: seq<BlockValue>)
    ensures RemoveSolutions({}, bs) == bs
  {
    forall i | 0 <= i < |bs| ensures bs[i].(solutions := bs[i].solutions - {}) == bs[i] {
      assert bs[i].solutions - {} == bs[i].solutions;
    }
  }

  lemma RemovingKeepsForm(bs: seq<BlockValue>, vs: set<nat>)
    requires WellFormed(bs)
    ensures WellFormed(RemoveSolutions(vs, bs))
  {
    var out := RemoveSolutions(vs, bs);
    forall i, v ensures (Owns(out, i, v) <==> Owns(bs, i, v)) && (HasSolution(out, i, v) ==> HasSolution(bs, i, v)) {}
    forall i, v | HasSolution(out, i, v) ensures OnlyEarlier(out, i, out[i].solutions[v]) {
      assert HasSolution(bs, i, v) && OnlyEarlier(bs, i, bs[i].solutions[v]);
    }
  }

  lemma RemoveOneMore(bs: seq<BlockValue>, keys: seq<nat>, k: nat)
    requires k < |keys|
    ensures RemoveSolutions({keys[k]}, RemoveSolutions(Set(keys[..k]), bs)) == RemoveSolutions(Set(keys[..k + 1]), bs)
  {
    assert Set(keys[..k + 1]) == Set(keys[..k]) + {keys[k]};
    forall i | 0 <= i < |bs| ensures (bs[i].solutions - Set(keys[..k])) - {keys[k]} ==
        bs[i].solutions - Set(keys[..k + 1]) {}
  }

  // ----- The DAE equations as a list -----

  ghost predicate EqMentions(eq: Eq, w: nat) {
    w in Vars(eq.lhs) + Vars(eq.rhs)
  }

  ghost predicate EqsMention(eqs: seq<Eq>, w: nat) {
    exists k :: 0 <= k < |eqs| && EqMentions(eqs[k], w)
  }

  ghost function EquationCount(bs: seq<BlockValue>): nat {
    if bs == [] then 0 else EquationCount(bs[..|bs| - 1]) + |bs[|bs| - 1].solutions| + |bs[|bs| - 1].unsolved|
  }

  /** eqs say what the equations of one block say. */
  ghost predicate ListsBlock(b: BlockValue, eqs: seq<Eq>) {
    && |eqs| == |b.solutions| + |b.unsolved|
    && (forall I: Interp, env: Env :: AllEqHold(I, env, eqs) <==>
        MapHolds(I, env, b.solutions) && AllEqHold(I, env, b.unsolved))
    && (forall w: nat :: EqsMention(eqs, w) <==> BlockMentions(b, w))
  }

  /** eqs are the DAE equations of the blocks: as many, with the same meaning, mentioning the same variables. */
  ghost predicate ListsDae(bs: seq<BlockValue>, eqs: seq<Eq>) {
    && |eqs| == EquationCount(bs)
    && (forall I: Interp, env: Env :: AllEqHold(I, env, eqs) <==> DaeHolds(I, env, bs))
    && (forall w: nat :: EqsMention(eqs, w) <==> DaeMentions(bs, w))
  }

  lemma EqsOfConcat(a: seq<Equation>, b: seq<Equation>)
    ensures EqsOf(a + b) == EqsOf(a) + EqsOf(b)
  {}

  lemma AllEqHoldConcat(I: Interp, env: Env, a: seq<Eq>, b: seq<Eq>)
    ensures AllEqHold(I, env, a + b) <==> AllEqHold(I, env, a) && AllEqHold(I, env, b)
  {
    if AllEqHold(I, env, a + b) {
      forall k | 0 <= k < |a| ensures EqHolds(I, env, a[k]) { assert (a + b)[k] == a[k]; }
      forall k | 0 <= k < |b| ensures EqHolds(I, env, b[k]) { assert (a + b)[|a| + k] == b[k]; }
    }
  }

  lemma MentionConcat(a: seq<Eq>, b: seq<Eq>, w: nat)
    ensures EqsMention(a + b, w) <==> EqsMention(a, w) || EqsMention(b, w)
  {
    if k :| 0 <= k < |a| && EqMentions(a[k], w) { assert (a + b)[k] == a[k]; }
    if k :| 0 <= k < |b| && EqMentions(b[k], w) { assert (a + b)[|a| + k] == b[k]; }
  }

  lemma ListsDaeNext(bs: seq<BlockValue>, i: nat, before: seq<Eq>, now: seq<Eq>)
    requires i < |bs| && ListsDae(bs[..i], before) && ListsBlock(bs[i], now)
    ensures ListsDae(bs[..i + 1], before + now)
  {
    var a, b := bs[..i], bs[..i + 1];
    assert b[..i] == a && b[i] == bs[i];
    forall I: Interp, env: Env ensures AllEqHold(I, env, before + now) <==> DaeHolds(I, env, b) {
      AllEqHoldConcat(I, env, before, now);
    }
    forall w: nat ensures EqsMention(before + now, w) <==> DaeMentions(b, w) {
      MentionConcat(before, now, w);
      if c :| 0 <= c < i && BlockMentions(a[c], w) { assert BlockMentions(b[c], w); }
      if BlockMentions(bs[i], w) { assert BlockMentions(b[i], w); }
      if c :| 0 <= c < |b| && BlockMentions(b[c], w) {
        if c < i { assert BlockMentions(a[c], w); }
      }
    }
  }

  /** The equations of a block: those of the solutions, in the order of keys, and the unsolved ones. */
  lemma SolvedAndUnsolved(b: BlockValue, keys: seq<nat>, solved: seq<Eq>)
    requires NoRepeats(keys) && Set(keys) == b.solutions.Keys && |solved| == |keys|
    requires forall k :: 0 <= k < |keys| ==>
               solved[k] == Eq(Sym(keys[k]), b.solutions[assert keys[k] in Set(keys); keys[k]])
    ensures ListsBlock(b, solved + b.unsolved)
  {
    CountDistinct(keys);
    assert |b.solutions| == |b.solutions.Keys|;
    forall I: Interp, env: Env
      ensures AllEqHold(I, env, solved + b.unsolved) <==> MapHolds(I, env, b.solutions) && AllEqHold(I, env, b.unsolved)
    {
      AllEqHoldConcat(I, env, solved, b.unsolved);
      SolvedHold(I, env, b, keys, solved);
    }
    forall w: nat ensures EqsMention(solved + b.unsolved, w) <==> BlockMentions(b, w) {
      MentionConcat(solved, b.unsolved, w);
      SolvedMention(b, keys, solved, w);
    }
  }

  lemma SolvedHold(I: Interp, env: Env, b: BlockValue, keys: seq<nat>, solved: seq<Eq>)
    requires Set(keys) == b.solutions.Keys && |solved| == |keys|
    requires forall k :: 0 <= k < |keys| ==>
               solved[k] == Eq(Sym(keys[k]), b.solutions[assert keys[k] in Set(keys); keys[k]])
    ensures AllEqHold(I, env, solved) <==> MapHolds(I, env, b.solutions)
  {
    if AllEqHold(I, env, solved) {
      forall v | v in b.solutions ensures env(v) == Eval(I, env, b.solutions[v]) {
        assert v in Set(keys);
        var k :| 0 <= k < |keys| && keys[k] == v;
        assert EqHolds(I, env, solved[k]);
      }
    }
    if MapHolds(I, env, b.solutions) {
      forall k | 0 <= k < |solved| ensures EqHolds(I, env, solved[k]) { assert keys[k] in Set(keys); }
    }
  }

  lemma SolvedMention(b: BlockValue, keys: seq<nat>, solved: seq<Eq>, w: nat)
    requires Set(keys) == b.solutions.Keys && |solved| == |keys|
    requires forall k :: 0 <= k < |keys| ==>
               solved[k] == Eq(Sym(keys[k]), b.solutions[assert keys[k] in Set(keys); keys[k]])
    ensures EqsMention(solved, w) || EqsMention(b.unsolved, w) <==> BlockMentions(b, w)
  {
    if v :| v in b.solutions && (v == w || w in Vars(b.solutions[v])) {
      assert v in Set(keys);
      var k :| 0 <= k < |keys| && keys[k] == v;
      assert EqMentions(solved[k], w);
    }
    if k :| 0 <= k < |solved| && EqMentions(solved[k], w) {
      assert keys[k] in Set(keys);
    }
    if k :| 0 <= k < |b.unsolved| && EqMentions(b.unsolved[k], w) {}
    if k :| 0 <= k < |b.unsolved| && w in Vars(b.unsolved[k].lhs) + Vars(b.unsolved[k].rhs) {
      assert EqMentions(b.unsolved[k], w);
    }
  }

  lemma BlockEquationsListed(b: Block, eqs: seq<Equation>, keys: seq<nat>)
    requires NoRepeats(keys) && Set(keys) == b.variableToSolution.Keys && |eqs| == |keys| + |b.unSolvedEquations|
    requires forall k :: 0 <= k < |keys| ==>
               eqs[k].Value() == Eq(Sym(keys[k]), b.variableToSolution[assert keys[k] in Set(keys); keys[k]])
    requires eqs[|keys|..] == b.unSolvedEquations
    ensures ListsBlock(b.Value(), EqsOf(eqs))
  {
    hide ListsBlock, EqsOf, NoRepeats;
    var solved := EqsOf(eqs)[..|keys|];
    EqsOfTail(eqs, |keys|, b.unSolvedEquations);
    SolvedAndUnsolved(b.Value(), keys, solved);
  }

  lemma EqsOfTail(eqs: seq<Equation>, n: nat, tail: seq<Equation>)
    requires n <= |eqs| && eqs[n..] == tail
    ensures EqsOf(eqs) == EqsOf(eqs)[..n] + EqsOf(tail)
  {
    forall k | 0 <= k < |tail| ensures EqsOf(eqs)[n + k] == EqsOf(tail)[k] {
      assert eqs[n + k] == tail[k];
    }
  }
}
