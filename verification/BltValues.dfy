/**
 The transferred block lower triangular form (BLT.cpp, Block.cpp) as values: solutions put into
 each other along a list that is sorted by block, into all blocks, and then removed.
 */
module BltValues {
  import opened Expressions

  datatype Eq = Eq(lhs: Expr, rhs: Expr)

  /** One block: the solutions z = f(z), all equations, the equations that are not solved, the
      block's own variables and the external ones. */
  datatype BlockValue = BlockValue(solutions: Subst, equations: seq<Eq>, unsolved: seq<Eq>, variables: set<nat>,
      external: set<nat>)

  /** (block, variable) */
  type Listed = (nat, nat)

  ghost predicate HasSolution(bs: seq<BlockValue>, i: int, v: nat) {
    0 <= i < |bs| && v in bs[i].solutions
  }

  ghost predicate Owns(bs: seq<BlockValue>, i: int, v: nat) {
    0 <= i < |bs| && v in bs[i].variables
  }

  /** Block lower triangular: blocks own different variables, have solutions for variables of their
      own, and a solution mentions only variables of strictly earlier blocks, or of none. */
  ghost predicate WellFormed(bs: seq<BlockValue>) {
    && (forall i, v :: HasSolution(bs, i, v) ==> Owns(bs, i, v))
    && (forall i, j, v :: Owns(bs, i, v) && Owns(bs, j, v) ==> i == j)
    && (forall i, v :: HasSolution(bs, i, v) ==> OnlyEarlier(bs, i, bs[i].solutions[v]))
    && (forall i :: 0 <= i < |bs| ==> bs[i].variables !! bs[i].external)
  }

  /** e mentions no variable of block i or a later one. */
  ghost predicate OnlyEarlier(bs: seq<BlockValue>, i: int, e: Expr) {
    forall j, w :: w in Vars(e) && Owns(bs, j, w) ==> j < i
  }

  ghost predicate AllListed(bs: seq<BlockValue>, list: seq<Listed>) {
    forall k :: 0 <= k < |list| ==> HasSolution(bs, list[k].0, list[k].1)
  }

  ghost predicate SortedById(list: seq<Listed>) {
    forall j, k :: 0 <= j < k < |list| ==> list[j].0 <= list[k].0
  }

  function RawSolution(bs: seq<BlockValue>, l: Listed): Expr
    requires HasSolution(bs, l.0, l.1)
  {
    bs[l.0].solutions[l.1]
  }

  /** Puts the solutions of list[k-1], ..., list[0] into e, one after the other. */
  function BackSubstitute(bs: seq<BlockValue>, list: seq<Listed>, k: nat, e: Expr): Expr
    requires AllListed(bs, list) && k <= |list|
  {
    if k == 0 then e
    else BackSubstitute(bs, list, k - 1, Apply(map[list[k - 1].1 := RawSolution(bs, list[k - 1])], e))
  }

  function Closed(bs: seq<BlockValue>, list: seq<Listed>, k: nat): Expr
    requires AllListed(bs, list) && k < |list|
  {
    BackSubstitute(bs, list, k + 1, RawSolution(bs, list[k]))
  }

  /** The map that BLT::getSubstitues fills, from the end of the list up to position k. */
  function SubstitutesFrom(bs: seq<BlockValue>, list: seq<Listed>, k: nat): Subst
    requires AllListed(bs, list) && k <= |list|
    decreases |list| - k
  {
    if k == |list| then map[] else SubstitutesFrom(bs, list, k + 1)[list[k].1 := Closed(bs, list, k)]
  }

  function Substitutes(bs: seq<BlockValue>, list: seq<Listed>): Subst
    requires AllListed(bs, list)
  {
    SubstitutesFrom(bs, list, 0)
  }

  lemma {:induction false} SubstitutesAt(bs: seq<BlockValue>, list: seq<Listed>, k: nat, v: nat)
    requires AllListed(bs, list) && k <= |list|
    ensures v in SubstitutesFrom(bs, list, k) <==> exists j :: k <= j < |list| && list[j].1 == v
    ensures v in SubstitutesFrom(bs, list, k) ==>
              exists j: nat :: k <= j < |list| && list[j].1 == v &&
                  SubstitutesFrom(bs, list, k)[v] == Closed(bs, list, j)
    decreases |list| - k
  {
    if k < |list| { SubstitutesAt(bs, list, k + 1, v); }
  }

  lemma SubstituteOf(bs: seq<BlockValue>, list: seq<Listed>, v: nat) returns (j: nat)
    requires AllListed(bs, list) && v in Substitutes(bs, list)
    ensures j < |list| && list[j].1 == v && Substitutes(bs, list)[v] == Closed(bs, list, j)
  {
    SubstitutesAt(bs, list, 0, v);
    j :| j < |list| && list[j].1 == v && Substitutes(bs, list)[v] == Closed(bs, list, j);
  }

  // ----- What the closed solutions mention -----

  ghost predicate MentionsNoneFrom(list: seq<Listed>, k: nat, e: Expr) {
    forall j :: k <= j < |list| ==> list[j].1 !in Vars(e)
  }

  lemma RawMentionsNoneFrom(bs: seq<BlockValue>, list: seq<Listed>, k: nat)
    requires WellFormed(bs) && AllListed(bs, list) && SortedById(list) && k < |list|
    ensures MentionsNoneFrom(list, k, RawSolution(bs, list[k]))
  {
    assert OnlyEarlier(bs, list[k].0, RawSolution(bs, list[k]));
    forall j | k <= j < |list| ensures list[j].1 !in Vars(RawSolution(bs, list[k])) {
      assert HasSolution(bs, list[j].0, list[j].1) && Owns(bs, list[j].0, list[j].1);
    }
  }

  lemma {:induction false} BackSubstituteRemoves(bs: seq<BlockValue>, list: seq<Listed>, k: nat, e: Expr)
    requires WellFormed(bs) && AllListed(bs, list) && SortedById(list) && k <= |list| && MentionsNoneFrom(list, k, e)
    ensures MentionsNoneFrom(list, 0, BackSubstitute(bs, list, k, e))
  {
    if k > 0 {
      var sol := RawSolution(bs, list[k - 1]);
      var sub := map[list[k - 1].1 := sol];
      RawMentionsNoneFrom(bs, list, k - 1);
      forall j | k - 1 <= j < |list| ensures list[j].1 !in Vars(Apply(sub, e)) { VarsApply(sub, e, list[j].1); }
      BackSubstituteRemoves(bs, list, k - 1, Apply(sub, e));
    }
  }

  /** The expressions of the map mention no variable of the list. */
  lemma SubstitutesAreClosed(bs: seq<BlockValue>, list: seq<Listed>, v: nat)
    requires WellFormed(bs) && AllListed(bs, list) && SortedById(list) && v in Substitutes(bs, list)
    ensures Vars(Substitutes(bs, list)[v]) !! Substitutes(bs, list).Keys
  {
    var j := SubstituteOf(bs, list, v);
    RawMentionsNoneFrom(bs, list, j);
    BackSubstituteRemoves(bs, list, j + 1, RawSolution(bs, list[j]));
    forall w | w in Substitutes(bs, list) ensures w !in Vars(Closed(bs, list, j)) {
      SubstitutesAt(bs, list, 0, w);
    }
  }

  lemma {:induction false} BackSubstituteOnlyEarlier(bs: seq<BlockValue>, list: seq<Listed>, k: nat, e: Expr, i: int)
    requires WellFormed(bs) && AllListed(bs, list) && k <= |list| && OnlyEarlier(bs, i, e)
    ensures OnlyEarlier(bs, i, BackSubstitute(bs, list, k, e))
  {
    if k > 0 {
      var l := list[k - 1];
      var sub := map[l.1 := RawSolution(bs, l)];
      assert HasSolution(bs, l.0, l.1) && Owns(bs, l.0, l.1) && OnlyEarlier(bs, l.0, RawSolution(bs, l));
      forall j, w | w in Vars(Apply(sub, e)) && Owns(bs, j, w) ensures j < i { VarsApply(sub, e, w); }
      BackSubstituteOnlyEarlier(bs, list, k - 1, Apply(sub, e), i);
    }
  }

  lemma SubstitutesOnlyEarlier(bs: seq<BlockValue>, list: seq<Listed>, i: int, v: nat)
    requires WellFormed(bs) && AllListed(bs, list) && v in Substitutes(bs, list) && Owns(bs, i, v)
    ensures OnlyEarlier(bs, i, Substitutes(bs, list)[v])
  {
    var j := SubstituteOf(bs, list, v);
    assert HasSolution(bs, list[j].0, list[j].1) && Owns(bs, list[j].0, v);
    BackSubstituteOnlyEarlier(bs, list, j + 1, RawSolution(bs, list[j]), i);
  }

  // ----- Values -----

  /** The listed variables before position k have the values of their solutions. */
  ghost predicate ListHolds(I: Interp, env: Env, bs: seq<BlockValue>, list: seq<Listed>, k: nat)
    requires AllListed(bs, list) && k <= |list|
  {
    forall j :: 0 <= j < k ==> env(list[j].1) == Eval(I, env, RawSolution(bs, list[j]))
  }

  lemma {:induction false} BackSubstituteKeepsValue(I: Interp, env: Env, bs: seq<BlockValue>, list: seq<Listed>, k: nat,
                                                    e: Expr)
    requires AllListed(bs, list) && k <= |list| && ListHolds(I, env, bs, list, k)
    ensures Eval(I, env, BackSubstitute(bs, list, k, e)) == Eval(I, env, e)
  {
    if k > 0 {
      var sub := map[list[k - 1].1 := RawSolution(bs, list[k - 1])];
      ApplyPreservesValue(I, env, sub, e);
      BackSubstituteKeepsValue(I, env, bs, list, k - 1, Apply(sub, e));
    }
  }

  lemma ClosedKeepsValue(I: Interp, env: Env, bs: seq<BlockValue>, list: seq<Listed>, k: nat)
    requires WellFormed(bs) && AllListed(bs, list) && k < |list| && ListHolds(I, env, bs, list, k)
    ensures Eval(I, env, Closed(bs, list, k)) == Eval(I, env, RawSolution(bs, list[k]))
  {
    var l := list[k];
    var sol := RawSolution(bs, l);
    assert HasSolution(bs, l.0, l.1) && Owns(bs, l.0, l.1) && OnlyEarlier(bs, l.0, sol);
    ApplyPreservesValue(I, env, map[l.1 := sol], sol);
    BackSubstituteKeepsValue(I, env, bs, list, k, Apply(map[l.1 := sol], sol));
  }

  ghost predicate MapHolds(I: Interp, env: Env, m: Subst) {
    forall v :: v in m ==> env(v) == Eval(I, env, m[v])
  }

  /** The map says the same as the listed solutions. */
  lemma MapHoldsFromList(I: Interp, env: Env, bs: seq<BlockValue>, list: seq<Listed>)
    requires WellFormed(bs) && AllListed(bs, list) && ListHolds(I, env, bs, list, |list|)
    ensures MapHolds(I, env, Substitutes(bs, list))
  {
    forall v | v in Substitutes(bs, list) ensures env(v) == Eval(I, env, Substitutes(bs, list)[v]) {
      var j := SubstituteOf(bs, list, v);
      ClosedKeepsValue(I, env, bs, list, j);
    }
  }

  lemma SameSolution(bs: seq<BlockValue>, list: seq<Listed>, j: nat, k: nat)
    requires WellFormed(bs) && AllListed(bs, list) && j < |list| && k < |list| && list[j].1 == list[k].1
    ensures list[j] == list[k]
  {
    assert HasSolution(bs, list[j].0, list[j].1) && HasSolution(bs, list[k].0, list[k].1);
    assert Owns(bs, list[j].0, list[j].1) && Owns(bs, list[k].0, list[k].1);
  }

  /** The first place of a variable in the list decides its expression. */
  lemma {:induction false} FirstPlaceDecides(bs: seq<BlockValue>, list: seq<Listed>, k: nat, j: nat)
    requires AllListed(bs, list) && k <= j < |list| && forall l :: k <= l < j ==> list[l].1 != list[j].1
    ensures list[j].1 in SubstitutesFrom(bs, list, k) && SubstitutesFrom(bs, list, k)[list[j].1] == Closed(bs, list, j)
    decreases j - k
  {
    if k < j { FirstPlaceDecides(bs, list, k + 1, j); }
  }

  lemma {:induction false} ListHoldsFromMap(I: Interp, env: Env, bs: seq<BlockValue>, list: seq<Listed>, k: nat)
    requires WellFormed(bs) && AllListed(bs, list) && MapHolds(I, env, Substitutes(bs, list)) && k <= |list|
    ensures ListHolds(I, env, bs, list, k)
  {
    hide Eval, WellFormed, Closed;
    if k > 0 {
      ListHoldsFromMap(I, env, bs, list, k - 1);
      if j :| 0 <= j < k - 1 && list[j].1 == list[k - 1].1 {
        SameSolution(bs, list, j, k - 1);
      } else {
        FirstPlaceDecides(bs, list, 0, k - 1);
        ClosedKeepsValue(I, env, bs, list, k - 1);
      }
    }
  }

  // ----- Substituting in the blocks -----

  function ApplyEq(s: Subst, eq: Eq): Eq {
    Eq(Apply(s, eq.lhs), Apply(s, eq.rhs))
  }

  function ApplyEqs(s: Subst, eqs: seq<Eq>): (r: seq<Eq>)
    ensures |r| == |eqs| && forall k :: 0 <= k < |r| ==> r[k] == ApplyEq(s, eqs[k])
  {
    seq(|eqs|, k requires 0 <= k < |eqs| => ApplyEq(s, eqs[k]))
  }

  function ApplySolutions(s: Subst, solutions: Subst): Subst {
    map v | v in solutions :: Apply(s, solutions[v])
  }

  /** Only external variables of a block are substituted in it. */
  function Restrict(m: Subst, external: set<nat>): Subst {
    map v | v in m && v in external :: m[v]
  }

  function SubstituteIn(m: Subst, b: BlockValue): BlockValue {
    var s := Restrict(m, b.external);
    BlockValue(ApplySolutions(s, b.solutions), ApplyEqs(s, b.equations), ApplyEqs(s, b.unsolved), b.variables,
        b.external)
  }

  function SubstituteInAll(m: Subst, bs: seq<BlockValue>): (r: seq<BlockValue>)
    ensures |r| == |bs| && forall i :: 0 <= i < |bs| ==> r[i] == SubstituteIn(m, bs[i])
  {
    seq(|bs|, i requires 0 <= i < |bs| => SubstituteIn(m, bs[i]))
  }

  function RemoveSolutions(vs: set<nat>, bs: seq<BlockValue>): (r: seq<BlockValue>)
    ensures |r| == |bs| && forall i :: 0 <= i < |bs| ==> r[i] == bs[i].(solutions := bs[i].solutions - vs)
  {
    seq(|bs|, i requires 0 <= i < |bs| => bs[i].(solutions := bs[i].solutions - vs))
  }

  /** BLT::eliminateVariables on values. */
  function EliminateIn(m: Subst, bs: seq<BlockValue>): seq<BlockValue> {
    RemoveSolutions(m.Keys, SubstituteInAll(m, bs))
  }

  // ----- What substitution in a block does, said of every expression of the block -----

  /** f is e with the external variables of m replaced: it has the value of e wherever these have the
      values of their expressions, and it mentions what it should. */
  ghost predicate Replaces(m: Subst, external: set<nat>, e: Expr, f: Expr) {
    && (forall I: Interp, env: Env :: ExternalsHold(I, env, m, external) ==> Eval(I, env, f) == Eval(I, env, e))
    && (forall w :: w in Vars(f) <==> StillMentioned(m, external, e, w))
  }

  ghost predicate ExternalsHold(I: Interp, env: Env, m: Subst, external: set<nat>) {
    forall v :: v in m && v in external ==> env(v) == Eval(I, env, m[v])
  }

  /** w is mentioned by e and not replaced, or by what replaces a variable of e. */
  ghost predicate StillMentioned(m: Subst, external: set<nat>, e: Expr, w: nat) {
    || (w in Vars(e) && !(w in m && w in external))
    || exists u :: u in Vars(e) && u in m && u in external && w in Vars(m[u])
  }

  /** The same, side by side, for a list of equations. */
  ghost predicate ReplacesInAll(m: Subst, external: set<nat>, before: seq<Eq>, after: seq<Eq>) {
    && |after| == |before|
    && forall k :: 0 <= k < |before| ==>
         Replaces(m, external, before[k].lhs, after[k].lhs) && Replaces(m, external, before[k].rhs, after[k].rhs)
  }

  /** Solutions, all equations and unsolved equations have the external variables of m replaced, and the
      solutions of the variables in `gone` are dropped. */
  ghost predicate ReplacesInBlock(m: Subst, before: BlockValue, after: BlockValue, gone: set<nat>) {
    && after.variables == before.variables && after.external == before.external
    && ReplacesInAll(m, before.external, before.equations, after.equations)
    && ReplacesInAll(m, before.external, before.unsolved, after.unsolved)
    && (forall v :: v in after.solutions <==> v in before.solutions && v !in gone)
    && (forall v :: v in after.solutions ==> Replaces(m, before.external, before.solutions[v], after.solutions[v]))
  }

  ghost predicate ReplacesInBlocks(m: Subst, before: seq<BlockValue>, after: seq<BlockValue>, gone: set<nat>) {
    |after| == |before| && forall i :: 0 <= i < |before| ==> ReplacesInBlock(m, before[i], after[i], gone)
  }

  lemma ApplyReplaces(m: Subst, external: set<nat>, e: Expr)
    ensures Replaces(m, external, e, Apply(Restrict(m, external), e))
  {
    var s := Restrict(m, external);
    forall I: Interp, env: Env | ExternalsHold(I, env, m, external)
      ensures Eval(I, env, Apply(s, e)) == Eval(I, env, e)
    {
      ApplyPreservesValue(I, env, s, e);
    }
    forall w ensures w in Vars(Apply(s, e)) <==> StillMentioned(m, external, e, w) { VarsApply(s, e, w); }
  }

  lemma ApplyEqsReplace(m: Subst, external: set<nat>, eqs: seq<Eq>)
    ensures ReplacesInAll(m, external, eqs, ApplyEqs(Restrict(m, external), eqs))
  {
    hide Replaces, Restrict;
    forall k | 0 <= k < |eqs|
      ensures Replaces(m, external, eqs[k].lhs, Apply(Restrict(m, external), eqs[k].lhs))
      ensures Replaces(m, external, eqs[k].rhs, Apply(Restrict(m, external), eqs[k].rhs))
    {
      ApplyReplaces(m, external, eqs[k].lhs);
      ApplyReplaces(m, external, eqs[k].rhs);
    }
  }

  lemma SubstituteReplaces(m: Subst, b: BlockValue)
    ensures ReplacesInBlock(m, b, SubstituteIn(m, b), {})
  {
    hide Replaces, ReplacesInAll, Restrict;
    ApplyEqsReplace(m, b.external, b.equations);
    ApplyEqsReplace(m, b.external, b.unsolved);
    forall v | v in b.solutions ensures Replaces(m, b.external, b.solutions[v], SubstituteIn(m, b).solutions[v]) {
      ApplyReplaces(m, b.external, b.solutions[v]);
    }
  }

  lemma SubstituteAllReplaces(m: Subst, bs: seq<BlockValue>)
    ensures ReplacesInBlocks(m, bs, SubstituteInAll(m, bs), {})
  {
    hide ReplacesInBlock, SubstituteIn;
    forall i | 0 <= i < |bs|
      ensures ReplacesInBlock(m, bs[i], SubstituteIn(m, bs[i]), {})
    {
      SubstituteReplaces(m, bs[i]);
    }
  }

  lemma EliminationReplaces(m: Subst, bs: seq<BlockValue>)
    ensures ReplacesInBlocks(m, bs, EliminateIn(m, bs), m.Keys)
  {
    hide Replaces, ReplacesInAll, SubstituteIn;
    SubstituteAllReplaces(m, bs);
    forall i | 0 <= i < |bs| ensures ReplacesInBlock(m, bs[i], EliminateIn(m, bs)[i], m.Keys) {
      assert ReplacesInBlock(m, bs[i], SubstituteInAll(m, bs)[i], {});
    }
  }

  /** With a closed map no expression of a block mentions a variable that is replaced in it. */
  ghost predicate MentionsReplaced(m: Subst, b: BlockValue) {
    || (exists v, w :: v in b.solutions && w in m && w in b.external && w in Vars(b.solutions[v]))
    || (exists k, w :: 0 <= k < |b.equations| && w in m && w in b.external && w in SidesVars(b.equations[k]))
    || (exists k, w :: 0 <= k < |b.unsolved| && w in m && w in b.external && w in SidesVars(b.unsolved[k]))
  }

  function SidesVars(eq: Eq): set<nat> {
    Vars(eq.lhs) + Vars(eq.rhs)
  }

  lemma NothingReplacedRemains(m: Subst, before: BlockValue, after: BlockValue, gone: set<nat>)
    requires ReplacesInBlock(m, before, after, gone) && forall v :: v in m ==> Vars(m[v]) !! m.Keys
    ensures !MentionsReplaced(m, after)
  {
    forall e, f, w | Replaces(m, before.external, e, f) && w in m && w in before.external ensures w !in Vars(f) {
      assert !StillMentioned(m, before.external, e, w);
    }
  }

  /** All blocks have the variables of m replaced, and none mentions them where it should not. */
  ghost predicate Replaced(m: Subst, before: seq<BlockValue>, after: seq<BlockValue>, gone: set<nat>) {
    ReplacesInBlocks(m, before, after, gone) && forall i :: 0 <= i < |after| ==> !MentionsReplaced(m, after[i])
  }

  lemma SubstitutesReplace(bs: seq<BlockValue>, list: seq<Listed>)
    requires WellFormed(bs) && AllListed(bs, list) && SortedById(list)
    ensures Replaced(Substitutes(bs, list), bs, SubstituteInAll(Substitutes(bs, list), bs), {})
    ensures Replaced(Substitutes(bs, list), bs, EliminateIn(Substitutes(bs, list), bs), Substitutes(bs, list).Keys)
  {
    hide MentionsReplaced, ReplacesInBlock, SubstituteInAll, EliminateIn, WellFormed, AllListed, SortedById;
    var m := Substitutes(bs, list);
    SubstituteAllReplaces(m, bs);
    EliminationReplaces(m, bs);
    forall v | v in m ensures Vars(m[v]) !! m.Keys { SubstitutesAreClosed(bs, list, v); }
    forall i | 0 <= i < |bs|
      ensures !MentionsReplaced(m, SubstituteInAll(m, bs)[i]) && !MentionsReplaced(m, EliminateIn(m, bs)[i])
    {
      NothingReplacedRemains(m, bs[i], SubstituteInAll(m, bs)[i], {});
      NothingReplacedRemains(m, bs[i], EliminateIn(m, bs)[i], m.Keys);
    }
  }

  ghost predicate EqHolds(I: Interp, env: Env, eq: Eq) {
    Eval(I, env, eq.lhs) == Eval(I, env, eq.rhs)
  }

  ghost predicate AllEqHold(I: Interp, env: Env, eqs: seq<Eq>) {
    forall k :: 0 <= k < |eqs| ==> EqHolds(I, env, eqs[k])
  }

  /** The DAE equations of the blocks hold: v = solution for every solution, and the unsolved ones. */
  ghost predicate DaeHolds(I: Interp, env: Env, bs: seq<BlockValue>) {
    forall i :: 0 <= i < |bs| ==> MapHolds(I, env, bs[i].solutions) && AllEqHold(I, env, bs[i].unsolved)
  }

  lemma ApplyKeepsValues(I: Interp, env: Env, m: Subst, b: BlockValue)
    requires MapHolds(I, env, m)
    ensures MapHolds(I, env, SubstituteIn(m, b).solutions) <==> MapHolds(I, env, b.solutions)
    ensures AllEqHold(I, env, SubstituteIn(m, b).unsolved) <==> AllEqHold(I, env, b.unsolved)
    ensures forall v :: v in b.solutions ==>
              Eval(I, env, SubstituteIn(m, b).solutions[v]) == Eval(I, env, b.solutions[v])
  {
    var s, new_b := Restrict(m, b.external), SubstituteIn(m, b);
    forall e ensures Eval(I, env, Apply(s, e)) == Eval(I, env, e) { ApplyPreservesValue(I, env, s, e); }
    forall k | 0 <= k < |b.unsolved| ensures EqHolds(I, env, new_b.unsolved[k]) <==> EqHolds(I, env, b.unsolved[k]) {}
    forall v | v in b.solutions ensures Eval(I, env, new_b.solutions[v]) == Eval(I, env, b.solutions[v]) {}
  }

  lemma ListHoldsInDae(I: Interp, env: Env, bs: seq<BlockValue>, list: seq<Listed>)
    requires AllListed(bs, list) && DaeHolds(I, env, bs)
    ensures ListHolds(I, env, bs, list, |list|)
  {
    forall j | 0 <= j < |list| ensures env(list[j].1) == Eval(I, env, RawSolution(bs, list[j])) {
      assert HasSolution(bs, list[j].0, list[j].1);
    }
  }

  /** Elimination preserves meaning: the equations hold exactly when the remaining ones hold and every
      eliminated variable has the value of its expression in the map. */
  lemma EliminationKeepsMeaning(I: Interp, env: Env, bs: seq<BlockValue>, list: seq<Listed>)
    requires WellFormed(bs) && AllListed(bs, list)
    ensures DaeHolds(I, env, bs) <==>
            DaeHolds(I, env, EliminateIn(Substitutes(bs, list), bs)) && MapHolds(I, env, Substitutes(bs, list))
  {
    var m := Substitutes(bs, list);
    var after := EliminateIn(m, bs);
    if DaeHolds(I, env, bs) {
      ListHoldsInDae(I, env, bs, list);
      MapHoldsFromList(I, env, bs, list);
      forall i | 0 <= i < |bs| ensures MapHolds(I, env, after[i].solutions) && AllEqHold(I, env, after[i].unsolved) {
        ApplyKeepsValues(I, env, m, bs[i]);
      }
    }
    if DaeHolds(I, env, after) && MapHolds(I, env, m) {
      ListHoldsFromMap(I, env, bs, list, |list|);
      forall i | 0 <= i < |bs| ensures MapHolds(I, env, bs[i].solutions) && AllEqHold(I, env, bs[i].unsolved) {
        EliminatedBlockHolds(I, env, bs, list, i);
      }
    }
  }

  lemma EliminatedBlockHolds(I: Interp, env: Env, bs: seq<BlockValue>, list: seq<Listed>, i: nat)
    requires WellFormed(bs) && AllListed(bs, list) && i < |bs|
    requires MapHolds(I, env, Substitutes(bs, list)) && ListHolds(I, env, bs, list, |list|)
    requires DaeHolds(I, env, EliminateIn(Substitutes(bs, list), bs))
    ensures MapHolds(I, env, bs[i].solutions) && AllEqHold(I, env, bs[i].unsolved)
  {
    var m := Substitutes(bs, list);
    var after := EliminateIn(m, bs);
    assert MapHolds(I, env, after[i].solutions) && AllEqHold(I, env, after[i].unsolved);
    ApplyKeepsValues(I, env, m, bs[i]);
    forall v | v in bs[i].solutions ensures env(v) == Eval(I, env, bs[i].solutions[v]) {
      if v in m {
        var j := SubstituteOf(bs, list, v);
        assert HasSolution(bs, i, v) && HasSolution(bs, list[j].0, v);
        assert Owns(bs, i, v) && Owns(bs, list[j].0, v);
      } else {
        assert v in after[i].solutions;
      }
    }
  }

  // ----- Substituting without removing -----

  /** The solutions of the first i blocks hold. */
  ghost predicate SolutionsHoldUpTo(I: Interp, env: Env, bs: seq<BlockValue>, i: nat) {
    forall j :: 0 <= j < i && j < |bs| ==> MapHolds(I, env, bs[j].solutions)
  }

  /** Where the solutions of the blocks before v's hold, the closed expression of a listed variable
      of those blocks has the variable's value. */
  lemma ClosedInEarlierBlocks(I: Interp, env: Env, bs: seq<BlockValue>, list: seq<Listed>, i: nat, v: nat)
    requires WellFormed(bs) && AllListed(bs, list) && SortedById(list) && i <= |bs|
    requires SolutionsHoldUpTo(I, env, bs, i) && v in Substitutes(bs, list)
    requires forall j :: Owns(bs, j, v) ==> j < i
    ensures env(v) == Eval(I, env, Substitutes(bs, list)[v])
  {
    var j := SubstituteOf(bs, list, v);
    assert HasSolution(bs, list[j].0, v) && Owns(bs, list[j].0, v);
    forall l | 0 <= l <= j ensures env(list[l].1) == Eval(I, env, RawSolution(bs, list[l])) {
      assert HasSolution(bs, list[l].0, list[l].1) && list[l].0 <= list[j].0;
      assert MapHolds(I, env, bs[list[l].0].solutions);
    }
    ClosedKeepsValue(I, env, bs, list, j);
  }

  /** From the substituted solutions back to the original ones, block by block. */
  lemma {:induction false} SolutionsComeBack(I: Interp, env: Env, bs: seq<BlockValue>, list: seq<Listed>, i: nat)
    requires WellFormed(bs) && AllListed(bs, list) && SortedById(list) && i <= |bs|
    requires DaeHolds(I, env, SubstituteInAll(Substitutes(bs, list), bs))
    ensures SolutionsHoldUpTo(I, env, bs, i)
  {
    if i > 0 {
      var m, b := Substitutes(bs, list), bs[i - 1];
      var s := Restrict(m, b.external);
      SolutionsComeBack(I, env, bs, list, i - 1);
      forall v | v in b.solutions ensures env(v) == Eval(I, env, b.solutions[v]) {
        assert HasSolution(bs, i - 1, v) && OnlyEarlier(bs, i - 1, b.solutions[v]);
        forall w | w in s && w in Vars(b.solutions[v]) ensures env(w) == Eval(I, env, s[w]) {
          ClosedInEarlierBlocks(I, env, bs, list, i - 1, w);
        }
        ApplyPreservesValue(I, env, s, b.solutions[v]);
        assert MapHolds(I, env, SubstituteIn(m, b).solutions);
      }
    }
  }

  /** Substituting and keeping the equations z = f(z) leaves the set of solutions as it was. */
  lemma SubstitutionKeepsMeaning(I: Interp, env: Env, bs: seq<BlockValue>, list: seq<Listed>)
    requires WellFormed(bs) && AllListed(bs, list) && SortedById(list)
    ensures DaeHolds(I, env, bs) <==> DaeHolds(I, env, SubstituteInAll(Substitutes(bs, list), bs))
  {
    var m := Substitutes(bs, list);
    var after := SubstituteInAll(m, bs);
    if DaeHolds(I, env, after) {
      SolutionsComeBack(I, env, bs, list, |bs|);
      forall j | 0 <= j < |list| ensures env(list[j].1) == Eval(I, env, RawSolution(bs, list[j])) {
        assert HasSolution(bs, list[j].0, list[j].1);
        assert MapHolds(I, env, bs[list[j].0].solutions);
      }
    } else if DaeHolds(I, env, bs) {
      ListHoldsInDae(I, env, bs, list);
    }
    if ListHolds(I, env, bs, list, |list|) {
      MapHoldsFromList(I, env, bs, list);
      forall i | 0 <= i < |bs|
        ensures (MapHolds(I, env, bs[i].solutions) <==> MapHolds(I, env, after[i].solutions))
             && (AllEqHold(I, env, bs[i].unsolved) <==> AllEqHold(I, env, after[i].unsolved))
      {
        ApplyKeepsValues(I, env, m, bs[i]);
      }
    }
  }

  /** Both operations keep the form block lower triangular. */
  lemma SubstitutionKeepsForm(bs: seq<BlockValue>, list: seq<Listed>)
    requires WellFormed(bs) && AllListed(bs, list)
    ensures WellFormed(SubstituteInAll(Substitutes(bs, list), bs))
    ensures WellFormed(EliminateIn(Substitutes(bs, list), bs))
  {
    var m := Substitutes(bs, list);
    var sub, out := SubstituteInAll(m, bs), EliminateIn(m, bs);
    forall i, v ensures (Owns(sub, i, v) <==> Owns(bs, i, v)) && (Owns(out, i, v) <==> Owns(bs, i, v)) {}
    forall i, v ensures (HasSolution(sub, i, v) <==> HasSolution(bs, i, v)) &&
        (HasSolution(out, i, v) ==> HasSolution(bs, i, v)) {}
    forall i, v | HasSolution(bs, i, v) ensures OnlyEarlier(sub, i, sub[i].solutions[v]) {
      var e, s := bs[i].solutions[v], Restrict(m, bs[i].external);
      assert OnlyEarlier(bs, i, e);
      forall j, w | w in Vars(Apply(s, e)) && Owns(bs, j, w) ensures j < i {
        VarsApply(s, e, w);
        if x :| x in Vars(e) && x in s && w in Vars(s[x]) {
          var l := SubstituteOf(bs, list, x);
          assert HasSolution(bs, list[l].0, x) && Owns(bs, list[l].0, x);
          SubstitutesOnlyEarlier(bs, list, list[l].0, x);
        }
      }
    }
    forall i, v | HasSolution(out, i, v) ensures OnlyEarlier(out, i, out[i].solutions[v]) {
      assert HasSolution(bs, i, v) && out[i].solutions[v] == sub[i].solutions[v];
    }
  }

  // ----- What the DAE equations mention -----

  ghost predicate UnsolvedMention(b: BlockValue, w: nat) {
    exists k :: 0 <= k < |b.unsolved| && w in Vars(b.unsolved[k].lhs) + Vars(b.unsolved[k].rhs)
  }

  ghost predicate SolutionsMention(b: BlockValue, w: nat) {
    exists v :: v in b.solutions && w in Vars(b.solutions[v])
  }

  /** A DAE equation of the block mentions w. */
  ghost predicate BlockMentions(b: BlockValue, w: nat) {
    w in b.solutions || SolutionsMention(b, w) || UnsolvedMention(b, w)
  }

  ghost predicate DaeMentions(bs: seq<BlockValue>, w: nat) {
    exists i :: 0 <= i < |bs| && BlockMentions(bs[i], w)
  }

  /** The unsolved equations of w's own block mention w. */
  ghost predicate OwnUnsolvedMention(bs: seq<BlockValue>, w: nat) {
    exists i :: Owns(bs, i, w) && UnsolvedMention(bs[i], w)
  }

  /** Where the equations of a block mention one of vs, it is the block's own or registered as external. */
  ghost predicate ExternalsKnown(bs: seq<BlockValue>, vs: set<nat>) {
    forall i, w :: 0 <= i < |bs| && w in vs && (SolutionsMention(bs[i], w) || UnsolvedMention(bs[i], w)) ==>
      Owns(bs, i, w) || w in bs[i].external
  }

  /** What an expression of a block still mentions of the eliminated variables: those that are not
      external. */
  lemma SubstitutedMentions(bs: seq<BlockValue>, list: seq<Listed>, i: nat, e: Expr, w: nat)
    requires WellFormed(bs) && AllListed(bs, list) && SortedById(list) && i < |bs| && w in Substitutes(bs, list)
    ensures w in Vars(Apply(Restrict(Substitutes(bs, list), bs[i].external), e)) <==>
              w in Vars(e) && w !in bs[i].external
  {
    var m := Substitutes(bs, list);
    var s := Restrict(m, bs[i].external);
    VarsApply(s, e, w);
    forall x | x in s ensures w !in Vars(s[x]) { SubstitutesAreClosed(bs, list, x); }
  }

  /** A solution or an unsolved equation of block i still mentions the eliminated variable w only
      where w is the block's own. */
  lemma BlockStillMentions(bs: seq<BlockValue>, list: seq<Listed>, i: nat, w: nat)
    requires WellFormed(bs) && AllListed(bs, list) && SortedById(list) && i < |bs| && w in Substitutes(bs, list)
    requires ExternalsKnown(bs, {w})
    ensures !SolutionsMention(SubstituteIn(Substitutes(bs, list), bs[i]), w)
    ensures UnsolvedMention(SubstituteIn(Substitutes(bs, list), bs[i]), w) <==>
              Owns(bs, i, w) && UnsolvedMention(bs[i], w)
  {
    var b, after := bs[i], SubstituteIn(Substitutes(bs, list), bs[i]);
    forall v | v in b.solutions ensures w !in Vars(after.solutions[v]) {
      SubstitutedMentions(bs, list, i, b.solutions[v], w);
      assert HasSolution(bs, i, v) && OnlyEarlier(bs, i, b.solutions[v]);
      if w in Vars(b.solutions[v]) { assert SolutionsMention(b, w); }
    }
    forall k | 0 <= k < |b.unsolved|
      ensures w in Vars(after.unsolved[k].lhs) + Vars(after.unsolved[k].rhs) <==>
              w in Vars(b.unsolved[k].lhs) + Vars(b.unsolved[k].rhs) && w !in b.external
    {
      SubstitutedMentions(bs, list, i, b.unsolved[k].lhs, w);
      SubstitutedMentions(bs, list, i, b.unsolved[k].rhs, w);
    }
  }

  /** After the elimination an eliminated variable is mentioned by the remaining equations exactly
      where the unsolved equations of its own block mentioned it before. */
  lemma EliminatedVariablesAreGone(bs: seq<BlockValue>, list: seq<Listed>, w: nat)
    requires WellFormed(bs) && AllListed(bs, list) && SortedById(list) && w in Substitutes(bs, list)
    requires ExternalsKnown(bs, {w})
    ensures DaeMentions(EliminateIn(Substitutes(bs, list), bs), w) <==> OwnUnsolvedMention(bs, w)
  {
    var m := Substitutes(bs, list);
    var sub, out := SubstituteInAll(m, bs), EliminateIn(m, bs);
    forall i | 0 <= i < |bs| ensures BlockMentions(out[i], w) <==> Owns(bs, i, w) && UnsolvedMention(bs[i], w) {
      BlockStillMentions(bs, list, i, w);
      forall v | v in out[i].solutions ensures w !in Vars(out[i].solutions[v]) {
        assert v in sub[i].solutions && out[i].solutions[v] == sub[i].solutions[v];
      }
      assert out[i].unsolved == sub[i].unsolved;
    }
  }

  /** The condition matters: a block that has both the solution of its variable and an unsolved equation
      in it, as after moveAllEquationsToUnsolvable, keeps the eliminated variable. */
  lemma OwnVariableRemains(b: BlockValue)
    requires b == BlockValue(map[0 := Const(1.0)], [Eq(Sym(0), Const(1.0))], [Eq(Sym(0), Const(1.0))], {0}, {})
    ensures WellFormed([b]) && AllListed([b], [(0, 0)]) && SortedById([(0, 0)]) && ExternalsKnown([b], {0})
    ensures DaeMentions(EliminateIn(Substitutes([b], [(0, 0)]), [b]), 0)
  {
    var bs: seq<BlockValue>, list: seq<Listed> := [b], [(0, 0)];
    assert HasSolution(bs, 0, 0) && Owns(bs, 0, 0);
    assert 0 in Vars(b.unsolved[0].lhs) + Vars(b.unsolved[0].rhs);
    assert UnsolvedMention(bs[0], 0);
    SubstitutesAt(bs, list, 0, 0);
    assert list[0].1 == 0;
    EliminatedVariablesAreGone(bs, list, 0);
  }

  /** Substituting all of vs keeps the external variables known. */
  lemma ExternalsStayKnown(bs: seq<BlockValue>, list: seq<Listed>, vs: set<nat>)
    requires WellFormed(bs) && AllListed(bs, list) && SortedById(list)
    requires vs <= Substitutes(bs, list).Keys && ExternalsKnown(bs, vs)
    ensures ExternalsKnown(SubstituteInAll(Substitutes(bs, list), bs), vs)
  {
    var sub := SubstituteInAll(Substitutes(bs, list), bs);
    forall i, w | 0 <= i < |bs| && w in vs && (SolutionsMention(sub[i], w) || UnsolvedMention(sub[i], w))
      ensures Owns(sub, i, w) || w in sub[i].external
    {
      BlockStillMentions(bs, list, i, w);
      assert Owns(bs, i, w) ==> Owns(sub, i, w);
    }
  }
}
