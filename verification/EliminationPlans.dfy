/** Growing a list of elimination steps: what has to hold of the next step. */
module EliminationPlans {
  import opened Lists
  import opened Expressions
  import opened Elimination
  import Linearity

  /** The steps are well formed; their variables are `handled` and their equations are `done`; no
      variable of `future` was mentioned and no variable of `fixed` was eliminated. */
  ghost predicate Planned(steps: seq<Step>, future: set<nat>, handled: set<nat>, done: set<Expr>, fixed: set<nat>) {
    && WellFormed(steps, future)
    && (forall v: nat :: Handled(steps, v) <==> v in handled)
    && (forall e :: IsEquation(steps, e) <==> e in done)
    && (forall v :: v in fixed ==> !Eliminated(steps, v))
  }

  lemma NothingPlanned(future: set<nat>, fixed: set<nat>)
    ensures Planned([], future, {}, {}, fixed)
  {}

  lemma ForgetFuture(steps: seq<Step>, future: set<nat>, smaller: set<nat>, handled: set<nat>, done: set<Expr>,
                     fixed: set<nat>)
    requires Planned(steps, future, handled, done, fixed) && smaller <= future
    ensures Planned(steps, smaller, handled, done, fixed)
  {}

  /** The next step may follow: its equations mention no variable that comes after it, and its
      variables were not handled. */
  ghost predicate MayFollow(step: Step, future: set<nat>, handled: set<nat>) {
    && (forall e, v :: e in EquationsOf(step) && v in Vars(e) ==> v !in future || v in VariablesOf(step))
    && (forall v :: v in VariablesOf(step) ==> v !in handled)
    && NoRepeats(VariablesOf(step)) && |EquationsOf(step)| == |VariablesOf(step)|
    && (step.Solve? ==> step.x in future && Linearity.JacobianFree(step.eq, [step.x]))
  }

  lemma PlanOneToOne(steps: seq<Step>, step: Step, handled: set<nat>)
    requires OneToOne(steps) && (forall v: nat :: Handled(steps, v) <==> v in handled)
    requires NoRepeats(VariablesOf(step)) && |EquationsOf(step)| == |VariablesOf(step)|
    requires forall v :: v in VariablesOf(step) ==> v !in handled
    ensures OneToOne(steps + [step])
  {
    var all, n := steps + [step], |steps|;
    forall j, k, v | 0 <= j < k < |all| && v in VariablesOf(all[j]) ensures v !in VariablesOf(all[k]) {
      assert all[j] == steps[j];
      if k < n {
        assert all[k] == steps[k];
      } else {
        assert Handled(steps, v);
      }
    }
  }

  lemma PlanInOrder(steps: seq<Step>, step: Step, future: set<nat>, rest: set<nat>, handled: set<nat>)
    requires InOrder(steps, future) && MayFollow(step, future, handled)
    requires rest == future - Set(VariablesOf(step))
    ensures InOrder(steps + [step], rest)
  {
    var all, n := steps + [step], |steps|;
    forall k, eq, v | 0 <= k < |all| && eq in EquationsOf(all[k]) && v in Vars(eq) ensures v !in rest {
      if k < n { assert eq in EquationsOf(steps[k]); }
    }
    forall k, eq, j, v | 0 <= k <= j < |all| && eq in EquationsOf(all[k]) && v in Vars(eq) && Eliminates(all[j], v)
      ensures j == k
    {
      if k < n {
        assert eq in EquationsOf(steps[k]) && v !in future;
        if j < n { assert Eliminates(steps[j], v); }
      }
    }
  }

  lemma PlanIncludes(steps: seq<Step>, step: Step, handled: set<nat>, done: set<Expr>)
    requires (forall v: nat :: Handled(steps, v) <==> v in handled) && (forall e :: IsEquation(steps, e) <==> e in done)
    ensures forall v: nat :: Handled(steps + [step], v) <==> v in handled + Set(VariablesOf(step))
    ensures forall e :: IsEquation(steps + [step], e) <==> e in done + Set(EquationsOf(step))
  {
    var all, n := steps + [step], |steps|;
    assert all[..n] == steps && all[n] == step;
    forall v: nat ensures Handled(all, v) <==> v in handled + Set(VariablesOf(step)) { HandledSplit(all, v); }
    forall e ensures IsEquation(all, e) <==> e in done + Set(EquationsOf(step)) {
      if k :| 0 <= k < |all| && e in EquationsOf(all[k]) {
        if k < n { assert e in EquationsOf(steps[k]); }
      }
      if k :| 0 <= k < n && e in EquationsOf(steps[k]) { assert e in EquationsOf(all[k]); }
      if e in EquationsOf(step) { assert e in EquationsOf(all[n]); }
    }
  }

  lemma EliminatedNext(steps: seq<Step>, step: Step, v: nat)
    ensures Eliminated(steps + [step], v) <==> Eliminated(steps, v) || Eliminates(step, v)
  {
    var all, n := steps + [step], |steps|;
    if k :| 0 <= k < |all| && Eliminates(all[k], v) {
      if k < n { assert Eliminates(steps[k], v); }
    }
    if k :| 0 <= k < n && Eliminates(steps[k], v) { assert Eliminates(all[k], v); }
    if Eliminates(step, v) { assert Eliminates(all[n], v); }
  }

  lemma PlanStep(steps: seq<Step>, step: Step, future: set<nat>, handled: set<nat>, done: set<Expr>, fixed: set<nat>)
    requires Planned(steps, future, handled, done, fixed) && MayFollow(step, future, handled)
    requires step.Solve? ==> step.x !in fixed
    ensures Planned(steps + [step], future - Set(VariablesOf(step)), handled + Set(VariablesOf(step)),
              done + Set(EquationsOf(step)), fixed)
  {
    var all, n := steps + [step], |steps|;
    PlanOneToOne(steps, step, handled);
    PlanInOrder(steps, step, future, future - Set(VariablesOf(step)), handled);
    PlanIncludes(steps, step, handled, done);
    assert SolvesLinear(all);
    forall v | v in fixed ensures !Eliminated(all, v) { EliminatedNext(steps, step, v); }
  }
}
