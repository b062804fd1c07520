/** The cache of parameter values in Model of the C++ interface (Model.cpp, Variable.cpp). */
module ParameterCache {
  import opened Lists
  import opened Expressions
  import opened Options
  import opened AliasAttributes

  datatype Variability = CONSTANT | PARAMETER | OTHER

  /** What the values depend on: the variables in order, their variability, for every alias its root
      variable and whether it is negated, and the binding expressions and start values of the roots. */
  datatype Bindings = Bindings(z: seq<nat>, variability: map<nat, Variability>, alias: map<nat, (nat, bool)>,
                               binding: map<nat, Expr>, start: map<nat, real>)

  datatype Values = Values(vars: seq<nat>, vals: seq<real>)

  function Through(m: Bindings, v: nat, root: map<nat, Expr>): Option<Expr> {
    if v in m.alias then
      var (r, negated) := m.alias[v];
      if r in root then Some(if negated then Negate(root[r]) else root[r]) else None
    else if v in root then Some(root[v])
    else None
  }

  /** bindingExpression, through the alias. */
  function BindingOf(m: Bindings, v: nat): Option<Expr> {
    Through(m, v, m.binding)
  }

  /** start, through the alias. */
  function StartOf(m: Bindings, v: nat): Option<real> {
    if v in m.alias then
      var (r, negated) := m.alias[v];
      if r in m.start then Some(if negated then -m.start[r] else m.start[r]) else None
    else if v in m.start then Some(m.start[v])
    else None
  }

  predicate HasKind(m: Bindings, v: nat, kind: Variability) {
    v in m.variability && m.variability[v] == kind
  }

  /** A parameter that is not an alias and has a binding: what the second loop looks at. */
  predicate IsBound(m: Bindings, v: nat) {
    HasKind(m, v, PARAMETER) && v !in m.alias && v in m.binding
  }

  // ----- Values from scratch -----

  function EnvOf(s: Values): Env
    requires |s.vars| == |s.vals|
  {
    (v: nat) => if v in s.vars then s.vals[IndexOf(s.vars, v)] else 0.0
  }

  /** evalMX: fails on an expression that mentions a variable without a value. */
  function EvalMX(I: Interp, s: Values, e: Expr): Option<real>
    requires |s.vars| == |s.vals|
  {
    if forall v :: v in Vars(e) ==> v in s.vars then Some(Eval(I, EnvOf(s), e)) else None
  }

  function Push(s: Values, v: nat, x: real): Values {
    Values(s.vars + [v], s.vals + [x])
  }

  /** The first loop: constants, and parameters with a constant binding or none. */
  function SetUp(m: Bindings, k: nat): (r: Option<Values>)
    requires k <= |m.z|
    ensures r.Some? ==> |r.value.vars| == |r.value.vals|
  {
    if k == 0 then Some(Values([], []))
    else
      var s, v := SetUp(m, k - 1), m.z[k - 1];
      if s.None? || !(HasKind(m, v, PARAMETER) || HasKind(m, v, CONSTANT)) then s
      else if BindingOf(m, v).Some? then
        var b := BindingOf(m, v).value;
        if b.Const? then Some(Push(s.value, v, b.value)) else s
      else if StartOf(m, v).Some? then Some(Push(s.value, v, StartOf(m, v).value))
      else None
  }

  /** The second loop: the parameters that depend on others, in order. */
  function Scratch(I: Interp, m: Bindings, k: nat): (r: Option<Values>)
    requires k <= |m.z|
    ensures r.Some? ==> SetUp(m, |m.z|).Some? && |r.value.vars| == |r.value.vals|
  {
    if k == 0 then SetUp(m, |m.z|)
    else
      var s, v := Scratch(I, m, k - 1), m.z[k - 1];
      if s.None? || !IsBound(m, v) || m.binding[v].Const? then s
      else
        var x := EvalMX(I, s.value, m.binding[v]);
        if x.Some? then Some(Push(s.value, v, x.value)) else None
  }

  /** The value of a bound parameter, as an expression. */
  function Evaluated(I: Interp, m: Bindings, s: Values, v: nat): Expr
    requires |s.vars| == |s.vals| && IsBound(m, v)
  {
    if m.binding[v].Const? then m.binding[v] else Const(EnvOf(s)(v))
  }

  // ----- The values solve the bindings -----

  lemma {:induction false} SetUpMembers(m: Bindings, k: nat, v: nat)
    requires k <= |m.z| && SetUp(m, k).Some? && v in SetUp(m, k).value.vars
    ensures v in m.z[..k] && (BindingOf(m, v).Some? ==> BindingOf(m, v).value.Const?)
  {
    var u := m.z[k - 1];
    assert m.z[..k] == m.z[..k - 1] + [u];
    if v in SetUp(m, k - 1).value.vars { SetUpMembers(m, k - 1, v); }
  }

  lemma {:induction false} SetUpOnce(m: Bindings, k: nat)
    requires k <= |m.z| && NoRepeats(m.z) && SetUp(m, k).Some?
    ensures NoRepeats(SetUp(m, k).value.vars)
  {
    if k > 0 {
      SetUpOnce(m, k - 1);
      var s, u := SetUp(m, k - 1).value, m.z[k - 1];
      if u in s.vars { SetUpMembers(m, k - 1, u); }
    }
  }

  lemma {:induction false} ScratchMembers(I: Interp, m: Bindings, k: nat, v: nat)
    requires k <= |m.z| && Scratch(I, m, k).Some? && v in Scratch(I, m, k).value.vars
    ensures v in SetUp(m, |m.z|).value.vars || (v in m.z[..k] && IsBound(m, v) && !m.binding[v].Const?)
  {
    if k > 0 {
      var u := m.z[k - 1];
      assert m.z[..k] == m.z[..k - 1] + [u];
      if v in Scratch(I, m, k - 1).value.vars { ScratchMembers(I, m, k - 1, v); }
    }
  }

  lemma {:induction false} ScratchOnce(I: Interp, m: Bindings, k: nat)
    requires k <= |m.z| && NoRepeats(m.z) && Scratch(I, m, k).Some?
    ensures NoRepeats(Scratch(I, m, k).value.vars)
  {
    hide EvalMX, SetUp;
    if k == 0 {
      SetUpOnce(m, |m.z|);
    } else {
      ScratchOnce(I, m, k - 1);
      var s, u := Scratch(I, m, k - 1).value, m.z[k - 1];
      if u in s.vars && IsBound(m, u) && !m.binding[u].Const? {
        ScratchMembers(I, m, k - 1, u);
        if u in SetUp(m, |m.z|).value.vars { SetUpMembers(m, |m.z|, u); }
      }
    }
  }

  /** Values pushed later do not change the earlier ones. */
  lemma PushKeeps(s: Values, v: nat, x: real, w: nat)
    requires |s.vars| == |s.vals|
    ensures w in s.vars ==> EnvOf(Push(s, v, x))(w) == EnvOf(s)(w)
    ensures v !in s.vars ==> EnvOf(Push(s, v, x))(v) == x
  {
    if w in s.vars { IndexOfAppended(s.vars, v, w); }
    IndexOfAppended(s.vars, v, v);
  }

  /** Every value so far solves its binding. */
  ghost predicate Solves(I: Interp, m: Bindings, s: Values, v: nat)
    requires |s.vars| == |s.vals|
  {
    v in s.vars && v in m.binding && (forall w :: w in Vars(m.binding[v]) ==> w in s.vars)
    && EnvOf(s)(v) == Eval(I, EnvOf(s), m.binding[v])
  }

  lemma SolvesAfterPush(I: Interp, m: Bindings, s: Values, v: nat, x: real, w: nat)
    requires |s.vars| == |s.vals| && Solves(I, m, s, w)
    ensures Solves(I, m, Push(s, v, x), w)
  {
    PushKeeps(s, v, x, w);
    forall u | u in Vars(m.binding[w]) ensures EnvOf(Push(s, v, x))(u) == EnvOf(s)(u) { PushKeeps(s, v, x, u); }
    EvalAgree(I, EnvOf(Push(s, v, x)), EnvOf(s), m.binding[w]);
  }

  lemma {:induction false} ConstantsSolve(I: Interp, m: Bindings, k: nat, v: nat)
    requires k <= |m.z| && NoRepeats(m.z) && SetUp(m, k).Some? && v in m.z[..k] && IsBound(m, v) && m.binding[v].Const?
    ensures Solves(I, m, SetUp(m, k).value, v)
  {
    var u := m.z[k - 1];
    assert m.z[..k] == m.z[..k - 1] + [u];
    var s, t := SetUp(m, k - 1).value, SetUp(m, k).value;
    if u == v {
      if v in s.vars { SetUpMembers(m, k - 1, v); }
      assert t == Push(s, v, m.binding[v].value);
      PushKeeps(s, v, m.binding[v].value, v);
    } else {
      ConstantsSolve(I, m, k - 1, v);
      if t != s {
        assert t == Push(s, u, t.vals[|s.vals|]);
        SolvesAfterPush(I, m, s, u, t.vals[|s.vals|], v);
      }
    }
  }

  /** From scratch, every bound parameter gets the value of its binding under these very values. */
  lemma {:induction false} ScratchSolves(I: Interp, m: Bindings, k: nat, v: nat)
    requires k <= |m.z| && NoRepeats(m.z) && Scratch(I, m, k).Some?
    requires IsBound(m, v) && v in m.z && (m.binding[v].Const? || v in m.z[..k])
    ensures Solves(I, m, Scratch(I, m, k).value, v)
  {
    if k == 0 {
      assert m.z[..|m.z|] == m.z;
      ConstantsSolve(I, m, |m.z|, v);
    } else {
      hide Scratch, SetUp, EvalMX, EnvOf, Eval, Solves, NoRepeats;
      ScratchCases(I, m, k);
      var u, s, t := m.z[k - 1], Scratch(I, m, k - 1).value, Scratch(I, m, k).value;
      assert m.z[..k] == m.z[..k - 1] + [u];
      if v == u && !m.binding[v].Const? {
        ScratchOnce(I, m, k);
        NewIsNotOld(s, v, Eval(I, EnvOf(s), m.binding[v]));
        PushedSolves(I, m, s, v, Eval(I, EnvOf(s), m.binding[v]));
      } else {
        ScratchSolves(I, m, k - 1, v);
        if IsBound(m, u) && !m.binding[u].Const? {
          SolvesAfterPush(I, m, s, u, Eval(I, EnvOf(s), m.binding[u]), v);
        }
      }
    }
  }

  /** What the second loop does with one variable, when it does not fail. */
  lemma ScratchCases(I: Interp, m: Bindings, k: nat)
    requires 0 < k <= |m.z| && Scratch(I, m, k).Some?
    ensures Scratch(I, m, k - 1).Some?
    ensures var u, s, t := m.z[k - 1], Scratch(I, m, k - 1).value, Scratch(I, m, k).value;
            if IsBound(m, u) && !m.binding[u].Const? then
              t == Push(s, u, Eval(I, EnvOf(s), m.binding[u])) && forall w :: w in Vars(m.binding[u]) ==> w in s.vars
            else t == s
  {}

  lemma NewIsNotOld(s: Values, v: nat, x: real)
    requires NoRepeats(Push(s, v, x).vars)
    ensures v !in s.vars
  {
    var t := Push(s, v, x);
    forall i | 0 <= i < |s.vars| ensures s.vars[i] != v { assert t.vars[i] != t.vars[|s.vars|]; }
  }

  lemma PushedSolves(I: Interp, m: Bindings, s: Values, v: nat, x: real)
    requires |s.vars| == |s.vals| && v !in s.vars && v in m.binding && x == Eval(I, EnvOf(s), m.binding[v])
    requires forall w :: w in Vars(m.binding[v]) ==> w in s.vars
    ensures Solves(I, m, Push(s, v, x), v)
  {
    var t := Push(s, v, x);
    PushKeeps(s, v, x, v);
    forall u | u in Vars(m.binding[v]) ensures EnvOf(t)(u) == EnvOf(s)(u) { PushKeeps(s, v, x, u); }
    EvalAgree(I, EnvOf(t), EnvOf(s), m.binding[v]);
  }

  /** The value that the first loop gives a variable: that of its constant binding, through an alias
      too, or of its start attribute when it has no binding. */
  function Given(m: Bindings, v: nat): Option<real> {
    if !(HasKind(m, v, PARAMETER) || HasKind(m, v, CONSTANT)) then None
    else if BindingOf(m, v).None? then StartOf(m, v)
    else if BindingOf(m, v).value.Const? then Some(BindingOf(m, v).value.value)
    else None
  }

  lemma {:induction false} SetUpGives(m: Bindings, k: nat, v: nat)
    requires k <= |m.z| && NoRepeats(m.z) && SetUp(m, k).Some?
    ensures v in SetUp(m, k).value.vars <==> v in m.z[..k] && Given(m, v).Some?
    ensures v in SetUp(m, k).value.vars ==> EnvOf(SetUp(m, k).value)(v) == Given(m, v).value
  {
    if k > 0 {
      SetUpGives(m, k - 1, v);
      var s, t, u := SetUp(m, k - 1).value, SetUp(m, k).value, m.z[k - 1];
      assert m.z[..k] == m.z[..k - 1] + [u];
      if t != s {
        assert t == Push(s, u, Given(m, u).value);
        SetUpOnce(m, k);
        NewIsNotOld(s, u, Given(m, u).value);
        PushKeeps(s, u, Given(m, u).value, v);
      }
    }
  }

  lemma {:induction false} ScratchKeeps(I: Interp, m: Bindings, k: nat, v: nat)
    requires k <= |m.z| && NoRepeats(m.z) && Scratch(I, m, k).Some? && v in SetUp(m, |m.z|).value.vars
    ensures v in Scratch(I, m, k).value.vars && EnvOf(Scratch(I, m, k).value)(v) == EnvOf(SetUp(m, |m.z|).value)(v)
  {
    hide SetUp, EvalMX, EnvOf;
    if k > 0 {
      ScratchCases(I, m, k);
      ScratchKeeps(I, m, k - 1, v);
      var s, u := Scratch(I, m, k - 1).value, m.z[k - 1];
      if IsBound(m, u) && !m.binding[u].Const? { PushKeeps(s, u, Eval(I, EnvOf(s), m.binding[u]), v); }
    }
  }

  /** All values from scratch: which variables have one, and which. Constants and aliases are among
      them when their binding is constant; an alias of a dependent parameter, or a constant whose binding
      is not constant, has none. */
  lemma ScratchValues(I: Interp, m: Bindings, v: nat)
    requires NoRepeats(m.z) && Scratch(I, m, |m.z|).Some?
    ensures var s := Scratch(I, m, |m.z|).value;
      && (v in s.vars <==> v in m.z && (Given(m, v).Some? || IsBound(m, v)))
      && (v in m.z && Given(m, v).Some? ==> EnvOf(s)(v) == Given(m, v).value)
      && (v in m.z && IsBound(m, v) ==> Solves(I, m, s, v))
  {
    hide EnvOf, Scratch, SetUp, Given;
    assert m.z[..|m.z|] == m.z;
    SetUpGives(m, |m.z|, v);
    if v in m.z && Given(m, v).Some? { ScratchKeeps(I, m, |m.z|, v); }
    if v in m.z && IsBound(m, v) { ScratchSolves(I, m, |m.z|, v); }
    if v in Scratch(I, m, |m.z|).value.vars { ScratchMembers(I, m, |m.z|, v); }
  }

  /** The values, said of bindings and start values themselves. A variable has one when it is a parameter or
      constant and its root has no binding, a constant one, or the variable is a dependent parameter
      itself; an alias has the value of its root up to its sign. */
  ghost predicate ValuesFit(m: Bindings, s: Values)
    requires |s.vars| == |s.vals|
  {
    && (forall v :: v in s.vars <==> HasValue(m, v))
    && forall v :: v in s.vars ==>
         var (r, negated) := if v in m.alias then m.alias[v] else (v, false);
         if r in m.binding then
           m.binding[r].Const? ==> EnvOf(s)(v) == if negated then -m.binding[r].value else m.binding[r].value
         else
           r in m.start && EnvOf(s)(v) == if negated then -m.start[r] else m.start[r]
  }

  ghost predicate HasValue(m: Bindings, v: nat) {
    && v in m.z && v in m.variability && m.variability[v] in {PARAMETER, CONSTANT}
    && var r := if v in m.alias then m.alias[v].0 else v;
       r in m.binding ==> m.binding[r].Const? || (v !in m.alias && m.variability[v] == PARAMETER)
  }

  lemma {:induction false} SetUpHasStarts(m: Bindings, k: nat, v: nat)
    requires k <= |m.z| && SetUp(m, k).Some? && v in m.z[..k] && (HasKind(m, v, PARAMETER) || HasKind(m, v, CONSTANT))
    ensures BindingOf(m, v).None? ==> StartOf(m, v).Some?
  {
    assert m.z[..k] == m.z[..k - 1] + [m.z[k - 1]];
    if v != m.z[k - 1] { SetUpHasStarts(m, k - 1, v); }
  }

  lemma {:induction false} ScratchHasSetUp(I: Interp, m: Bindings, k: nat)
    requires k <= |m.z| && Scratch(I, m, k).Some?
    ensures SetUp(m, |m.z|).Some?
  {}

  lemma ScratchFits(I: Interp, m: Bindings)
    requires NoRepeats(m.z) && Scratch(I, m, |m.z|).Some?
    ensures ValuesFit(m, Scratch(I, m, |m.z|).value)
  {
    hide Scratch, SetUp, EnvOf;
    var s := Scratch(I, m, |m.z|).value;
    ScratchHasSetUp(I, m, |m.z|);
    assert m.z[..|m.z|] == m.z;
    forall v ensures v in s.vars <==> HasValue(m, v) {
      ScratchValues(I, m, v);
      if v in m.z && (HasKind(m, v, PARAMETER) || HasKind(m, v, CONSTANT)) { SetUpHasStarts(m, |m.z|, v); }
    }
    forall v | v in s.vars
      ensures var (r, negated) := if v in m.alias then m.alias[v] else (v, false);
              if r in m.binding then
                m.binding[r].Const? ==> EnvOf(s)(v) == if negated then -m.binding[r].value else m.binding[r].value
              else
                r in m.start && EnvOf(s)(v) == if negated then -m.start[r] else m.start[r]
    {
      ScratchValues(I, m, v);
      SetUpHasStarts(m, |m.z|, v);
    }
  }

  /** An alias and its root have the same value up to sign. */
  lemma AliasHasRootsValue(I: Interp, m: Bindings, s: Values, a: nat)
    requires |s.vars| == |s.vals| && ValuesFit(m, s) && a in m.alias && m.alias[a].0 !in m.alias && a in s.vars
    requires m.alias[a].0 in s.vars
    ensures EnvOf(s)(a) == if m.alias[a].1 then -EnvOf(s)(m.alias[a].0) else EnvOf(s)(m.alias[a].0)
  {
    assert HasValue(m, a);
  }

  /** Why there are no values from scratch: a parameter or constant has neither binding nor start value,
      or a dependent parameter mentions a variable that has no value, or only gets one later. */
  ghost predicate Unvalued(m: Bindings) {
    || (exists v :: v in m.z && LacksStart(m, v))
    || (exists k, w :: 0 <= k < |m.z| && MentionsUnvalued(m, k, w))
  }

  ghost predicate LacksStart(m: Bindings, v: nat) {
    && v in m.variability && m.variability[v] in {PARAMETER, CONSTANT}
    && var r := if v in m.alias then m.alias[v].0 else v;
       r !in m.binding && r !in m.start
  }

  ghost predicate Dependent(m: Bindings, v: nat) {
    v in m.variability && m.variability[v] == PARAMETER && v !in m.alias && v in m.binding && !m.binding[v].Const?
  }

  ghost predicate MentionsUnvalued(m: Bindings, k: int, w: nat) {
    && 0 <= k < |m.z| && Dependent(m, m.z[k]) && w in Vars(m.binding[m.z[k]])
    && (!HasValue(m, w) || (Dependent(m, w) && w !in m.z[..k]))
  }

  lemma {:induction false} SetUpFails(m: Bindings, k: nat)
    requires k <= |m.z|
    ensures SetUp(m, k).None? <==> exists v :: v in m.z[..k] && LacksStart(m, v)
  {
    if k > 0 {
      SetUpFails(m, k - 1);
      var u := m.z[k - 1];
      assert m.z[..k] == m.z[..k - 1] + [u];
      assert SetUp(m, k).None? <==> SetUp(m, k - 1).None? || LacksStart(m, u);
      assert forall v :: v in m.z[..k] <==> v in m.z[..k - 1] || v == u;
    }
  }

  /** Which variables have a value when the second loop comes to position k. */
  lemma ScratchHas(I: Interp, m: Bindings, k: nat, w: nat)
    requires k <= |m.z| && NoRepeats(m.z) && Scratch(I, m, k).Some?
    ensures w in Scratch(I, m, k).value.vars <==> HasValue(m, w) && (Dependent(m, w) ==> w in m.z[..k])
  {
    hide EnvOf, Scratch, SetUp;
    ScratchHasSetUp(I, m, k);
    assert m.z[..|m.z|] == m.z;
    SetUpGives(m, |m.z|, w);
    if w in m.z && (HasKind(m, w, PARAMETER) || HasKind(m, w, CONSTANT)) { SetUpHasStarts(m, |m.z|, w); }
    if w in m.z && Given(m, w).Some? { ScratchKeeps(I, m, k, w); }
    if Dependent(m, w) && w in m.z[..k] { ScratchSolves(I, m, k, w); }
    if w in Scratch(I, m, k).value.vars { ScratchMembers(I, m, k, w); }
  }

  lemma ScratchStops(I: Interp, m: Bindings, k: nat)
    requires k < |m.z| && NoRepeats(m.z) && Scratch(I, m, k).Some?
    ensures Scratch(I, m, k + 1).None? <==> exists w :: MentionsUnvalued(m, k, w)
  {
    hide SetUp, HasValue, EnvOf, NoRepeats;
    var s, v := Scratch(I, m, k).value, m.z[k];
    forall w ensures w in s.vars <==> HasValue(m, w) && (Dependent(m, w) ==> w in m.z[..k]) { ScratchHas(I, m, k, w); }
    assert Dependent(m, v) <==> IsBound(m, v) && !m.binding[v].Const?;
    if Scratch(I, m, k + 1).None? {
      var w :| w in Vars(m.binding[v]) && w !in s.vars;
      assert MentionsUnvalued(m, k, w);
    }
    if w :| MentionsUnvalued(m, k, w) { assert w !in s.vars; }
  }

  ghost predicate StopsBefore(m: Bindings, k: nat) {
    exists j, w :: 0 <= j < k && MentionsUnvalued(m, j, w)
  }

  lemma StopsNext(m: Bindings, k: nat)
    ensures StopsBefore(m, k + 1) <==> StopsBefore(m, k) || exists w :: MentionsUnvalued(m, k, w)
  {
    hide MentionsUnvalued;
  }

  lemma NothingStopped(I: Interp, m: Bindings)
    ensures Scratch(I, m, 0) == SetUp(m, |m.z|) && !StopsBefore(m, 0)
  {}

  lemma {:induction false} ScratchFailsFrom(I: Interp, m: Bindings, k: nat)
    requires k <= |m.z| && NoRepeats(m.z) && SetUp(m, |m.z|).Some?
    ensures Scratch(I, m, k).None? <==> StopsBefore(m, k)
  {
    hide SetUp, Scratch, NoRepeats, MentionsUnvalued, StopsBefore;
    if k == 0 {
      NothingStopped(I, m);
    } else {
      ScratchFailsFrom(I, m, k - 1);
      StopsNext(m, k - 1);
      if Scratch(I, m, k - 1).Some? {
        ScratchStops(I, m, k - 1);
      } else {
        ScratchFails(I, m, k - 1, k);
      }
    }
  }

  lemma FailsExactlyWhenUnvalued(I: Interp, m: Bindings)
    requires NoRepeats(m.z)
    ensures Scratch(I, m, |m.z|).None? <==> Unvalued(m)
  {
    hide MentionsUnvalued, LacksStart, SetUp;
    SetUpFails(m, |m.z|);
    assert m.z[..|m.z|] == m.z;
    if SetUp(m, |m.z|).Some? {
      ScratchFailsFrom(I, m, |m.z|);
    } else {
      ScratchFails(I, m, 0, |m.z|);
    }
  }

  // ----- The cache -----

  /** Nothing but bound variables has a stored value. */
  ghost predicate OnlyBound(m: Bindings, evaluated: map<nat, Expr>) {
    forall v :: v in evaluated ==> v in m.z && IsBound(m, v)
  }

  /** The stored values are those from scratch. */
  ghost predicate Agrees(I: Interp, m: Bindings, s: Values, evaluated: map<nat, Expr>) {
    && Scratch(I, m, |m.z|) == Some(s) && OnlyBound(m, evaluated)
    && forall v :: v in m.z && IsBound(m, v) ==> v in evaluated && evaluated[v] == Evaluated(I, m, s, v)
  }

  function RootOf(m: Bindings, v: nat): nat {
    if v in m.alias then m.alias[v].0 else v
  }

  /** Variable v is, or is an alias of, a bound variable of the model. */
  predicate HasBoundRoot(m: Bindings, v: nat) {
    RootOf(m, v) in m.z && IsBound(m, RootOf(m, v))
  }

  datatype GetResult = Value(value: real) | NoVariable | NotParameter | EvaluationFailed | NotEvaluated

  datatype SetResult = Done | UnknownVariable | NotAParameter | BindingIsDependent

  class Model {
    const I: Interp
    var z: seq<nat>
    var variability: map<nat, Variability>
    var alias: map<nat, (nat, bool)>
    var binding: map<nat, Expr>
    var start: map<nat, real>
    var evaluated: map<nat, Expr>
    var dirty: bool
    var paramAndConstMXVec: seq<nat>
    var paramAndConstValVec: seq<real>

    function M(): Bindings
      reads `z, `variability, `alias, `binding, `start
    {
      Bindings(z, variability, alias, binding, start)
    }

    function S(): Values
      reads `paramAndConstMXVec, `paramAndConstValVec
    {
      Values(paramAndConstMXVec, paramAndConstValVec)
    }

    /** Whenever dirty is false, all stored values agree with recomputation from the current bindings. */
    ghost predicate Valid()
      reads this
    {
      && NoRepeats(z) && |paramAndConstMXVec| == |paramAndConstValVec| && OnlyBound(M(), evaluated)
      && (!dirty ==> Agrees(I, M(), S(), evaluated))
    }

    constructor (I: Interp)
      ensures Valid() && z == [] && !dirty
    {
      this.I := I;
      z, variability, alias, binding, start, evaluated := [], map[], map[], map[], map[], map[];
      dirty, paramAndConstMXVec, paramAndConstValVec := false, [], [];
    }

    /** Adds a variable, with the binding and the start value it has, or as an alias. */
    method AddVariable(v: nat, kind: Variability, of: Option<(nat, bool)>, b: Option<Expr>, s: Option<real>)
      requires Valid() && v !in z
      modifies `z, `variability, `alias, `binding, `start, `dirty
      ensures Valid() && dirty && z == old(z) + [v] && variability == old(variability)[v := kind]
      ensures alias == (if of.Some? then old(alias)[v := of.value] else old(alias))
      ensures binding == (if b.Some? then old(binding)[v := b.value] else old(binding))
      ensures start == (if s.Some? then old(start)[v := s.value] else old(start))
    {
      hide Agrees, OnlyBound, NoRepeats;
      ghost var m := M();
      dirty := true;
      z := z + [v];
      variability := variability[v := kind];
      alias := if of.Some? then alias[v := of.value] else alias;
      binding := if b.Some? then binding[v := b.value] else binding;
      start := if s.Some? then start[v := s.value] else start;
      NewIsNotBound(m, M(), v, evaluated);
    }

    /** Model::set: the attribute of the root is set, the dirty flag in any case. */
    method Set(v: nat, value: real) returns (r: SetResult)
      requires Valid()
      modifies `binding, `dirty
      ensures Valid()
      ensures r.Done? ==> dirty && var root := if v in alias then alias[v].0 else v;
                binding == old(binding)[root := Const(if v in alias && alias[v].1 then -value else value)]
      ensures !r.Done? ==> binding == old(binding)
      ensures r.Done? <==>
                v in z && HasKind(M(), v, PARAMETER) &&
                    (old(BindingOf(M(), v)).Some? ==> old(BindingOf(M(), v)).value.Const?)
      ensures r.UnknownVariable? <==> v !in z
      ensures r.NotAParameter? <==> v in z && !(v in variability && variability[v] == PARAMETER)
      ensures r.BindingIsDependent? <==>
                && v in z && v in variability && variability[v] == PARAMETER
                && var root := if v in alias then alias[v].0 else v;
                   root in binding && !binding[root].Const?
      ensures dirty == (old(dirty) || r.Done? || r.BindingIsDependent?)
    {
      if v !in z {
        return UnknownVariable;
      }
      if !HasKind(M(), v, PARAMETER) {
        return NotAParameter;
      }
      dirty := true;
      var b := BindingOf(M(), v);
      if b.Some? && !b.value.Const? {
        return BindingIsDependent;
      }
      if v in alias {
        var (root, negated) := alias[v];
        binding := binding[root := if negated then Negate(Const(value)) else Const(value)];
      } else {
        binding := binding[v := Const(value)];
      }
      r := Done;
    }

    /** setUpValAndSymbolVecs */
    method SetUpValAndSymbolVecs() returns (ok: bool)
      modifies `paramAndConstMXVec, `paramAndConstValVec
      ensures |paramAndConstMXVec| == |paramAndConstValVec|
      ensures ok ==> SetUp(M(), |z|) == Some(S())
      ensures !ok ==> SetUp(M(), |z|).None?
    {
      paramAndConstMXVec, paramAndConstValVec := [], [];
      for k := 0 to |z|
        invariant SetUp(M(), k) == Some(S())
      {
        var v := z[k];
        if HasKind(M(), v, PARAMETER) || HasKind(M(), v, CONSTANT) {
          var b := BindingOf(M(), v);
          if b.Some? {
            if b.value.Const? {
              paramAndConstMXVec := paramAndConstMXVec + [v];
              paramAndConstValVec := paramAndConstValVec + [b.value.value];
            }
          } else {
            var s := StartOf(M(), v);
            if s.None? {
              FailureStays(M(), k + 1, |z|);
              return false;
            }
            paramAndConstValVec := paramAndConstValVec + [s.value];
            paramAndConstMXVec := paramAndConstMXVec + [v];
          }
        }
      }
      ok := true;
    }

    /** calculateValuesForDependentParameters: a failure leaves the dirty flag set. */
    method CalculateValues() returns (ok: bool)
      requires Valid()
      modifies `dirty, `evaluated, `paramAndConstMXVec, `paramAndConstValVec
      ensures Valid() && (ok <==> !dirty) && (!old(dirty) ==> ok)
      ensures !ok ==> Scratch(I, M(), |z|).None?
      ensures ok ==> ValuesFit(M(), S())
      ensures ok <==> !Unvalued(M())
    {
      FailsExactlyWhenUnvalued(I, M());
      if !dirty {
        ScratchFits(I, M());
        return true;
      }
      hide Scratch, SetUp, EvalMX, Evaluated, EvaluatedUpTo, NoRepeats, Agrees, OnlyBound, ValuesFit, Unvalued;
      ok := SetUpValAndSymbolVecs();
      StartScratch(I, M(), S(), evaluated, ok);
      if !ok {
        return;
      }
      for k := 0 to |z|
        invariant Scratch(I, M(), k) == Some(S()) && dirty && EvaluatedUpTo(I, M(), S(), k, evaluated)
        invariant OnlyBound(M(), evaluated)
      {
        ok := CalculateNext(k);
        if !ok {
          return;
        }
      }
      AllEvaluated(I, M(), S(), evaluated);
      ScratchFits(I, M());
      dirty := false;
    }

    /** One variable of the second loop. */
    method CalculateNext(k: nat) returns (ok: bool)
      requires k < |z| && NoRepeats(z) && Scratch(I, M(), k) == Some(S()) && EvaluatedUpTo(I, M(), S(), k, evaluated)
      modifies `evaluated, `paramAndConstMXVec, `paramAndConstValVec
      ensures ok ==> Scratch(I, M(), k + 1) == Some(S()) && EvaluatedUpTo(I, M(), S(), k + 1, evaluated)
      ensures |paramAndConstMXVec| == |paramAndConstValVec| && OnlyBound(M(), evaluated)
      ensures !ok ==> Scratch(I, M(), |z|).None?
    {
      hide Scratch, SetUp, EvalMX, Evaluated, EvaluatedUpTo, NoRepeats;
      UpToIsBound(I, M(), S(), k, evaluated);
      var v := z[k];
      ghost var before, had, m := S(), evaluated, M();
      if IsBound(M(), v) {
        var bindingExpression := binding[v];
        if !bindingExpression.Const? {
          var val := EvalMX(I, S(), bindingExpression);
          if val.None? {
            ScratchStuck(I, m, before, k, v);
            return false;
          }
          ScratchNext(I, m, before, k, v, val.value);
          EvaluatedStays(I, m, before, k, v, val.value);
          paramAndConstMXVec := paramAndConstMXVec + [v];
          paramAndConstValVec := paramAndConstValVec + [val.value];
          evaluated := evaluated[v := Const(val.value)];
        } else {
          ScratchSkips(I, m, k, v);
          ConstantIsEvaluated(I, m, before, v);
          evaluated := evaluated[v := bindingExpression];
        }
      } else {
        ScratchSkips(I, m, k, v);
      }
      EvaluatedNext(I, m, before, S(), k, v, had, evaluated);
      ok := true;
    }

    /** Model::get. */
    method Get(v: nat) returns (r: GetResult)
      requires Valid()
      modifies `dirty, `evaluated, `paramAndConstMXVec, `paramAndConstValVec
      ensures Valid()
      ensures r.NoVariable? <==> v !in z
      ensures r.NotParameter? <==> v in z && !HasKind(M(), v, PARAMETER) && !HasKind(M(), v, CONSTANT)
      ensures r.EvaluationFailed? <==> v in z && !r.NotParameter? && Unvalued(M())
      ensures r.Value? ==> ValuesFit(M(), S())
      ensures r.NotEvaluated? <==> v in z && !r.NotParameter? && !r.EvaluationFailed? && !HasBoundRoot(M(), v)
      ensures r.EvaluationFailed? ==> dirty
      ensures r.Value? ==> !dirty && Scratch(I, M(), |z|) == Some(S()) && Solves(I, M(), S(), RootOf(M(), v))
      ensures r.Value? ==> var (root, negated) := if v in alias then alias[v] else (v, false);
                root in paramAndConstMXVec &&
                r.value == if negated then -EnvOf(S())(root) else EnvOf(S())(root)
    {
      hide Scratch, SetUp, Solves, EnvOf, NoRepeats, ValuesFit, Unvalued;
      if v !in z {
        return NoVariable;
      }
      if !HasKind(M(), v, PARAMETER) && !HasKind(M(), v, CONSTANT) {
        return NotParameter;
      }
      var ok := CalculateValues();
      if !ok {
        return EvaluationFailed;
      }
      ghost var root := RootOf(M(), v);
      assert Agrees(I, M(), S(), evaluated);
      var ex := Through(M(), v, evaluated);
      if ex.None? {
        return NotEvaluated;
      }
      assert root in z && IsBound(M(), root) && evaluated[root] == Evaluated(I, M(), S(), root);
      assert z[..|z|] == z;
      ScratchSolves(I, M(), |z|, root);
      SolvesHasValue(I, M(), S(), root);
      EvaluatedValue(I, M(), S(), root);
      var x := EvalMX(I, S(), ex.value);
      if x.None? {
        return NotEvaluated;
      }
      r := Value(x.value);
    }
  }

  lemma NewIsNotBound(m: Bindings, n: Bindings, v: nat, evaluated: map<nat, Expr>)
    requires OnlyBound(m, evaluated) && NoRepeats(m.z) && v !in m.z && n.z == m.z + [v]
    requires v in n.variability && n.variability == m.variability[v := n.variability[v]]
    requires n.alias == m.alias || (v in n.alias && n.alias == m.alias[v := n.alias[v]])
    requires n.binding == m.binding || (v in n.binding && n.binding == m.binding[v := n.binding[v]])
    ensures OnlyBound(n, evaluated) && NoRepeats(n.z)
  {}

  lemma UpToIsBound(I: Interp, m: Bindings, s: Values, k: nat, evaluated: map<nat, Expr>)
    requires EvaluatedUpTo(I, m, s, k, evaluated)
    ensures OnlyBound(m, evaluated)
  {}

  lemma {:induction false} FailureStays(m: Bindings, k: nat, n: nat)
    requires k <= n <= |m.z| && SetUp(m, k).None?
    ensures SetUp(m, n).None?
    decreases n
  {
    if k < n { FailureStays(m, k, n - 1); }
  }

  lemma {:induction false} ScratchFails(I: Interp, m: Bindings, k: nat, n: nat)
    requires k <= n <= |m.z| && Scratch(I, m, k).None?
    ensures Scratch(I, m, n).None?
    decreases n
  {
    if k < n { ScratchFails(I, m, k, n - 1); }
  }

  /** The values of the parameters before v stay when v's is pushed, and v's is the new one. */
  lemma EvaluatedStays(I: Interp, m: Bindings, s: Values, k: nat, v: nat, x: real)
    requires k < |m.z| && NoRepeats(m.z) && m.z[k] == v && Scratch(I, m, k) == Some(s) && IsBound(m, v)
    requires !m.binding[v].Const?
    requires EvalMX(I, s, m.binding[v]) == Some(x)
    ensures Evaluated(I, m, Push(s, v, x), v) == Const(x)
    ensures forall w :: w in m.z[..k] && IsBound(m, w) ==> Evaluated(I, m, Push(s, v, x), w) == Evaluated(I, m, s, w)
  {
    hide EvalMX, SetUp, Scratch, EnvOf, Solves, NoRepeats, BindingOf;
    ScratchNext(I, m, s, k, v, x);
    ScratchOnce(I, m, k + 1);
    NewIsNotOld(s, v, x);
    PushKeeps(s, v, x, v);
    forall w | w in m.z[..k] && IsBound(m, w) ensures Evaluated(I, m, Push(s, v, x), w) == Evaluated(I, m, s, w) {
      ScratchSolves(I, m, k, w);
      SolvesHasValue(I, m, s, w);
      PushKeeps(s, v, x, w);
    }
  }

  lemma SolvesHasValue(I: Interp, m: Bindings, s: Values, v: nat)
    requires |s.vars| == |s.vals| && Solves(I, m, s, v)
    ensures v in s.vars
  {}

  lemma ScratchNext(I: Interp, m: Bindings, s: Values, k: nat, v: nat, x: real)
    requires k < |m.z| && m.z[k] == v && Scratch(I, m, k) == Some(s) && IsBound(m, v) && !m.binding[v].Const?
    requires EvalMX(I, s, m.binding[v]) == Some(x)
    ensures Scratch(I, m, k + 1) == Some(Push(s, v, x))
  {}

  lemma StartScratch(I: Interp, m: Bindings, s: Values, evaluated: map<nat, Expr>, ok: bool)
    requires |s.vars| == |s.vals| && (if ok then SetUp(m, |m.z|) == Some(s) else SetUp(m, |m.z|).None?)
    requires OnlyBound(m, evaluated)
    ensures ok ==> Scratch(I, m, 0) == Some(s) && EvaluatedUpTo(I, m, s, 0, evaluated)
    ensures !ok ==> Scratch(I, m, |m.z|).None?
  {
    if !ok { ScratchFails(I, m, 0, |m.z|); }
  }

  lemma ConstantIsEvaluated(I: Interp, m: Bindings, s: Values, v: nat)
    requires |s.vars| == |s.vals| && IsBound(m, v) && m.binding[v].Const?
    ensures Evaluated(I, m, s, v) == m.binding[v]
  {}

  lemma AllEvaluated(I: Interp, m: Bindings, s: Values, evaluated: map<nat, Expr>)
    requires Scratch(I, m, |m.z|) == Some(s) && EvaluatedUpTo(I, m, s, |m.z|, evaluated)
    ensures Agrees(I, m, s, evaluated)
  {
    assert m.z[..|m.z|] == m.z;
  }

  lemma ScratchStuck(I: Interp, m: Bindings, s: Values, k: nat, v: nat)
    requires k < |m.z| && m.z[k] == v && Scratch(I, m, k) == Some(s) && IsBound(m, v) && !m.binding[v].Const?
    requires EvalMX(I, s, m.binding[v]).None?
    ensures Scratch(I, m, |m.z|).None?
  {
    ScratchFails(I, m, k + 1, |m.z|);
  }

  lemma ScratchSkips(I: Interp, m: Bindings, k: nat, v: nat)
    requires k < |m.z| && m.z[k] == v && (!IsBound(m, v) || m.binding[v].Const?)
    ensures Scratch(I, m, k + 1) == Scratch(I, m, k)
  {}

  ghost predicate EvaluatedUpTo(I: Interp, m: Bindings, s: Values, k: nat, evaluated: map<nat, Expr>) {
    |s.vars| == |s.vals| && k <= |m.z| && OnlyBound(m, evaluated) &&
    forall v :: v in m.z[..k] && IsBound(m, v) ==> v in evaluated && evaluated[v] == Evaluated(I, m, s, v)
  }

  /** One more variable of the second loop. */
  lemma EvaluatedNext(I: Interp, m: Bindings, s: Values, t: Values, k: nat, v: nat, before: map<nat, Expr>,
                      after: map<nat, Expr>)
    requires k < |m.z| && NoRepeats(m.z) && m.z[k] == v && EvaluatedUpTo(I, m, s, k, before) && |t.vars| == |t.vals|
    requires forall w :: w in m.z[..k] && IsBound(m, w) ==> Evaluated(I, m, t, w) == Evaluated(I, m, s, w)
    requires if IsBound(m, v) then after == before[v := Evaluated(I, m, t, v)] else after == before
    ensures EvaluatedUpTo(I, m, t, k + 1, after)
  {
    assert m.z[..k + 1] == m.z[..k] + [v];
    forall j | 0 <= j < k ensures m.z[j] != v { assert m.z[j] != m.z[k]; }
    assert v in m.z;
  }

  lemma EvaluatedValue(I: Interp, m: Bindings, s: Values, v: nat)
    requires |s.vars| == |s.vals| && IsBound(m, v) && Solves(I, m, s, v)
    ensures Eval(I, EnvOf(s), Evaluated(I, m, s, v)) == EnvOf(s)(v)
  {}
}
