/**
 The blocks of the block lower triangular form (Component, find_deps and create_edges of
 symbolic_elimination.py): incidence, tearing, solvability and the linearity test.
 */
module Components {
  import opened Lists
  import opened Expressions
  import opened Linearity
  import opened Matchings
  import opened BlockOrder
  import BipartiteGraphs

  datatype Variable = Variable(mxVar: nat, isDer: bool, tearing: bool)

  datatype Equation = Equation(expression: Expr, tearing: bool)

  datatype Component = Component(variables: seq<Variable>, equations: seq<Equation>)

  datatype BuildError =
    | SystemNotSquare
    | Singular(error: BipartiteGraphs.MatchError)
    | TearingMismatch
    | CausalSingular
    | CausalNotTriangular
    | CausalNotSolvable

  datatype Result<+T> = Ok(value: T) | Err(error: BuildError)

  function MxOf(x: Variable): nat {
    x.mxVar
  }

  function ExprOf(eq: Equation): Expr {
    eq.expression
  }

  // ----- Incidence -----

  function MarkEqual(dep: Expr, mxVars: seq<nat>, deps: seq<bool>): (r: seq<bool>)
    requires |deps| == |mxVars|
    ensures |r| == |mxVars| && forall i :: 0 <= i < |r| ==> (r[i] <==> deps[i] || dep == Sym(mxVars[i]))
  {
    seq(|deps|, i requires 0 <= i < |deps| => deps[i] || (dep.Sym? && dep.v == mxVars[i]))
  }

  /** Which of mxVars occur properly inside expr, besides those in deps. An expression that is
      itself a variable has no parts. */
  function FindDeps(expr: Expr, mxVars: seq<nat>, deps: seq<bool>): (r: seq<bool>)
    requires |deps| == |mxVars|
    ensures |r| == |mxVars|
    ensures forall i :: 0 <= i < |r| ==> (r[i] <==> deps[i] || (!expr.Sym? && mxVars[i] in Vars(expr)))
  {
    match expr
    case Const(_) => deps
    case Sym(_) => deps
    case Neg(a) => FindDeps(a, mxVars, MarkEqual(a, mxVars, deps))
    case Bin(_, l, r) =>
      var left := FindDeps(l, mxVars, MarkEqual(l, mxVars, deps));
      FindDeps(r, mxVars, MarkEqual(r, mxVars, left))
  }

  ghost predicate Incident(equations: seq<Equation>, variables: seq<Variable>, e: Edge) {
    e.0 < |equations| && e.1 < |variables| && variables[e.1].mxVar in Vars(equations[e.0].expression)
  }

  /** An edge for every variable that occurs in an equation. */
  method CreateEdges(equations: seq<Equation>, variables: seq<Variable>) returns (edges: seq<Edge>)
    ensures forall e :: e in edges <==> Incident(equations, variables, e)
  {
    edges := [];
    var mxVars := Map(variables, MxOf);
    for k := 0 to |equations|
      invariant forall e: Edge :: e in edges <==> Incident(equations, variables, e) && e.0 < k
    {
      var expr := equations[k].expression;
      var deps := FindDeps(expr, mxVars, seq(|mxVars|, _ => false));
      deps := MarkEqual(expr, mxVars, deps);
      for i := 0 to |variables|
        invariant forall e: Edge :: e in edges <==>
                    Incident(equations, variables, e) && (e.0 < k || (e.0 == k && e.1 < i))
      {
        if deps[i] {
          edges := edges + [(k, i)];
        }
      }
    }
  }

  /** m pairs every equation with a variable of its own that it mentions. */
  ghost predicate PairsAll(m: set<Edge>, equations: seq<Equation>, variables: seq<Variable>) {
    (forall e :: e in m ==> Incident(equations, variables, e)) && IsMatching(m) && CoversEquations(m, |equations|)
  }

  ghost predicate StructurallySingular(equations: seq<Equation>, variables: seq<Variable>) {
    !exists m: set<Edge> :: PairsAll(m, equations, variables)
  }

  lemma PerfectPairsAll(edges: seq<Edge>, m: set<Edge>, equations: seq<Equation>, variables: seq<Variable>)
    requires forall e :: e in edges <==> Incident(equations, variables, e)
    ensures Perfect(Set(edges), m, |equations|) <==> PairsAll(m, equations, variables)
  {}

  // ----- Properties of a block -----

  predicate IsTearVar(x: Variable) {
    x.tearing
  }

  predicate IsCausalVar(x: Variable) {
    !x.tearing
  }

  predicate IsTearRes(eq: Equation) {
    eq.tearing
  }

  predicate IsCausalEq(eq: Equation) {
    !eq.tearing
  }

  datatype Tearing = Tearing(tearVars: seq<Variable>, causalVars: seq<Variable>, tearRes: seq<Equation>,
      causalEqs: seq<Equation>)

  function TearingOf(co: Component): Tearing {
    Tearing(Filter(co.variables, IsTearVar), Filter(co.variables, IsCausalVar),
            Filter(co.equations, IsTearRes), Filter(co.equations, IsCausalEq))
  }

  method SplitVariables(xs: seq<Variable>) returns (tearVars: seq<Variable>, causalVars: seq<Variable>)
    ensures tearVars == Filter(xs, IsTearVar) && causalVars == Filter(xs, IsCausalVar)
  {
    tearVars, causalVars := [], [];
    for i := 0 to |xs|
      invariant tearVars == Filter(xs[..i], IsTearVar) && causalVars == Filter(xs[..i], IsCausalVar)
    {
      assert xs[..i + 1][..i] == xs[..i];
      if xs[i].tearing {
        tearVars := tearVars + [xs[i]];
      } else {
        causalVars := causalVars + [xs[i]];
      }
    }
    assert xs[..|xs|] == xs;
  }

  method SplitEquations(eqs: seq<Equation>) returns (tearRes: seq<Equation>, causalEqs: seq<Equation>)
    ensures tearRes == Filter(eqs, IsTearRes) && causalEqs == Filter(eqs, IsCausalEq)
  {
    tearRes, causalEqs := [], [];
    for i := 0 to |eqs|
      invariant tearRes == Filter(eqs[..i], IsTearRes) && causalEqs == Filter(eqs[..i], IsCausalEq)
    {
      assert eqs[..i + 1][..i] == eqs[..i];
      if eqs[i].tearing {
        tearRes := tearRes + [eqs[i]];
      } else {
        causalEqs := causalEqs + [eqs[i]];
      }
    }
    assert eqs[..|eqs|] == eqs;
  }

  /** The tearing variables and residuals of a block, and the rest; they must be equally many. */
  method SplitTearing(co: Component) returns (r: Result<Tearing>)
    ensures r.Ok? ==> r.value == TearingOf(co) && |r.value.tearVars| == |r.value.tearRes|
    ensures r.Err? <==> |TearingOf(co).tearVars| != |TearingOf(co).tearRes|
  {
    var tearVars, causalVars := SplitVariables(co.variables);
    var tearRes, causalEqs := SplitEquations(co.equations);
    if |tearVars| != |tearRes| {
      return Err(TearingMismatch);
    }
    r := Ok(Tearing(tearVars, causalVars, tearRes, causalEqs));
  }

  /** Some, but not all, variables of the block are tearing variables. */
  predicate Torn(co: Component) {
    0 < |TearingOf(co).tearVars| < |co.variables|
  }

  /** A block is torn exactly when some variable of it is a tearing variable and some is not. */
  lemma TornMeans(co: Component)
    ensures Torn(co) <==>
              (exists x :: x in co.variables && x.tearing) && (exists x :: x in co.variables && !x.tearing)
  {
    FilterCounts(co.variables, IsTearVar, IsCausalVar);
    var tear, causal := Filter(co.variables, IsTearVar), Filter(co.variables, IsCausalVar);
    assert |tear| > 0 ==> tear[0] in tear;
    assert |causal| > 0 ==> causal[0] in causal;
  }

  /** The four parts of a block, said without the functions that select them: each takes, in order, the
      variables or equations that are, or are not, marked. */
  lemma TearingTakes(co: Component) returns (a: seq<nat>, b: seq<nat>, c: seq<nat>, d: seq<nat>)
    ensures Takes(co.variables, (x: Variable) => x.tearing, TearingOf(co).tearVars, a)
    ensures Takes(co.variables, (x: Variable) => !x.tearing, TearingOf(co).causalVars, b)
    ensures Takes(co.equations, (eq: Equation) => eq.tearing, TearingOf(co).tearRes, c)
    ensures Takes(co.equations, (eq: Equation) => !eq.tearing, TearingOf(co).causalEqs, d)
  {
    a := FilterTakes(co.variables, IsTearVar);
    b := FilterTakes(co.variables, IsCausalVar);
    c := FilterTakes(co.equations, IsTearRes);
    d := FilterTakes(co.equations, IsCausalEq);
  }

  /** The parts match exactly when as many equations as variables are marked. */
  lemma TearingCounts(co: Component)
    ensures |TearingOf(co).tearVars| == |set k: nat | k < |co.variables| && co.variables[k].tearing|
    ensures |TearingOf(co).tearRes| == |set k: nat | k < |co.equations| && co.equations[k].tearing|
  {
    FilterLength(co.variables, IsTearVar, set k: nat | k < |co.variables| && co.variables[k].tearing);
    FilterLength(co.equations, IsTearRes, set k: nat | k < |co.equations| && co.equations[k].tearing);
  }

  predicate Eliminable(x: Variable, ineliminable: set<nat>) {
    !x.isDer && x.mxVar !in ineliminable
  }

  /** Torn, or scalar with a variable that may be eliminated. */
  predicate Solvable(co: Component, ineliminable: set<nat>) {
    Torn(co) || (|co.variables| <= 1 && forall x :: x in co.variables ==> Eliminable(x, ineliminable))
  }

  method IsSolvable(co: Component, torn: bool, ineliminable: set<nat>) returns (solvable: bool)
    requires torn == Torn(co)
    ensures solvable == Solvable(co, ineliminable)
  {
    if torn {
      return true;
    }
    if |co.variables| > 1 {
      return false;
    }
    for i := 0 to |co.variables|
      invariant forall k :: 0 <= k < i ==> Eliminable(co.variables[k], ineliminable)
    {
      if co.variables[i].isDer || co.variables[i].mxVar in ineliminable {
        assert co.variables[i] in co.variables;
        return false;
      }
    }
    solvable := true;
  }

  /** No equation of the block has a slope that depends on an unknown of the block. */
  ghost predicate LinearBlock(co: Component) {
    forall eq :: eq in co.equations ==> JacobianFree(eq.expression, Map(co.variables, MxOf))
  }

  /** The linearity test. A torn block does not count as linear. */
  method IsLinear(co: Component, torn: bool) returns (linear: bool)
    ensures linear <==> LinearBlock(co) && !torn
  {
    var xs := Map(co.variables, MxOf);
    linear := true;
    for i := 0 to |xs|
      invariant linear <==>
                  forall k, j :: 0 <= k < i && 0 <= j < |co.equations| ==>
                      Avoids(Diff(co.equations[j].expression, xs[k]), xs)
    {
      ghost var before := linear;
      for j := 0 to |co.equations|
        invariant linear <==> before && forall l :: 0 <= l < j ==> Avoids(Diff(co.equations[l].expression, xs[i]), xs)
      {
        var entry := Diff(co.equations[j].expression, xs[i]);
        if exists x :: x in xs && x in Vars(entry) {
          linear := false;
        }
      }
    }
    JacobianByEntries(co, xs, linear);
    if torn {
      linear := false;
    }
  }

  lemma JacobianByEntries(co: Component, xs: seq<nat>, linear: bool)
    requires xs == Map(co.variables, MxOf)
    requires linear <==>
               forall k, j :: 0 <= k < |xs| && 0 <= j < |co.equations| ==>
                   Avoids(Diff(co.equations[j].expression, xs[k]), xs)
    ensures linear <==> LinearBlock(co)
  {
    if LinearBlock(co) {
      forall k, j | 0 <= k < |xs| && 0 <= j < |co.equations|
        ensures Avoids(Diff(co.equations[j].expression, xs[k]), xs)
      {
        assert co.equations[j] in co.equations && xs[k] in xs;
      }
    }
  }

  lemma {:induction false} FilterCounts<T(!new)>(xs: seq<T>, p: T -> bool, q: T -> bool)
    requires forall x :: p(x) <==> !q(x)
    ensures |Filter(xs, p)| + |Filter(xs, q)| == |xs|
  {
    if xs != [] { FilterCounts(xs[..|xs| - 1], p, q); }
  }

  // ----- Blocks in order -----

  ghost predicate HasEquation(bs: seq<Component>, c: int, eq: Equation) {
    0 <= c < |bs| && eq in bs[c].equations
  }

  ghost predicate HasVariable(bs: seq<Component>, c: int, x: Variable) {
    0 <= c < |bs| && x in bs[c].variables
  }

  ghost predicate DistinctVariables(xs: seq<Variable>) {
    NoRepeats(Map(xs, MxOf))
  }

  /** Blocks are square, and no variable is in two places. */
  ghost predicate Separate(bs: seq<Component>) {
    && (forall c :: 0 <= c < |bs| ==> |bs[c].variables| == |bs[c].equations| > 0 && DistinctVariables(bs[c].variables))
    && (forall c, d, x, y :: HasVariable(bs, c, x) && HasVariable(bs, d, y) && c != d ==> x.mxVar != y.mxVar)
  }

  /** No equation mentions a variable of a later block. */
  ghost predicate LowerTriangular(bs: seq<Component>) {
    forall c, d, eq, x :: HasEquation(bs, c, eq) && HasVariable(bs, d, x) && c < d ==> x.mxVar !in Vars(eq.expression)
  }

  ghost predicate SomeHasEquation(bs: seq<Component>, eq: Equation) {
    exists c :: HasEquation(bs, c, eq)
  }

  ghost predicate SomeHasVariable(bs: seq<Component>, x: Variable) {
    exists c :: HasVariable(bs, c, x)
  }

  ghost predicate Covers(bs: seq<Component>, equations: seq<Equation>, variables: seq<Variable>) {
    && (forall eq :: eq in equations <==> SomeHasEquation(bs, eq))
    && (forall x :: x in variables <==> SomeHasVariable(bs, x))
  }

  /** Blocks of the equations and variables, in lower triangular order. */
  ghost predicate OrderedBlocks(bs: seq<Component>, equations: seq<Equation>, variables: seq<Variable>) {
    Separate(bs) && LowerTriangular(bs) && Covers(bs, equations, variables)
  }

  ghost predicate VerticesInRange(vertices: seq<Edge>, n: nat) {
    forall k :: 0 <= k < |vertices| ==> vertices[k].0 < n && vertices[k].1 < n
  }

  /** Component.__init__: the variables and equations of the vertices. */
  method CreateComponent(vertices: seq<Edge>, equations: seq<Equation>, variables: seq<Variable>)
    returns (co: Component)
    requires |equations| == |variables| && VerticesInRange(vertices, |variables|)
    ensures IsComponentOf(vertices, equations, variables, co)
  {
    var xs: seq<Variable>, eqs: seq<Equation> := [], [];
    for k := 0 to |vertices|
      invariant |xs| == k && forall l :: 0 <= l < k ==> xs[l] == variables[vertices[l].1]
      invariant |eqs| == k && forall l :: 0 <= l < k ==> eqs[l] == equations[vertices[l].0]
    {
      xs := xs + [variables[vertices[k].1]];
      eqs := eqs + [equations[vertices[k].0]];
    }
    co := Component(xs, eqs);
  }

  ghost predicate IsComponentOf(vertices: seq<Edge>, equations: seq<Equation>, variables: seq<Variable>, co: Component)
    requires |equations| == |variables| && VerticesInRange(vertices, |variables|)
  {
    && |co.variables| == |vertices| && |co.equations| == |vertices|
    && (forall k :: 0 <= k < |vertices| ==>
        co.variables[k] == variables[vertices[k].1] && co.equations[k] == equations[vertices[k].0])
  }

  /** What the block triangular form of a graph says about the blocks made from it. */
  ghost predicate BlocksOf(parts: seq<seq<Edge>>, equations: seq<Equation>, variables: seq<Variable>,
                           bs: seq<Component>)
    requires |equations| == |variables|
  {
    && |bs| == |parts|
    && (forall c :: 0 <= c < |parts| ==>
        VerticesInRange(parts[c], |variables|) && IsComponentOf(parts[c], equations, variables, bs[c]))
  }

  ghost predicate Triangularized(edges: seq<Edge>, m: set<Edge>, n: nat, parts: seq<seq<Edge>>) {
    && Perfect(Set(edges), m, n) && InRange(Set(edges), n) && BlockTriangular(edges, parts)
    && NoRepeats(Flatten(parts)) && Set(Flatten(parts)) == m && (forall c :: 0 <= c < |parts| ==> parts[c] != [])
  }

  lemma AtIsMatched(edges: seq<Edge>, m: set<Edge>, n: nat, parts: seq<seq<Edge>>, c: nat, k: nat)
    requires Triangularized(edges, m, n, parts) && At(parts, c, k)
    ensures parts[c][k] in m && parts[c][k].0 < n && parts[c][k].1 < n
  {
    FlattenPosition(parts, c, k);
    assert parts[c][k] in Flatten(parts);
    assert parts[c][k] in Set(edges);
  }

  lemma EarlierPart(parts: seq<seq<Edge>>, c: nat, k: nat, d: nat)
    requires At(parts, c, k) && c < d <= |parts|
    ensures Offset(parts, c) + k < Offset(parts, d)
  {
    FlattenPosition(parts, c, k);
    OffsetsGrow(parts, c + 1, d);
  }

  /** Two places with the same variable are the same place. */
  lemma PlacesDiffer(edges: seq<Edge>, m: set<Edge>, n: nat, parts: seq<seq<Edge>>, c: nat, k: nat, d: nat, l: nat)
    requires Triangularized(edges, m, n, parts) && At(parts, c, k) && At(parts, d, l)
    requires parts[c][k].1 == parts[d][l].1
    ensures c == d && k == l
  {
    AtIsMatched(edges, m, n, parts, c, k);
    AtIsMatched(edges, m, n, parts, d, l);
    FlattenPosition(parts, c, k);
    FlattenPosition(parts, d, l);
    if c < d { EarlierPart(parts, c, k, d); }
    if d < c { EarlierPart(parts, d, l, c); }
  }

  lemma BlocksAreSeparate(edges: seq<Edge>, m: set<Edge>, n: nat, parts: seq<seq<Edge>>, equations: seq<Equation>,
                          variables: seq<Variable>, bs: seq<Component>)
    requires |equations| == |variables| == n && DistinctVariables(variables)
    requires Triangularized(edges, m, n, parts) && BlocksOf(parts, equations, variables, bs)
    ensures Separate(bs)
  {
    forall c, d, k, l | 0 <= c < |bs| && 0 <= d < |bs| && 0 <= k < |bs[c].variables| && 0 <= l < |bs[d].variables| &&
        (c != d || k < l)
      ensures bs[c].variables[k].mxVar != bs[d].variables[l].mxVar
    {
      SeparatePlaces(edges, m, n, parts, equations, variables, bs, c, k, d, l);
    }
    forall c | 0 <= c < |bs| ensures |bs[c].variables| == |bs[c].equations| > 0 && DistinctVariables(bs[c].variables) {
      assert IsComponentOf(parts[c], equations, variables, bs[c]);
    }
  }

  lemma SeparatePlaces(edges: seq<Edge>, m: set<Edge>, n: nat, parts: seq<seq<Edge>>, equations: seq<Equation>,
                       variables: seq<Variable>, bs: seq<Component>,
                       c: nat, k: nat, d: nat, l: nat)
    requires |equations| == |variables| == n && DistinctVariables(variables)
    requires Triangularized(edges, m, n, parts) && BlocksOf(parts, equations, variables, bs)
    requires c < |bs| && d < |bs| && k < |bs[c].variables| && l < |bs[d].variables| && (c != d || k != l)
    ensures bs[c].variables[k].mxVar != bs[d].variables[l].mxVar
  {
    hide Triangularized;
    assert IsComponentOf(parts[c], equations, variables, bs[c]) && IsComponentOf(parts[d], equations, variables, bs[d]);
    assert At(parts, c, k) && At(parts, d, l);
    AtIsMatched(edges, m, n, parts, c, k);
    AtIsMatched(edges, m, n, parts, d, l);
    var i, j := parts[c][k].1, parts[d][l].1;
    if i == j { PlacesDiffer(edges, m, n, parts, c, k, d, l); }
    var names := Map(variables, MxOf);
    assert names[i] != names[j];
  }

  lemma BlocksAreTriangular(edges: seq<Edge>, m: set<Edge>, n: nat, parts: seq<seq<Edge>>, equations: seq<Equation>,
                            variables: seq<Variable>, bs: seq<Component>)
    requires |equations| == |variables| == n && forall e :: e in edges <==> Incident(equations, variables, e)
    requires Triangularized(edges, m, n, parts) && BlocksOf(parts, equations, variables, bs)
    ensures LowerTriangular(bs)
  {
    forall c, d, eq, x | HasEquation(bs, c, eq) && HasVariable(bs, d, x) && c < d
      ensures x.mxVar !in Vars(eq.expression)
    {
      assert IsComponentOf(parts[c], equations, variables, bs[c]) &&
             IsComponentOf(parts[d], equations, variables, bs[d]);
      var k :| 0 <= k < |bs[c].equations| && bs[c].equations[k] == eq;
      var l :| 0 <= l < |bs[d].variables| && bs[d].variables[l] == x;
      assert At(parts, c, k) && At(parts, d, l);
      AtIsMatched(edges, m, n, parts, c, k);
      AtIsMatched(edges, m, n, parts, d, l);
      var e := (parts[c][k].0, parts[d][l].1);
      assert e !in edges;
      assert !Incident(equations, variables, e);
    }
  }

  lemma BlocksCover(edges: seq<Edge>, m: set<Edge>, n: nat, parts: seq<seq<Edge>>, equations: seq<Equation>,
                    variables: seq<Variable>, bs: seq<Component>)
    requires |equations| == |variables| == n
    requires Triangularized(edges, m, n, parts) && BlocksOf(parts, equations, variables, bs)
    ensures Covers(bs, equations, variables)
  {
    PerfectMatchesAll(Set(edges), Flatten(parts), n);
    forall i | 0 <= i < n ensures SomeHasEquation(bs, equations[i]) && SomeHasVariable(bs, variables[i]) {
      PlaceOfIndex(edges, m, n, parts, equations, variables, bs, i);
    }
    forall c, k | 0 <= c < |bs| && 0 <= k < |bs[c].variables|
      ensures k < |bs[c].equations| && bs[c].variables[k] in variables && bs[c].equations[k] in equations
    {
      assert IsComponentOf(parts[c], equations, variables, bs[c]);
      AtIsMatched(edges, m, n, parts, c, k);
    }
    forall eq ensures eq in equations <==> SomeHasEquation(bs, eq) {
      if c :| HasEquation(bs, c, eq) {
        assert IsComponentOf(parts[c], equations, variables, bs[c]);
        var k :| 0 <= k < |bs[c].equations| && bs[c].equations[k] == eq;
      }
    }
  }

  lemma EquationPlace(parts: seq<seq<Edge>>, equations: seq<Equation>, variables: seq<Variable>, bs: seq<Component>,
                      p: nat)
    requires |equations| == |variables| && BlocksOf(parts, equations, variables, bs) && p < |Flatten(parts)|
    ensures Flatten(parts)[p].0 < |equations| && Flatten(parts)[p].1 < |variables|
    ensures SomeHasEquation(bs, equations[Flatten(parts)[p].0]) && SomeHasVariable(bs, variables[Flatten(parts)[p].1])
  {
    hide Flatten;
    var c, k := PartOfPosition(parts, p);
    FlattenPosition(parts, c, k);
    assert IsComponentOf(parts[c], equations, variables, bs[c]);
    assert HasEquation(bs, c, bs[c].equations[k]);
    assert HasVariable(bs, c, bs[c].variables[k]);
  }

  lemma PlaceOfIndex(edges: seq<Edge>, m: set<Edge>, n: nat, parts: seq<seq<Edge>>, equations: seq<Equation>,
                     variables: seq<Variable>, bs: seq<Component>, i: nat)
    requires |equations| == |variables| == n && i < n && BlocksOf(parts, equations, variables, bs)
    requires i in Map(Flatten(parts), EqIndex) && i in Map(Flatten(parts), VarIndex)
    ensures SomeHasEquation(bs, equations[i]) && SomeHasVariable(bs, variables[i])
  {
    hide Flatten, BlocksOf, SomeHasEquation, SomeHasVariable;
    var f := Flatten(parts);
    var p: nat :| p < |f| && Map(f, EqIndex)[p] == i;
    var q: nat :| q < |f| && Map(f, VarIndex)[q] == i;
    EquationPlace(parts, equations, variables, bs, p);
    EquationPlace(parts, equations, variables, bs, q);
  }
}
