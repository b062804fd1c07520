/** Blocks made from a matched graph (BipartiteGraph.scc), and the causal part of a torn block
    (Component.tear_nonlin_eq). */
module TornBlocks {
  import opened Lists
  import opened Linearity
  import opened Matchings
  import opened Digraphs
  import opened BlockOrder
  import opened TriangularOrders
  import opened Components
  import BipartiteGraphs

  /** What Component.__init__ finds out about a block. */
  datatype Properties = Properties(tearing: Tearing, torn: bool, solvable: bool, linear: bool)

  ghost predicate Describes(p: Properties, co: Component, ineliminable: set<nat>) {
    && p.tearing == TearingOf(co) && |p.tearing.tearVars| == |p.tearing.tearRes|
    && p.torn == Torn(co) && p.solvable == Solvable(co, ineliminable)
    && (p.linear <==> LinearBlock(co) && !p.torn)
  }

  method Classify(co: Component, ineliminable: set<nat>) returns (r: Result<Properties>)
    ensures r.Ok? ==> Describes(r.value, co, ineliminable)
    ensures r.Err? <==> |TearingOf(co).tearVars| != |TearingOf(co).tearRes|
    ensures r.Err? ==> r.error == TearingMismatch
  {
    var split := SplitTearing(co);
    if split.Err? {
      return Err(TearingMismatch);
    }
    var torn := 0 < |split.value.tearVars| < |co.variables|;
    var solvable := IsSolvable(co, torn, ineliminable);
    var linear := IsLinear(co, torn);
    r := Ok(Properties(split.value, torn, solvable, linear));
  }

  /** The blocks are the strongly connected components of the system, directed along its matching, in
      block lower triangular order; parts holds their matched pairs. */
  ghost predicate StrongBlocks(edges: seq<Edge>, matches: seq<Edge>, equations: seq<Equation>, variables: seq<Variable>,
                               parts: seq<seq<Edge>>, bs: seq<Component>)
  {
    && |equations| == |variables| && NoRepeats(matches)
    && Triangularized(edges, Set(matches), |equations|, parts) && BlocksOf(parts, equations, variables, bs)
    && exists classes :: MatchedComponents(edges, matches, |equations|, classes, parts)
  }

  /** Two matched pairs are in one block exactly when each depends on the other. */
  lemma SameBlock(edges: seq<Edge>, matches: seq<Edge>, equations: seq<Equation>, variables: seq<Variable>,
                  parts: seq<seq<Edge>>,
                  bs: seq<Component>, k: nat, l: nat)
    requires StrongBlocks(edges, matches, equations, variables, parts, bs) && DistinctVariables(variables)
    requires k < |matches| && l < |matches| && matches[k].1 < |variables| && matches[l].1 < |variables|
    ensures Together(bs, variables[matches[k].1], variables[matches[l].1]) <==>
            Reach(ArcsOf(edges, matches), k, l) && Reach(ArcsOf(edges, matches), l, k)
  {
    hide Triangularized, Flatten, IsMatching, CoversEquations, Perfect;
    var n := |equations|;
    var classes :| MatchedComponents(edges, matches, n, classes, parts);
    assert |matches| == n by { MatchesCount(edges, matches, n, parts); }
    assert Placed(classes, k) && Placed(classes, l);
    var c: int :| InComp(classes, c, k);
    var d: int :| InComp(classes, d, l);
    PlaceOfVertex(matches, classes, parts, equations, variables, bs, c, k);
    PlaceOfVertex(matches, classes, parts, equations, variables, bs, d, l);
    BlocksAreSeparate(edges, Set(matches), n, parts, equations, variables, bs);
    if Together(bs, variables[matches[k].1], variables[matches[l].1]) {
      var b :| HasVariable(bs, b, variables[matches[k].1]) && HasVariable(bs, b, variables[matches[l].1]);
      assert b == c && b == d;
    }
  }

  /** x and y are in one block. */
  ghost predicate Together(bs: seq<Component>, x: Variable, y: Variable) {
    exists c :: HasVariable(bs, c, x) && HasVariable(bs, c, y)
  }

  lemma MatchesCount(edges: seq<Edge>, matches: seq<Edge>, n: nat, parts: seq<seq<Edge>>)
    requires Triangularized(edges, Set(matches), n, parts) && NoRepeats(matches)
    ensures |matches| == n
  {
    PerfectMatchesAll(Set(edges), matches, n);
  }

  lemma PlaceOfVertex(matches: seq<Edge>, classes: seq<seq<nat>>, parts: seq<seq<Edge>>, equations: seq<Equation>,
                      variables: seq<Variable>,
                      bs: seq<Component>, c: nat, k: nat)
    requires |equations| == |variables| && BlocksOf(parts, equations, variables, bs)
    requires ComponentsOf(matches, classes, parts)
    requires InComp(classes, c, k) && k < |matches| && matches[k].1 < |variables|
    ensures HasVariable(bs, c, variables[matches[k].1])
  {
    var j :| 0 <= j < |classes[c]| && classes[c][j] == k;
    assert At(classes, c, j);
    FlattenPosition(classes, c, j);
    FlattenPosition(parts, c, j);
    SameOffsets(parts, classes, c);
    assert IsComponentOf(parts[c], equations, variables, bs[c]);
    assert parts[c][j] == matches[k];
  }

  /** The blocks of a matched graph, in block lower triangular order. */
  method ConnectComponents(graph: BipartiteGraphs.BipartiteGraph, equations: seq<Equation>, variables: seq<Variable>,
                           globalIndex: nat)
    returns (components: seq<Component>)
    requires |equations| == |variables| == graph.n && DistinctVariables(variables)
    requires forall e :: e in graph.edges <==> Incident(equations, variables, e)
    requires graph.Valid() && Perfect(graph.G(), graph.M(), graph.n)
    modifies graph
    ensures OrderedBlocks(components, equations, variables)
    ensures StrongBlocks(graph.edges, graph.matches, equations, variables, graph.components, components)
    ensures |components| == graph.n <==> CanBeOrdered(graph.G(), graph.n)
    ensures NumberedFrom(graph.components, graph.n, graph.eqLocalBlt, graph.varLocalBlt, 0)
    ensures NumberedFrom(graph.components, graph.n, graph.eqGlobalBlt, graph.varGlobalBlt, globalIndex)
  {
    hide MatchedComponents, BlockTriangular, NumberedFrom, IsMatching, Incident, IsComponentOf, Separate,
         LowerTriangular, Covers;
    ghost var parts := graph.Scc(globalIndex);
    ghost var edges, m, n := graph.edges, graph.M(), graph.n;
    PartsNonempty(edges, graph.matches, n, parts, graph.components);
    assert Triangularized(edges, m, n, graph.components);
    components := [];
    for c := 0 to |graph.components|
      modifies {}
      invariant |components| == c
      invariant forall d :: 0 <= d < c ==>
                  VerticesInRange(graph.components[d], n) &&
                      IsComponentOf(graph.components[d], equations, variables, components[d])
    {
      VerticesAreInRange(edges, m, n, graph.components, c);
      var co := CreateComponent(graph.components[c], equations, variables);
      components := components + [co];
    }
    ScalarMeansOrdered(edges, graph.matches, n, parts, graph.components, graph.eqLocalBlt, graph.varLocalBlt);
    BlocksAreSeparate(edges, m, n, graph.components, equations, variables, components);
    BlocksAreTriangular(edges, m, n, graph.components, equations, variables, components);
    BlocksCover(edges, m, n, graph.components, equations, variables, components);
  }

  /** As many components as equations exactly when the equations can be ordered. */
  lemma ScalarMeansOrdered(edges: seq<Edge>, matches: seq<Edge>, n: nat, parts: seq<seq<nat>>,
                           components: seq<seq<Edge>>, eqNumber: seq<nat>, varNumber: seq<nat>)
    requires MatchedComponents(edges, matches, n, parts, components)
    requires Triangularized(edges, Set(matches), n, components)
    requires |Flatten(components)| == n && NumberedFrom(components, n, eqNumber, varNumber, 0)
    ensures |components| == n <==> CanBeOrdered(Set(edges), n)
  {
    hide Flatten, NumberedFrom, BlockTriangular, IsOrder, IsMatching, CoversEquations, InRange;
    if |components| == n {
      FewParts(components);
      ScalarMakesOrder(edges, matches, n, components, eqNumber, varNumber);
    }
    if CanBeOrdered(Set(edges), n) {
      var m: set<Edge>, rank: nat -> nat :| IsOrder(Set(edges), m, n, rank);
      forall c | 0 <= c < |components| ensures |components[c]| == 1 {
        OrderMakesScalar(edges, matches, n, m, rank, parts, c);
      }
      ScalarParts(components);
    }
  }

  lemma PartsNonempty(edges: seq<Edge>, matches: seq<Edge>, n: nat, parts: seq<seq<nat>>, components: seq<seq<Edge>>)
    requires MatchedComponents(edges, matches, n, parts, components)
    ensures forall c :: 0 <= c < |components| ==> components[c] != []
  {
    forall c | 0 <= c < |components| ensures components[c] != [] {
      assert |components[c]| == |parts[c]| && parts[c] != [];
    }
  }

  lemma VerticesAreInRange(edges: seq<Edge>, m: set<Edge>, n: nat, parts: seq<seq<Edge>>, c: nat)
    requires Triangularized(edges, m, n, parts) && c < |parts|
    ensures VerticesInRange(parts[c], n)
  {
    hide Triangularized;
    forall k | 0 <= k < |parts[c]| ensures parts[c][k].0 < n && parts[c][k].1 < n {
      assert At(parts, c, k);
      AtIsMatched(edges, m, n, parts, c, k);
    }
  }

  /** Every block is one equation that can be solved for its one variable by division. */
  ghost predicate CausalBlocks(bs: seq<Component>) {
    forall c :: 0 <= c < |bs| ==> |bs[c].variables| == 1 && LinearBlock(bs[c])
  }

  /** The pairs of m are linear: every equation in its own variable. */
  ghost predicate PairsLinear(equations: seq<Equation>, variables: seq<Variable>, m: set<Edge>) {
    forall e :: e in m && e.0 < |equations| && e.1 < |variables| ==>
        JacobianFree(equations[e.0].expression, [variables[e.1].mxVar])
  }

  /** The causal equations can be put in an order in which each one is linear in the one variable that
      earlier ones do not determine. */
  ghost predicate CausalSolvable(t: Tearing) {
    exists m: set<Edge>, rank: nat -> nat :: SolvingOrder(t, m, rank)
  }

  ghost predicate SolvingOrder(t: Tearing, m: set<Edge>, rank: nat -> nat) {
    IsOrder(Incidences(t.causalEqs, t.causalVars), m, |t.causalEqs|, rank) && PairsLinear(t.causalEqs, t.causalVars, m)
  }

  /** The reason for an error: no way to match, no triangular order, or none in which every equation is
      linear in its variable. */
  ghost predicate Refused(t: Tearing, error: BuildError) {
    var g, n := Incidences(t.causalEqs, t.causalVars), |t.causalEqs|;
    match error
    case CausalSingular => StructurallySingular(t.causalEqs, t.causalVars)
    case CausalNotTriangular => !StructurallySingular(t.causalEqs, t.causalVars) && !CanBeOrdered(g, n)
    case CausalNotSolvable => CanBeOrdered(g, n) && !CausalSolvable(t)
    case _ => false
  }

  /** The causal equations of a torn block, in the order in which they are solved. */
  method TearNonlinEq(t: Tearing, globalIndex: nat) returns (r: Result<seq<Component>>)
    requires |t.causalEqs| == |t.causalVars| && DistinctVariables(t.causalVars)
    requires forall x :: x in t.causalVars ==> !x.tearing
    ensures r.Ok? ==> OrderedBlocks(r.value, t.causalEqs, t.causalVars) && CausalBlocks(r.value)
    ensures r.Ok? <==> CausalSolvable(t)
    ensures r.Err? ==> r.error in {CausalSingular, CausalNotTriangular, CausalNotSolvable}
    ensures forall error :: r == Err(error) <==> Refused(t, error)
  {
    hide OrderedBlocks, Incident, Triangularized, BlocksOf, NumberedFrom, IsMatching, CoversEquations, HallViolator,
         LinearBlock, Torn,
         DistinctVariables, StructurallySingular, CanBeOrdered, Incidences, CausalSolvable, PairsLinear,
             MatchedComponents, Refused;
    var edges := CreateEdges(t.causalEqs, t.causalVars);
    EdgesInRange(t.causalEqs, t.causalVars, edges);
    EdgesAreIncidences(t.causalEqs, t.causalVars, edges);
    var graph := new BipartiteGraphs.BipartiteGraph(|t.causalEqs|, edges);
    var matched, _ := graph.MaximumMatch();
    SingularOrMatched(edges, graph.M(), t.causalEqs, t.causalVars, matched.Done?);
    Reasons(t, edges);
    if matched.Raised? {
      return Err(CausalSingular);
    }
    var components := ConnectComponents(graph, t.causalEqs, t.causalVars, globalIndex);
    if |t.causalEqs| != |components| {
      return Err(CausalNotTriangular);
    }
    ghost var parts := graph.components;
    AllScalar(graph.edges, graph.M(), graph.n, parts, t.causalEqs, t.causalVars, components);
    BlocksAndPairs(graph.edges, graph.M(), graph.n, parts, t.causalEqs, t.causalVars, components);
    OnlyOneOrder(t, graph.edges, graph.M(), parts);
    for c := 0 to |components|
      invariant forall d :: 0 <= d < c ==> LinearBlock(components[d])
    {
      var linear := IsLinear(components[c], false);
      var solvable := IsSolvable(components[c], false, {});
      if !linear || (!solvable && !components[c].variables[0].isDer) {
        return Err(CausalNotSolvable);
      }
    }
    r := Ok(components);
  }

  /** The three reasons exclude each other. */
  lemma Reasons(t: Tearing, edges: seq<Edge>)
    requires forall e :: e in edges <==> Incident(t.causalEqs, t.causalVars, e)
    requires Set(edges) == Incidences(t.causalEqs, t.causalVars)
    ensures var g, n := Incidences(t.causalEqs, t.causalVars), |t.causalEqs|;
            && (CausalSolvable(t) ==> CanBeOrdered(g, n))
            && (CanBeOrdered(g, n) ==> !StructurallySingular(t.causalEqs, t.causalVars))
            && (forall error :: Refused(t, error) <==>
                  (error == CausalSingular && StructurallySingular(t.causalEqs, t.causalVars)) ||
                  (error == CausalNotTriangular && !StructurallySingular(t.causalEqs, t.causalVars) &&
                      !CanBeOrdered(g, n)) ||
                  (error == CausalNotSolvable && CanBeOrdered(g, n) && !CausalSolvable(t)))
  {
    hide Incident, Incidences, PairsLinear, PairsAll, Perfect;
    var g, n := Incidences(t.causalEqs, t.causalVars), |t.causalEqs|;
    if CausalSolvable(t) {
      var m: set<Edge>, rank: nat -> nat :| SolvingOrder(t, m, rank);
      assert IsOrder(g, m, n, rank);
    }
    if CanBeOrdered(g, n) {
      var m: set<Edge>, rank: nat -> nat :| IsOrder(g, m, n, rank);
      PerfectPairsAll(edges, m, t.causalEqs, t.causalVars);
    }
  }

  /** Scalar blocks are linear exactly when the matched pairs are. */
  lemma BlocksAndPairs(edges: seq<Edge>, m: set<Edge>, n: nat, parts: seq<seq<Edge>>, equations: seq<Equation>,
                       variables: seq<Variable>, bs: seq<Component>)
    requires |equations| == |variables| == n && Triangularized(edges, m, n, parts)
    requires BlocksOf(parts, equations, variables, bs)
    requires forall c :: 0 <= c < |bs| ==> |bs[c].variables| == |bs[c].equations| == 1
    ensures PairsLinear(equations, variables, m) <==> forall c :: 0 <= c < |bs| ==> LinearBlock(bs[c])
  {
    forall c | 0 <= c < |bs|
      ensures parts[c][0] in m && parts[c][0].0 < n && parts[c][0].1 < n
      ensures LinearBlock(bs[c]) <==>
                JacobianFree(equations[parts[c][0].0].expression, [variables[parts[c][0].1].mxVar])
    {
      assert IsComponentOf(parts[c], equations, variables, bs[c]);
      AtIsMatched(edges, m, n, parts, c, 0);
      assert Map(bs[c].variables, MxOf) == [variables[parts[c][0].1].mxVar];
      assert bs[c].equations[0] in bs[c].equations;
    }
    forall e | e in m ensures exists c :: 0 <= c < |bs| && parts[c][0] == e {
      assert e in Flatten(parts);
      var p :| 0 <= p < |Flatten(parts)| && Flatten(parts)[p] == e;
      var c, k := PartOfPosition(parts, p);
      FlattenPosition(parts, c, k);
      assert IsComponentOf(parts[c], equations, variables, bs[c]) && k == 0;
    }
  }

  /** Where there is an order, its pairs are those of any perfect matching. */
  lemma OnlyOneOrder(t: Tearing, edges: seq<Edge>, m: set<Edge>, parts: seq<seq<Edge>>)
    requires Triangularized(edges, m, |t.causalEqs|, parts)
    requires Set(edges) == Incidences(t.causalEqs, t.causalVars) && CanBeOrdered(Set(edges), |t.causalEqs|)
    ensures CausalSolvable(t) <==> PairsLinear(t.causalEqs, t.causalVars, m)
  {
    hide Perfect, InRange, Incidences, PairsLinear;
    var g, n := Set(edges), |t.causalEqs|;
    forall o: set<Edge>, rank: nat -> nat | IsOrder(g, o, n, rank) ensures o == m { OrderedMatching(g, o, n, rank, m); }
    var o: set<Edge>, rank: nat -> nat :| IsOrder(g, o, n, rank);
    assert o == m;
    if PairsLinear(t.causalEqs, t.causalVars, m) { assert SolvingOrder(t, m, rank); }
  }

  lemma SingularOrMatched(edges: seq<Edge>, m: set<Edge>, equations: seq<Equation>, variables: seq<Variable>,
                          matched: bool)
    requires forall e :: e in edges <==> Incident(equations, variables, e)
    requires matched ==> Perfect(Set(edges), m, |equations|)
    requires !matched ==> forall m :: !Perfect(Set(edges), m, |equations|)
    ensures StructurallySingular(equations, variables) <==> !matched
  {
    if matched {
      PerfectPairsAll(edges, m, equations, variables);
    } else {
      forall m: set<Edge>
        ensures !PairsAll(m, equations, variables)
      {
        PerfectPairsAll(edges, m, equations, variables);
      }
    }
  }

  ghost function Incidences(equations: seq<Equation>, variables: seq<Variable>): set<Edge> {
    set i: nat, j: nat | i < |equations| && j < |variables| && Incident(equations, variables, (i, j)) :: (i, j)
  }

  lemma EdgesAreIncidences(equations: seq<Equation>, variables: seq<Variable>, edges: seq<Edge>)
    requires forall e :: e in edges <==> Incident(equations, variables, e)
    ensures Set(edges) == Incidences(equations, variables)
  {
    forall e: Edge ensures e in Set(edges) <==> e in Incidences(equations, variables) {
      assert e == (e.0, e.1);
    }
  }

  lemma EdgesInRange(equations: seq<Equation>, variables: seq<Variable>, edges: seq<Edge>)
    requires forall e :: e in edges <==> Incident(equations, variables, e)
    ensures forall e :: e in edges ==> e.0 < |equations| && e.1 < |variables|
  {}

  lemma {:induction false} FewParts<T>(parts: seq<seq<T>>)
    requires forall c :: 0 <= c < |parts| ==> parts[c] != []
    ensures |Flatten(parts)| >= |parts|
    ensures |Flatten(parts)| == |parts| ==> forall c :: 0 <= c < |parts| ==> |parts[c]| == 1
  {
    if parts != [] { FewParts(parts[..|parts| - 1]); }
  }

  /** As many blocks as equations: every block is scalar, so it is not torn. */
  lemma AllScalar(edges: seq<Edge>, m: set<Edge>, n: nat, parts: seq<seq<Edge>>, equations: seq<Equation>,
                  variables: seq<Variable>, bs: seq<Component>)
    requires |equations| == |variables| == n && Triangularized(edges, m, n, parts)
    requires BlocksOf(parts, equations, variables, bs)
    requires |bs| == n
    ensures forall c :: 0 <= c < |bs| ==> |bs[c].variables| == |bs[c].equations| == 1 && !Torn(bs[c])
  {
    FewParts(parts);
    PerfectMatchesAll(Set(edges), Flatten(parts), n);
    forall c | 0 <= c < |bs| ensures |bs[c].variables| == |bs[c].equations| == 1 {
      assert IsComponentOf(parts[c], equations, variables, bs[c]);
    }
  }
}
