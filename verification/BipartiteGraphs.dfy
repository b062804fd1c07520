/**
 BipartiteGraph of symbolic_elimination.py: perfect matchings by Hopcroft-Karp phases.
 Equations and variables are the numbers 0..n-1.
 */
module BipartiteGraphs {
  import opened Lists
  import opened Matchings
  import opened AugmentingSearch
  import opened Digraphs
  import opened BlockOrder
  import StrongConnect

  datatype MatchError = NoVariables(equations: seq<Vertex>) | NoPerfectMatching

  datatype Outcome<+T> = Done(value: T) | Raised(error: MatchError)

  datatype Layers = Layers(L: seq<seq<Vertex>>, E: seq<seq<Arc>>)

  function Equations(n: nat): (r: seq<Vertex>)
    ensures forall x :: x in r <==> x.Eq? && x.i < n
    ensures NoRepeats(r)
  {
    if n == 0 then [] else Equations(n - 1) + [Eq(n - 1)]
  }

  function Variables(n: nat): (r: seq<Vertex>)
    ensures forall x :: x in r <==> x.Var? && x.j < n
    ensures NoRepeats(r)
  {
    if n == 0 then [] else Variables(n - 1) + [Var(n - 1)]
  }

  function EquationOf(e: Edge): Vertex {
    Eq(e.0)
  }

  function VariableOf(e: Edge): Vertex {
    Var(e.1)
  }

  function Without(xs: seq<Vertex>, ys: seq<Vertex>): seq<Vertex> {
    Filter(xs, x => x !in ys)
  }

  function Within(xs: seq<Vertex>, ys: seq<Vertex>): seq<Vertex> {
    Filter(xs, x => x in ys)
  }

  /** Arcs from unseen variables to equations of the layer, along edges that are not matched. */
  function ArcsToEquations(edges: seq<Edge>, layer: seq<Vertex>, seen: seq<Vertex>, matches: seq<Edge>): seq<Arc> {
    Map(Filter(edges, (e: Edge) => Eq(e.0) in layer && Var(e.1) !in seen && e !in matches),
        (e: Edge) => (Var(e.1), Eq(e.0)))
  }

  /** Arcs from unseen equations to variables of the layer, along matched edges. */
  function ArcsToVariables(edges: seq<Edge>, layer: seq<Vertex>, seen: seq<Vertex>, matches: seq<Edge>): seq<Arc> {
    Map(Filter(edges, (e: Edge) => Var(e.1) in layer && Eq(e.0) !in seen && e in matches),
        (e: Edge) => (Eq(e.0), Var(e.1)))
  }

  function Tailed(arcs: seq<Arc>): seq<Vertex> {
    RemoveDuplicates(Map(arcs, (a: Arc) => a.0))
  }

  ghost predicate Seen(L: seq<seq<Vertex>>, seen: seq<Vertex>) {
    forall x :: x in seen <==> UpTo(L, |L| - 1, x)
  }

  lemma InMap<S, T>(xs: seq<S>, f: S -> T, y: T)
    ensures y in Map(xs, f) <==> exists x :: x in xs && f(x) == y
  {
    if y in Map(xs, f) {
      var i :| 0 <= i < |xs| && Map(xs, f)[i] == y;
      assert xs[i] in xs;
    }
    if x :| x in xs && f(x) == y {
      var i :| 0 <= i < |xs| && xs[i] == x;
      assert Map(xs, f)[i] == y;
    }
  }

  lemma EquationArcsAreNew(n: nat, edges: seq<Edge>, matches: seq<Edge>, L: seq<seq<Vertex>>, seen: seq<Vertex>)
    requires Layered(Set(edges), Set(matches), n, L) && Seen(L, seen) && |L| % 2 == 1
    ensures NewArcs(Set(edges), Set(matches), L, ArcsToEquations(edges, L[|L| - 1], seen, matches))
  {
    var g, m, layer := Set(edges), Set(matches), L[|L| - 1];
    var arcs := ArcsToEquations(edges, layer, seen, matches);
    var keep := (e: Edge) => Eq(e.0) in layer && Var(e.1) !in seen && e !in matches;
    var arc := (e: Edge) => (Var(e.1), Eq(e.0));
    forall u, v ensures (u, v) in arcs <==> InLayer(L, |L| - 1, v) && !UpTo(L, |L| - 1, u) && Step(g, m, u, v) {
      InMap(Filter(edges, keep), arc, (u, v));
      if InLayer(L, |L| - 1, v) && !UpTo(L, |L| - 1, u) && Step(g, m, u, v) {
        assert keep((v.i, u.j)) && arc((v.i, u.j)) == (u, v);
      }
    }
  }

  /** What an error says: the unmatched equations, when none of them has an edge. */
  ghost predicate Explains(error: MatchError, edges: seq<Edge>, matches: seq<Edge>, n: nat) {
    && (error.NoVariables? <==> EdgesAreMatched(edges, matches))
    && (error.NoVariables? ==> forall x: Vertex :: x in error.equations <==>
          x.Eq? && x.i < n && forall f :: f in matches ==> f.0 != x.i)
  }

  /** Only matched equations have edges. */
  ghost predicate EdgesAreMatched(edges: seq<Edge>, matches: seq<Edge>) {
    forall e :: e in edges ==> exists f :: f in matches && f.0 == e.0
  }

  lemma FirstArcs(edges: seq<Edge>, matches: seq<Edge>, n: nat, unmatchedEqs: seq<Vertex>)
    requires forall x :: x in unmatchedEqs <==> x.Eq? && x.i < n && Free(Set(matches), x)
    requires InRange(Set(edges), n)
    ensures ArcsToEquations(edges, unmatchedEqs, unmatchedEqs, matches) == [] <==> EdgesAreMatched(edges, matches)
    ensures EdgesAreMatched(edges, matches) ==> Explains(NoVariables(unmatchedEqs), edges, matches, n)
  {
    var keep := (e: Edge) => Eq(e.0) in unmatchedEqs && Var(e.1) !in unmatchedEqs && e !in matches;
    var kept := Filter(edges, keep);
    forall i: nat ensures Free(Set(matches), Eq(i)) <==> forall f :: f in matches ==> f.0 != i {
      forall f | f in matches ensures f in Set(matches) {}
    }
    if kept != [] {
      var e := kept[0];
      assert e in kept && e in edges && Free(Set(matches), Eq(e.0));
    } else {
      assert forall e :: e in edges ==> e in Set(edges) && !keep(e);
    }
  }

  lemma VariableArcsAreNew(n: nat, edges: seq<Edge>, matches: seq<Edge>, L: seq<seq<Vertex>>, seen: seq<Vertex>)
    requires Layered(Set(edges), Set(matches), n, L) && Seen(L, seen) && |L| % 2 == 0 && Set(matches) <= Set(edges)
    ensures NewArcs(Set(edges), Set(matches), L, ArcsToVariables(edges, L[|L| - 1], seen, matches))
  {
    var g, m, layer := Set(edges), Set(matches), L[|L| - 1];
    var arcs := ArcsToVariables(edges, layer, seen, matches);
    var keep := (e: Edge) => Var(e.1) in layer && Eq(e.0) !in seen && e in matches;
    var arc := (e: Edge) => (Eq(e.0), Var(e.1));
    forall u, v ensures (u, v) in arcs <==> InLayer(L, |L| - 1, v) && !UpTo(L, |L| - 1, u) && Step(g, m, u, v) {
      InMap(Filter(edges, keep), arc, (u, v));
      if InLayer(L, |L| - 1, v) && !UpTo(L, |L| - 1, u) && Step(g, m, u, v) {
        assert (u.i, v.j) in m && (u.i, v.j) in g;
        assert keep((u.i, v.j)) && arc((u.i, v.j)) == (u, v);
      }
    }
  }

  lemma TailedIsTails(arcs: seq<Arc>)
    ensures Tails(arcs, Tailed(arcs))
  {
    var f := (a: Arc) => a.0;
    forall u | u in Tailed(arcs) ensures exists v :: (u, v) in arcs {
      InMap(arcs, f, u);
      var a :| a in arcs && f(a) == u;
      assert (u, a.1) in arcs;
    }
    forall a | a in arcs ensures a.0 in Tailed(arcs) {
      InMap(arcs, f, a.0);
      assert f(a) == a.0;
    }
  }

  lemma SeenExtended(L: seq<seq<Vertex>>, seen: seq<Vertex>, layer: seq<Vertex>)
    requires |L| > 0 && Seen(L, seen)
    ensures Seen(L + [layer], RemoveDuplicates(seen + layer))
  {
    var L' := L + [layer];
    forall x ensures x in RemoveDuplicates(seen + layer) <==> UpTo(L', |L'| - 1, x) {
      if c :| c <= |L| - 1 && InLayer(L, c, x) { assert InLayer(L', c, x); }
      if x in layer { assert InLayer(L', |L|, x); }
      if c :| c <= |L'| - 1 && InLayer(L', c, x) {
        InExtended(L, layer, c, x);
      }
    }
  }

  /** The loop invariant of the construction of the layers. */
  ghost predicate Built(g: set<Edge>, m: set<Edge>, n: nat, L: seq<seq<Vertex>>, E: seq<seq<Arc>>, seen: seq<Vertex>) {
    Layered(g, m, n, L) && HasArcs(g, m, L, E) && Seen(L, seen) && L[0] != [] && L[|L| - 1] != []
  }

  ghost function Unseen(n: nat, seen: seq<Vertex>): set<Vertex> {
    (Set(Equations(n)) + Set(Variables(n))) - Set(seen)
  }

  lemma GrowLayers(g: set<Edge>, m: set<Edge>, n: nat, L: seq<seq<Vertex>>, E: seq<seq<Arc>>, seen: seq<Vertex>,
                   arcs: seq<Arc>)
    requires m <= g && InRange(g, n) && Built(g, m, n, L, E, seen) && LastHasNoFreeVariable(m, L)
    requires NewArcs(g, m, L, arcs) && arcs != []
    ensures Built(g, m, n, L + [Tailed(arcs)], E + [arcs], RemoveDuplicates(seen + Tailed(arcs)))
    ensures Unseen(n, RemoveDuplicates(seen + Tailed(arcs))) < Unseen(n, seen)
  {
    var layer := Tailed(arcs);
    var x := arcs[0].0;
    TailedIsTails(arcs);
    assert arcs[0] in arcs && x in layer;
    ExtendLayers(g, m, n, L, arcs, layer);
    forall u | u in layer ensures !UpTo(L, |L| - 1, u) {
      var v :| (u, v) in arcs;
    }
    ExtendArcs(g, m, L, E, arcs, layer);
    SeenExtended(L, seen, layer);
    assert InLayer(L + [layer], |L|, x);
    assert x in Unseen(n, seen) && x !in Unseen(n, RemoveDuplicates(seen + layer));
  }

  class BipartiteGraph {
    const n: nat
    const edges: seq<Edge>
    var matches: seq<Edge>
    var visited: set<Vertex>
    var components: seq<seq<Edge>>
    var eqLocalBlt: seq<nat>
    var varLocalBlt: seq<nat>
    var eqGlobalBlt: seq<nat>
    var varGlobalBlt: seq<nat>

    ghost function G(): set<Edge> {
      Set(edges)
    }

    ghost function M(): set<Edge>
      reads `matches
    {
      Set(matches)
    }

    /** The matches are distinct edges of the graph and share no vertex. */
    ghost predicate Valid()
      reads `matches
    {
      InRange(G(), n) && M() <= G() && IsMatching(M()) && NoRepeats(matches)
    }

    constructor (n: nat, edges: seq<Edge>)
      requires forall e :: e in edges ==> e.0 < n && e.1 < n
      ensures Valid() && this.n == n && this.edges == edges && matches == []
    {
      this.n := n;
      this.edges := edges;
      matches := [];
      visited := {};
      components := [];
      eqLocalBlt, varLocalBlt, eqGlobalBlt, varGlobalBlt := [], [], [], [];
    }

    /** The layers from the free equations up to the first free variable. */
    method BuildLayers(unmatchedEqs: seq<Vertex>, unmatchedVaris: seq<Vertex>) returns (r: Outcome<Layers>)
      requires Valid() && unmatchedEqs != []
      requires forall x :: x in unmatchedEqs <==> x.Eq? && x.i < n && Free(M(), x)
      requires forall x :: x in unmatchedVaris <==> x.Var? && x.j < n && Free(M(), x)
      ensures r.Done? ==>
                Layered(G(), M(), n, r.value.L) && HasArcs(G(), M(), r.value.L, r.value.E) && |r.value.L| % 2 == 0
      ensures r.Done? ==> exists x :: x in unmatchedVaris && InLayer(r.value.L, |r.value.L| - 1, x)
      ensures r.Raised? ==> exists rs, vs :: HallViolator(G(), n, rs, vs)
      ensures r.Raised? ==> Explains(r.error, edges, matches, n)
    {
      hide EdgesAreMatched, HallViolator, NewArcs, HasArcs, ArcsToEquations, ArcsToVariables, Unseen, Tailed,
           RemoveDuplicates, IsMatching;
      FirstArcs(edges, matches, n, unmatchedEqs);
      var L := [unmatchedEqs];
      var seen := unmatchedEqs;
      var E: seq<seq<Arc>> := [];
      var i := 0;
      ghost var g, m := G(), M();
      FirstLayer(g, m, n, unmatchedEqs);
      while !exists x :: x in L[|L| - 1] && x in unmatchedVaris
        invariant |L| == i + 1 && Built(g, m, n, L, E, seen)
        invariant if i == 0 then L[0] == unmatchedEqs == seen else !EdgesAreMatched(edges, matches)
        decreases Unseen(n, seen)
      {
        assert LastHasNoFreeVariable(m, L);
        var arcs;
        if i % 2 == 0 {
          arcs := ArcsToEquations(edges, L[i], seen, matches);
          EquationArcsAreNew(n, edges, matches, L, seen);
          if i == 0 && |arcs| == 0 {
            StuckAt(g, m, n, L);
            return Raised(NoVariables(L[0]));
          }
        } else {
          arcs := ArcsToVariables(edges, L[i], seen, matches);
          VariableArcsAreNew(n, edges, matches, L, seen);
          VariableLayersGoOn(g, m, n, L, arcs);
        }
        var layer := Tailed(arcs);
        if |arcs| == 0 {
          StuckAt(g, m, n, L);
          return Raised(NoPerfectMatching);
        }
        GrowLayers(g, m, n, L, E, seen, arcs);
        i := i + 1;
        E := E + [arcs];
        seen := RemoveDuplicates(seen + layer);
        L := L + [layer];
      }
      ghost var x :| x in L[|L| - 1] && x in unmatchedVaris;
      assert InLayer(L, |L| - 1, x);
      return Done(Layers(L, E));
    }

    /** The layers cut down to the free variables of the last one. */
    method Trim(L: seq<seq<Vertex>>, E: seq<seq<Arc>>, unmatchedVaris: seq<Vertex>)
      returns (L': seq<seq<Vertex>>, E': seq<seq<Arc>>)
      requires Valid() && Layered(G(), M(), n, L) && HasArcs(G(), M(), L, E) && |L| % 2 == 0
      requires forall x :: x in unmatchedVaris <==> x.Var? && x.j < n && Free(M(), x)
      ensures Trimmed(G(), M(), L, L', E')
    {
      var iStar := |L| - 1;
      E' := E[iStar - 1 := Filter(E[iStar - 1], (a: Arc) => a.0 in unmatchedVaris)];
      L' := L[iStar := Within(L[iStar], unmatchedVaris)];
      forall k: nat, x | k < |L| ensures x in L'[k] <==> InTrimmed(M(), L, k, x) {
        assert InLayer(L, k, x) <==> x in L[k];
      }
      forall k, u, v | 0 <= k < |E'|
        ensures (u, v) in E'[k] <==> InTrimmed(M(), L, k + 1, u) && InLayer(L, k, v) && Step(G(), M(), u, v)
      {
        assert InLayer(L, k + 1, u) <==> u in L[k + 1];
      }
    }

    /** The successor lists, from the source down the layers to the sink. */
    method ComputeSuccessors(ghost L0: seq<seq<Vertex>>, L: seq<seq<Vertex>>, E: seq<seq<Arc>>)
      returns (successors: Successors)
      requires Layered(G(), M(), n, L0) && Trimmed(G(), M(), L0, L, E) && |L| % 2 == 0
      ensures FullLists(G(), M(), L0, successors)
    {
      var iStar := |L| - 1;
      successors := map[];
      for i := 0 to iStar
        invariant forall k :: 0 <= k < i ==> ListsOf(successors, L[k + 1], E[k])
      {
        ghost var before := successors;
        successors := AddLists(successors, L[i + 1], E[i]);
        forall k | 0 <= k < i ensures ListsOf(successors, L[k + 1], E[k]) {
          LayersApart(G(), M(), n, L0, L, E, k + 1, i + 1);
          KeepLists(before, successors, L[k + 1], E[k]);
        }
      }
      ghost var inner := successors;
      successors := successors[Source := L[iStar]];
      successors := successors[Sink := []];
      ghost var ended := successors;
      for i := 0 to |L[0]|
        invariant forall x :: x in ended && x !in L[0][..i] ==> x in successors && successors[x] == ended[x]
        invariant forall a :: 0 <= a < i ==> L[0][a] in successors && successors[L[0][a]] == [Sink]
      {
        successors := successors[L[0][i] := [Sink]];
      }
      assert L[0][..|L[0]|] == L[0];
      assert !InLayer(L0, 0, Source) && !InLayer(L0, 0, Sink);
      assert Source !in L[0] && Sink !in L[0];
      ListsAreFull(G(), M(), n, L0, L, E, inner, successors);
    }

    /** The edges of a path, from the stack that holds its vertices. */
    method PathOf(stack: seq<Vertex>) returns (path: seq<Edge>)
      requires |stack| >= 1 && forall t: nat :: t < |stack| ==> (if t % 2 == 0 then stack[t].Var? else stack[t].Eq?)
      ensures path == EdgesOf(stack)
    {
      path := [];
      for i := 0 to |stack| - 1
        invariant |path| == i && forall t :: 0 <= t < i ==> path[t] == PathEdge(stack, t)
      {
        if i % 2 == 0 {
          path := path + [(stack[i + 1].i, stack[i].j)];
        } else {
          path := path + [(stack[i].i, stack[i + 1].j)];
        }
      }
    }

    /** One round of the search: takes the last successor of the top of the stack. */
    method TakeSuccessor(ghost g: set<Edge>, ghost m: set<Edge>, ghost L: seq<seq<Vertex>>, ghost full: Successors,
                         successors: Successors, stack: seq<Vertex>,
                         paths: seq<seq<Edge>>, ghost walks: seq<seq<Vertex>>)
      returns (successors': Successors, stack': seq<Vertex>, paths': seq<seq<Edge>>, ghost walks': seq<seq<Vertex>>)
      requires Layered(g, m, n, L) && FullLists(g, m, L, full) && |L| % 2 == 0
      requires Searching(g, m, n, L, full, successors, stack, visited, walks) && StackDescends(m, L, full, stack)
      requires stack[|stack| - 1] in successors && successors[stack[|stack| - 1]] != [] && EdgesOfAll(paths, walks)
      modifies this`visited
      ensures Searching(g, m, n, L, full, successors', stack', visited, walks') && StackDescends(m, L, full, stack')
      ensures stack' != [] && stack'[0] == Source && stack'[|stack'| - 1] in successors' && Source in successors'
      ensures EdgesOfAll(paths', walks')
      ensures old(visited) <= visited <= full.Keys
      ensures visited == old(visited) && |stack'| >= |stack| ==>
                stack' == stack && |successors'[stack[|stack| - 1]]| < |successors[stack[|stack| - 1]]|
    {
      stack', paths', walks' := stack, paths, walks;
      var top := stack[|stack| - 1];
      var first := successors[top][|successors[top]| - 1];
      successors' := successors[top := successors[top][..|successors[top]| - 1]];
      if first !in visited {
        if first != Sink {
          PushKeepsDescent(g, m, n, L, full, stack, first);
          PushNew(g, m, n, L, full, successors, stack, visited, walks, top, first);
          stack' := stack + [first];
          visited := visited + {first};
        } else {
          StackIsPath(g, m, n, L, full, stack);
          StackHasNoRepeats(g, m, n, L, full, stack);
          PathFound(g, m, n, L, full, successors, stack, visited, walks, top);
          var walk := stack[1..];
          AllKindsAlternate(g, m, walk);
          var path := PathOf(walk);
          paths' := paths + [path];
          walks' := walks + [walk];
          stack' := [Source];
        }
      } else {
        SkipVisited(g, m, n, L, full, successors, stack, visited, walks, top);
      }
    }

    /** A maximal set of vertex-disjoint paths from the source to the sink. */
    method FindPaths(ghost g: set<Edge>, ghost m: set<Edge>, ghost L: seq<seq<Vertex>>, full: Successors)
      returns (paths: seq<seq<Edge>>, ghost walks: seq<seq<Vertex>>)
      requires m <= g && InRange(g, n) && Layered(g, m, n, L) && FullLists(g, m, L, full) && |L| % 2 == 0
      modifies this`visited
      ensures DisjointPaths(g, m, |L| - 1, walks) && EdgesOfAll(paths, walks)
      ensures forall q :: Augmenting(g, m, q) && |q| == |L| ==> Meets(q, walks)
    {
      hide Searching, Layered, FullLists, StackDescends, DisjointPaths, Augmenting, Meets;
      var successors := full;
      var stack := [Source];
      paths, walks := [], [];
      visited := {};
      StartSearch(g, m, n, L, full);
      while |stack| > 0
        invariant Searching(g, m, n, L, full, successors, stack, visited, walks) && EdgesOfAll(paths, walks)
        invariant visited <= full.Keys && Source in successors
        invariant if stack == [] then successors[Source] == [] else StackDescends(m, L, full, stack)
        invariant stack != [] ==> stack[0] == Source && stack[|stack| - 1] in successors
        decreases full.Keys - visited, |stack|
      {
        ghost var visitedBefore, depthBefore := visited, |stack|;
        while |successors[stack[|stack| - 1]]| > 0
          invariant Searching(g, m, n, L, full, successors, stack, visited, walks) && EdgesOfAll(paths, walks)
          invariant StackDescends(m, L, full, stack) && stack != [] && stack[0] == Source
          invariant stack[|stack| - 1] in successors && Source in successors
          invariant visitedBefore <= visited <= full.Keys && (visitedBefore == visited ==> |stack| <= depthBefore)
          decreases full.Keys - visited, |stack|, |successors[stack[|stack| - 1]]|
        {
          ghost var before := visited;
          successors, stack, paths, walks := TakeSuccessor(g, m, L, full, successors, stack, paths, walks);
          if before != visited { NewlyVisited(full.Keys, before, visited); }
        }
        if visitedBefore != visited { NewlyVisited(full.Keys, visitedBefore, visited); }
        Backtrack(g, m, n, L, full, successors, stack, visited, walks);
        BacktrackStack(g, m, n, L, full, successors, stack, visited, walks);
        stack := stack[..|stack| - 1];
      }
      SearchEnds(g, m, n, L, full, successors, visited, walks);
    }

    /** Step 1 of a phase: a maximal vertex-disjoint set of shortest augmenting paths, or none
        when every equation is matched. */
    method FindShortestAugPaths() returns (r: Outcome<seq<seq<Edge>>>, ghost walks: seq<seq<Vertex>>, ghost k: nat)
      requires Valid()
      modifies this`visited
      ensures r.Done? ==> EdgesOfAll(r.value, walks)
      ensures r.Done? && r.value == [] ==> CoversEquations(M(), n)
      ensures r.Done? && r.value != [] ==> MaximalPhase(G(), M(), k, walks) && HasLevels(G(), M(), n, k) && walks != []
      ensures r.Raised? ==> exists rs, vs :: HallViolator(G(), n, rs, vs)
      ensures r.Raised? ==> Explains(r.error, edges, matches, n)
    {
      hide Explains, CoversEquations, Without, Free, Layered, HasArcs, Trimmed, FullLists, DisjointPaths, MaximalPhase,
           Augmenting, Meets, HallViolator, IsMatching, InLayer, HasLevels, NoRepeats, InRange, Equations, Variables;
      ghost var g, m := G(), M();
      walks, k := [], 0;
      var matchedEqs := Map(matches, EquationOf);
      var matchedVaris := Map(matches, VariableOf);
      var unmatchedEqs := Without(Equations(n), matchedEqs);
      var unmatchedVaris := Without(Variables(n), matchedVaris);
      UnmatchedIsFree(n, matches);
      if unmatchedEqs == [] {
        return Done([]), walks, k;
      }
      var layers := BuildLayers(unmatchedEqs, unmatchedVaris);
      if layers.Raised? {
        return Raised(layers.error), walks, k;
      }
      ghost var L0 := layers.value.L;
      var L, E := Trim(layers.value.L, layers.value.E, unmatchedVaris);
      var successors := ComputeSuccessors(L0, L, E);
      var paths;
      paths, walks := FindPaths(g, m, L0, successors);
      k := |L0| - 1;
      ghost var x :| x in unmatchedVaris && InLayer(L0, k, x);
      PhaseIsMaximal(g, m, n, L0, walks, k, x);
      r := Done(paths);
    }

    /** Takes the edge out of the matches if it is there, and puts it in otherwise. */
    method Toggle(edge: Edge)
      requires NoRepeats(matches)
      modifies this`matches
      ensures NoRepeats(matches) && M() == Toggled(old(M()), [edge])
    {
      if edge in matches {
        var idx := IndexOf(matches, edge);
        RemoveAt(matches, idx);
        matches := matches[..idx] + matches[idx + 1..];
      } else {
        matches := matches + [edge];
      }
    }

    /** A perfect matching, by phases; or an error when there is none. The phases use longer and
        longer paths: `lengths` lists their numbers of edges. */
    method MaximumMatch() returns (r: Outcome<()>, ghost lengths: seq<nat>)
      requires InRange(G(), n)
      modifies this
      ensures Valid() && Increasing(lengths)
      ensures r.Done? ==> Perfect(G(), M(), n)
      ensures r.Raised? ==> forall m :: !Perfect(G(), m, n)
      ensures r.Raised? ==> exists rs, vs :: HallViolator(G(), n, rs, vs)
      ensures r.Raised? ==> Explains(r.error, edges, matches, n)
    {
      hide Explains, Augmenting, MaximalPhase, HasLevels, HallViolator, AllLonger, FlipAll, Toggled, EdgeSet,
           IsMatching;
      matches := [];
      lengths := [];
      NothingMatched(edges, n);
      while true
        invariant Valid() && Increasing(lengths)
        invariant lengths != [] ==> AllLonger(G(), M(), lengths[|lengths| - 1])
        decreases FreeEquations(n, M())
      {
        ghost var m := M();
        var step, walks, k := FindShortestAugPaths();
        if step.Raised? {
          NoneIsPerfect(G(), n);
          return Raised(step.error), lengths;
        }
        var paths := step.value;
        if paths == [] {
          return Done(()), lengths;
        }
        PhaseGoesOn(G(), m, n, k, walks, lengths);
        ToggledByNone(m);
        for p := 0 to |paths|
          invariant NoRepeats(matches) && M() == FlipAll(m, walks[..p]) && EdgesOfAll(paths, walks)
          invariant AllAugmenting(G(), m, walks)
        {
          ghost var before := M();
          ToggledByNone(before);
          WalkEdges(G(), m, walks[p]);
          for i := 0 to |paths[p]|
            invariant NoRepeats(matches) && M() == Toggled(before, paths[p][..i])
          {
            ToggleNext(before, paths[p], i);
            Toggle(paths[p][i]);
          }
          assert paths[p][..|paths[p]|] == paths[p];
          FlipAllNext(m, walks, p);
        }
        assert walks[..|paths|] == walks;
        lengths := lengths + [k];
      }
    }

    /** The strongly connected components of the digraph of the matching, in block lower triangular
        order, and the numbers of equations and variables in it. */
    method Scc(globalIndex: nat) returns (ghost parts: seq<seq<nat>>)
      requires Valid() && Perfect(G(), M(), n)
      modifies this`components, this`eqLocalBlt, this`varLocalBlt, this`eqGlobalBlt, this`varGlobalBlt
      ensures MatchedComponents(edges, matches, n, parts, components)
      ensures BlockTriangular(edges, components)
      ensures Flatten(components) != [] || n == 0
      ensures |Flatten(components)| == n && NoRepeats(Flatten(components)) && Set(Flatten(components)) == M()
      ensures NumberedFrom(components, n, eqLocalBlt, varLocalBlt, 0)
      ensures NumberedFrom(components, n, eqGlobalBlt, varGlobalBlt, globalIndex)
    {
      hide AreComponents, Ordered, PartsDisjoint, ComponentsOf, IsMatchedArc, BlockTriangular, IsMatching, NumberedFrom;
      PerfectMatchesAll(G(), matches, n);
      var eqVertex, varVertex := DigVertices();
      var arcs := MatchedArcs(eqVertex, varVertex);
      var digraph := new StrongConnect.Digraph(|matches|, arcs);
      digraph.ConnectAll();
      parts := digraph.components;
      PartsInRange(edges, matches, parts);
      components := Collect(digraph.components);
      ComponentsAreTriangular(edges, matches, n, parts, components);
      BlocksHoldMatches(edges, matches, n, parts, components);
      MapNoRepeats(Flatten(components));
      FlattenInRange(G(), n, Flatten(components));
      NumberBlocks(globalIndex);
    }

    /** The vertex of every equation and of every variable: its position in the matches. */
    method DigVertices() returns (eqVertex: seq<nat>, varVertex: seq<nat>)
      requires Valid() && |matches| == n
      ensures VerticesOf(matches, n, eqVertex, varVertex)
    {
      eqVertex, varVertex := seq(n, _ => 0), seq(n, _ => 0);
      MapNoRepeats(matches);
      for i := 0 to |matches|
        invariant |eqVertex| == n && |varVertex| == n
        invariant forall k :: 0 <= k < i ==>
                    InRangeAt(matches, n, k) && eqVertex[matches[k].0] == k && varVertex[matches[k].1] == k
      {
        var (eq, vari) := matches[i];
        assert matches[i] in G() by { assert matches[i] in M(); }
        forall k | 0 <= k < i ensures matches[k].0 != eq && matches[k].1 != vari {
          assert Map(matches, EqIndex)[k] != Map(matches, EqIndex)[i];
          assert Map(matches, VarIndex)[k] != Map(matches, VarIndex)[i];
        }
        eqVertex := eqVertex[eq := i];
        varVertex := varVertex[vari := i];
      }
    }

    /** The arcs, without self-loops: one for every edge that is not matched. */
    method MatchedArcs(eqVertex: seq<nat>, varVertex: seq<nat>) returns (arcs: seq<DiArc>)
      requires Valid() && |matches| == n && VerticesOf(matches, n, eqVertex, varVertex)
      requires forall v: nat :: v < n ==> v in Map(matches, EqIndex) && v in Map(matches, VarIndex)
      ensures Set(arcs) == ArcsOf(edges, matches)
    {
      hide ArcOfEdge, IsMatchedArc;
      arcs := [];
      for i := 0 to |edges|
        invariant ArcsUpTo(edges, matches, i, arcs)
      {
        var edge := edges[i];
        assert edge in G();
        if edge !in matches {
          var arc := (eqVertex[edge.0], varVertex[edge.1]);
          ArcOfEdgeIs(matches, n, eqVertex, varVertex, edge);
          ArcsNext(edges, matches, i, arcs, arc);
          arcs := arcs + [arc];
        } else {
          ArcsSkip(edges, matches, i, arcs);
        }
      }
      ArcsComplete(edges, matches, arcs);
    }

    method Collect(parts: seq<seq<nat>>) returns (comps: seq<seq<Edge>>)
      requires forall c, k: nat :: InComp(parts, c, k) ==> k < |matches|
      ensures ComponentsOf(matches, parts, comps)
    {
      comps := [];
      for c := 0 to |parts|
        invariant |comps| == c
        invariant forall d :: 0 <= d < c ==>
                    (forall k: nat :: k in parts[d] ==> k < |matches|) && comps[d] == Pairs(matches, parts[d])
      {
        forall k: nat | k in parts[c] ensures k < |matches| { assert InComp(parts, c, k); }
        comps := comps + [Pairs(matches, parts[c])];
      }
      PairsOfFlatten(matches, parts, comps);
    }

    ghost predicate Numbering(f: seq<Edge>, i: nat, globalIndex: nat)
      reads `eqLocalBlt, `varLocalBlt, `eqGlobalBlt, `varGlobalBlt
    {
      && NumberedUpTo(f, i, n, eqLocalBlt, varLocalBlt, 0)
      && NumberedUpTo(f, i, n, eqGlobalBlt, varGlobalBlt, globalIndex)
    }

    /** The numbers of the equation and the variable at position i of the blocks. */
    method NumberVertex(ghost f: seq<Edge>, vertex: Edge, i: nat, globalIndex: nat)
      requires Numbering(f, i, globalIndex) && i < |f| && f[i] == vertex && AllInRange(f, n)
      requires NoRepeats(Map(f, EqIndex)) && NoRepeats(Map(f, VarIndex))
      modifies this`eqLocalBlt, this`varLocalBlt, this`eqGlobalBlt, this`varGlobalBlt
      ensures Numbering(f, i + 1, globalIndex)
    {
      hide NumberedUpTo, AllInRange, NoRepeats;
      NumberNext(f, i, n, eqLocalBlt, varLocalBlt, 0);
      NumberNext(f, i, n, eqGlobalBlt, varGlobalBlt, globalIndex);
      eqLocalBlt := eqLocalBlt[vertex.0 := i];
      varLocalBlt := varLocalBlt[vertex.1 := i];
      eqGlobalBlt := eqGlobalBlt[vertex.0 := globalIndex + i];
      varGlobalBlt := varGlobalBlt[vertex.1 := globalIndex + i];
    }

    /** Numbers equations and variables block by block. */
    method NumberBlocks(globalIndex: nat)
      requires NoRepeats(Map(Flatten(components), EqIndex)) && NoRepeats(Map(Flatten(components), VarIndex))
      requires AllInRange(Flatten(components), n)
      modifies this`eqLocalBlt, this`varLocalBlt, this`eqGlobalBlt, this`varGlobalBlt
      ensures NumberedFrom(components, n, eqLocalBlt, varLocalBlt, 0)
      ensures NumberedFrom(components, n, eqGlobalBlt, varGlobalBlt, globalIndex)
    {
      hide NumberedUpTo, NumberedFrom, AllInRange, NoRepeats, Flatten;
      NothingBefore(components);
      eqLocalBlt, varLocalBlt, eqGlobalBlt, varGlobalBlt := seq(n, _ => 0), seq(n, _ => 0), seq(n, _ => 0),
          seq(n, _ => 0);
      var i := 0;
      ghost var f := Flatten(components);
      NumberNone(f, n, eqLocalBlt, varLocalBlt, 0);
      NumberNone(f, n, eqGlobalBlt, varGlobalBlt, globalIndex);
      for c := 0 to |components|
        invariant i == Offset(components, c) && Numbering(f, i, globalIndex)
      {
        for k := 0 to |components[c]|
          invariant i == Offset(components, c) + k && Numbering(f, i, globalIndex)
        {
          FlattenPosition(components, c, k);
          NumberVertex(f, components[c][k], i, globalIndex);
          i := i + 1;
        }
        assert components[..c + 1][..c] == components[..c];
      }
      assert components[..|components|] == components;
      NumberAll(components, n, eqLocalBlt, varLocalBlt, 0);
      NumberAll(components, n, eqGlobalBlt, varGlobalBlt, globalIndex);
    }
  }

  lemma PartsInRange(edges: seq<Edge>, matches: seq<Edge>, parts: seq<seq<nat>>)
    requires AreComponents(ArcsOf(edges, matches), |matches|, parts)
    ensures forall c, k: nat :: InComp(parts, c, k) ==> k < |matches|
    ensures PartsDisjoint(parts)
  {
    forall c, k: nat | InComp(parts, c, k) ensures k < |matches| { assert Placed(parts, k); }
  }

  lemma FlattenInRange(g: set<Edge>, n: nat, f: seq<Edge>)
    requires InRange(g, n) && Set(f) <= g
    ensures AllInRange(f, n)
  {
    forall e | e in f ensures e.0 < n && e.1 < n { assert e in Set(f); }
  }

  ghost predicate AllInRange(f: seq<Edge>, n: nat) {
    forall p :: 0 <= p < |f| ==> f[p].0 < n && f[p].1 < n
  }

  ghost predicate InRangeAt(matches: seq<Edge>, n: nat, k: int) {
    0 <= k < |matches| && matches[k].0 < n && matches[k].1 < n
  }

  ghost predicate VerticesOf(matches: seq<Edge>, n: nat, eqVertex: seq<nat>, varVertex: seq<nat>) {
    && |eqVertex| == n && |varVertex| == n
    && forall k :: 0 <= k < |matches| ==>
        InRangeAt(matches, n, k) && eqVertex[matches[k].0] == k && varVertex[matches[k].1] == k
  }

  /** a goes from the pair of the edge's equation to the pair of its variable. */
  ghost predicate ArcOfEdge(matches: seq<Edge>, e: Edge, a: DiArc) {
    a.0 < |matches| && a.1 < |matches| && matches[a.0].0 == e.0 && matches[a.1].1 == e.1
  }

  lemma ArcOfEdgeIs(matches: seq<Edge>, n: nat, eqVertex: seq<nat>, varVertex: seq<nat>, e: Edge)
    requires VerticesOf(matches, n, eqVertex, varVertex) && e.0 < n && e.1 < n
    requires e.0 in Map(matches, EqIndex) && e.1 in Map(matches, VarIndex)
    ensures forall a :: ArcOfEdge(matches, e, a) <==> a == (eqVertex[e.0], varVertex[e.1])
  {
    var i :| 0 <= i < |matches| && Map(matches, EqIndex)[i] == e.0;
    var j :| 0 <= j < |matches| && Map(matches, VarIndex)[j] == e.1;
    assert InRangeAt(matches, n, i) && InRangeAt(matches, n, j);
    forall a ensures ArcOfEdge(matches, e, a) <==> a == (eqVertex[e.0], varVertex[e.1]) {
      if ArcOfEdge(matches, e, a) {
        assert InRangeAt(matches, n, a.0) && InRangeAt(matches, n, a.1);
      }
    }
  }

  /** The arcs of the first i edges. */
  ghost predicate ArcsUpTo(edges: seq<Edge>, matches: seq<Edge>, i: nat, arcs: seq<DiArc>) {
    i <= |edges| && forall a :: a in arcs <==>
        exists k :: 0 <= k < i && edges[k] !in matches && ArcOfEdge(matches, edges[k], a)
  }

  lemma ArcsNext(edges: seq<Edge>, matches: seq<Edge>, i: nat, arcs: seq<DiArc>, arc: DiArc)
    requires ArcsUpTo(edges, matches, i, arcs) && i < |edges| && edges[i] !in matches
    requires forall a :: ArcOfEdge(matches, edges[i], a) <==> a == arc
    ensures ArcsUpTo(edges, matches, i + 1, arcs + [arc])
  {
    hide ArcOfEdge;
    forall a
      ensures a in arcs + [arc] <==>
                exists k :: 0 <= k < i + 1 && edges[k] !in matches && ArcOfEdge(matches, edges[k], a)
    {
      if a in arcs {
        var k :| 0 <= k < i && edges[k] !in matches && ArcOfEdge(matches, edges[k], a);
      }
    }
  }

  lemma ArcsSkip(edges: seq<Edge>, matches: seq<Edge>, i: nat, arcs: seq<DiArc>)
    requires ArcsUpTo(edges, matches, i, arcs) && i < |edges| && edges[i] in matches
    ensures ArcsUpTo(edges, matches, i + 1, arcs)
  {
    hide ArcOfEdge;
    forall a
      ensures a in arcs <==> exists k :: 0 <= k < i + 1 && edges[k] !in matches && ArcOfEdge(matches, edges[k], a)
    {
      if a in arcs {
        var k :| 0 <= k < i && edges[k] !in matches && ArcOfEdge(matches, edges[k], a);
      }
    }
  }

  lemma ArcsComplete(edges: seq<Edge>, matches: seq<Edge>, arcs: seq<DiArc>)
    requires ArcsUpTo(edges, matches, |edges|, arcs)
    ensures Set(arcs) == ArcsOf(edges, matches)
  {
    forall a: DiArc ensures a in arcs <==> a in ArcsOf(edges, matches) {
      if a in arcs {
        var k :| 0 <= k < |edges| && edges[k] !in matches && ArcOfEdge(matches, edges[k], a);
        assert edges[k] == (matches[a.0].0, matches[a.1].1) && edges[k] in edges;
        assert IsMatchedArc(edges, matches, a);
      }
      if a in ArcsOf(edges, matches) {
        assert IsMatchedArc(edges, matches, a);
        var k :| 0 <= k < |edges| && edges[k] == (matches[a.0].0, matches[a.1].1);
        assert ArcOfEdge(matches, edges[k], a);
      }
    }
  }

  ghost predicate NumberedUpTo(f: seq<Edge>, i: nat, n: nat, eqNumber: seq<nat>, varNumber: seq<nat>, base: nat) {
    && |eqNumber| == n && |varNumber| == n && i <= |f|
    && forall p {:trigger f[p]} :: 0 <= p < i ==>
         f[p].0 < n && f[p].1 < n && eqNumber[f[p].0] == base + p && varNumber[f[p].1] == base + p
  }

  lemma NumberNone(f: seq<Edge>, n: nat, eqNumber: seq<nat>, varNumber: seq<nat>, base: nat)
    requires |eqNumber| == n && |varNumber| == n
    ensures NumberedUpTo(f, 0, n, eqNumber, varNumber, base)
  {}

  lemma NumberAll(components: seq<seq<Edge>>, n: nat, eqNumber: seq<nat>, varNumber: seq<nat>, base: nat)
    requires NumberedUpTo(Flatten(components), |Flatten(components)|, n, eqNumber, varNumber, base)
    ensures NumberedFrom(components, n, eqNumber, varNumber, base)
  {}

  lemma NumberNext(f: seq<Edge>, i: nat, n: nat, eqNumber: seq<nat>, varNumber: seq<nat>, base: nat)
    requires NumberedUpTo(f, i, n, eqNumber, varNumber, base) && i < |f| && AllInRange(f, n)
    requires NoRepeats(Map(f, EqIndex)) && NoRepeats(Map(f, VarIndex))
    ensures f[i].0 < n && f[i].1 < n && |eqNumber| == n && |varNumber| == n
    ensures NumberedUpTo(f, i + 1, n, eqNumber[f[i].0 := base + i], varNumber[f[i].1 := base + i], base)
  {
    forall p | 0 <= p < i ensures f[p].0 != f[i].0 && f[p].1 != f[i].1 {
      assert Map(f, EqIndex)[p] != Map(f, EqIndex)[i];
      assert Map(f, VarIndex)[p] != Map(f, VarIndex)[i];
    }
  }

  // ----- The symmetric difference, edge by edge -----

  ghost function Toggled(m: set<Edge>, es: seq<Edge>): set<Edge> {
    (m - Set(es)) + (Set(es) - m)
  }

  lemma ToggledByNone(m: set<Edge>)
    ensures Toggled(m, []) == m
    ensures FlipAll(m, []) == m
  {}

  lemma NothingMatched(edges: seq<Edge>, n: nat)
    ensures IsMatching(Set([])) && Set([]) <= Set(edges)
  {}

  lemma NoneIsPerfect(g: set<Edge>, n: nat)
    requires exists rs, vs :: HallViolator(g, n, rs, vs)
    ensures forall m :: !Perfect(g, m, n)
  {
    var rs, vs :| HallViolator(g, n, rs, vs);
    forall m ensures !Perfect(g, m, n) { HallViolatorExcludesPerfect(g, n, rs, vs, m); }
  }

  lemma ToggleNext(m: set<Edge>, es: seq<Edge>, i: nat)
    requires i < |es| && NoRepeats(es)
    ensures Toggled(Toggled(m, es[..i]), [es[i]]) == Toggled(m, es[..i + 1])
  {
    assert es[..i + 1] == es[..i] + [es[i]];
    assert es[i] !in es[..i];
  }

  lemma RemoveAt<T>(xs: seq<T>, idx: nat)
    requires idx < |xs| && NoRepeats(xs)
    ensures NoRepeats(xs[..idx] + xs[idx + 1..])
    ensures Set(xs[..idx] + xs[idx + 1..]) == Set(xs) - {xs[idx]}
  {
    var ys := xs[..idx] + xs[idx + 1..];
    forall x ensures x in ys <==> x in xs && x != xs[idx] {
      if x in xs && x != xs[idx] {
        var i :| 0 <= i < |xs| && xs[i] == x;
        assert x == if i < idx then ys[i] else ys[i - 1];
      }
    }
  }

  /** The edges of a walk, as a list, are those of its edge set, each once. */
  lemma WalkEdges(g: set<Edge>, m: set<Edge>, walk: seq<Vertex>)
    requires Augmenting(g, m, walk)
    ensures NoRepeats(EdgesOf(walk)) && Set(EdgesOf(walk)) == EdgeSet(walk)
  {
    var es := EdgesOf(walk);
    AllKindsAlternate(g, m, walk);
    forall s, t | 0 <= s < t < |es| ensures es[s] != es[t] {
      assert StepAt(g, m, walk, s) && StepAt(g, m, walk, t);
    }
    forall e ensures e in Set(es) <==> e in EdgeSet(walk) {
      if t :| 0 <= t < |walk| - 1 && PathEdge(walk, t) == e { assert es[t] == e; }
    }
  }

  lemma FlipAllNext(m: set<Edge>, walks: seq<seq<Vertex>>, p: nat)
    requires p < |walks| && Set(EdgesOf(walks[p])) == EdgeSet(walks[p])
    ensures FlipAll(m, walks[..p + 1]) == Toggled(FlipAll(m, walks[..p]), EdgesOf(walks[p]))
  {
    assert walks[..p + 1][..p] == walks[..p];
  }

  // ----- The phases -----

  ghost predicate Increasing(lengths: seq<nat>) {
    forall s, t :: 0 <= s < t < |lengths| ==> lengths[s] < lengths[t]
  }

  /** Every augmenting path has more than k edges. */
  ghost predicate AllLonger(g: set<Edge>, m: set<Edge>, k: nat) {
    forall q :: Augmenting(g, m, q) ==> |q| > k + 1
  }

  ghost function FreeEquations(n: nat, m: set<Edge>): set<nat> {
    set i | 0 <= i < n && Free(m, Eq(i))
  }

  /** The first path ends at a free equation. */
  lemma FreeEnd(g: set<Edge>, m: set<Edge>, n: nat, walks: seq<seq<Vertex>>) returns (i: nat)
    requires m <= g && InRange(g, n) && AllAugmenting(g, m, walks) && walks != []
    ensures i < n && Free(m, Eq(i)) && OnSome(walks, Eq(i))
  {
    hide Alternates, NoRepeats, Free, InRange;
    var w := walks[0];
    EndsInRange(g, m, n, w);
    i := w[|w| - 1].i;
    assert Eq(i) in w;
  }

  /** After a phase, the equations on its paths are no longer free. */
  lemma FreeAfterPhase(g: set<Edge>, m: set<Edge>, walks: seq<seq<Vertex>>)
    requires m <= g && IsMatching(m) && AllAugmenting(g, m, walks) && PairwiseDisjoint(walks)
    ensures FlipAll(m, walks) <= g && IsMatching(FlipAll(m, walks))
    ensures forall i: nat :: Free(FlipAll(m, walks), Eq(i)) <==> Free(m, Eq(i)) && !OnSome(walks, Eq(i))
  {
    hide IsMatching, AllAugmenting, PairwiseDisjoint, FlipAll, Free, OnSome, FlippedAllAt;
    FlipAllIsMatching(g, m, walks);
    forall i: nat ensures Real(Eq(i)) {}
  }

  /** A phase matches an equation that was free. */
  lemma MatchingGrows(g: set<Edge>, m: set<Edge>, n: nat, walks: seq<seq<Vertex>>)
    requires m <= g && IsMatching(m) && InRange(g, n) && AllAugmenting(g, m, walks) && PairwiseDisjoint(walks)
    requires walks != []
    ensures FlipAll(m, walks) <= g && IsMatching(FlipAll(m, walks))
    ensures FreeEquations(n, FlipAll(m, walks)) < FreeEquations(n, m)
  {
    hide IsMatching, AllAugmenting, PairwiseDisjoint, FlipAll, Free, OnSome, InRange;
    FreeAfterPhase(g, m, walks);
    var i := FreeEnd(g, m, n, walks);
    assert i in FreeEquations(n, m) && i !in FreeEquations(n, FlipAll(m, walks));
  }

  lemma PathsGetLonger(g: set<Edge>, m: set<Edge>, n: nat, k: nat, walks: seq<seq<Vertex>>)
    requires m <= g && IsMatching(m) && InRange(g, n) && MaximalPhase(g, m, k, walks) && HasLevels(g, m, n, k)
    ensures AllLonger(g, FlipAll(m, walks), k)
  {
    hide MaximalPhase, Augmenting, Levels;
    var lev :| Levels(g, m, n, k, lev);
    forall q | Augmenting(g, FlipAll(m, walks), q) ensures |q| > k + 1 {
      NextPhaseIsLonger(g, m, n, k, lev, walks, q);
    }
  }

  lemma LengthsIncrease(g: set<Edge>, m: set<Edge>, k: nat, walks: seq<seq<Vertex>>, lengths: seq<nat>)
    requires MaximalPhase(g, m, k, walks) && walks != []
    requires Increasing(lengths) && (lengths != [] ==> AllLonger(g, m, lengths[|lengths| - 1]))
    ensures Increasing(lengths + [k])
  {
    hide Augmenting;
    assert Augmenting(g, m, walks[0]) && |walks[0]| == k + 1;
  }

  /** What one phase achieves: a larger matching and longer paths. */
  lemma PhaseGoesOn(g: set<Edge>, m: set<Edge>, n: nat, k: nat, walks: seq<seq<Vertex>>, lengths: seq<nat>)
    requires m <= g && IsMatching(m) && InRange(g, n) && MaximalPhase(g, m, k, walks) && HasLevels(g, m, n, k)
    requires walks != []
    requires Increasing(lengths) && (lengths != [] ==> AllLonger(g, m, lengths[|lengths| - 1]))
    ensures FlipAll(m, walks) <= g && IsMatching(FlipAll(m, walks))
    ensures AllLonger(g, FlipAll(m, walks), k) && Increasing(lengths + [k])
    ensures FreeEquations(n, FlipAll(m, walks)) < FreeEquations(n, m)
    ensures AllAugmenting(g, m, walks)
  {
    hide Augmenting, HasLevels, AllLonger;
    MatchingGrows(g, m, n, walks);
    PathsGetLonger(g, m, n, k, walks);
    LengthsIncrease(g, m, k, walks, lengths);
  }

  ghost predicate EdgesOfAll(paths: seq<seq<Edge>>, walks: seq<seq<Vertex>>) {
    |paths| == |walks| && forall s :: 0 <= s < |paths| ==> paths[s] == EdgesOf(walks[s])
  }

  lemma NewlyVisited(all: set<Vertex>, before: set<Vertex>, after: set<Vertex>)
    requires before <= after <= all && before != after
    ensures all - after < all - before
  {
    var x :| x in after && x !in before;
    assert x in all - before && x !in all - after;
  }

  ghost predicate Meets(q: seq<Vertex>, walks: seq<seq<Vertex>>) {
    exists x :: x in q && OnSome(walks, x)
  }

  lemma UnmatchedIsFree(n: nat, matches: seq<Edge>)
    ensures forall x :: x in Without(Equations(n), Map(matches, EquationOf)) <==>
              x.Eq? && x.i < n && Free(Set(matches), x)
    ensures forall x :: x in Without(Variables(n), Map(matches, VariableOf)) <==>
              x.Var? && x.j < n && Free(Set(matches), x)
    ensures Without(Equations(n), Map(matches, EquationOf)) == [] ==> CoversEquations(Set(matches), n)
  {
    forall x: Vertex ensures x.Eq? ==> (x in Map(matches, EquationOf) <==> !Free(Set(matches), x)) {
      InMap(matches, EquationOf, x);
      if e :| e in matches && EquationOf(e) == x { assert Touches(e, x); }
    }
    forall x: Vertex ensures x.Var? ==> (x in Map(matches, VariableOf) <==> !Free(Set(matches), x)) {
      InMap(matches, VariableOf, x);
      if e :| e in matches && VariableOf(e) == x { assert Touches(e, x); }
    }
  }

  ghost predicate HasLevels(g: set<Edge>, m: set<Edge>, n: nat, k: nat) {
    exists lev :: Levels(g, m, n, k, lev)
  }

  lemma HaveLevels(g: set<Edge>, m: set<Edge>, n: nat, k: nat, lev: Vertex -> nat)
    requires Levels(g, m, n, k, lev)
    ensures HasLevels(g, m, n, k)
  {}

  /** The paths found are what a Hopcroft-Karp phase needs, and there is at least one. */
  lemma PhaseIsMaximal(g: set<Edge>, m: set<Edge>, n: nat, L: seq<seq<Vertex>>, walks: seq<seq<Vertex>>, k: nat,
                       x: Vertex)
    requires m <= g && InRange(g, n) && Layered(g, m, n, L) && |L| % 2 == 0 && k == |L| - 1
    requires DisjointPaths(g, m, k, walks)
    requires forall q :: Augmenting(g, m, q) && |q| == |L| ==> Meets(q, walks)
    requires InLayer(L, k, x) && Free(m, x)
    ensures MaximalPhase(g, m, k, walks) && walks != [] && HasLevels(g, m, n, k)
  {
    var lev := (y: Vertex) => LevelOf(L, y);
    LayersGiveLevels(g, m, n, L);
    HaveLevels(g, m, n, k, lev);
    forall q | Augmenting(g, m, q) ensures |q| >= k + 1 && (|q| == k + 1 ==> exists y :: y in q && OnSome(walks, y)) {
      LevelsBoundPaths(g, m, n, k, lev, q);
      assert |q| == |L| ==> Meets(q, walks);
    }
    SomePathFound(g, m, n, L, walks, k, x);
  }

  lemma SomePathFound(g: set<Edge>, m: set<Edge>, n: nat, L: seq<seq<Vertex>>, walks: seq<seq<Vertex>>, k: nat,
                      x: Vertex)
    requires Layered(g, m, n, L) && |L| % 2 == 0 && k == |L| - 1
    requires forall q :: Augmenting(g, m, q) && |q| == |L| ==> Meets(q, walks)
    requires InLayer(L, k, x) && Free(m, x)
    ensures walks != []
  {
    var q := LayersHoldPath(g, m, n, L, x);
    assert Meets(q, walks);
  }

  lemma SearchEnds(g: set<Edge>, m: set<Edge>, n: nat, L: seq<seq<Vertex>>, full: Successors, rest: Successors,
                   visited: set<Vertex>, walks: seq<seq<Vertex>>)
    requires m <= g && InRange(g, n) && Layered(g, m, n, L) && FullLists(g, m, L, full)
    requires Searching(g, m, n, L, full, rest, [], visited, walks) && Source in rest && rest[Source] == []
    ensures DisjointPaths(g, m, |L| - 1, walks)
    ensures forall q :: Augmenting(g, m, q) && |q| == |L| ==> Meets(q, walks)
  {
    forall q | Augmenting(g, m, q) && |q| == |L| ensures Meets(q, walks) {
      SearchIsMaximal(g, m, n, L, full, rest, visited, walks, q);
    }
  }

  lemma BacktrackStack(g: set<Edge>, m: set<Edge>, n: nat, L: seq<seq<Vertex>>, full: Successors, rest: Successors,
                       stack: seq<Vertex>, visited: set<Vertex>, walks: seq<seq<Vertex>>)
    requires Searching(g, m, n, L, full, rest, stack, visited, walks) && StackDescends(m, L, full, stack)
    ensures stack == [Source] || StackDescends(m, L, full, stack[..|stack| - 1])
    ensures |stack| > 1 ==> stack[|stack| - 2] in rest
  {}

  lemma StackHasNoRepeats(g: set<Edge>, m: set<Edge>, n: nat, L: seq<seq<Vertex>>, full: Successors, stack: seq<Vertex>)
    requires Layered(g, m, n, L) && StackDescends(m, L, full, stack)
    ensures NoRepeats(stack)
  {
    forall s, t | 0 <= s < t < |stack| ensures stack[s] != stack[t] {
      assert InTrimmed(m, L, |L| - t, stack[t]);
      assert InSystem(stack[t], n);
    }
  }

  // ----- Successor lists -----

  /** L and E are the layers L0 and their arcs, cut down to the free variables of the last layer. */
  ghost predicate Trimmed(g: set<Edge>, m: set<Edge>, L0: seq<seq<Vertex>>, L: seq<seq<Vertex>>, E: seq<seq<Arc>>) {
    && |L| == |L0| && |E| == |L| - 1
    && (forall k: nat, x :: k < |L| ==> (x in L[k] <==> InTrimmed(m, L0, k, x)))
    && (forall k, u, v :: 0 <= k < |E| ==>
          ((u, v) in E[k] <==> InTrimmed(m, L0, k + 1, u) && InLayer(L0, k, v) && Step(g, m, u, v)))
  }

  ghost predicate ListsOf(succ: Successors, layer: seq<Vertex>, arcs: seq<Arc>) {
    forall u :: u in layer ==> u in succ && forall v :: v in succ[u] <==> (u, v) in arcs
  }

  lemma KeepLists(before: Successors, after: Successors, layer: seq<Vertex>, arcs: seq<Arc>)
    requires ListsOf(before, layer, arcs)
    requires forall u :: u in layer ==> u in after && u in before && after[u] == before[u]
    ensures ListsOf(after, layer, arcs)
  {}

  /** The lists of one layer: empty at first, then one entry for every arc. */
  method AddLists(before: Successors, layer: seq<Vertex>, arcs: seq<Arc>) returns (successors: Successors)
    requires forall a :: a in arcs ==> a.0 in layer
    ensures ListsOf(successors, layer, arcs)
    ensures forall x :: x in before && x !in layer ==> x in successors && successors[x] == before[x]
  {
    successors := before;
    for i := 0 to |layer|
      invariant forall x :: x in before && x !in layer[..i] ==> x in successors && successors[x] == before[x]
      invariant forall a :: 0 <= a < i ==> layer[a] in successors && successors[layer[a]] == []
    {
      successors := successors[layer[i] := []];
    }
    for i := 0 to |arcs|
      invariant forall x :: x in before && x !in layer ==> x in successors && successors[x] == before[x]
      invariant ListsOf(successors, layer, arcs[..i])
    {
      var (u, v) := arcs[i];
      assert arcs[i] in arcs && arcs[..i + 1] == arcs[..i] + [arcs[i]];
      successors := successors[u := successors[u] + [v]];
    }
    assert arcs[..|arcs|] == arcs;
  }

  lemma LayersApart(g: set<Edge>, m: set<Edge>, n: nat, L0: seq<seq<Vertex>>, L: seq<seq<Vertex>>, E: seq<seq<Arc>>,
                    a: nat, b: nat)
    requires Layered(g, m, n, L0) && Trimmed(g, m, L0, L, E) && a < |L| && b < |L| && a != b
    ensures forall x :: x in L[a] ==> x !in L[b]
  {
    forall x | x in L[a] ensures x !in L[b] {
      assert InTrimmed(m, L0, a, x);
      assert !InLayer(L0, b, x);
    }
  }

  lemma ListsAreFull(g: set<Edge>, m: set<Edge>, n: nat, L0: seq<seq<Vertex>>, L: seq<seq<Vertex>>, E: seq<seq<Arc>>,
                     inner: Successors, full: Successors)
    requires Layered(g, m, n, L0) && Trimmed(g, m, L0, L, E) && |L| % 2 == 0
    requires forall k :: 0 <= k < |L| - 1 ==> ListsOf(inner, L[k + 1], E[k])
    requires Source in full && full[Source] == L[|L| - 1] && Sink in full && full[Sink] == []
    requires forall x :: x in inner && x != Source && x != Sink && x !in L[0] ==> x in full && full[x] == inner[x]
    requires forall x :: x in L[0] ==> x in full && full[x] == [Sink]
    ensures FullLists(g, m, L0, full)
  {
    forall k, x | InTrimmed(m, L0, k, x) ensures Listed(g, m, L0, full, k, x) {
      assert x in L[k];
      if k > 0 {
        assert ListsOf(inner, L[k - 1 + 1], E[k - 1]);
        assert !InLayer(L0, 0, x);
        assert InSystem(x, n);
      }
    }
  }

  function EdgesOf(walk: seq<Vertex>): seq<Edge> {
    if walk == [] then [] else seq(|walk| - 1, t requires 0 <= t < |walk| - 1 => PathEdge(walk, t))
  }

  lemma StartSearch(g: set<Edge>, m: set<Edge>, n: nat, L: seq<seq<Vertex>>, full: Successors)
    requires Layered(g, m, n, L) && FullLists(g, m, L, full)
    ensures Searching(g, m, n, L, full, full, [Source], {}, []) && StackDescends(m, L, full, [Source]) && Source in full
  {
    assert Pending(full, full, {}, Source);
  }

  lemma PushKeepsDescent(g: set<Edge>, m: set<Edge>, n: nat, L: seq<seq<Vertex>>, full: Successors, stack: seq<Vertex>,
                         y: Vertex)
    requires Layered(g, m, n, L) && FullLists(g, m, L, full) && StackDescends(m, L, full, stack)
    requires stack[|stack| - 1] in full && y in full[stack[|stack| - 1]] && y != Sink
    ensures StackDescends(m, L, full, stack + [y]) && y in full && y != Source
  {
    var t := |stack| - 1;
    if t == 0 {
      assert InTrimmed(m, L, |L| - 1, y);
      assert Listed(g, m, L, full, |L| - 1, y);
    } else {
      assert InTrimmed(m, L, |L| - t, stack[t]);
      assert Listed(g, m, L, full, |L| - t, stack[t]);
      assert InTrimmed(m, L, |L| - t - 1, y);
      assert Listed(g, m, L, full, |L| - t - 1, y);
    }
  }

  lemma FirstLayer(g: set<Edge>, m: set<Edge>, n: nat, layer: seq<Vertex>)
    requires layer != [] && forall x :: x in layer <==> x.Eq? && x.i < n && Free(m, x)
    ensures Built(g, m, n, [layer], [], layer)
  {
    forall x ensures x in layer <==> UpTo([layer], 0, x) {
      if x in layer { assert InLayer([layer], 0, x); }
    }
  }

  lemma StuckAt(g: set<Edge>, m: set<Edge>, n: nat, L: seq<seq<Vertex>>)
    requires m <= g && IsMatching(m) && InRange(g, n) && Layered(g, m, n, L) && L[0] != []
    requires |L| % 2 == 1 && NewArcs(g, m, L, [])
    ensures exists rs, vs :: HallViolator(g, n, rs, vs)
  {
    NoArcsMeansStuck(g, m, L);
    StuckLayersViolateHall(g, m, n, L);
  }
}
