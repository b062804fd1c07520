/**
 The layered graph of a Hopcroft-Karp phase and the depth-first search in it: the invariants of
 BipartiteGraph._find_shortest_aug_paths, as predicates on values.
 */
module AugmentingSearch {
  import opened Lists
  import opened Matchings

  type Arc = (Vertex, Vertex)

  // ----- Layers -----

  ghost predicate InLayer(L: seq<seq<Vertex>>, k: int, x: Vertex) {
    0 <= k < |L| && x in L[k]
  }

  ghost predicate UpTo(L: seq<seq<Vertex>>, k: int, x: Vertex) {
    exists c :: c <= k && InLayer(L, c, x)
  }

  ghost predicate HasParent(g: set<Edge>, m: set<Edge>, L: seq<seq<Vertex>>, k: int, u: Vertex) {
    exists v :: InLayer(L, k - 1, v) && Step(g, m, u, v)
  }

  ghost predicate InSystem(x: Vertex, n: nat) {
    match x
    case Eq(i) => i < n
    case Var(j) => j < n
    case _ => false
  }

  /** Layer 0 holds the free equations; a layer holds what can step into the layer before it and
      is in no earlier layer; no free variable lies before the last layer. */
  ghost predicate Layered(g: set<Edge>, m: set<Edge>, n: nat, L: seq<seq<Vertex>>) {
    && |L| >= 1
    && (forall x :: InLayer(L, 0, x) <==> x.Eq? && x.i < n && Free(m, x))
    && (forall k, x :: InLayer(L, k, x) ==> InSystem(x, n) && if k % 2 == 0 then x.Eq? else x.Var?)
    && (forall a, b, x :: InLayer(L, a, x) && InLayer(L, b, x) ==> a == b)
    && (forall k, u, v :: InLayer(L, k, v) && k < |L| - 1 && Step(g, m, u, v) ==> UpTo(L, k + 1, u))
    && (forall k, u {:trigger HasParent(g, m, L, k, u)} :: InLayer(L, k, u) && k > 0 ==> HasParent(g, m, L, k, u))
    && (forall k, x :: InLayer(L, k, x) && k < |L| - 1 && x.Var? ==> !Free(m, x))
  }

  /** The arcs of layer k, each from layer k + 1 to layer k. */
  ghost predicate HasArcs(g: set<Edge>, m: set<Edge>, L: seq<seq<Vertex>>, E: seq<seq<Arc>>) {
    && |E| == |L| - 1
    && forall k, u, v :: 0 <= k < |E| ==>
         ((u, v) in E[k] <==> InLayer(L, k + 1, u) && InLayer(L, k, v) && Step(g, m, u, v))
  }

  /** The layer of x, or |L| if it is in none. */
  ghost function LevelOf(L: seq<seq<Vertex>>, x: Vertex): nat {
    if k :| InLayer(L, k, x) then k else |L|
  }

  lemma LevelInLayer(g: set<Edge>, m: set<Edge>, n: nat, L: seq<seq<Vertex>>, x: Vertex, k: nat)
    requires Layered(g, m, n, L) && InLayer(L, k, x)
    ensures LevelOf(L, x) == k
  {}

  lemma LayersGiveLevels(g: set<Edge>, m: set<Edge>, n: nat, L: seq<seq<Vertex>>)
    requires Layered(g, m, n, L)
    ensures Levels(g, m, n, |L| - 1, x => LevelOf(L, x))
  {
    var lev := (x: Vertex) => LevelOf(L, x);
    forall u, v | Step(g, m, u, v) ensures lev(u) <= lev(v) + 1 {
      if c :| InLayer(L, c, v) {
        LevelInLayer(g, m, n, L, v, c);
        if c < |L| - 1 {
          var d :| d <= c + 1 && InLayer(L, d, u);
          LevelInLayer(g, m, n, L, u, d);
        }
      }
    }
    forall i: nat | i < n && Free(m, Eq(i)) ensures lev(Eq(i)) == 0 {
      assert InLayer(L, 0, Eq(i));
      LevelInLayer(g, m, n, L, Eq(i), 0);
    }
    forall j: nat | j < n && Free(m, Var(j)) ensures |L| - 1 <= lev(Var(j)) {
    }
  }

  /** An augmenting path with as many edges as there are layers goes down one layer at a step. */
  lemma ShortestPathDescends(g: set<Edge>, m: set<Edge>, n: nat, L: seq<seq<Vertex>>, q: seq<Vertex>, t: nat)
    requires m <= g && InRange(g, n) && Layered(g, m, n, L) && Augmenting(g, m, q) && |q| == |L| && t < |q|
    ensures InLayer(L, |L| - 1 - t, q[t])
  {
    var lev := (x: Vertex) => LevelOf(L, x);
    LayersGiveLevels(g, m, n, L);
    LevelsBoundPaths(g, m, n, |L| - 1, lev, q);
    TightWalk(q, lev, |L| - 1, t);
  }

  // ----- Stuck layers are Hall violators -----

  ghost function EqsUpTo(n: nat, L: seq<seq<Vertex>>): set<nat> {
    set i | 0 <= i < n && UpTo(L, |L| - 1, Eq(i))
  }

  ghost function VarsUpTo(n: nat, L: seq<seq<Vertex>>): set<nat> {
    set j | 0 <= j < n && UpTo(L, |L| - 1, Var(j))
  }

  ghost function MateOfVar(m: set<Edge>, j: nat): nat {
    if e :| e in m && e.1 == j then e.0 else 0
  }

  /** Nothing new steps into the last layer, which holds equations. */
  ghost predicate Stuck(g: set<Edge>, m: set<Edge>, L: seq<seq<Vertex>>) {
    && (|L| - 1) % 2 == 0
    && forall u, v :: |L| > 0 && InLayer(L, |L| - 1, v) && Step(g, m, u, v) ==> UpTo(L, |L| - 1, u)
  }

  /** The mate of an equation is in the layer before it. */
  lemma MateOneLayerBack(g: set<Edge>, m: set<Edge>, n: nat, L: seq<seq<Vertex>>, k: int, e: Edge)
    requires IsMatching(m) && Layered(g, m, n, L) && e in m && InLayer(L, k, Eq(e.0))
    ensures InLayer(L, k - 1, Var(e.1))
  {
    assert Touches(e, Eq(e.0));
    assert HasParent(g, m, L, k, Eq(e.0));
    var v :| InLayer(L, k - 1, v) && Step(g, m, Eq(e.0), v);
    assert v == Var(e.1);
  }

  lemma StuckNeighbours(g: set<Edge>, m: set<Edge>, n: nat, L: seq<seq<Vertex>>, e: Edge)
    requires m <= g && IsMatching(m) && InRange(g, n) && Layered(g, m, n, L) && Stuck(g, m, L)
    requires e in g && e.0 in EqsUpTo(n, L)
    ensures e.1 in VarsUpTo(n, L)
  {
    var k :| InLayer(L, k, Eq(e.0));
    if e in m {
      MateOneLayerBack(g, m, n, L, k, e);
      assert UpTo(L, |L| - 1, Var(e.1));
    } else {
      assert Step(g, m, Var(e.1), Eq(e.0));
      if k < |L| - 1 {
        var c :| c <= k + 1 && InLayer(L, c, Var(e.1));
      }
    }
  }

  lemma StuckMates(g: set<Edge>, m: set<Edge>, n: nat, L: seq<seq<Vertex>>, j: nat)
    requires m <= g && IsMatching(m) && InRange(g, n) && Layered(g, m, n, L) && Stuck(g, m, L)
    requires j in VarsUpTo(n, L)
    ensures (MateOfVar(m, j), j) in m && MateOfVar(m, j) in EqsUpTo(n, L)
  {
    var k :| InLayer(L, k, Var(j));
    assert k < |L| - 1;
    var e :| e in m && Touches(e, Var(j));
    var i := MateOfVar(m, j);
    assert (i, j) in m;
    assert Step(g, m, Eq(i), Var(j));
    var c :| c <= k + 1 && InLayer(L, c, Eq(i));
  }

  /** When the layers stop before a free variable, the equations seen mention too few variables. */
  lemma StuckLayersViolateHall(g: set<Edge>, m: set<Edge>, n: nat, L: seq<seq<Vertex>>)
    requires m <= g && IsMatching(m) && InRange(g, n) && Layered(g, m, n, L) && Stuck(g, m, L)
    requires L[0] != []
    ensures HallViolator(g, n, EqsUpTo(n, L), VarsUpTo(n, L))
  {
    var rs, vs := EqsUpTo(n, L), VarsUpTo(n, L);
    forall e | e in g && e.0 in rs ensures e.1 in vs { StuckNeighbours(g, m, n, L, e); }
    var x := L[0][0];
    assert InLayer(L, 0, x);
    assert UpTo(L, |L| - 1, x);
    assert x.i in rs;
    forall j | j in vs ensures (MateOfVar(m, j), j) in m && MateOfVar(m, j) in rs - {x.i} {
      StuckMates(g, m, n, L, j);
      assert Touches((MateOfVar(m, j), j), Eq(MateOfVar(m, j)));
    }
    InjectionSize(vs, rs - {x.i}, j => MateOfVar(m, j));
  }

  // ----- Building the layers -----

  /** The arcs into the last layer from vertices not seen yet. */
  ghost predicate NewArcs(g: set<Edge>, m: set<Edge>, L: seq<seq<Vertex>>, arcs: seq<Arc>) {
    forall u, v :: (u, v) in arcs <==> InLayer(L, |L| - 1, v) && !UpTo(L, |L| - 1, u) && Step(g, m, u, v)
  }

  ghost predicate Tails(arcs: seq<Arc>, layer: seq<Vertex>) {
    && (forall u :: u in layer ==> exists v :: (u, v) in arcs)
    && (forall a :: a in arcs ==> a.0 in layer)
  }

  ghost predicate LastHasNoFreeVariable(m: set<Edge>, L: seq<seq<Vertex>>) {
    forall x :: InLayer(L, |L| - 1, x) && x.Var? ==> !Free(m, x)
  }

  lemma InExtended(L: seq<seq<Vertex>>, layer: seq<Vertex>, k: int, x: Vertex)
    ensures InLayer(L + [layer], k, x) <==> (if k == |L| then x in layer else InLayer(L, k, x))
  {}

  /** Every arc to a vertex of the layers so far starts in the layers or in the new one. */
  lemma ExtendSteps(g: set<Edge>, m: set<Edge>, n: nat, L: seq<seq<Vertex>>, arcs: seq<Arc>, layer: seq<Vertex>, k: int,
                    u: Vertex, v: Vertex)
    requires Layered(g, m, n, L) && NewArcs(g, m, L, arcs) && Tails(arcs, layer)
    requires InLayer(L + [layer], k, v) && k < |L| && Step(g, m, u, v)
    ensures UpTo(L + [layer], k + 1, u)
  {
    var L' := L + [layer];
    InExtended(L, layer, k, v);
    if k < |L| - 1 {
      var c :| c <= k + 1 && InLayer(L, c, u);
      InExtended(L, layer, c, u);
    } else if c :| c <= |L| - 1 && InLayer(L, c, u) {
      InExtended(L, layer, c, u);
    } else {
      assert (u, v) in arcs;
      InExtended(L, layer, |L|, u);
    }
  }

  lemma ExtendParents(g: set<Edge>, m: set<Edge>, n: nat, L: seq<seq<Vertex>>, arcs: seq<Arc>, layer: seq<Vertex>,
                      k: int, u: Vertex)
    requires Layered(g, m, n, L) && NewArcs(g, m, L, arcs) && Tails(arcs, layer)
    requires InLayer(L + [layer], k, u) && k > 0
    ensures HasParent(g, m, L + [layer], k, u)
  {
    InExtended(L, layer, k, u);
    if k < |L| {
      assert HasParent(g, m, L, k, u);
      var v :| InLayer(L, k - 1, v) && Step(g, m, u, v);
      InExtended(L, layer, k - 1, v);
    } else {
      var v :| (u, v) in arcs;
      InExtended(L, layer, |L| - 1, v);
    }
  }

  lemma NewVertices(g: set<Edge>, m: set<Edge>, n: nat, L: seq<seq<Vertex>>, arcs: seq<Arc>, layer: seq<Vertex>,
                    x: Vertex)
    requires m <= g && InRange(g, n) && Layered(g, m, n, L) && NewArcs(g, m, L, arcs) && Tails(arcs, layer)
    requires x in layer
    ensures InSystem(x, n) && (if |L| % 2 == 0 then x.Eq? else x.Var?) && !UpTo(L, |L| - 1, x)
  {
    var v :| (x, v) in arcs;
    assert InLayer(L, |L| - 1, v);
  }

  lemma ExtendLayers(g: set<Edge>, m: set<Edge>, n: nat, L: seq<seq<Vertex>>, arcs: seq<Arc>, layer: seq<Vertex>)
    requires m <= g && InRange(g, n) && Layered(g, m, n, L) && LastHasNoFreeVariable(m, L)
    requires NewArcs(g, m, L, arcs) && Tails(arcs, layer)
    ensures Layered(g, m, n, L + [layer])
  {
    hide HasParent, Step, NewArcs, Tails, Free, InRange, InSystem;
    var L' := L + [layer];
    forall k, x ensures InLayer(L', k, x) <==> (if k == |L| then x in layer else InLayer(L, k, x)) {
      InExtended(L, layer, k, x);
    }
    forall x | x in layer ensures InSystem(x, n) && (if |L| % 2 == 0 then x.Eq? else x.Var?) && !UpTo(L, |L| - 1, x) {
      NewVertices(g, m, n, L, arcs, layer, x);
    }
    forall k, u, v | InLayer(L', k, v) && k < |L'| - 1 && Step(g, m, u, v) ensures UpTo(L', k + 1, u) {
      ExtendSteps(g, m, n, L, arcs, layer, k, u, v);
    }
    forall k, u | InLayer(L', k, u) && k > 0 ensures HasParent(g, m, L', k, u) {
      ExtendParents(g, m, n, L, arcs, layer, k, u);
    }
    forall x, c | x in layer ensures !InLayer(L, c, x) {
      assert !UpTo(L, |L| - 1, x);
    }
  }

  lemma ExtendArcs(g: set<Edge>, m: set<Edge>, L: seq<seq<Vertex>>, E: seq<seq<Arc>>, arcs: seq<Arc>,
                   layer: seq<Vertex>)
    requires |L| >= 1 && HasArcs(g, m, L, E) && NewArcs(g, m, L, arcs) && Tails(arcs, layer)
    requires forall x :: x in layer ==> !UpTo(L, |L| - 1, x)
    ensures HasArcs(g, m, L + [layer], E + [arcs])
  {
    var L', E' := L + [layer], E + [arcs];
    forall k, u, v | 0 <= k < |E'|
      ensures (u, v) in E'[k] <==> InLayer(L', k + 1, u) && InLayer(L', k, v) && Step(g, m, u, v)
    {
      InExtended(L, layer, k, v);
      InExtended(L, layer, k + 1, u);
    }
  }

  /** A layer of variables, all matched, always leads on to their mates. */
  lemma VariableLayersGoOn(g: set<Edge>, m: set<Edge>, n: nat, L: seq<seq<Vertex>>, arcs: seq<Arc>)
    requires m <= g && IsMatching(m) && Layered(g, m, n, L) && LastHasNoFreeVariable(m, L)
    requires |L| % 2 == 0 && L[|L| - 1] != [] && NewArcs(g, m, L, arcs)
    ensures arcs != []
  {
    var v := L[|L| - 1][0];
    assert InLayer(L, |L| - 1, v);
    var e :| e in m && Touches(e, v);
    var u := Eq(e.0);
    assert Step(g, m, u, v) && Touches(e, u);
    forall c | c <= |L| - 1 ensures !InLayer(L, c, u) {
      if InLayer(L, c, u) { MateOneLayerBack(g, m, n, L, c, e); }
    }
    assert (u, v) in arcs;
  }

  lemma NoArcsMeansStuck(g: set<Edge>, m: set<Edge>, L: seq<seq<Vertex>>)
    requires |L| % 2 == 1 && NewArcs(g, m, L, [])
    ensures Stuck(g, m, L)
  {
    forall u, v | InLayer(L, |L| - 1, v) && Step(g, m, u, v) ensures UpTo(L, |L| - 1, u) {
      assert (u, v) !in [];
    }
  }

  // ----- Depth-first search from the last layer to layer 0 -----

  type Successors = map<Vertex, seq<Vertex>>

  /** The last layer keeps its free variables only. */
  ghost predicate InTrimmed(m: set<Edge>, L: seq<seq<Vertex>>, k: int, x: Vertex) {
    InLayer(L, k, x) && (k == |L| - 1 ==> Free(m, x))
  }

  ghost predicate SourceListed(m: set<Edge>, L: seq<seq<Vertex>>, full: Successors) {
    Source in full && forall x :: x in full[Source] <==> InTrimmed(m, L, |L| - 1, x)
  }

  /** The list of x, in layer k, is what x can step to. */
  ghost predicate Listed(g: set<Edge>, m: set<Edge>, L: seq<seq<Vertex>>, full: Successors, k: int, x: Vertex) {
    && x in full
    && forall y :: y in full[x] <==> if k == 0 then y == Sink else InLayer(L, k - 1, y) && Step(g, m, x, y)
  }

  /** The successor lists: from the source to the free variables of the last layer, down the
      layers, and from layer 0 to the sink. */
  ghost predicate FullLists(g: set<Edge>, m: set<Edge>, L: seq<seq<Vertex>>, full: Successors) {
    && SourceListed(m, L, full)
    && Sink in full && full[Sink] == []
    && forall k, x :: InTrimmed(m, L, k, x) ==> Listed(g, m, L, full, k, x)
  }

  /** Position t of the stack, counted from the source, is in layer |L| - t. */
  ghost predicate StackDescends(m: set<Edge>, L: seq<seq<Vertex>>, full: Successors, stack: seq<Vertex>) {
    && 1 <= |stack| <= |L| + 1 && stack[0] == Source
    && (forall t :: 1 <= t < |stack| ==> InTrimmed(m, L, |L| - t, stack[t]))
    && (forall t :: 0 <= t < |stack| - 1 ==> stack[t] in full && stack[t + 1] in full[stack[t]])
  }

  /** Every successor of x is waiting in its list or has been visited. */
  ghost predicate Pending(full: Successors, rest: Successors, visited: set<Vertex>, x: Vertex) {
    x in full && x in rest && forall y :: y in full[x] ==> y in rest[x] || y in visited
  }

  /** x has been left for good: every successor has been visited. */
  ghost predicate Exhausted(full: Successors, visited: set<Vertex>, x: Vertex) {
    x in full && forall y :: y in full[x] ==> y in visited
  }

  /** The invariant of the search. Lists shrink from `full` to `rest`; a visited vertex is on the
      stack, on a path that was found, or exhausted. */
  ghost predicate Searching(g: set<Edge>, m: set<Edge>, n: nat, L: seq<seq<Vertex>>, full: Successors, rest: Successors,
                            stack: seq<Vertex>, visited: set<Vertex>, walks: seq<seq<Vertex>>) {
    && rest.Keys == full.Keys
    && (forall x, y :: x in rest && y in rest[x] ==> y in full[x])
    && Source !in visited && Sink !in visited && visited <= full.Keys
    && (forall x :: x in full && x !in visited && x != Source ==> rest[x] == full[x])
    && Pending(full, rest, visited, Source)
    && (forall x :: x in stack ==>
          Pending(full, rest, visited, x) && !OnSome(walks, x) && (x != Source ==> x in visited))
    && (forall x :: x in visited ==> x in stack || OnSome(walks, x) || Exhausted(full, visited, x))
    && (forall x :: OnSome(walks, x) ==> x in visited)
    && |L| > 0 && DisjointPaths(g, m, |L| - 1, walks)
  }

  function Popped(rest: Successors, x: Vertex): Successors
    requires x in rest && rest[x] != []
  {
    rest[x := rest[x][..|rest[x]| - 1]]
  }

  lemma PoppedLists(rest: Successors, x: Vertex, y: Vertex)
    requires x in rest && rest[x] != [] && y in rest[x] && y != rest[x][|rest[x]| - 1]
    ensures y in Popped(rest, x)[x]
  {}

  /** The successor taken had been visited before. */
  lemma SkipVisited(g: set<Edge>, m: set<Edge>, n: nat, L: seq<seq<Vertex>>, full: Successors, rest: Successors,
                    stack: seq<Vertex>, visited: set<Vertex>, walks: seq<seq<Vertex>>, x: Vertex)
    requires Searching(g, m, n, L, full, rest, stack, visited, walks) && x in stack
    requires rest[x] != [] && rest[x][|rest[x]| - 1] in visited
    ensures Searching(g, m, n, L, full, Popped(rest, x), stack, visited, walks)
  {
    var rest' := Popped(rest, x);
    forall z | z in stack || z == Source ensures Pending(full, rest', visited, z) {
      assert Pending(full, rest, visited, z);
      forall y | y in full[z] ensures y in rest'[z] || y in visited {
        if z == x && y in rest[x] && y != rest[x][|rest[x]| - 1] { PoppedLists(rest, x, y); }
      }
    }
  }

  /** The successor taken is new: it goes on the stack. */
  lemma PushNew(g: set<Edge>, m: set<Edge>, n: nat, L: seq<seq<Vertex>>, full: Successors, rest: Successors,
                stack: seq<Vertex>, visited: set<Vertex>, walks: seq<seq<Vertex>>, x: Vertex, y: Vertex)
    requires Searching(g, m, n, L, full, rest, stack, visited, walks) && x in stack
    requires rest[x] != [] && rest[x][|rest[x]| - 1] == y && y !in visited && y != Sink && y != Source && y in full
    ensures Searching(g, m, n, L, full, Popped(rest, x), stack + [y], visited + {y}, walks)
  {
    var rest', visited' := Popped(rest, x), visited + {y};
    forall z | z in stack || z == Source ensures Pending(full, rest', visited', z) {
      assert Pending(full, rest, visited, z);
      forall w | w in full[z] ensures w in rest'[z] || w in visited' {
        if z == x && w in rest[x] && w != y { PoppedLists(rest, x, w); }
      }
    }
    assert Pending(full, rest', visited', y);
    forall z | z in visited' ensures z in stack + [y] || OnSome(walks, z) || Exhausted(full, visited', z) {
      if z != y && z !in stack && !OnSome(walks, z) { assert Exhausted(full, visited, z); }
    }
  }

  /** The sink can be taken only from layer 0: the stack without the source is an augmenting path. */
  lemma StackIsPath(g: set<Edge>, m: set<Edge>, n: nat, L: seq<seq<Vertex>>, full: Successors, stack: seq<Vertex>)
    requires Layered(g, m, n, L) && FullLists(g, m, L, full) && StackDescends(m, L, full, stack) && |L| % 2 == 0
    requires stack[|stack| - 1] in full && Sink in full[stack[|stack| - 1]]
    ensures |stack| == |L| + 1 && Augmenting(g, m, stack[1..])
  {
    var t := |stack| - 1;
    assert !InTrimmed(m, L, |L| - 1, Sink);
    assert t > 0;
    assert InTrimmed(m, L, |L| - t, stack[t]);
    assert Listed(g, m, L, full, |L| - t, stack[t]);
    assert !InLayer(L, |L| - t - 1, Sink);
    var w := stack[1..];
    forall s: nat | s < |w| ensures InTrimmed(m, L, |L| - 1 - s, w[s]) {
      assert w[s] == stack[s + 1];
    }
    forall s | 0 <= s < |w| - 1 ensures StepAt(g, m, w, s) {
      assert Listed(g, m, L, full, |L| - 1 - s, w[s]);
      assert stack[s + 2] in full[stack[s + 1]];
    }
    assert InLayer(L, 0, w[|w| - 1]);
  }

  lemma OnSomeOfMore(walks: seq<seq<Vertex>>, w: seq<Vertex>, x: Vertex)
    ensures OnSome(walks + [w], x) <==> OnSome(walks, x) || x in w
  {
    OnSomeSplit(walks + [w], x);
    assert (walks + [w])[..|walks|] == walks;
  }

  /** The sink is reached: the stack without the source is one more path. */
  lemma PathFound(g: set<Edge>, m: set<Edge>, n: nat, L: seq<seq<Vertex>>, full: Successors, rest: Successors,
                  stack: seq<Vertex>, visited: set<Vertex>, walks: seq<seq<Vertex>>, x: Vertex)
    requires Searching(g, m, n, L, full, rest, stack, visited, walks)
    requires |stack| == |L| + 1 && stack[0] == Source && NoRepeats(stack) && Augmenting(g, m, stack[1..])
    requires x in visited && x in rest && rest[x] != [] && rest[x][|rest[x]| - 1] == Sink && x != Source
    ensures Searching(g, m, n, L, full, Popped(rest, x), [Source], visited, walks + [stack[1..]])
  {
    var w, rest' := stack[1..], Popped(rest, x);
    forall z ensures OnSome(walks + [w], z) <==> OnSome(walks, z) || z in w { OnSomeOfMore(walks, w, z); }
    assert stack == [Source] + w;
    forall p | p in walks ensures Disjoint(p, w) {
      forall z | z in p ensures z !in w { assert OnSome(walks, z); }
    }
    assert Pending(full, rest', visited, Source);
    assert DisjointPaths(g, m, |L| - 1, walks + [w]);
    forall z | z in visited ensures z in [Source] || OnSome(walks + [w], z) || Exhausted(full, visited, z) {
    }
  }

  /** The top of the stack has no successor left: it is taken off. */
  lemma Backtrack(g: set<Edge>, m: set<Edge>, n: nat, L: seq<seq<Vertex>>, full: Successors, rest: Successors,
                  stack: seq<Vertex>, visited: set<Vertex>, walks: seq<seq<Vertex>>)
    requires Searching(g, m, n, L, full, rest, stack, visited, walks) && stack != []
    requires rest[stack[|stack| - 1]] == []
    ensures Searching(g, m, n, L, full, rest, stack[..|stack| - 1], visited, walks)
  {
    var top, stack' := stack[|stack| - 1], stack[..|stack| - 1];
    assert stack == stack' + [top];
    assert Pending(full, rest, visited, top);
    assert Exhausted(full, visited, top);
  }

  /** When the search ends, every path down the layers meets one that was found. */
  lemma SearchIsMaximal(g: set<Edge>, m: set<Edge>, n: nat, L: seq<seq<Vertex>>, full: Successors, rest: Successors,
                        visited: set<Vertex>, walks: seq<seq<Vertex>>, q: seq<Vertex>)
    requires m <= g && InRange(g, n) && Layered(g, m, n, L) && FullLists(g, m, L, full)
    requires Searching(g, m, n, L, full, rest, [], visited, walks) && rest[Source] == []
    requires Augmenting(g, m, q) && |q| == |L|
    ensures exists x :: x in q && OnSome(walks, x)
  {
    var last := q[|q| - 1];
    ShortestPathDescends(g, m, n, L, q, |q| - 1);
    assert InTrimmed(m, L, 0, last);
    assert Listed(g, m, L, full, 0, last);
    assert !Exhausted(full, visited, last);
    if forall x :: x in q ==> !OnSome(walks, x) {
      UnmetPathIsVisited(g, m, n, L, full, rest, visited, walks, q, |q| - 1);
    }
  }

  lemma {:induction false} UnmetPathIsVisited(g: set<Edge>, m: set<Edge>, n: nat, L: seq<seq<Vertex>>, full: Successors,
                                              rest: Successors,
                                              visited: set<Vertex>, walks: seq<seq<Vertex>>, q: seq<Vertex>, t: nat)
    requires m <= g && InRange(g, n) && Layered(g, m, n, L) && FullLists(g, m, L, full)
    requires Searching(g, m, n, L, full, rest, [], visited, walks) && rest[Source] == []
    requires Augmenting(g, m, q) && |q| == |L| && t < |q|
    requires forall x :: x in q ==> !OnSome(walks, x)
    ensures q[t] in visited && Exhausted(full, visited, q[t])
  {
    ShortestPathDescends(g, m, n, L, q, t);
    if t == 0 {
      assert InTrimmed(m, L, |L| - 1, q[0]);
      assert q[0] in full[Source];
    } else {
      UnmetPathIsVisited(g, m, n, L, full, rest, visited, walks, q, t - 1);
      ShortestPathDescends(g, m, n, L, q, t - 1);
      assert InTrimmed(m, L, |L| - t, q[t - 1]);
      assert Listed(g, m, L, full, |L| - t, q[t - 1]);
      assert StepAt(g, m, q, t - 1);
      assert q[t] in full[q[t - 1]];
    }
    assert q[t] in q;
  }

  /** From any vertex of a layer there is a way down to layer 0. */
  lemma {:induction false} WayDown(g: set<Edge>, m: set<Edge>, n: nat, L: seq<seq<Vertex>>, k: nat, x: Vertex)
    returns (q: seq<Vertex>)
    requires Layered(g, m, n, L) && InLayer(L, k, x)
    ensures |q| == k + 1 && q[0] == x && Alternates(g, m, q)
    ensures forall t :: 0 <= t <= k ==> InLayer(L, k - t, q[t])
  {
    if k == 0 {
      q := [x];
    } else {
      assert HasParent(g, m, L, k, x);
      var y :| InLayer(L, k - 1, y) && Step(g, m, x, y);
      var rest := WayDown(g, m, n, L, k - 1, y);
      q := [x] + rest;
      forall t | 0 <= t < |q| - 1 ensures StepAt(g, m, q, t) {
        if t > 0 { assert StepAt(g, m, rest, t - 1); }
      }
    }
  }

  /** A free variable in the last layer ends an augmenting path down the layers. */
  lemma LayersHoldPath(g: set<Edge>, m: set<Edge>, n: nat, L: seq<seq<Vertex>>, x: Vertex) returns (q: seq<Vertex>)
    requires Layered(g, m, n, L) && |L| % 2 == 0 && InTrimmed(m, L, |L| - 1, x)
    ensures Augmenting(g, m, q) && |q| == |L|
  {
    q := WayDown(g, m, n, L, |L| - 1, x);
    assert InLayer(L, 0, q[|q| - 1]);
    forall s, t | 0 <= s < t < |q| ensures q[s] != q[t] {
      assert InLayer(L, |L| - 1 - s, q[s]) && InLayer(L, |L| - 1 - t, q[t]);
    }
  }
}
