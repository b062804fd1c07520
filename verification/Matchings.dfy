/**
 Matchings of a bipartite graph and augmenting paths: what the phases of
 BipartiteGraph.maximum_match rest on. Equations are numbered, and so are variables.
 */
module Matchings {
  import opened Lists

  /** (equation, variable) */
  type Edge = (nat, nat)

  datatype Vertex = Eq(i: nat) | Var(j: nat) | Source | Sink

  /** No two edges share an equation or a variable. */
  ghost predicate IsMatching(m: set<Edge>) {
    forall a, b :: a in m && b in m && (a.0 == b.0 || a.1 == b.1) ==> a == b
  }

  predicate Touches(e: Edge, x: Vertex) {
    (x.Eq? && e.0 == x.i) || (x.Var? && e.1 == x.j)
  }

  ghost predicate Free(m: set<Edge>, x: Vertex) {
    forall e :: e in m ==> !Touches(e, x)
  }

  /** Every one of the n equations is matched. */
  ghost predicate CoversEquations(m: set<Edge>, n: nat) {
    forall i: nat :: i < n ==> !Free(m, Eq(i))
  }

  ghost predicate Perfect(g: set<Edge>, m: set<Edge>, n: nat) {
    m <= g && IsMatching(m) && CoversEquations(m, n)
  }

  /** The edge between two neighbouring vertices of a path. */
  function EdgeOf(u: Vertex, v: Vertex): Edge {
    match (u, v)
    case (Var(j), Eq(i)) => (i, j)
    case (Eq(i), Var(j)) => (i, j)
    case _ => (0, 0)
  }

  /** One step of an alternating path, walked from its variable end: from a variable along an
      edge that is not matched, from an equation along one that is. */
  ghost predicate Step(g: set<Edge>, m: set<Edge>, u: Vertex, v: Vertex) {
    match (u, v)
    case (Var(j), Eq(i)) => (i, j) in g && (i, j) !in m
    case (Eq(i), Var(j)) => (i, j) in m
    case _ => false
  }

  ghost predicate StepAt(g: set<Edge>, m: set<Edge>, p: seq<Vertex>, t: int)
    requires 0 <= t < |p| - 1
  {
    Step(g, m, p[t], p[t + 1])
  }

  ghost predicate Alternates(g: set<Edge>, m: set<Edge>, p: seq<Vertex>) {
    forall t :: 0 <= t < |p| - 1 ==> StepAt(g, m, p, t)
  }

  /** An augmenting path, from a free variable back to a free equation, with |p| - 1 edges. */
  ghost predicate Augmenting(g: set<Edge>, m: set<Edge>, p: seq<Vertex>) {
    && |p| >= 2 && p[0].Var? && p[|p| - 1].Eq?
    && Free(m, p[0]) && Free(m, p[|p| - 1])
    && Alternates(g, m, p) && NoRepeats(p)
  }

  ghost predicate Disjoint(p: seq<Vertex>, q: seq<Vertex>) {
    forall x :: x in p ==> x !in q
  }

  ghost predicate PairwiseDisjoint(ps: seq<seq<Vertex>>) {
    forall s, t :: 0 <= s < t < |ps| ==> Disjoint(ps[s], ps[t])
  }

  function PathEdge(p: seq<Vertex>, t: int): Edge
    requires 0 <= t < |p| - 1
  {
    EdgeOf(p[t], p[t + 1])
  }

  ghost function EdgeSet(p: seq<Vertex>): set<Edge> {
    set t | 0 <= t < |p| - 1 :: PathEdge(p, t)
  }

  /** The symmetric difference of m and the edges of p. */
  ghost function Flip(m: set<Edge>, p: seq<Vertex>): set<Edge> {
    (m - EdgeSet(p)) + (EdgeSet(p) - m)
  }

  ghost function FlipAll(m: set<Edge>, ps: seq<seq<Vertex>>): set<Edge> {
    if ps == [] then m else Flip(FlipAll(m, ps[..|ps| - 1]), ps[|ps| - 1])
  }

  // ----- Augmenting once -----

  lemma {:induction false} KindsAlternate(g: set<Edge>, m: set<Edge>, p: seq<Vertex>, t: nat)
    requires Alternates(g, m, p) && t < |p| && p[0].Var?
    ensures t % 2 == 0 ==> p[t].Var?
    ensures t % 2 == 1 ==> p[t].Eq?
  {
    if t > 0 {
      KindsAlternate(g, m, p, t - 1);
      assert StepAt(g, m, p, t - 1);
    }
  }

  lemma AllKindsAlternate(g: set<Edge>, m: set<Edge>, p: seq<Vertex>)
    requires Alternates(g, m, p) && |p| > 0 && p[0].Var?
    ensures forall t: nat :: t < |p| ==> (if t % 2 == 0 then p[t].Var? else p[t].Eq?)
  {
    forall t: nat | t < |p| ensures if t % 2 == 0 then p[t].Var? else p[t].Eq? {
      KindsAlternate(g, m, p, t);
    }
  }

  /** A matched edge that touches an augmenting path is an edge of the path. */
  lemma MatchedEdgeOnPath(g: set<Edge>, m: set<Edge>, p: seq<Vertex>, e: Edge, t: nat)
    requires IsMatching(m) && Augmenting(g, m, p) && e in m && t < |p| && Touches(e, p[t])
    ensures t % 2 == 0 ==> t > 0 && e == PathEdge(p, t - 1)
    ensures t % 2 == 1 ==> t + 1 < |p| && e == PathEdge(p, t)
  {
    AllKindsAlternate(g, m, p);
    if t % 2 == 0 {
      assert StepAt(g, m, p, t - 1);
    } else {
      assert t < |p| - 1;
      assert StepAt(g, m, p, t);
    }
  }

  /** The matching after augmenting along p: off the path as before, on the path every variable
      with the equation that follows it. */
  ghost predicate FlippedAt(m: set<Edge>, p: seq<Vertex>, e: Edge) {
    || (e in m && Eq(e.0) !in p && Var(e.1) !in p)
    || EvenEdge(p, e)
  }

  ghost predicate EvenEdge(p: seq<Vertex>, e: Edge) {
    exists t :: 0 <= t < |p| - 1 && t % 2 == 0 && e == PathEdge(p, t)
  }

  lemma FlipIsFlippedAt(g: set<Edge>, m: set<Edge>, p: seq<Vertex>, e: Edge)
    requires IsMatching(m) && Augmenting(g, m, p)
    ensures e in Flip(m, p) <==> FlippedAt(m, p, e)
  {
    AllKindsAlternate(g, m, p);
    if e in m && e !in EdgeSet(p) {
      if t :| 0 <= t < |p| && (p[t] == Eq(e.0) || p[t] == Var(e.1)) {
        MatchedEdgeOnPath(g, m, p, e, t);
      }
    }
    if e in EdgeSet(p) {
      var t :| 0 <= t < |p| - 1 && e == PathEdge(p, t);
      assert StepAt(g, m, p, t);
      assert p[t] == Eq(e.0) || p[t] == Var(e.1);
    }
    if t :| 0 <= t < |p| - 1 && t % 2 == 0 && e == PathEdge(p, t) {
      assert StepAt(g, m, p, t);
    }
  }

  ghost predicate Real(x: Vertex) {
    x.Eq? || x.Var?
  }

  /** Augmenting gives a matching again, which leaves the same vertices free except those of p. */
  lemma FlipIsMatching(g: set<Edge>, m: set<Edge>, p: seq<Vertex>)
    requires m <= g && IsMatching(m) && Augmenting(g, m, p)
    ensures Flip(m, p) <= g && IsMatching(Flip(m, p))
  {
    AllKindsAlternate(g, m, p);
    forall a | a in Flip(m, p) ensures a in g {
      if a in EdgeSet(p) {
        var t :| 0 <= t < |p| - 1 && a == PathEdge(p, t);
        assert StepAt(g, m, p, t);
      }
    }
    forall a, b | a in Flip(m, p) && b in Flip(m, p) && (a.0 == b.0 || a.1 == b.1) ensures a == b {
      FlipIsFlippedAt(g, m, p, a);
      FlipIsFlippedAt(g, m, p, b);
    }
  }

  lemma NotFreeOnPath(g: set<Edge>, m: set<Edge>, p: seq<Vertex>, x: Vertex)
    requires IsMatching(m) && Augmenting(g, m, p) && x in p
    ensures !Free(Flip(m, p), x)
  {
    AllKindsAlternate(g, m, p);
    var t :| 0 <= t < |p| && p[t] == x;
    var e := if t % 2 == 0 then PathEdge(p, t) else PathEdge(p, t - 1);
    FlipIsFlippedAt(g, m, p, e);
    assert e in Flip(m, p) && Touches(e, x);
  }

  lemma SameEdgesOffPath(g: set<Edge>, m: set<Edge>, p: seq<Vertex>, x: Vertex, e: Edge)
    requires IsMatching(m) && Augmenting(g, m, p) && x !in p && Touches(e, x)
    ensures e in Flip(m, p) <==> e in m
  {
    AllKindsAlternate(g, m, p);
    FlipIsFlippedAt(g, m, p, e);
    if e in m {
      if t :| 0 <= t < |p| && (p[t] == Eq(e.0) || p[t] == Var(e.1)) {
        MatchedEdgeOnPath(g, m, p, e, t);
      }
    }
  }

  lemma FreeAfterFlip(g: set<Edge>, m: set<Edge>, p: seq<Vertex>, x: Vertex)
    requires IsMatching(m) && Augmenting(g, m, p) && Real(x)
    ensures Free(Flip(m, p), x) <==> Free(m, x) && x !in p
  {
    if x in p {
      NotFreeOnPath(g, m, p, x);
    } else {
      forall e | Touches(e, x) ensures e in Flip(m, p) <==> e in m {
        SameEdgesOffPath(g, m, p, x, e);
      }
    }
  }

  // ----- Augmenting along vertex-disjoint paths -----

  ghost predicate OnSome(ps: seq<seq<Vertex>>, x: Vertex) {
    exists s :: 0 <= s < |ps| && x in ps[s]
  }

  ghost predicate AllAugmenting(g: set<Edge>, m: set<Edge>, ps: seq<seq<Vertex>>) {
    forall s :: 0 <= s < |ps| ==> Augmenting(g, m, ps[s])
  }

  ghost predicate EvenEdgeOf(ps: seq<seq<Vertex>>, e: Edge) {
    exists s :: 0 <= s < |ps| && EvenEdge(ps[s], e)
  }

  /** The matching after augmenting along all of ps. */
  ghost predicate FlippedAllAt(m: set<Edge>, ps: seq<seq<Vertex>>, e: Edge) {
    (e in m && !OnSome(ps, Eq(e.0)) && !OnSome(ps, Var(e.1))) || EvenEdgeOf(ps, e)
  }

  lemma OnSomeSplit(ps: seq<seq<Vertex>>, x: Vertex)
    requires ps != []
    ensures OnSome(ps, x) <==> OnSome(ps[..|ps| - 1], x) || x in ps[|ps| - 1]
  {
    var init := ps[..|ps| - 1];
    if s :| 0 <= s < |ps| && x in ps[s] {
      if s < |ps| - 1 { assert init[s] == ps[s]; }
    }
    if s :| 0 <= s < |init| && x in init[s] { assert ps[s] == init[s]; }
  }

  lemma EvenEdgeSplit(ps: seq<seq<Vertex>>, e: Edge)
    requires ps != []
    ensures EvenEdgeOf(ps, e) <==> (EvenEdgeOf(ps[..|ps| - 1], e) || EvenEdge(ps[|ps| - 1], e))
  {
    var init := ps[..|ps| - 1];
    if s :| 0 <= s < |ps| && EvenEdge(ps[s], e) {
      if s < |ps| - 1 { assert init[s] == ps[s]; }
    }
    if s :| 0 <= s < |init| && EvenEdge(init[s], e) {
      assert ps[s] == init[s];
    }
  }

  /** The endpoints of an even edge are on the paths. */
  lemma EvenEdgeOnPaths(g: set<Edge>, m: set<Edge>, ps: seq<seq<Vertex>>, e: Edge)
    requires AllAugmenting(g, m, ps) && EvenEdgeOf(ps, e)
    ensures e in g && e !in m && OnSome(ps, Eq(e.0)) && OnSome(ps, Var(e.1))
  {
    var s :| 0 <= s < |ps| && EvenEdge(ps[s], e);
    var t :| 0 <= t < |ps[s]| - 1 && t % 2 == 0 && e == PathEdge(ps[s], t);
    AllKindsAlternate(g, m, ps[s]);
    assert StepAt(g, m, ps[s], t);
    assert ps[s][t] in ps[s] && ps[s][t + 1] in ps[s];
  }

  /** A path that avoids ps is augmenting before and after augmenting along ps. */
  lemma DisjointStaysAugmenting(g: set<Edge>, m: set<Edge>, ps: seq<seq<Vertex>>, m': set<Edge>, q: seq<Vertex>)
    requires AllAugmenting(g, m, ps) && Augmenting(g, m, q)
    requires forall x :: x in q ==> !OnSome(ps, x)
    requires forall e :: e in m' <==> FlippedAllAt(m, ps, e)
    ensures Augmenting(g, m', q)
  {
    forall e: Edge | Eq(e.0) in q || Var(e.1) in q ensures e in m' ==> e in m {
      if e in m' && EvenEdgeOf(ps, e) { EvenEdgeOnPaths(g, m, ps, e); }
    }
    forall t | 0 <= t < |q| - 1 ensures StepAt(g, m', q, t) {
      assert StepAt(g, m, q, t);
      assert q[t] in q && q[t + 1] in q;
    }
    assert q[0] in q && q[|q| - 1] in q;
  }

  lemma {:induction false} FlipAllIsMatching(g: set<Edge>, m: set<Edge>, ps: seq<seq<Vertex>>)
    requires m <= g && IsMatching(m) && AllAugmenting(g, m, ps) && PairwiseDisjoint(ps)
    ensures FlipAll(m, ps) <= g && IsMatching(FlipAll(m, ps))
    ensures forall e :: e in FlipAll(m, ps) <==> FlippedAllAt(m, ps, e)
    ensures forall x :: Real(x) ==> (Free(FlipAll(m, ps), x) <==> Free(m, x) && !OnSome(ps, x))
  {
    if ps == [] {
    } else {
      var init, q := ps[..|ps| - 1], ps[|ps| - 1];
      var m' := FlipAll(m, init);
      FlipAllIsMatching(g, m, init);
      forall x | x in q ensures !OnSome(init, x) {
        forall s | 0 <= s < |init| ensures x !in init[s] { assert Disjoint(ps[s], ps[|ps| - 1]); }
      }
      DisjointStaysAugmenting(g, m, init, m', q);
      FlipIsMatching(g, m', q);
      forall e ensures e in FlipAll(m, ps) <==> FlippedAllAt(m, ps, e) {
        FlipIsFlippedAt(g, m', q, e);
        OnSomeSplit(ps, Eq(e.0));
        OnSomeSplit(ps, Var(e.1));
        EvenEdgeSplit(ps, e);
        if EvenEdgeOf(init, e) { EvenEdgeOnPaths(g, m, init, e); }
      }
      forall x | Real(x) ensures Free(FlipAll(m, ps), x) <==> Free(m, x) && !OnSome(ps, x) {
        FreeAfterFlip(g, m', q, x);
        OnSomeSplit(ps, x);
      }
    }
  }

  // ----- Shortest paths and the next phase -----

  /** A bound on distances: every free equation of 0..n-1 is at level 0, a step lowers the level
      by at most one, and every free variable of 0..n-1 is at level k or above. */
  ghost predicate Levels(g: set<Edge>, m: set<Edge>, n: nat, k: nat, lev: Vertex -> nat) {
    && (forall i: nat :: i < n && Free(m, Eq(i)) ==> lev(Eq(i)) == 0)
    && (forall u, v :: Step(g, m, u, v) ==> lev(u) <= lev(v) + 1)
    && (forall j: nat :: j < n && Free(m, Var(j)) ==> k <= lev(Var(j)))
  }

  ghost predicate InRange(g: set<Edge>, n: nat) {
    forall e :: e in g ==> e.0 < n && e.1 < n
  }

  ghost predicate DisjointPaths(g: set<Edge>, m: set<Edge>, k: nat, ps: seq<seq<Vertex>>) {
    && AllAugmenting(g, m, ps) && PairwiseDisjoint(ps)
    && (forall s :: 0 <= s < |ps| ==> |ps[s]| == k + 1)
  }

  /** ps is a maximal set of vertex-disjoint augmenting paths with k edges, and none is shorter. */
  ghost predicate MaximalPhase(g: set<Edge>, m: set<Edge>, k: nat, ps: seq<seq<Vertex>>) {
    && DisjointPaths(g, m, k, ps)
    && (forall q :: Augmenting(g, m, q) ==> |q| >= k + 1)
    && (forall q :: Augmenting(g, m, q) && |q| == k + 1 ==> exists x :: x in q && OnSome(ps, x))
  }

  /** The levels along q fall by at most one a step. */
  ghost predicate Gentle(q: seq<Vertex>, lev: Vertex -> nat) {
    forall t :: 0 <= t < |q| - 1 ==> lev(q[t]) <= lev(q[t + 1]) + 1
  }

  lemma {:induction false} GentleDrop(q: seq<Vertex>, lev: Vertex -> nat, s: nat, t: nat)
    requires Gentle(q, lev) && s <= t < |q|
    ensures lev(q[s]) <= lev(q[t]) + (t - s)
    decreases t - s
  {
    if s < t { GentleDrop(q, lev, s + 1, t); }
  }

  /** A gentle walk from level k or above to level 0 in k steps falls by one at every step. */
  lemma TightWalk(q: seq<Vertex>, lev: Vertex -> nat, k: nat, t: nat)
    requires |q| == k + 1 && Gentle(q, lev) && k <= lev(q[0]) && lev(q[k]) == 0 && t <= k
    ensures lev(q[t]) == k - t
  {
    GentleDrop(q, lev, 0, t);
    GentleDrop(q, lev, t, k);
  }

  lemma EndsInRange(g: set<Edge>, m: set<Edge>, n: nat, q: seq<Vertex>)
    requires m <= g && InRange(g, n) && Augmenting(g, m, q)
    ensures q[0].j < n && q[|q| - 1].i < n
  {
    AllKindsAlternate(g, m, q);
    assert StepAt(g, m, q, 0);
    assert StepAt(g, m, q, |q| - 2);
  }

  /** Levels bound the length of every augmenting path. */
  lemma LevelsBoundPaths(g: set<Edge>, m: set<Edge>, n: nat, k: nat, lev: Vertex -> nat, q: seq<Vertex>)
    requires m <= g && InRange(g, n) && Levels(g, m, n, k, lev) && Augmenting(g, m, q)
    ensures |q| >= k + 1 && Gentle(q, lev) && lev(q[|q| - 1]) == 0 && k <= lev(q[0])
  {
    EndsInRange(g, m, n, q);
    forall t | 0 <= t < |q| - 1 ensures lev(q[t]) <= lev(q[t + 1]) + 1 {
      assert StepAt(g, m, q, t);
    }
    GentleDrop(q, lev, 0, |q| - 1);
  }

  lemma PathLevel(g: set<Edge>, m: set<Edge>, n: nat, k: nat, lev: Vertex -> nat, ps: seq<seq<Vertex>>, s: nat, t: nat)
    requires m <= g && InRange(g, n) && Levels(g, m, n, k, lev) && DisjointPaths(g, m, k, ps)
    requires s < |ps| && t < |ps[s]| - 1
    ensures lev(ps[s][t]) == k - t && lev(ps[s][t + 1]) == k - t - 1
  {
    LevelsBoundPaths(g, m, n, k, lev, ps[s]);
    TightWalk(ps[s], lev, k, t);
    TightWalk(ps[s], lev, k, t + 1);
  }

  /** A matched edge that touches one of the paths at x is an odd edge of it. */
  lemma OddEdge(g: set<Edge>, m: set<Edge>, ps: seq<seq<Vertex>>, e: Edge, x: Vertex) returns (s: nat, t: nat)
    requires IsMatching(m) && AllAugmenting(g, m, ps) && e in m && Touches(e, x) && OnSome(ps, x)
    ensures s < |ps| && t < |ps[s]| - 1 && ps[s][t] == Eq(e.0) && ps[s][t + 1] == Var(e.1)
  {
    s :| 0 <= s < |ps| && x in ps[s];
    var r :| 0 <= r < |ps[s]| && ps[s][r] == x;
    AllKindsAlternate(g, m, ps[s]);
    MatchedEdgeOnPath(g, m, ps[s], e, r);
    t := if r % 2 == 0 then r - 1 else r;
  }

  lemma EvenEdgePosition(g: set<Edge>, m: set<Edge>, ps: seq<seq<Vertex>>, e: Edge) returns (s: nat, t: nat)
    requires AllAugmenting(g, m, ps) && EvenEdgeOf(ps, e)
    ensures s < |ps| && t < |ps[s]| - 1 && ps[s][t] == Var(e.1) && ps[s][t + 1] == Eq(e.0)
  {
    s :| 0 <= s < |ps| && EvenEdge(ps[s], e);
    t :| 0 <= t < |ps[s]| - 1 && t % 2 == 0 && e == PathEdge(ps[s], t);
    AllKindsAlternate(g, m, ps[s]);
  }

  /** A step that is possible only after augmenting goes up one level: it undoes a step of one of the paths. */
  lemma NewStepClimbs(g: set<Edge>, m: set<Edge>, n: nat, k: nat, lev: Vertex -> nat, ps: seq<seq<Vertex>>, u: Vertex,
                      v: Vertex)
    requires m <= g && IsMatching(m) && InRange(g, n) && Levels(g, m, n, k, lev) && DisjointPaths(g, m, k, ps)
    requires Step(g, FlipAll(m, ps), u, v) && !Step(g, m, u, v)
    ensures lev(v) == lev(u) + 1
  {
    FlipAllIsMatching(g, m, ps);
    var e := EdgeOf(u, v);
    assert e in m <==> e !in FlipAll(m, ps);
    if e in m {
      var x := if OnSome(ps, Eq(e.0)) then Eq(e.0) else Var(e.1);
      var s, t := OddEdge(g, m, ps, e, x);
      PathLevel(g, m, n, k, lev, ps, s, t);
    } else {
      assert FlippedAllAt(m, ps, e);
      var s, t := EvenEdgePosition(g, m, ps, e);
      PathLevel(g, m, n, k, lev, ps, s, t);
    }
  }

  /** After augmenting, a vertex of one of the paths is matched by an edge of the path that was not matched before. */
  lemma MateOnPath(g: set<Edge>, m: set<Edge>, ps: seq<seq<Vertex>>, e: Edge, x: Vertex)
    requires m <= g && IsMatching(m) && AllAugmenting(g, m, ps) && PairwiseDisjoint(ps)
    requires OnSome(ps, x) && e in FlipAll(m, ps) && Touches(e, x)
    ensures EvenEdgeOf(ps, e)
  {
    FlipAllIsMatching(g, m, ps);
    assert FlippedAllAt(m, ps, e);
  }

  lemma GentleAfterFlip(g: set<Edge>, m: set<Edge>, n: nat, k: nat, lev: Vertex -> nat, ps: seq<seq<Vertex>>,
                        q: seq<Vertex>)
    requires m <= g && IsMatching(m) && InRange(g, n) && Levels(g, m, n, k, lev) && DisjointPaths(g, m, k, ps)
    requires Augmenting(g, FlipAll(m, ps), q)
    ensures Gentle(q, lev) && k <= lev(q[0]) && lev(q[|q| - 1]) == 0 && |q| >= k + 1
  {
    var m' := FlipAll(m, ps);
    FlipAllIsMatching(g, m, ps);
    EndsInRange(g, m', n, q);
    forall t | 0 <= t < |q| - 1 ensures lev(q[t]) <= lev(q[t + 1]) + 1 {
      assert StepAt(g, m', q, t);
      if !Step(g, m, q[t], q[t + 1]) { NewStepClimbs(g, m, n, k, lev, ps, q[t], q[t + 1]); }
    }
    GentleDrop(q, lev, 0, |q| - 1);
  }

  /** Hopcroft and Karp: after a maximal set of shortest paths, every augmenting path is longer. */
  lemma NextPhaseIsLonger(g: set<Edge>, m: set<Edge>, n: nat, k: nat, lev: Vertex -> nat, ps: seq<seq<Vertex>>,
                          q: seq<Vertex>)
    requires m <= g && IsMatching(m) && InRange(g, n) && Levels(g, m, n, k, lev) && MaximalPhase(g, m, k, ps)
    requires Augmenting(g, FlipAll(m, ps), q)
    ensures |q| > k + 1
  {
    hide IsMatching, InRange, Levels, FlipAll, Augmenting;
    GentleAfterFlip(g, m, n, k, lev, ps, q);
    if |q| == k + 1 {
      TightIsOld(g, m, n, k, lev, ps, q);
      var x :| x in q && OnSome(ps, x);
      TightMissesPaths(g, m, n, k, lev, ps, q, x);
    }
  }

  lemma TightIsOld(g: set<Edge>, m: set<Edge>, n: nat, k: nat, lev: Vertex -> nat, ps: seq<seq<Vertex>>, q: seq<Vertex>)
    requires m <= g && IsMatching(m) && InRange(g, n) && Levels(g, m, n, k, lev) && DisjointPaths(g, m, k, ps)
    requires Augmenting(g, FlipAll(m, ps), q) && |q| == k + 1
    requires Gentle(q, lev) && k <= lev(q[0]) && lev(q[k]) == 0
    ensures Augmenting(g, m, q)
  {
    FlipAllIsMatching(g, m, ps);
    forall t | 0 <= t < |q| - 1 ensures StepAt(g, m, q, t) {
      assert StepAt(g, FlipAll(m, ps), q, t);
      TightWalk(q, lev, k, t);
      TightWalk(q, lev, k, t + 1);
      if !Step(g, m, q[t], q[t + 1]) { NewStepClimbs(g, m, n, k, lev, ps, q[t], q[t + 1]); }
    }
  }

  /** A vertex of an augmenting path that is not free has its matched edge on the path, after its equation. */
  lemma MatedOnPath(g: set<Edge>, m: set<Edge>, q: seq<Vertex>, x: Vertex) returns (a: nat, e: Edge)
    requires Augmenting(g, m, q) && x in q && !Free(m, x)
    ensures a < |q| - 1 && q[a] == Eq(e.0) && q[a + 1] == Var(e.1) && e in m && Touches(e, x)
  {
    hide Free, NoRepeats;
    AllKindsAlternate(g, m, q);
    var t :| 0 <= t < |q| && q[t] == x;
    a := if t % 2 == 0 then t - 1 else t;
    assert StepAt(g, m, q, a);
    e := PathEdge(q, a);
  }

  /** After augmenting, the vertices of the paths are matched. */
  lemma NotFreeAfterFlip(g: set<Edge>, m: set<Edge>, ps: seq<seq<Vertex>>, x: Vertex)
    requires m <= g && IsMatching(m) && AllAugmenting(g, m, ps) && PairwiseDisjoint(ps) && OnSome(ps, x) && Real(x)
    ensures !Free(FlipAll(m, ps), x)
  {
    hide IsMatching, AllAugmenting, PairwiseDisjoint, FlipAll, Free, OnSome, FlippedAllAt;
    FlipAllIsMatching(g, m, ps);
  }

  lemma TightMissesPaths(g: set<Edge>, m: set<Edge>, n: nat, k: nat, lev: Vertex -> nat, ps: seq<seq<Vertex>>,
                         q: seq<Vertex>, x: Vertex)
    requires m <= g && IsMatching(m) && InRange(g, n) && Levels(g, m, n, k, lev) && DisjointPaths(g, m, k, ps)
    requires Augmenting(g, FlipAll(m, ps), q) && |q| == k + 1
    requires Gentle(q, lev) && k <= lev(q[0]) && lev(q[k]) == 0 && x in q
    ensures !OnSome(ps, x)
  {
    hide IsMatching, InRange, Levels, FlipAll, Gentle, AllAugmenting, PairwiseDisjoint, OnSome, EvenEdgeOf, Free,
         Alternates, NoRepeats;
    if OnSome(ps, x) {
      RealOnPath(g, FlipAll(m, ps), q, x);
      NotFreeAfterFlip(g, m, ps, x);
      var a, e := MatedOnPath(g, FlipAll(m, ps), q, x);
      MateOnPath(g, m, ps, e, x);
      var s, r := EvenEdgePosition(g, m, ps, e);
      PathLevel(g, m, n, k, lev, ps, s, r);
      TightWalk(q, lev, k, a);
      TightWalk(q, lev, k, a + 1);
    }
  }

  lemma RealOnPath(g: set<Edge>, m: set<Edge>, q: seq<Vertex>, x: Vertex)
    requires Augmenting(g, m, q) && x in q
    ensures Real(x)
  {
    hide Free, NoRepeats;
    AllKindsAlternate(g, m, q);
  }

  // ----- Hall's condition -----

  /** The equations rs mention variables of vs only, and vs has fewer elements. */
  ghost predicate HallViolator(g: set<Edge>, n: nat, rs: set<nat>, vs: set<nat>) {
    && (forall i :: i in rs ==> i < n)
    && (forall e :: e in g && e.0 in rs ==> e.1 in vs)
    && |vs| < |rs|
  }

  lemma {:induction false} InjectionSize(a: set<nat>, b: set<nat>, f: nat -> nat)
    requires forall x :: x in a ==> f(x) in b
    requires forall x, y :: x in a && y in a && f(x) == f(y) ==> x == y
    ensures |a| <= |b|
    decreases |a|
  {
    if x :| x in a {
      InjectionSize(a - {x}, b - {f(x)}, f);
    }
  }

  ghost function MateOfEq(m: set<Edge>, i: nat): nat {
    if e :| e in m && e.0 == i then e.1 else 0
  }

  lemma HallViolatorExcludesPerfect(g: set<Edge>, n: nat, rs: set<nat>, vs: set<nat>, m: set<Edge>)
    requires HallViolator(g, n, rs, vs)
    ensures !Perfect(g, m, n)
  {
    if Perfect(g, m, n) {
      forall i | i in rs ensures MateOfEq(m, i) in vs && (i, MateOfEq(m, i)) in m {
        assert !Free(m, Eq(i));
        var e :| e in m && Touches(e, Eq(i));
      }
      InjectionSize(rs, vs, i => MateOfEq(m, i));
    }
  }
}
