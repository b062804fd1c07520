/** Reachability in a directed graph, and strongly connected components. */
module Digraphs {
  import opened Lists

  /** (from, to) */
  type DiArc = (nat, nat)

  ghost predicate Walk(arcs: set<DiArc>, p: seq<nat>) {
    p != [] && forall t :: 0 <= t < |p| - 1 ==> ArcAt(arcs, p, t)
  }

  ghost predicate ArcAt(arcs: set<DiArc>, p: seq<nat>, t: int)
    requires 0 <= t < |p| - 1
  {
    (p[t], p[t + 1]) in arcs
  }

  ghost predicate Reach(arcs: set<DiArc>, u: nat, v: nat) {
    exists p :: Walk(arcs, p) && p[0] == u && p[|p| - 1] == v
  }

  lemma ReachSelf(arcs: set<DiArc>, u: nat)
    ensures Reach(arcs, u, u)
  {
    assert Walk(arcs, [u]);
  }

  lemma ReachArc(arcs: set<DiArc>, u: nat, v: nat)
    requires (u, v) in arcs
    ensures Reach(arcs, u, v)
  {
    assert ArcAt(arcs, [u, v], 0);
    assert Walk(arcs, [u, v]);
  }

  lemma ReachTrans(arcs: set<DiArc>, u: nat, v: nat, w: nat)
    requires Reach(arcs, u, v) && Reach(arcs, v, w)
    ensures Reach(arcs, u, w)
  {
    var p :| Walk(arcs, p) && p[0] == u && p[|p| - 1] == v;
    var q :| Walk(arcs, q) && q[0] == v && q[|q| - 1] == w;
    var r := p + q[1..];
    forall t | 0 <= t < |r| - 1 ensures ArcAt(arcs, r, t) {
      if t < |p| - 1 {
        assert ArcAt(arcs, p, t);
      } else {
        assert ArcAt(arcs, q, t - (|p| - 1));
      }
    }
    assert r[0] == u && r[|r| - 1] == w;
  }

  /** No arc leaves s, so no walk does. */
  lemma {:induction false} ClosedUnderReach(arcs: set<DiArc>, s: set<nat>, u: nat, v: nat)
    requires forall a :: a in arcs && a.0 in s ==> a.1 in s
    requires u in s && Reach(arcs, u, v)
    ensures v in s
  {
    var p :| Walk(arcs, p) && p[0] == u && p[|p| - 1] == v;
    WalkStays(arcs, s, p, |p| - 1);
  }

  lemma {:induction false} WalkStays(arcs: set<DiArc>, s: set<nat>, p: seq<nat>, t: nat)
    requires forall a :: a in arcs && a.0 in s ==> a.1 in s
    requires Walk(arcs, p) && p[0] in s && t < |p|
    ensures p[t] in s
  {
    if t > 0 {
      WalkStays(arcs, s, p, t - 1);
      assert ArcAt(arcs, p, t - 1);
    }
  }

  // ----- Components in an order -----

  ghost predicate InComp(comps: seq<seq<nat>>, c: int, v: nat) {
    0 <= c < |comps| && v in comps[c]
  }

  ghost predicate Placed(comps: seq<seq<nat>>, v: nat) {
    exists c :: InComp(comps, c, v)
  }

  ghost predicate PlacedUpTo(comps: seq<seq<nat>>, c: int, v: nat) {
    exists d :: d <= c && InComp(comps, d, v)
  }

  /** Arcs from a component lead to the same component or an earlier one. */
  ghost predicate Ordered(arcs: set<DiArc>, comps: seq<seq<nat>>) {
    forall a, c :: a in arcs && InComp(comps, c, a.0) ==> PlacedUpTo(comps, c, a.1)
  }

  ghost predicate PartsDisjoint(comps: seq<seq<nat>>) {
    && (forall c, d, v :: InComp(comps, c, v) && InComp(comps, d, v) ==> c == d)
    && (forall c :: 0 <= c < |comps| ==> comps[c] != [] && NoRepeats(comps[c]))
  }

  ghost predicate Strong(arcs: set<DiArc>, comps: seq<seq<nat>>) {
    forall c, u, v :: InComp(comps, c, u) && InComp(comps, c, v) ==> Reach(arcs, u, v)
  }

  /** comps are the strongly connected components of the vertices 0..n-1: they partition them, and
      two vertices share one exactly when each reaches the other. */
  ghost predicate AreComponents(arcs: set<DiArc>, n: nat, comps: seq<seq<nat>>) {
    && PartsDisjoint(comps)
    && (forall v: nat :: Placed(comps, v) <==> v < n)
    && (forall c, d, u, v :: InComp(comps, c, u) && InComp(comps, d, v) ==>
          (c == d <==> Reach(arcs, u, v) && Reach(arcs, v, u)))
  }

  /** Reaching goes to earlier components only. */
  lemma ReachGoesBack(arcs: set<DiArc>, comps: seq<seq<nat>>, c: int, u: nat, v: nat)
    requires Ordered(arcs, comps) && InComp(comps, c, u) && Reach(arcs, u, v)
    ensures PlacedUpTo(comps, c, v)
  {
    var p :| Walk(arcs, p) && p[0] == u && p[|p| - 1] == v;
    WalkGoesBack(arcs, comps, c, p, |p| - 1);
  }

  lemma {:induction false} WalkGoesBack(arcs: set<DiArc>, comps: seq<seq<nat>>, c: int, p: seq<nat>, t: nat)
    requires Ordered(arcs, comps) && Walk(arcs, p) && InComp(comps, c, p[0]) && t < |p|
    ensures PlacedUpTo(comps, c, p[t])
  {
    if t > 0 {
      WalkGoesBack(arcs, comps, c, p, t - 1);
      var d :| d <= c && InComp(comps, d, p[t - 1]);
      assert ArcAt(arcs, p, t - 1);
      assert PlacedUpTo(comps, d, p[t]);
    }
  }

  /** An ordered partition into strongly connected parts is the partition into components. */
  lemma OrderedStrongPartsAreComponents(arcs: set<DiArc>, n: nat, comps: seq<seq<nat>>)
    requires PartsDisjoint(comps) && Ordered(arcs, comps) && Strong(arcs, comps)
    requires forall v: nat :: Placed(comps, v) <==> v < n
    ensures AreComponents(arcs, n, comps)
  {
    forall c, d, u, v | InComp(comps, c, u) && InComp(comps, d, v) && Reach(arcs, u, v) && Reach(arcs, v, u)
      ensures c == d
    {
      ReachGoesBack(arcs, comps, c, u, v);
      ReachGoesBack(arcs, comps, d, v, u);
    }
  }
}
