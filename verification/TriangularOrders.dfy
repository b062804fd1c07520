/**
 When the equations of a system can be put in an order in which each determines its own variable from
 earlier ones: exactly when every strongly connected component of the matched digraph is one vertex.
 */
module TriangularOrders {
  import opened Lists
  import opened Matchings
  import opened Digraphs
  import opened BlockOrder

  /** m gives every equation a variable of its own, and rank orders the equations such that an equation
      mentions, besides its own, only variables of equations of lower rank. */
  ghost predicate IsOrder(g: set<Edge>, m: set<Edge>, n: nat, rank: nat -> nat) {
    && Perfect(g, m, n)
    && (forall i: nat, k: nat :: i < n && k < n && rank(i) == rank(k) ==> i == k)
    && (forall e, f :: e in g && f in m && e.1 == f.1 && e.0 != f.0 ==> rank(f.0) < rank(e.0))
  }

  ghost predicate CanBeOrdered(g: set<Edge>, n: nat) {
    exists m: set<Edge>, rank: nat -> nat :: IsOrder(g, m, n, rank)
  }

  lemma MateOf(m: set<Edge>, n: nat, i: nat) returns (e: Edge)
    requires CoversEquations(m, n) && i < n
    ensures e in m && e.0 == i
  {
    assert !Free(m, Eq(i));
    e :| e in m && Touches(e, Eq(i));
  }

  lemma OwnerOf(g: set<Edge>, m: set<Edge>, n: nat, j: nat) returns (e: Edge)
    requires Perfect(g, m, n) && InRange(g, n) && j < n
    ensures e in m && e.1 == j
  {
    var list := EdgesOfMates(g, m, n, n);
    assert Set(list) <= m;
    if j !in Map(list, VarIndex) {
      var vs := Map(list, VarIndex);
      forall s, t | 0 <= s < t < |vs| ensures vs[s] != vs[t] {
        assert list[s] in m && list[t] in m && list[s].0 != list[t].0;
      }
      forall v | v in vs ensures v < n {
        var k :| 0 <= k < |vs| && vs[k] == v;
        assert list[k] in g;
      }
      Exhausts(vs, n, j);
    }
    var k :| 0 <= k < |list| && Map(list, VarIndex)[k] == j;
    e := list[k];
  }

  /** The edges of m at the equations 0, ..., k-1. */
  lemma {:induction false} EdgesOfMates(g: set<Edge>, m: set<Edge>, n: nat, k: nat) returns (list: seq<Edge>)
    requires Perfect(g, m, n) && k <= n
    ensures |list| == k && forall i :: 0 <= i < k ==> list[i] in m && list[i].0 == i
  {
    list := [];
    if k > 0 {
      list := EdgesOfMates(g, m, n, k - 1);
      var e := MateOf(m, n, k - 1);
      list := list + [e];
    }
  }

  /** Every perfect matching is the one of the order: by induction on the rank. */
  lemma {:induction false} OrderIsTheMatching(g: set<Edge>, m: set<Edge>, n: nat, rank: nat -> nat, other: set<Edge>,
                                              e: Edge)
    requires IsOrder(g, m, n, rank) && Perfect(g, other, n) && InRange(g, n) && e in other
    ensures e in m
    decreases rank(e.0)
  {
    assert e in g;
    var f := OwnerOf(g, m, n, e.1);
    if f.0 != e.0 {
      assert f in g;
      var h := MateOf(other, n, f.0);
      OrderIsTheMatching(g, m, n, rank, other, h);
    }
  }

  lemma OrderedMatching(g: set<Edge>, m: set<Edge>, n: nat, rank: nat -> nat, other: set<Edge>)
    requires IsOrder(g, m, n, rank) && Perfect(g, other, n) && InRange(g, n)
    ensures m == other
  {
    forall e | e in other ensures e in m { OrderIsTheMatching(g, m, n, rank, other, e); }
    forall e | e in m ensures e in other {
      assert e in g;
      var f := MateOf(other, n, e.0);
      assert f in m;
    }
  }

  ghost function RankOf(matches: seq<Edge>, rank: nat -> nat, k: nat): nat {
    if k < |matches| then rank(matches[k].0) else 0
  }

  lemma {:induction false} WalkDescends(edges: seq<Edge>, matches: seq<Edge>, n: nat, m: set<Edge>, rank: nat -> nat,
                                        p: seq<nat>, t: nat)
    requires IsOrder(Set(edges), m, n, rank) && Perfect(Set(edges), Set(matches), n) && InRange(Set(edges), n)
    requires Walk(ArcsOf(edges, matches), p) && t < |p|
    ensures RankOf(matches, rank, p[t]) <= RankOf(matches, rank, p[0])
    ensures p[t] != p[0] ==> RankOf(matches, rank, p[t]) < RankOf(matches, rank, p[0])
  {
    if t > 0 {
      WalkDescends(edges, matches, n, m, rank, p, t - 1);
      assert ArcAt(ArcsOf(edges, matches), p, t - 1);
      ArcDescends(edges, matches, n, m, rank, p[t - 1], p[t]);
    }
  }

  lemma ArcDescends(edges: seq<Edge>, matches: seq<Edge>, n: nat, m: set<Edge>, rank: nat -> nat, k: nat, l: nat)
    requires IsOrder(Set(edges), m, n, rank) && Perfect(Set(edges), Set(matches), n) && InRange(Set(edges), n)
    requires (k, l) in ArcsOf(edges, matches)
    ensures RankOf(matches, rank, l) < RankOf(matches, rank, k)
  {
    assert IsMatchedArc(edges, matches, (k, l));
    var e, f := (matches[k].0, matches[l].1), matches[l];
    assert f in Set(matches) && matches[k] in Set(matches) && e in Set(edges);
    OrderIsTheMatching(Set(edges), m, n, rank, Set(matches), f);
  }

  /** With an order, every component is one vertex. */
  lemma OrderMakesScalar(edges: seq<Edge>, matches: seq<Edge>, n: nat, m: set<Edge>, rank: nat -> nat,
                         parts: seq<seq<nat>>, c: nat)
    requires IsOrder(Set(edges), m, n, rank) && Perfect(Set(edges), Set(matches), n) && InRange(Set(edges), n)
    requires AreComponents(ArcsOf(edges, matches), n, parts) && c < |parts|
    ensures |parts[c]| == 1
  {
    hide IsOrder, Perfect, ArcsOf;
    if |parts[c]| > 1 {
      var arcs, u, v := ArcsOf(edges, matches), parts[c][0], parts[c][1];
      assert InComp(parts, c, u) && InComp(parts, c, v) && u != v;
      var p :| Walk(arcs, p) && p[0] == u && p[|p| - 1] == v;
      var q :| Walk(arcs, q) && q[0] == v && q[|q| - 1] == u;
      WalkDescends(edges, matches, n, m, rank, p, |p| - 1);
      WalkDescends(edges, matches, n, m, rank, q, |q| - 1);
    }
  }

  lemma {:induction false} ScalarParts<T>(parts: seq<seq<T>>)
    requires forall c :: 0 <= c < |parts| ==> |parts[c]| == 1
    ensures |Flatten(parts)| == |parts|
    ensures forall c :: 0 <= c < |parts| ==> Offset(parts, c) == c
  {
    if parts != [] {
      var init := parts[..|parts| - 1];
      ScalarParts(init);
      forall c | 0 <= c < |parts| ensures Offset(parts, c) == c {
        if c < |init| {
          assert parts[..c] == init[..c] && Offset(init, c) == c;
        } else {
          assert parts[..c] == init && |Flatten(init)| == |init|;
        }
      }
    }
  }

  /** With one vertex in every component, their numbers are an order. */
  lemma ScalarMakesOrder(edges: seq<Edge>, matches: seq<Edge>, n: nat, components: seq<seq<Edge>>, eqNumber: seq<nat>,
                         varNumber: seq<nat>)
    requires Perfect(Set(edges), Set(matches), n) && InRange(Set(edges), n) && BlockTriangular(edges, components)
    requires |Flatten(components)| == n && Set(Flatten(components)) == Set(matches)
    requires NumberedFrom(components, n, eqNumber, varNumber, 0) && forall c :: 0 <= c < |components| ==>
               |components[c]| == 1
    ensures CanBeOrdered(Set(edges), n)
  {
    hide BlockTriangular, NumberedFrom, Flatten;
    var rank: nat -> nat := (i: nat) => if i < |eqNumber| then eqNumber[i] else i;
    var m := Set(matches);
    forall i: nat, k: nat | i < n && k < n && rank(i) == rank(k) ensures i == k {
      var e := MateOf(m, n, i);
      var f := MateOf(m, n, k);
      var c := PlaceOf(edges, m, n, components, eqNumber, varNumber, e);
      var d := PlaceOf(edges, m, n, components, eqNumber, varNumber, f);
    }
    forall e, f | e in Set(edges) && f in m && e.1 == f.1 && e.0 != f.0 ensures rank(f.0) < rank(e.0) {
      var own := MateOf(m, n, e.0);
      var c := PlaceOf(edges, m, n, components, eqNumber, varNumber, own);
      var d := PlaceOf(edges, m, n, components, eqNumber, varNumber, f);
      assert At(components, c, 0) && At(components, d, 0);
      NotLater(edges, components, e, c, d);
      assert c != d;
    }
    assert IsOrder(Set(edges), m, n, rank);
  }

  lemma NotLater(edges: seq<Edge>, components: seq<seq<Edge>>, e: Edge, c: nat, d: nat)
    requires BlockTriangular(edges, components) && e in edges && At(components, c, 0) && At(components, d, 0)
    requires components[c][0].0 == e.0 && components[d][0].1 == e.1
    ensures d <= c
  {}

  lemma PlaceOf(edges: seq<Edge>, m: set<Edge>, n: nat, components: seq<seq<Edge>>, eqNumber: seq<nat>,
                varNumber: seq<nat>, e: Edge)
    returns (c: nat)
    requires |Flatten(components)| == n && Set(Flatten(components)) == m && e in m && e.0 < n
    requires NumberedFrom(components, n, eqNumber, varNumber, 0) && forall c :: 0 <= c < |components| ==>
               |components[c]| == 1
    ensures c < |components| && components[c][0] == e && |eqNumber| == n && eqNumber[e.0] == c
  {
    var f := Flatten(components);
    assert e in f;
    var p: nat :| p < |f| && f[p] == e;
    var k;
    c, k := PartOfPosition(components, p);
    FlattenPosition(components, c, k);
    ScalarParts(components);
  }
}
