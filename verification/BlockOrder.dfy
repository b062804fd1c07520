/** The order of the blocks of a block lower triangular form: numbering and its consequences. */
module BlockOrder {
  import opened Lists
  import opened Matchings
  import opened Digraphs

  /** cumidx: the number of vertices before part c. */
  function Offset<T>(parts: seq<seq<T>>, c: nat): nat
    requires c <= |parts|
  {
    |Flatten(parts[..c])|
  }

  lemma {:induction false} FlattenPosition<T>(parts: seq<seq<T>>, c: nat, k: nat)
    requires c < |parts| && k < |parts[c]|
    ensures Offset(parts, c) + k < |Flatten(parts)| && Flatten(parts)[Offset(parts, c) + k] == parts[c][k]
    ensures Offset(parts, c) + |parts[c]| == Offset(parts, c + 1) <= |Flatten(parts)|
  {
    var last := |parts| - 1;
    assert parts[..c + 1][..c] == parts[..c];
    if c < last {
      FlattenPosition(parts[..last], c, k);
      assert parts[..last][..c] == parts[..c] && parts[..last][..c + 1] == parts[..c + 1];
    } else {
      assert parts[..c + 1] == parts;
    }
  }

  lemma NothingBefore<T>(parts: seq<seq<T>>)
    ensures Offset(parts, 0) == 0
    ensures forall c :: 0 <= c < |parts| ==> Offset(parts, c + 1) == Offset(parts, c) + |parts[c]|
  {
    forall c | 0 <= c < |parts| ensures Offset(parts, c + 1) == Offset(parts, c) + |parts[c]| {
      assert parts[..c + 1][..c] == parts[..c];
    }
  }

  lemma {:induction false} OffsetsGrow<T>(parts: seq<seq<T>>, c: nat, d: nat)
    requires c <= d <= |parts|
    ensures Offset(parts, c) <= Offset(parts, d)
    decreases d - c
  {
    if c < d {
      assert parts[..c + 1][..c] == parts[..c];
      OffsetsGrow(parts, c + 1, d);
    }
  }

  lemma {:induction false} PartOfPosition<T>(parts: seq<seq<T>>, p: nat) returns (c: nat, k: nat)
    requires p < |Flatten(parts)|
    ensures c < |parts| && k < |parts[c]| && Offset(parts, c) + k == p
  {
    var last := |parts| - 1;
    var init := parts[..last];
    if p < |Flatten(init)| {
      c, k := PartOfPosition(init, p);
      assert init[..c] == parts[..c];
    } else {
      c, k := last, p - |Flatten(init)|;
    }
  }

  lemma InFlatten(parts: seq<seq<nat>>, v: nat)
    ensures v in Flatten(parts) <==> Placed(parts, v)
  {
    if v in Flatten(parts) {
      var p :| 0 <= p < |Flatten(parts)| && Flatten(parts)[p] == v;
      var c, k := PartOfPosition(parts, p);
      FlattenPosition(parts, c, k);
      assert InComp(parts, c, v);
    }
    if c :| InComp(parts, c, v) {
      var k :| 0 <= k < |parts[c]| && parts[c][k] == v;
      FlattenPosition(parts, c, k);
    }
  }

  /** Positions before, in and after part d. */
  lemma PositionInPart<T>(parts: seq<seq<T>>, c: nat, k: nat, d: nat)
    requires c < |parts| && k < |parts[c]| && d < |parts|
    ensures Offset(parts, c) + k >= Offset(parts, d) + |parts[d]| <==> c > d
  {
    FlattenPosition(parts, c, k);
    assert parts[..d + 1][..d] == parts[..d];
    if c > d {
      OffsetsGrow(parts, d + 1, c);
    } else {
      OffsetsGrow(parts, c + 1, d + 1);
    }
  }

  lemma FlattenNoRepeats(parts: seq<seq<nat>>)
    requires PartsDisjoint(parts)
    ensures NoRepeats(Flatten(parts))
  {
    var f := Flatten(parts);
    forall p, q | 0 <= p < q < |f| ensures f[p] != f[q] {
      var c, k := PartOfPosition(parts, p);
      var d, l := PartOfPosition(parts, q);
      FlattenPosition(parts, c, k);
      FlattenPosition(parts, d, l);
      assert InComp(parts, c, f[p]) && InComp(parts, d, f[q]);
    }
  }

  /** A list of 0..n-1 without repeats has n elements. */
  lemma {:induction false} CountsTo(xs: seq<nat>, n: nat)
    requires NoRepeats(xs) && forall v: nat :: v in xs <==> v < n
    ensures |xs| == n
  {
    if n == 0 {
      assert forall k :: 0 <= k < |xs| ==> xs[k] in xs;
    } else {
      var top: nat := n - 1;
      assert top in xs;
      var k :| 0 <= k < |xs| && xs[k] == top;
      var ys := xs[..k] + xs[k + 1..];
      forall v: nat ensures v in ys <==> v < n - 1 {
        if v in xs && v != n - 1 {
          var j :| 0 <= j < |xs| && xs[j] == v;
          assert ys[if j < k then j else j - 1] == v;
        }
      }
      CountsTo(ys, n - 1);
    }
  }

  lemma ComponentsCount(arcs: set<DiArc>, n: nat, parts: seq<seq<nat>>)
    requires AreComponents(arcs, n, parts)
    ensures |Flatten(parts)| == n && NoRepeats(Flatten(parts)) && forall v: nat :: v in Flatten(parts) <==> v < n
  {
    FlattenNoRepeats(parts);
    forall v: nat ensures v in Flatten(parts) <==> v < n { InFlatten(parts, v); }
    CountsTo(Flatten(parts), n);
  }

  lemma {:induction false} AtMost(xs: seq<nat>, n: nat)
    requires NoRepeats(xs) && forall v :: v in xs ==> v < n
    ensures |xs| <= n
  {
    if xs != [] {
      var x := xs[0];
      assert x in xs;
      var top: nat := n - 1;
      if k :| 0 <= k < |xs| && xs[k] == top {
        var ys := xs[..k] + xs[k + 1..];
        forall v: nat | v in ys ensures v < n - 1 {
          var j :| 0 <= j < |ys| && ys[j] == v;
          var i := if j < k then j else j + 1;
          assert v == xs[i] && xs[i] in xs && xs[i] != xs[k];
        }
        AtMost(ys, n - 1);
      } else {
        AtMost(xs, n - 1);
      }
    }
  }

  /** n different numbers below n are all of them. */
  lemma Exhausts(xs: seq<nat>, n: nat, v: nat)
    requires NoRepeats(xs) && |xs| == n && (forall x :: x in xs ==> x < n) && v < n
    ensures v in xs
  {
    if v !in xs { AtMost(xs + [v], n); }
  }

  // ----- Matched pairs as vertices -----

  function EqIndex(e: Edge): nat {
    e.0
  }

  function VarIndex(e: Edge): nat {
    e.1
  }

  lemma MapNoRepeats(matches: seq<Edge>)
    requires NoRepeats(matches) && IsMatching(Set(matches))
    ensures NoRepeats(Map(matches, EqIndex)) && NoRepeats(Map(matches, VarIndex))
  {
    forall s, t | 0 <= s < t < |matches| ensures matches[s].0 != matches[t].0 && matches[s].1 != matches[t].1 {
      assert matches[s] in matches && matches[t] in matches;
    }
  }

  /** A perfect matching has n edges and matches every equation and every variable once. */
  lemma PerfectMatchesAll(g: set<Edge>, matches: seq<Edge>, n: nat)
    requires NoRepeats(matches) && Perfect(g, Set(matches), n) && InRange(g, n)
    ensures |matches| == n
    ensures forall v: nat :: v < n ==> v in Map(matches, EqIndex) && v in Map(matches, VarIndex)
  {
    var m := Set(matches);
    var es, vs := Map(matches, EqIndex), Map(matches, VarIndex);
    MapNoRepeats(matches);
    forall i: nat ensures i in es <==> i < n {
      if i in es {
        var k :| 0 <= k < |es| && es[k] == i;
        assert matches[k] in m;
      }
      if i < n {
        assert !Free(m, Eq(i));
        var e :| e in m && Touches(e, Eq(i));
        var k :| 0 <= k < |matches| && matches[k] == e;
        assert es[k] == i;
      }
    }
    CountsTo(es, n);
    forall v: nat | v < n ensures v in vs {
      forall x | x in vs ensures x < n {
        var k :| 0 <= k < |vs| && vs[k] == x;
        assert matches[k] in m;
      }
      Exhausts(vs, n, v);
    }
  }

  /** The arcs between matched pairs: from the pair of an equation to the pairs of the other
      variables it mentions. */
  ghost predicate IsMatchedArc(edges: seq<Edge>, matches: seq<Edge>, a: DiArc) {
    && a.0 < |matches| && a.1 < |matches|
    && (matches[a.0].0, matches[a.1].1) in edges && (matches[a.0].0, matches[a.1].1) !in matches
  }

  /** The pairs at the given positions. */
  function Pairs(matches: seq<Edge>, part: seq<nat>): seq<Edge>
    requires forall k: nat :: k in part ==> k < |matches|
  {
    seq(|part|, i requires 0 <= i < |part| => assert part[i] in part; matches[part[i]])
  }

  ghost predicate ComponentsOf(matches: seq<Edge>, parts: seq<seq<nat>>, components: seq<seq<Edge>>) {
    && |components| == |parts|
    && (forall k: nat :: k in Flatten(parts) ==> k < |matches|)
    && Flatten(components) == Pairs(matches, Flatten(parts))
    && forall c :: 0 <= c < |parts| ==> |components[c]| == |parts[c]|
  }

  lemma {:induction false} PairsOfFlatten(matches: seq<Edge>, parts: seq<seq<nat>>, components: seq<seq<Edge>>)
    requires |components| == |parts|
    requires forall c, k: nat :: InComp(parts, c, k) ==> k < |matches|
    requires forall c :: 0 <= c < |parts| ==>
               (forall k: nat :: k in parts[c] ==> k < |matches|) && components[c] == Pairs(matches, parts[c])
    ensures ComponentsOf(matches, parts, components)
  {
    if parts != [] {
      var p, c := parts[..|parts| - 1], components[..|parts| - 1];
      forall d, k: nat | InComp(p, d, k) ensures k < |matches| { assert InComp(parts, d, k); }
      PairsOfFlatten(matches, p, c);
      forall k: nat | k in Flatten(parts) ensures k < |matches| {}
      assert Flatten(components) == Pairs(matches, Flatten(parts));
    }
  }

  /** Position p of the blocks has the equation and the variable numbered p, counted from base. */
  ghost predicate NumberedFrom(components: seq<seq<Edge>>, n: nat, eqNumber: seq<nat>, varNumber: seq<nat>, base: nat) {
    && |eqNumber| == n && |varNumber| == n
    && forall p {:trigger Flatten(components)[p]} :: 0 <= p < |Flatten(components)| ==>
         var e := Flatten(components)[p];
         e.0 < n && e.1 < n && eqNumber[e.0] == base + p && varNumber[e.1] == base + p
  }

  /** Block lower triangular form: no equation mentions a variable of a later block. */
  ghost predicate BlockTriangular(edges: seq<Edge>, components: seq<seq<Edge>>) {
    forall e, c, k, d, l ::
      (e in edges && At(components, c, k) && At(components, d, l)
       && components[c][k].0 == e.0 && components[d][l].1 == e.1) ==> d <= c
  }

  ghost predicate At<T>(components: seq<seq<T>>, c: int, k: int) {
    0 <= c < |components| && 0 <= k < |components[c]|
  }

  ghost function ArcsOf(edges: seq<Edge>, matches: seq<Edge>): set<DiArc> {
    set i, k | 0 <= i < |matches| && 0 <= k < |matches| && IsMatchedArc(edges, matches, (i, k)) :: (i, k)
  }

  /** components are the strongly connected components of the digraph of matched pairs. */
  ghost predicate MatchedComponents(edges: seq<Edge>, matches: seq<Edge>, n: nat, parts: seq<seq<nat>>,
                                    components: seq<seq<Edge>>)
  {
    AreComponents(ArcsOf(edges, matches), n, parts) && ComponentsOf(matches, parts, components)
  }

  /** A pair in a block is the pair of a vertex in the part. */
  lemma PairOfPart(matches: seq<Edge>, parts: seq<seq<nat>>, components: seq<seq<Edge>>, c: nat, k: nat)
    requires ComponentsOf(matches, parts, components) && At(components, c, k)
    ensures At(parts, c, k) && parts[c][k] < |matches| && components[c][k] == matches[parts[c][k]]
    ensures InComp(parts, c, parts[c][k])
  {
    FlattenPosition(parts, c, k);
    FlattenPosition(components, c, k);
    SameOffsets(parts, components, c);
    assert Flatten(parts)[Offset(parts, c) + k] in Flatten(parts);
  }

  lemma {:induction false} SameOffsets<S, T>(a: seq<seq<S>>, b: seq<seq<T>>, c: nat)
    requires |a| == |b| && c <= |a| && forall d :: 0 <= d < |a| ==> |a[d]| == |b[d]|
    ensures Offset(a, c) == Offset(b, c)
  {
    if c > 0 {
      SameOffsets(a, b, c - 1);
      assert a[..c][..c - 1] == a[..c - 1] && b[..c][..c - 1] == b[..c - 1];
    }
  }

  lemma ComponentsAreTriangular(edges: seq<Edge>, matches: seq<Edge>, n: nat, parts: seq<seq<nat>>,
                                components: seq<seq<Edge>>)
    requires NoRepeats(matches) && IsMatching(Set(matches)) && ComponentsOf(matches, parts, components)
    requires Ordered(ArcsOf(edges, matches), parts) && PartsDisjoint(parts)
    ensures BlockTriangular(edges, components)
  {
    forall e, c, k, d, l | e in edges && At(components, c, k) && At(components, d, l)
        && components[c][k].0 == e.0 && components[d][l].1 == e.1
      ensures d <= c
    {
      PairOfPart(matches, parts, components, c, k);
      PairOfPart(matches, parts, components, d, l);
      var i, j := parts[c][k], parts[d][l];
      if e in matches {
        assert matches[i] in matches && matches[j] in matches;
        assert matches[i] == e && matches[j] == e;
        assert i == j;
      } else {
        assert IsMatchedArc(edges, matches, (i, j));
        assert (i, j) in ArcsOf(edges, matches);
        assert PlacedUpTo(parts, c, j);
      }
    }
  }

  /** The blocks hold every matched pair once. */
  lemma BlocksHoldMatches(edges: seq<Edge>, matches: seq<Edge>, n: nat, parts: seq<seq<nat>>,
                          components: seq<seq<Edge>>)
    requires |matches| == n && NoRepeats(matches) && MatchedComponents(edges, matches, n, parts, components)
    ensures |Flatten(components)| == n && NoRepeats(Flatten(components)) && Set(Flatten(components)) == Set(matches)
  {
    var f, p := Flatten(components), Flatten(parts);
    ComponentsCount(ArcsOf(edges, matches), n, parts);
    forall s, t | 0 <= s < t < |f| ensures f[s] != f[t] {
      assert p[s] in p && p[t] in p;
    }
    forall e ensures e in f <==> e in matches {
      if e in f {
        var t :| 0 <= t < |f| && f[t] == e;
        assert p[t] in p;
      }
      if e in matches {
        var k: nat :| k < |matches| && matches[k] == e;
        assert k in p;
        var t :| 0 <= t < |p| && p[t] == k;
        assert f[t] == e;
      }
    }
  }

  /** An edge is marked unknown exactly when it lies strictly below the diagonal blocks. */
  lemma UnknownIsBelowDiagonal(components: seq<seq<Edge>>, n: nat, eqNumber: seq<nat>, varNumber: seq<nat>, c: nat,
                               k: nat, d: nat, l: nat, e: Edge)
    requires NumberedFrom(components, n, eqNumber, varNumber, 0) && At(components, c, k) && At(components, d, l)
    requires components[c][k].0 == e.0 && components[d][l].1 == e.1
    ensures e.0 < n && (eqNumber[e.0] >= Offset(components, d) + |components[d]| <==> c > d)
  {
    FlattenPosition(components, c, k);
    PositionInPart(components, c, k, d);
    var p := Offset(components, c) + k;
    assert Flatten(components)[p].0 == e.0;
  }
}
