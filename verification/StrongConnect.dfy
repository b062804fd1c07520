/**
 BipartiteGraph._strong_connect of symbolic_elimination.py: Tarjan's algorithm on the digraph of a
 matching. Number 0 stands for None.
 */
module StrongConnect {
  import opened Lists
  import opened Digraphs

  datatype Search = Search(number: seq<nat>, lowlink: seq<nat>, stack: seq<nat>, comps: seq<seq<nat>>, i: nat)

  ghost predicate InGraph(arcs: set<DiArc>, n: nat) {
    forall a :: a in arcs ==> a.0 < n && a.1 < n
  }

  ghost predicate Numbered(s: Search, v: nat) {
    v < |s.number| && s.number[v] > 0
  }

  /** Numbers, stack and components fit together: the stack is ordered by number, and a vertex is
      numbered when it is on the stack or in a component, but not in both. */
  ghost predicate Consistent(n: nat, s: Search) {
    && |s.number| == n && |s.lowlink| == n
    && (forall v: nat :: v < n ==> s.number[v] <= s.i)
    && (forall k :: 0 <= k < |s.stack| ==> Numbered(s, s.stack[k]))
    && (forall j, k :: 0 <= j < k < |s.stack| ==> s.number[s.stack[j]] < s.number[s.stack[k]])
    && (forall v: nat :: Numbered(s, v) <==> v in s.stack || Placed(s.comps, v))
    && (forall v: nat :: v in s.stack ==> !Placed(s.comps, v))
    && PartsDisjoint(s.comps)
  }

  /** What is left of a vertex leads only to numbered vertices; the vertices being worked on are grey. */
  ghost predicate NoBlackToWhite(arcs: set<DiArc>, s: Search, grey: set<nat>) {
    forall a :: a in arcs && Numbered(s, a.0) && a.0 !in grey ==> Numbered(s, a.1)
  }

  ghost predicate StackReachesUp(arcs: set<DiArc>, s: Search) {
    forall j, k :: 0 <= j <= k < |s.stack| ==> Reach(arcs, s.stack[j], s.stack[k])
  }

  /** y reaches a grey vertex that is not above it. */
  ghost predicate ReachesDown(arcs: set<DiArc>, s: Search, grey: set<nat>, y: nat) {
    exists g :: g in grey && Numbered(s, g) && Numbered(s, y) && s.number[g] <= s.number[y] && Reach(arcs, y, g)
  }

  ghost predicate StackReachesDown(arcs: set<DiArc>, s: Search, grey: set<nat>) {
    forall y {:trigger ReachesDown(arcs, s, grey, y)} :: y in s.stack ==> ReachesDown(arcs, s, grey, y)
  }

  ghost predicate Invariant(arcs: set<DiArc>, n: nat, s: Search, grey: set<nat>) {
    && Consistent(n, s)
    && (forall g :: g in grey ==> g in s.stack)
    && NoBlackToWhite(arcs, s, grey)
    && StackReachesUp(arcs, s) && StackReachesDown(arcs, s, grey)
    && Ordered(arcs, s.comps) && Strong(arcs, s.comps)
  }

  /** s extends s0: numbers are kept, new ones are larger, the stack and the components only grow. */
  ghost predicate Extends(n: nat, s0: Search, s: Search) {
    && |s0.number| == n && |s.number| == n && |s0.lowlink| == n && |s.lowlink| == n
    && s0.i <= s.i
    && (forall v: nat :: Numbered(s0, v) ==> s.number[v] == s0.number[v] && s.lowlink[v] == s0.lowlink[v])
    && (forall v: nat :: Numbered(s, v) && !Numbered(s0, v) ==> s.number[v] > s0.i)
    && s0.stack <= s.stack && s0.comps <= s.comps
  }

  /** No arc from above position k of the stack leads to a vertex of `below` numbered under b. */
  ghost predicate ArcsBounded(arcs: set<DiArc>, s: Search, k: nat, below: seq<nat>, b: nat) {
    forall j, y :: k <= j < |s.stack| && y in below && (s.stack[j], y) in arcs ==> Numbered(s, y) && b <= s.number[y]
  }

  /** v reaches a vertex of the stack numbered b. */
  ghost predicate Witness(arcs: set<DiArc>, s: Search, stack: seq<nat>, v: nat, b: nat) {
    exists y :: y in stack && Numbered(s, y) && s.number[y] == b && Reach(arcs, v, y)
  }

  /** What a call for v has done: either v's component is complete, or v stays on the stack and
      reaches a vertex below it, the lowest its part of the stack leads to. */
  ghost predicate Connected(arcs: set<DiArc>, n: nat, s0: Search, s: Search, v: nat) {
    && Extends(n, s0, s) && v < n && Numbered(s, v)
    && s.lowlink[v] <= s.number[v]
    && (v !in s.stack ==> s.stack == s0.stack && s.lowlink[v] == s.number[v])
    && (v in s.stack ==> s.lowlink[v] < s.number[v] && Witness(arcs, s, s0.stack, v, s.lowlink[v]))
    && ArcsBounded(arcs, s, |s0.stack|, s0.stack, s.lowlink[v])
  }

  /** During the call for v, with the arcs `done` looked at. */
  ghost predicate Connecting(arcs: set<DiArc>, n: nat, s0: Search, s: Search, v: nat, grey: set<nat>,
                             done: seq<DiArc>)
  {
    && Invariant(arcs, n, s, grey + {v}) && Extends(n, s0, s) && v < n && !Numbered(s0, v) && v !in grey
    && s0.stack + [v] <= s.stack && s.number[v] == s0.i + 1
    && (forall g :: g in grey ==> g in s0.stack) && Consistent(n, s0)
    && s.lowlink[v] <= s.number[v]
    && Witness(arcs, s, s0.stack + [v], v, s.lowlink[v])
    && ArcsBounded(arcs, s, |s0.stack| + 1, s0.stack, s.lowlink[v])
    && (forall a :: a in done && a.0 == v ==> Numbered(s, a.1) && (a.1 in s0.stack ==> s.lowlink[v] <= s.number[a.1]))
  }

  lemma DownTo(arcs: set<DiArc>, s: Search, grey: set<nat>, y: nat) returns (g: nat)
    requires ReachesDown(arcs, s, grey, y)
    ensures g in grey && Numbered(s, g) && Numbered(s, y) && s.number[g] <= s.number[y] && Reach(arcs, y, g)
  {
    g :| g in grey && Numbered(s, g) && Numbered(s, y) && s.number[g] <= s.number[y] && Reach(arcs, y, g);
  }

  lemma DownBy(arcs: set<DiArc>, s: Search, grey: set<nat>, y: nat, g: nat)
    requires g in grey && Numbered(s, g) && Numbered(s, y) && s.number[g] <= s.number[y] && Reach(arcs, y, g)
    ensures ReachesDown(arcs, s, grey, y)
  {}

  // ----- Entering -----

  function Entered(s: Search, v: nat): Search
    requires v < |s.number| && v < |s.lowlink|
  {
    Search(s.number[v := s.i + 1], s.lowlink[v := s.i + 1], s.stack + [v], s.comps, s.i + 1)
  }

  lemma Enter(arcs: set<DiArc>, n: nat, s: Search, grey: set<nat>, v: nat)
    requires InGraph(arcs, n) && Invariant(arcs, n, s, grey) && v < n && !Numbered(s, v)
    requires forall g :: g in grey ==> Reach(arcs, g, v)
    ensures Connecting(arcs, n, s, Entered(s, v), v, grey, [])
  {
    hide StackReachesUp, StackReachesDown, Ordered, Strong, Reach, NoBlackToWhite, Extends, PartsDisjoint, Placed;
    var s' := Entered(s, v);
    EnterConsistent(arcs, n, s, grey, v);
    EnterReaches(arcs, n, s, grey, v);
    ReachSelf(arcs, v);
  }

  lemma EnterConsistent(arcs: set<DiArc>, n: nat, s: Search, grey: set<nat>, v: nat)
    requires Invariant(arcs, n, s, grey) && v < n && !Numbered(s, v)
    ensures Consistent(n, Entered(s, v)) && NoBlackToWhite(arcs, Entered(s, v), grey + {v})
    ensures Extends(n, s, Entered(s, v))
    ensures v !in s.stack
  {
    hide StackReachesUp, StackReachesDown, Ordered, Strong, Reach;
    var s' := Entered(s, v);
    assert v !in s.stack && !Placed(s.comps, v);
    forall w: nat ensures Numbered(s', w) <==> Numbered(s, w) || w == v {}
    assert s'.comps == s.comps;
  }

  lemma StackReachesNew(arcs: set<DiArc>, s: Search, grey: set<nat>, v: nat, y: nat)
    requires StackReachesDown(arcs, s, grey) && v < |s.number| && v < |s.lowlink| && !Numbered(s, v) && y in s.stack
    requires forall g :: g in grey ==> Reach(arcs, g, v)
    ensures Reach(arcs, y, v) && ReachesDown(arcs, Entered(s, v), grey + {v}, y)
  {
    hide Reach;
    var s' := Entered(s, v);
    assert ReachesDown(arcs, s, grey, y);
    var g :| g in grey && Numbered(s, g) && Numbered(s, y) && s.number[g] <= s.number[y] && Reach(arcs, y, g);
    ReachTrans(arcs, y, g, v);
    assert g in grey + {v} && Numbered(s', g) && Numbered(s', y) && s'.number[g] <= s'.number[y];
  }

  lemma EnterReaches(arcs: set<DiArc>, n: nat, s: Search, grey: set<nat>, v: nat)
    requires Invariant(arcs, n, s, grey) && v < n && !Numbered(s, v)
    requires forall g :: g in grey ==> Reach(arcs, g, v)
    ensures StackReachesUp(arcs, Entered(s, v)) && StackReachesDown(arcs, Entered(s, v), grey + {v})
  {
    hide Reach, StackReachesDown, NoBlackToWhite, Ordered, Strong, PartsDisjoint, Placed;
    var s' := Entered(s, v);
    ReachSelf(arcs, v);
    assert ReachesDown(arcs, s', grey + {v}, v) by {
      assert v in grey + {v} && Numbered(s', v) && s'.number[v] <= s'.number[v];
    }
    forall y | y in s.stack ensures Reach(arcs, y, v) && ReachesDown(arcs, s', grey + {v}, y) {
      StackReachesNew(arcs, s, grey, v, y);
    }
    AllReachDown(arcs, s', grey + {v});
    forall j, k | 0 <= j <= k < |s'.stack| ensures Reach(arcs, s'.stack[j], s'.stack[k]) {
      if k < |s.stack| { assert Reach(arcs, s.stack[j], s.stack[k]); }
      else if j < |s.stack| { assert s.stack[j] in s.stack; }
    }
  }

  lemma AllReachDown(arcs: set<DiArc>, s: Search, grey: set<nat>)
    requires forall y :: y in s.stack ==> ReachesDown(arcs, s, grey, y)
    ensures StackReachesDown(arcs, s, grey)
  {}

  // ----- Looking at one arc -----

  function Lowered(s: Search, v: nat, low: nat): Search
    requires v < |s.lowlink|
  {
    s.(lowlink := s.lowlink[v := low])
  }

  function Min(a: nat, b: nat): nat {
    if a < b then a else b
  }

  /** The lowlinks do not matter to the invariant. */
  lemma LowlinkIsFree(arcs: set<DiArc>, n: nat, s: Search, grey: set<nat>, v: nat, low: nat)
    requires Invariant(arcs, n, s, grey) && v < n
    ensures Invariant(arcs, n, Lowered(s, v, low), grey)
  {
    hide Reach, Ordered, Strong;
    var s' := Lowered(s, v, low);
    forall w: nat ensures Numbered(s', w) <==> Numbered(s, w) {}
    forall y | y in s'.stack ensures ReachesDown(arcs, s', grey, y) {
      assert ReachesDown(arcs, s, grey, y);
    }
  }

  /** An arc of another vertex is passed over. */
  lemma PassOver(arcs: set<DiArc>, n: nat, s0: Search, s: Search, v: nat, grey: set<nat>, done: seq<DiArc>, a: DiArc)
    requires Connecting(arcs, n, s0, s, v, grey, done) && a.0 != v
    ensures Connecting(arcs, n, s0, s, v, grey, done + [a])
  {
    hide Invariant, Extends, Witness, ArcsBounded, Consistent;
  }

  /** The vertices of the stack below v have smaller numbers than v, and only they do. */
  lemma BelowIsSmaller(arcs: set<DiArc>, n: nat, s0: Search, s: Search, v: nat, grey: set<nat>, done: seq<DiArc>,
                       w: nat)
    requires Connecting(arcs, n, s0, s, v, grey, done) && w in s.stack
    ensures Numbered(s, w) && (w in s0.stack <==> s.number[w] < s.number[v])
  {
    hide NoBlackToWhite, StackReachesUp, StackReachesDown, Ordered, Strong, Witness, ArcsBounded, PartsDisjoint;
    var k :| 0 <= k < |s.stack| && s.stack[k] == w;
    var d := |s0.stack|;
    assert s.stack[d] == v;
    forall j | 0 <= j < d ensures s0.stack[j] == s.stack[j] && s.number[s.stack[j]] < s.number[v] {
      assert s0.stack[j] == (s0.stack + [v])[j];
    }
  }

  lemma LowerBound(arcs: set<DiArc>, s: Search, below: seq<nat>, v: nat, w: nat, low: nat)
    requires v < |s.lowlink| && Witness(arcs, s, below + [v], v, s.lowlink[v])
    requires ArcsBounded(arcs, s, |below| + 1, below, s.lowlink[v])
    requires low == s.lowlink[v] || (low < s.lowlink[v] && w in below && Numbered(s, w) && s.number[w] == low &&
               Reach(arcs, v, w))
    ensures Witness(arcs, s, below + [v], v, low) && ArcsBounded(arcs, s, |below| + 1, below, low)
  {
    hide Reach;
    if low != s.lowlink[v] { assert w in below + [v]; }
  }

  /** An arc to a numbered vertex: a frond, a cross-link, or neither. */
  lemma LookAtNumbered(arcs: set<DiArc>, n: nat, s0: Search, s: Search, v: nat, grey: set<nat>, done: seq<DiArc>,
                       w: nat)
    requires InGraph(arcs, n) && Connecting(arcs, n, s0, s, v, grey, done) && (v, w) in arcs && Numbered(s, w)
    ensures var low := if s.number[w] < s.number[v] && w in s.stack then Min(s.lowlink[v], s.number[w])
              else s.lowlink[v];
            Connecting(arcs, n, s0, Lowered(s, v, low), v, grey, done + [(v, w)])
  {
    hide Invariant, Reach, PartsDisjoint, Witness, ArcsBounded, Consistent;
    var low := if s.number[w] < s.number[v] && w in s.stack then Min(s.lowlink[v], s.number[w]) else s.lowlink[v];
    assert |s.lowlink| == n;
    var s' := Lowered(s, v, low);
    LowlinkIsFree(arcs, n, s, grey + {v}, v, low);
    if w in s.stack { BelowIsSmaller(arcs, n, s0, s, v, grey, done, w); }
    ReachArc(arcs, v, w);
    LowerBound(arcs, s, s0.stack, v, w, low);
    TransferLowered(arcs, s, s', s0.stack, v, low);
    forall u: nat ensures Numbered(s', u) <==> Numbered(s, u) {}
    if w in s0.stack { assert w in s.stack; }
  }

  lemma ExtendsTrans(n: nat, s0: Search, s: Search, s1: Search)
    requires Extends(n, s0, s) && Extends(n, s, s1)
    ensures Extends(n, s0, s1)
  {}

  /** The lowest vertex that v, now with the call for w behind it, is known to reach. */
  lemma WitnessAfterCall(arcs: set<DiArc>, n: nat, s0: Search, s: Search, s1: Search, v: nat, grey: set<nat>,
                         done: seq<DiArc>, w: nat)
    requires Connecting(arcs, n, s0, s, v, grey, done) && (v, w) in arcs && !Numbered(s, w) && v < n
    requires |s1.lowlink| == n
    requires Connected(arcs, n, s, s1, w) && w < n
    ensures Witness(arcs, s1, s0.stack + [v], v, Min(s1.lowlink[v], s1.lowlink[w]))
  {
    hide Reach, NoBlackToWhite, StackReachesUp, StackReachesDown, Ordered, Strong, PartsDisjoint, ArcsBounded;
    assert Numbered(s, v);
    if s1.lowlink[v] <= s1.lowlink[w] {
      var y :| y in s0.stack + [v] && Numbered(s, y) && s.number[y] == s.lowlink[v] && Reach(arcs, v, y);
      assert Numbered(s1, y) && s1.number[y] == s1.lowlink[v];
    } else {
      assert s1.number[w] > s.i >= s.number[v];
      assert w in s1.stack;
      var y :| y in s.stack && Numbered(s1, y) && s1.number[y] == s1.lowlink[w] && Reach(arcs, w, y);
      BelowIsSmaller(arcs, n, s0, s, v, grey, done, y);
      ReachArc(arcs, v, w);
      ReachTrans(arcs, v, w, y);
    }
  }

  lemma BoundAfterCall(arcs: set<DiArc>, n: nat, s0: Search, s: Search, s1: Search, v: nat, grey: set<nat>,
                       done: seq<DiArc>, w: nat)
    requires Connecting(arcs, n, s0, s, v, grey, done) && v < n && |s1.lowlink| == n
    requires Connected(arcs, n, s, s1, w) && w < n
    ensures ArcsBounded(arcs, s1, |s0.stack| + 1, s0.stack, Min(s1.lowlink[v], s1.lowlink[w]))
  {
    hide Reach, NoBlackToWhite, StackReachesUp, StackReachesDown, Ordered, Strong, PartsDisjoint, Witness;
    var low := Min(s1.lowlink[v], s1.lowlink[w]);
    assert Numbered(s, v);
    forall j, y | |s0.stack| + 1 <= j < |s1.stack| && y in s0.stack && (s1.stack[j], y) in arcs
      ensures Numbered(s1, y) && low <= s1.number[y]
    {
      assert y in s.stack;
      if j < |s.stack| {
        assert s.stack[j] == s1.stack[j];
        assert Numbered(s, y) && s.lowlink[v] <= s.number[y];
      }
    }
  }

  lemma CallKeeps(arcs: set<DiArc>, n: nat, s0: Search, s: Search, s1: Search, v: nat, grey: set<nat>, done: seq<DiArc>,
                  w: nat)
    requires Connecting(arcs, n, s0, s, v, grey, done) && !Numbered(s, w) && v < n && w < n
    requires Connected(arcs, n, s, s1, w)
    ensures Extends(n, s0, s1) && s0.stack + [v] <= s1.stack && s1.number[v] == s.number[v]
    ensures s1.lowlink[v] <= s1.number[v]
    ensures forall a :: a in done + [(v, w)] && a.0 == v ==>
      Numbered(s1, a.1) && (a.1 in s0.stack ==> Min(s1.lowlink[v], s1.lowlink[w]) <= s1.number[a.1])
  {
    hide Reach, Invariant, PartsDisjoint, Placed, Witness, ArcsBounded;
    ExtendsTrans(n, s0, s, s1);
    assert Numbered(s, v);
    forall k | 0 <= k < |s0.stack| ensures s0.stack[k] != w { assert Numbered(s0, s0.stack[k]); }
  }

  /** A tree arc: after the call for w, v takes over w's lowlink if it is lower. */
  lemma TakeLowlink(arcs: set<DiArc>, n: nat, s0: Search, s: Search, s1: Search, v: nat, grey: set<nat>,
                    done: seq<DiArc>, w: nat)
    requires InGraph(arcs, n) && Connecting(arcs, n, s0, s, v, grey, done) && (v, w) in arcs && !Numbered(s, w)
    requires Invariant(arcs, n, s1, grey + {v}) && Connected(arcs, n, s, s1, w) && v < n && w < n && |s1.lowlink| == n
    ensures Connecting(arcs, n, s0, Lowered(s1, v, Min(s1.lowlink[v], s1.lowlink[w])), v, grey, done + [(v, w)])
  {
    hide Reach, Invariant, PartsDisjoint, Witness, ArcsBounded, Connected;
    var low := Min(s1.lowlink[v], s1.lowlink[w]);
    var s2 := Lowered(s1, v, low);
    LowlinkIsFree(arcs, n, s1, grey + {v}, v, low);
    WitnessAfterCall(arcs, n, s0, s, s1, v, grey, done, w);
    BoundAfterCall(arcs, n, s0, s, s1, v, grey, done, w);
    CallKeeps(arcs, n, s0, s, s1, v, grey, done, w);
    TransferLowered(arcs, s1, s2, s0.stack, v, low);
    forall u: nat ensures Numbered(s2, u) <==> Numbered(s1, u) {}
  }

  lemma TransferLowered(arcs: set<DiArc>, s1: Search, s2: Search, below: seq<nat>, v: nat, low: nat)
    requires v < |s1.lowlink| && s2 == Lowered(s1, v, low)
    requires Witness(arcs, s1, below + [v], v, low) && ArcsBounded(arcs, s1, |below| + 1, below, low)
    ensures Witness(arcs, s2, below + [v], v, low) && ArcsBounded(arcs, s2, |below| + 1, below, low)
  {
    hide Reach;
    var y :| y in below + [v] && Numbered(s1, y) && s1.number[y] == low && Reach(arcs, v, y);
    assert Numbered(s2, y);
    forall j, z | |below| + 1 <= j < |s2.stack| && z in below && (s2.stack[j], z) in arcs
      ensures Numbered(s2, z) && low <= s2.number[z]
    {
      assert s1.stack[j] == s2.stack[j];
      assert Numbered(s1, z);
    }
  }

  // ----- Leaving -----

  ghost predicate AllLookedAt(arcs: set<DiArc>, done: seq<DiArc>) {
    forall a :: a in arcs ==> a in done
  }

  /** v stays on the stack, no longer grey. */
  lemma LeaveInside(arcs: set<DiArc>, n: nat, s0: Search, s: Search, v: nat, grey: set<nat>, done: seq<DiArc>)
    requires Connecting(arcs, n, s0, s, v, grey, done) && AllLookedAt(arcs, done) && s.lowlink[v] < s.number[v]
    ensures Invariant(arcs, n, s, grey) && Connected(arcs, n, s0, s, v)
  {
    hide Reach, StackReachesUp, StackReachesDown, Ordered, Strong, PartsDisjoint;
    LeaveReachesDown(arcs, n, s0, s, v, grey, done);
    StackOfV(arcs, n, s0, s, v, grey, done);
    WitnessIsBelow(arcs, n, s0, s, v, grey, done);
    forall j, y | |s0.stack| <= j < |s.stack| && y in s0.stack && (s.stack[j], y) in arcs
      ensures Numbered(s, y) && s.lowlink[v] <= s.number[y]
    {
      if j == |s0.stack| { assert s.stack[j] == v; }
    }
  }

  /** v is on the stack, right above what was there before. */
  lemma StackOfV(arcs: set<DiArc>, n: nat, s0: Search, s: Search, v: nat, grey: set<nat>, done: seq<DiArc>)
    requires Connecting(arcs, n, s0, s, v, grey, done)
    ensures |s.stack| > |s0.stack| && s.stack[|s0.stack|] == v && s.stack[..|s0.stack|] == s0.stack && Numbered(s, v)
  {
    hide Reach, Invariant, Witness, ArcsBounded;
    var d := |s0.stack|;
    assert (s0.stack + [v])[d] == v && s.stack[..d + 1] == s0.stack + [v];
    assert s.stack[..d] == s.stack[..d + 1][..d];
  }

  lemma WitnessIsBelow(arcs: set<DiArc>, n: nat, s0: Search, s: Search, v: nat, grey: set<nat>, done: seq<DiArc>)
    requires Connecting(arcs, n, s0, s, v, grey, done) && s.lowlink[v] < s.number[v]
    ensures Witness(arcs, s, s0.stack, v, s.lowlink[v])
  {
    hide Reach, Invariant, ArcsBounded;
    var y :| y in s0.stack + [v] && Numbered(s, y) && s.number[y] == s.lowlink[v] && Reach(arcs, v, y);
    assert y in s0.stack;
  }

  /** v reaches a grey vertex below it: the one its witness goes down to. */
  lemma GreyBelow(arcs: set<DiArc>, n: nat, s0: Search, s: Search, v: nat, grey: set<nat>, done: seq<DiArc>)
    returns (h: nat)
    requires Connecting(arcs, n, s0, s, v, grey, done) && s.lowlink[v] < s.number[v]
    ensures h in grey && Numbered(s, h) && Numbered(s, v) && s.number[h] <= s.number[v] && Reach(arcs, v, h)
  {
    hide Reach, ReachesDown, NoBlackToWhite, StackReachesUp, Ordered, Strong, PartsDisjoint, ArcsBounded, Consistent;
    WitnessIsBelow(arcs, n, s0, s, v, grey, done);
    StackOfV(arcs, n, s0, s, v, grey, done);
    var u :| u in s0.stack && Numbered(s, u) && s.number[u] == s.lowlink[v] && Reach(arcs, v, u);
    var k :| 0 <= k < |s0.stack| && s0.stack[k] == u;
    assert s.stack[k] == s.stack[..|s0.stack|][k];
    assert u in s.stack && ReachesDown(arcs, s, grey + {v}, u);
    h := DownTo(arcs, s, grey + {v}, u);
    ReachTrans(arcs, v, u, h);
  }

  lemma LeaveReachesDown(arcs: set<DiArc>, n: nat, s0: Search, s: Search, v: nat, grey: set<nat>, done: seq<DiArc>)
    requires Connecting(arcs, n, s0, s, v, grey, done) && s.lowlink[v] < s.number[v]
    ensures StackReachesDown(arcs, s, grey)
  {
    hide Reach, ReachesDown, NoBlackToWhite, StackReachesUp, Ordered, Strong, PartsDisjoint, ArcsBounded, Extends,
         Consistent;
    var h := GreyBelow(arcs, n, s0, s, v, grey, done);
    forall y | y in s.stack ensures ReachesDown(arcs, s, grey, y) {
      assert ReachesDown(arcs, s, grey + {v}, y);
      AwayFromV(arcs, s, grey, v, h, y);
    }
  }

  /** Where v was the grey vertex reached, h below it is reached too. */
  lemma AwayFromV(arcs: set<DiArc>, s: Search, grey: set<nat>, v: nat, h: nat, y: nat)
    requires ReachesDown(arcs, s, grey + {v}, y) && Numbered(s, v)
    requires h in grey && Numbered(s, h) && s.number[h] <= s.number[v] && Reach(arcs, v, h)
    ensures ReachesDown(arcs, s, grey, y)
  {
    hide ReachesDown, Reach;
    var g := DownTo(arcs, s, grey + {v}, y);
    if g == v {
      ReachTrans(arcs, y, v, h);
      DownBy(arcs, s, grey, y, h);
    } else {
      DownBy(arcs, s, grey, y, g);
    }
  }

  /** The state after v's component has been taken off the stack. */
  function Left(s: Search, depth: nat, part: seq<nat>): Search
    requires depth <= |s.stack|
  {
    s.(stack := s.stack[..depth], comps := s.comps + [part])
  }

  /** part lists what is on the stack from position depth on. */
  ghost predicate TopOfStack(s: Search, depth: nat, part: seq<nat>) {
    && NoRepeats(part) && part != []
    && forall x :: x in part <==> exists k :: depth <= k < |s.stack| && s.stack[k] == x
  }

  ghost function Closure(n: nat, s: Search, part: seq<nat>): set<nat> {
    set x | 0 <= x < n && (x in part || Placed(s.comps, x))
  }

  /** Nothing below v can be in the part above it, or in a component. */
  lemma BelowIsOutside(arcs: set<DiArc>, n: nat, s0: Search, s: Search, v: nat, grey: set<nat>, done: seq<DiArc>,
                       part: seq<nat>, y: nat)
    requires Connecting(arcs, n, s0, s, v, grey, done) && TopOfStack(s, |s0.stack|, part) && y in s0.stack
    ensures y !in Closure(n, s, part) && y in s.stack && Numbered(s, y) && s.number[y] < s.number[v]
  {
    hide Reach, NoBlackToWhite, StackReachesUp, StackReachesDown, Ordered, Strong, ArcsBounded, Extends, Witness,
         PartsDisjoint;
    StackOfV(arcs, n, s0, s, v, grey, done);
    var k :| 0 <= k < |s0.stack| && s0.stack[k] == y;
    assert s.stack[k] == s.stack[..|s0.stack|][k];
    assert s.number[s.stack[k]] < s.number[s.stack[|s0.stack|]];
    forall j | |s0.stack| <= j < |s.stack| ensures s.stack[j] != y {
      assert s.number[s.stack[k]] < s.number[s.stack[j]];
    }
  }

  lemma ClosedTop(arcs: set<DiArc>, n: nat, s0: Search, s: Search, v: nat, grey: set<nat>, done: seq<DiArc>,
                  part: seq<nat>, a: DiArc)
    requires InGraph(arcs, n) && Connecting(arcs, n, s0, s, v, grey, done) && AllLookedAt(arcs, done)
    requires TopOfStack(s, |s0.stack|, part)
    requires s.lowlink[v] == s.number[v] && a in arcs && a.0 in Closure(n, s, part)
    ensures a.1 in Closure(n, s, part)
  {
    hide Reach, StackReachesUp, StackReachesDown, Strong, Extends, Witness, PartsDisjoint;
    StackOfV(arcs, n, s0, s, v, grey, done);
    if c :| InComp(s.comps, c, a.0) {
      assert PlacedUpTo(s.comps, c, a.1);
    } else {
      var k :| |s0.stack| <= k < |s.stack| && s.stack[k] == a.0;
      if a.0 in grey { BelowIsOutside(arcs, n, s0, s, v, grey, done, part, a.0); }
      assert Numbered(s, a.1);
      if a.1 in s0.stack { BelowIsOutside(arcs, n, s0, s, v, grey, done, part, a.1); }
      if a.1 in s.stack {
        var j :| 0 <= j < |s.stack| && s.stack[j] == a.1;
        if j < |s0.stack| { assert s0.stack[j] == s.stack[..|s0.stack|][j]; }
      }
    }
  }

  /** The part taken off is strongly connected: all of it reaches v and v reaches all of it. */
  lemma TopReachesV(arcs: set<DiArc>, n: nat, s0: Search, s: Search, v: nat, grey: set<nat>, done: seq<DiArc>,
                    part: seq<nat>, x: nat)
    requires InGraph(arcs, n) && Connecting(arcs, n, s0, s, v, grey, done) && AllLookedAt(arcs, done)
    requires TopOfStack(s, |s0.stack|, part)
    requires s.lowlink[v] == s.number[v] && x in part
    ensures Reach(arcs, x, v) && Reach(arcs, v, x)
  {
    hide Reach, ReachesDown, NoBlackToWhite, Ordered, Strong, Extends, Witness, PartsDisjoint, ArcsBounded;
    StackOfV(arcs, n, s0, s, v, grey, done);
    var k :| |s0.stack| <= k < |s.stack| && s.stack[k] == x;
    assert Reach(arcs, s.stack[|s0.stack|], s.stack[k]);
    assert ReachesDown(arcs, s, grey + {v}, x);
    var g := DownTo(arcs, s, grey + {v}, x);
    forall a | a in arcs && a.0 in Closure(n, s, part) ensures a.1 in Closure(n, s, part) {
      ClosedTop(arcs, n, s0, s, v, grey, done, part, a);
    }
    ClosedUnderReach(arcs, Closure(n, s, part), x, g);
    if g in grey { BelowIsOutside(arcs, n, s0, s, v, grey, done, part, g); }
  }

  lemma InCompOfMore(comps: seq<seq<nat>>, part: seq<nat>, c: int, x: nat)
    ensures InComp(comps + [part], c, x) <==> (if c == |comps| then x in part else InComp(comps, c, x))
  {}

  lemma LeaveComponents(arcs: set<DiArc>, n: nat, s0: Search, s: Search, v: nat, grey: set<nat>, done: seq<DiArc>,
                        part: seq<nat>)
    requires InGraph(arcs, n) && Connecting(arcs, n, s0, s, v, grey, done) && AllLookedAt(arcs, done)
    requires TopOfStack(s, |s0.stack|, part)
    requires s.lowlink[v] == s.number[v]
    ensures Ordered(arcs, s.comps + [part]) && Strong(arcs, s.comps + [part])
  {
    hide Reach, NoBlackToWhite, StackReachesUp, StackReachesDown, Extends, Witness, PartsDisjoint, ArcsBounded,
         Consistent, TopOfStack;
    var comps' := s.comps + [part];
    forall c, x ensures InComp(comps', c, x) <==> (if c == |s.comps| then x in part else InComp(s.comps, c, x)) {
      InCompOfMore(s.comps, part, c, x);
    }
    forall a, c | a in arcs && InComp(comps', c, a.0) ensures PlacedUpTo(comps', c, a.1) {
      if c == |s.comps| {
        ClosedTop(arcs, n, s0, s, v, grey, done, part, a);
        if d :| InComp(s.comps, d, a.1) { assert InComp(comps', d, a.1); }
        else { assert InComp(comps', c, a.1); }
      } else {
        assert PlacedUpTo(s.comps, c, a.1);
        var d :| d <= c && InComp(s.comps, d, a.1);
        assert InComp(comps', d, a.1);
      }
    }
    forall c, x, y | InComp(comps', c, x) && InComp(comps', c, y) ensures Reach(arcs, x, y) {
      if c == |s.comps| {
        TopReachesV(arcs, n, s0, s, v, grey, done, part, x);
        TopReachesV(arcs, n, s0, s, v, grey, done, part, y);
        ReachTrans(arcs, x, v, y);
      }
    }
  }

  lemma LeaveMembers(arcs: set<DiArc>, n: nat, s0: Search, s: Search, v: nat, grey: set<nat>, done: seq<DiArc>,
                     part: seq<nat>)
    requires Connecting(arcs, n, s0, s, v, grey, done) && TopOfStack(s, |s0.stack|, part)
    ensures forall x: nat :: x in s.stack <==> x in s0.stack || x in part
    ensures forall x: nat :: x in s0.stack ==> x !in part && !Placed(s.comps, x)
    ensures forall x: nat :: x in part ==> !Placed(s.comps, x)
  {
    hide Reach, NoBlackToWhite, StackReachesUp, StackReachesDown, Extends, Witness, ArcsBounded, Ordered, Strong,
         PartsDisjoint;
    StackOfV(arcs, n, s0, s, v, grey, done);
    forall x: nat ensures x in s.stack <==> x in s0.stack || x in part {
      if x in s.stack {
        var k :| 0 <= k < |s.stack| && s.stack[k] == x;
        if k < |s0.stack| { assert s0.stack[k] == s.stack[..|s0.stack|][k]; }
      }
      if x in s0.stack { BelowIsOutside(arcs, n, s0, s, v, grey, done, part, x); }
    }
    forall x: nat | x in s0.stack ensures x !in part && !Placed(s.comps, x) {
      BelowIsOutside(arcs, n, s0, s, v, grey, done, part, x);
    }
  }

  lemma LeaveParts(s: Search, part: seq<nat>)
    requires PartsDisjoint(s.comps) && part != [] && NoRepeats(part) && forall x: nat :: x in part ==>
               !Placed(s.comps, x)
    ensures PartsDisjoint(s.comps + [part])
    ensures forall x: nat :: Placed(s.comps + [part], x) <==> x in part || Placed(s.comps, x)
  {
    var comps' := s.comps + [part];
    forall c, x ensures InComp(comps', c, x) <==> (if c == |s.comps| then x in part else InComp(s.comps, c, x)) {
      InCompOfMore(s.comps, part, c, x);
    }
    forall x: nat ensures Placed(comps', x) <==> x in part || Placed(s.comps, x) {
      if x in part { assert InComp(comps', |s.comps|, x); }
      if c :| InComp(s.comps, c, x) { assert InComp(comps', c, x); }
    }
  }

  lemma LeaveConsistent(arcs: set<DiArc>, n: nat, s0: Search, s: Search, v: nat, grey: set<nat>, done: seq<DiArc>,
                        part: seq<nat>)
    requires Connecting(arcs, n, s0, s, v, grey, done) && TopOfStack(s, |s0.stack|, part) && |s0.stack| <= |s.stack|
    ensures Consistent(n, Left(s, |s0.stack|, part))
  {
    hide Reach, NoBlackToWhite, StackReachesUp, StackReachesDown, Extends, Witness, ArcsBounded, Ordered, Strong,
         PartsDisjoint, Placed;
    var s' := Left(s, |s0.stack|, part);
    StackOfV(arcs, n, s0, s, v, grey, done);
    LeaveMembers(arcs, n, s0, s, v, grey, done, part);
    LeaveParts(s, part);
    assert s'.stack == s0.stack;
    forall k | 0 <= k < |s'.stack| ensures s'.stack[k] == s.stack[k] {}
    forall x: nat ensures Numbered(s', x) <==> Numbered(s, x) {}
  }

  /** v's component is complete. */
  lemma LeaveAsRoot(arcs: set<DiArc>, n: nat, s0: Search, s: Search, v: nat, grey: set<nat>, done: seq<DiArc>,
                    part: seq<nat>)
    requires InGraph(arcs, n) && Connecting(arcs, n, s0, s, v, grey, done) && AllLookedAt(arcs, done)
    requires TopOfStack(s, |s0.stack|, part)
    requires Invariant(arcs, n, s0, grey) && s.lowlink[v] == s.number[v] && |s0.stack| <= |s.stack|
    ensures Invariant(arcs, n, Left(s, |s0.stack|, part), grey) && Connected(arcs, n, s0, Left(s, |s0.stack|, part), v)
  {
    hide Reach, Ordered, Strong, PartsDisjoint, Witness, ArcsBounded, StackReachesUp, StackReachesDown, NoBlackToWhite,
         Closure;
    var s' := Left(s, |s0.stack|, part);
    StackOfV(arcs, n, s0, s, v, grey, done);
    LeaveConsistent(arcs, n, s0, s, v, grey, done, part);
    LeaveComponents(arcs, n, s0, s, v, grey, done, part);
    LeaveStack(arcs, n, s0, s, v, grey, done, part);
  }

  lemma LeaveStack(arcs: set<DiArc>, n: nat, s0: Search, s: Search, v: nat, grey: set<nat>, done: seq<DiArc>,
                   part: seq<nat>)
    requires Connecting(arcs, n, s0, s, v, grey, done) && AllLookedAt(arcs, done) && |s0.stack| <= |s.stack|
    requires Invariant(arcs, n, s0, grey)
    ensures var s' := Left(s, |s0.stack|, part);
            && NoBlackToWhite(arcs, s', grey) && StackReachesUp(arcs, s') && StackReachesDown(arcs, s', grey)
            && ArcsBounded(arcs, s', |s0.stack|, s0.stack, s'.lowlink[v]) && v !in s0.stack
  {
    hide Reach, ReachesDown, Ordered, Strong, PartsDisjoint, Witness;
    var s' := Left(s, |s0.stack|, part);
    StackOfV(arcs, n, s0, s, v, grey, done);
    forall u: nat ensures Numbered(s', u) <==> Numbered(s, u) {}
    forall y | y in s'.stack ensures ReachesDown(arcs, s', grey, y) {
      assert ReachesDown(arcs, s0, grey, y);
      var g := DownTo(arcs, s0, grey, y);
      DownBy(arcs, s', grey, y, g);
    }
    forall k | 0 <= k < |s'.stack| ensures s'.stack[k] == s0.stack[k] { assert s'.stack == s0.stack; }
  }

  // ----- The class -----

  ghost function Unnumbered(n: nat, s: Search): set<nat> {
    set v | 0 <= v < n && !Numbered(s, v)
  }

  /** The recursive call has a smaller set of vertices without a number. */
  lemma FewerUnnumbered(arcs: set<DiArc>, n: nat, s0: Search, s: Search, v: nat, grey: set<nat>, done: seq<DiArc>)
    requires Connecting(arcs, n, s0, s, v, grey, done)
    ensures Unnumbered(n, s) < Unnumbered(n, s0)
  {
    hide Invariant, Witness, ArcsBounded, Consistent;
    assert v in Unnumbered(n, s0) && v !in Unnumbered(n, s);
  }

  lemma GreyReach(arcs: set<DiArc>, n: nat, s0: Search, s: Search, v: nat, grey: set<nat>, done: seq<DiArc>, w: nat)
    requires Connecting(arcs, n, s0, s, v, grey, done) && (v, w) in arcs
    requires forall g :: g in grey ==> Reach(arcs, g, v)
    ensures forall g :: g in grey + {v} ==> Reach(arcs, g, w)
  {
    hide Invariant, Reach, Extends, Witness, ArcsBounded;
    ReachArc(arcs, v, w);
    forall g | g in grey ensures Reach(arcs, g, w) { ReachTrans(arcs, g, v, w); }
  }

  lemma Bounds(arcs: set<DiArc>, n: nat, s0: Search, s: Search, v: nat, grey: set<nat>, done: seq<DiArc>)
    requires Connecting(arcs, n, s0, s, v, grey, done)
    ensures |s.number| == n && |s.lowlink| == n && v < n && Invariant(arcs, n, s, grey + {v})
    ensures |s0.stack| <= |s.stack| && forall k :: 0 <= k < |s.stack| ==> s.stack[k] < n
  {
    hide Reach, NoBlackToWhite, StackReachesUp, StackReachesDown, Ordered, Strong, Witness, ArcsBounded, PartsDisjoint;
  }

  /** Popping while the number is at least v's stops exactly at v. */
  lemma PopStops(arcs: set<DiArc>, n: nat, s0: Search, s: Search, v: nat, grey: set<nat>, done: seq<DiArc>, k: nat)
    requires Connecting(arcs, n, s0, s, v, grey, done) && k < |s.stack| && v < n && |s.number| == n
    ensures s.stack[k] < n && (s.number[s.stack[k]] >= s.number[v] <==> k >= |s0.stack|)
    ensures forall j :: 0 <= j < |s.stack| && j != k ==> s.stack[j] != s.stack[k]
  {
    hide Reach, NoBlackToWhite, StackReachesUp, StackReachesDown, Ordered, Strong, Witness, ArcsBounded, PartsDisjoint;
    StackOfV(arcs, n, s0, s, v, grey, done);
  }

  ghost predicate Popped(s: Search, depth: nat, vertices: seq<nat>) {
    && depth <= |s.stack| && NoRepeats(vertices)
    && forall x :: x in vertices <==> exists k :: depth <= k < |s.stack| && s.stack[k] == x
  }

  lemma PopOne(s: Search, depth: nat, vertices: seq<nat>)
    requires Popped(s, depth, vertices) && depth > 0
    requires forall j :: 0 <= j < |s.stack| && j != depth - 1 ==> s.stack[j] != s.stack[depth - 1]
    ensures Popped(s, depth - 1, vertices + [s.stack[depth - 1]])
  {
    var x, d := s.stack[depth - 1], depth - 1;
    assert x !in vertices;
    assert NoRepeats(vertices + [x]);
    forall y ensures y in vertices + [x] <==> exists k :: d <= k < |s.stack| && s.stack[k] == y {
      if y in vertices {
        var k :| depth <= k < |s.stack| && s.stack[k] == y;
      } else if y == x {
        assert s.stack[d] == y;
      }
    }
  }

  class Digraph {
    const n: nat
    const arcs: seq<DiArc>
    var number: seq<nat>
    var lowlink: seq<nat>
    var stack: seq<nat>
    var components: seq<seq<nat>>
    var i: nat

    ghost function S(): Search
      reads this
    {
      Search(number, lowlink, stack, components, i)
    }

    constructor (n: nat, arcs: seq<DiArc>)
      ensures this.n == n && this.arcs == arcs && Invariant(Set(arcs), n, S(), {})
      ensures forall v :: 0 <= v < n ==> number[v] == 0
    {
      this.n := n;
      this.arcs := arcs;
      number := seq(n, _ => 0);
      lowlink := seq(n, _ => 0);
      stack := [];
      components := [];
      i := 0;
    }

    /** Numbers everything reachable from v that has no number yet, and completes the components
        that lie above v. */
    method StrongConnect(v: nat, ghost grey: set<nat>)
      requires InGraph(Set(arcs), n) && Invariant(Set(arcs), n, S(), grey) && v < n && !Numbered(S(), v)
      requires forall g :: g in grey ==> Reach(Set(arcs), g, v)
      modifies this
      ensures Invariant(Set(arcs), n, S(), grey) && Connected(Set(arcs), n, old(S()), S(), v)
      decreases Unnumbered(n, S())
    {
      hide Invariant, Connecting, Connected, Reach, TopOfStack, Popped;
      ghost var s0 := S();
      assert v < |number| && v < |lowlink| by { InvariantBounds(Set(arcs), n, s0, grey); }
      Enter(Set(arcs), n, s0, grey, v);
      i := i + 1;
      number := number[v := i];
      lowlink := lowlink[v := i];
      stack := stack + [v];
      for k := 0 to |arcs|
        invariant Connecting(Set(arcs), n, s0, S(), v, grey, arcs[..k])
      {
        var (v1, w) := arcs[k];
        ghost var s, done := S(), arcs[..k];
        assert arcs[..k + 1] == done + [(v1, w)] && (v1, w) in Set(arcs);
        Bounds(Set(arcs), n, s0, s, v, grey, done);
        if v1 == v {
          if number[w] == 0 {
            GreyReach(Set(arcs), n, s0, s, v, grey, done, w);
            FewerUnnumbered(Set(arcs), n, s0, s, v, grey, done);
            StrongConnect(w, grey + {v});
            assert |lowlink| == n by { InvariantBounds(Set(arcs), n, S(), grey + {v}); }
            TakeLowlink(Set(arcs), n, s0, s, S(), v, grey, done, w);
            lowlink := lowlink[v := Min(lowlink[v], lowlink[w])];
          } else {
            LookAtNumbered(Set(arcs), n, s0, s, v, grey, done, w);
            assert lowlink[v := lowlink[v]] == lowlink;
            if number[w] < number[v] {
              if w in stack {
                lowlink := lowlink[v := Min(lowlink[v], number[w])];
              }
            }
          }
        } else {
          PassOver(Set(arcs), n, s0, s, v, grey, done, (v1, w));
        }
      }
      ghost var s := S();
      assert arcs[..|arcs|] == arcs;
      Bounds(Set(arcs), n, s0, s, v, grey, arcs);
      if lowlink[v] == number[v] {
        var vertices: seq<nat> := [];
        assert Popped(s, |stack|, vertices) by { NothingPopped(s); }
        while stack != [] && number[stack[|stack| - 1]] >= number[v]
          invariant |s0.stack| <= |stack| <= |s.stack| && stack == s.stack[..|stack|] && Popped(s, |stack|, vertices)
          invariant S() == s.(stack := stack)
        {
          var top := stack[|stack| - 1];
          PopStops(Set(arcs), n, s0, s, v, grey, arcs, |stack| - 1);
          PopOne(s, |stack|, vertices);
          vertices := vertices + [top];
          stack := stack[..|stack| - 1];
        }
        if stack != [] { PopStops(Set(arcs), n, s0, s, v, grey, arcs, |stack| - 1); }
        PoppedIsTop(Set(arcs), n, s0, s, v, grey, arcs, vertices);
        LeaveAsRoot(Set(arcs), n, s0, s, v, grey, arcs, vertices);
        components := components + [vertices];
      } else {
        assert lowlink[v] < number[v] by { LowlinkAtMost(Set(arcs), n, s0, s, v, grey, arcs); }
        LeaveInside(Set(arcs), n, s0, s, v, grey, arcs);
      }
    }

    /** The strongly connected components, each after those it has arcs to. */
    method ConnectAll()
      requires InGraph(Set(arcs), n) && Invariant(Set(arcs), n, S(), {})
      modifies this
      ensures AreComponents(Set(arcs), n, components) && Ordered(Set(arcs), components)
    {
      hide Invariant, Connected, Reach;
      for v := 0 to n
        invariant Invariant(Set(arcs), n, S(), {}) && forall u: nat :: u < v ==> Numbered(S(), u)
      {
        InvariantBounds(Set(arcs), n, S(), {});
        ghost var s := S();
        if number[v] == 0 {
          StrongConnect(v, {});
          ConnectedKeeps(Set(arcs), n, s, S(), v);
        }
      }
      AllConnected(Set(arcs), n, S());
    }
  }

  lemma InvariantBounds(arcs: set<DiArc>, n: nat, s: Search, grey: set<nat>)
    requires Invariant(arcs, n, s, grey)
    ensures |s.number| == n && |s.lowlink| == n
  {}

  lemma LowlinkAtMost(arcs: set<DiArc>, n: nat, s0: Search, s: Search, v: nat, grey: set<nat>, done: seq<DiArc>)
    requires Connecting(arcs, n, s0, s, v, grey, done)
    ensures v < |s.number| && v < |s.lowlink| && s.lowlink[v] <= s.number[v]
  {}

  lemma NothingPopped(s: Search)
    ensures Popped(s, |s.stack|, [])
  {}

  lemma PoppedIsTop(arcs: set<DiArc>, n: nat, s0: Search, s: Search, v: nat, grey: set<nat>, done: seq<DiArc>,
                    vertices: seq<nat>)
    requires Connecting(arcs, n, s0, s, v, grey, done) && Popped(s, |s0.stack|, vertices)
    ensures TopOfStack(s, |s0.stack|, vertices)
  {
    hide Invariant, Extends, Witness, ArcsBounded, Consistent;
    StackOfV(arcs, n, s0, s, v, grey, done);
    assert v in vertices;
  }

  lemma ConnectedKeeps(arcs: set<DiArc>, n: nat, s0: Search, s: Search, v: nat)
    requires Connected(arcs, n, s0, s, v)
    ensures Numbered(s, v) && forall u: nat :: Numbered(s0, u) ==> Numbered(s, u)
  {}

  /** With no vertex grey the stack is empty, so everything numbered is in a component. */
  lemma AllConnected(arcs: set<DiArc>, n: nat, s: Search)
    requires Invariant(arcs, n, s, {}) && forall u: nat :: u < n ==> Numbered(s, u)
    ensures AreComponents(arcs, n, s.comps) && Ordered(arcs, s.comps)
  {
    hide Reach;
    assert s.stack == [] by {
      if s.stack != [] {
        assert s.stack[0] in s.stack;
        var g := DownTo(arcs, s, {}, s.stack[0]);
      }
    }
    OrderedStrongPartsAreComponents(arcs, n, s.comps);
  }
}
