/**
 Reference counting of the C++ interface (Ref.hpp, RefCountedNode.hpp, OwnedNode.hpp): Refs to nodes,
 nodes that are counted and nodes that are owned by a counted one, and the deletions that releasing a
 Ref sets off. Nodes and Refs are numbers; the maps are what memory holds.
 */
module RefCounting {
  import opened Options

  /**
   owner: every node with the node that counts for it, itself or its owner; live: the counted nodes
   that are not deleted; refCount: their counts; refs: the Refs that exist, with the node they point
   to; holder: the counted node that a Ref is a field of, directly or in a node that this node owns;
   untouched: the live nodes that no Ref has pointed to so far.
   */
  datatype Heap = Heap(owner: map<nat, nat>, live: set<nat>, refCount: map<nat, int>, refs: map<nat, Option<nat>>,
                       holder: map<nat, Option<nat>>, untouched: set<nat>)

  /** The live Refs to node n or to a node that n owns. */
  ghost function RefsTo(h: Heap, n: nat): set<nat> {
    set r | r in h.refs && PointsTo(h, r, n)
  }

  ghost predicate PointsTo(h: Heap, r: nat, n: nat) {
    r in h.refs && h.refs[r].Some? && h.refs[r].value in h.owner && h.owner[h.refs[r].value] == n
  }

  /** No Ref points to a node that is deleted, or that is owned by one. */
  ghost predicate NoDangling(h: Heap) {
    forall r :: r in h.refs && h.refs[r].Some? ==> h.refs[r].value in h.owner && h.owner[h.refs[r].value] in h.live
  }

  ghost predicate Structure(h: Heap) {
    && h.refs.Keys <= h.holder.Keys && h.live <= h.owner.Keys && h.live <= h.refCount.Keys && h.untouched <= h.live
    && (forall n :: n in h.live ==> h.owner[n] == n)
    && NoDangling(h)
  }

  /** Refs that are fields of deleted nodes are about to be destroyed. */
  ghost predicate Held(h: Heap, doomed: set<nat>) {
    && h.refs.Keys <= h.holder.Keys
    && (forall r :: r in h.refs && h.holder[r].Some? && r !in doomed ==> h.holder[r].value in h.live)
    && (forall r :: r in doomed ==> r in h.refs && h.holder[r].Some? && h.holder[r].value !in h.live)
  }

  /** The count of n is the number of its Refs plus extra; a node without Refs was never pointed to. */
  ghost predicate CountedNode(h: Heap, n: nat, extra: int) {
    n in h.refCount && h.refCount[n] == |RefsTo(h, n)| + extra && (h.refCount[n] == 0 <==> n in h.untouched)
  }

  /** Every count is right, save that of `missing`, which is one too high. */
  ghost predicate Counted(h: Heap, missing: Option<nat>) {
    forall n :: n in h.live ==> CountedNode(h, n, if missing == Some(n) then 1 else 0)
  }

  ghost predicate Sound(h: Heap) {
    Structure(h) && Held(h, {}) && Counted(h, None)
  }

  /** A node is live exactly as long as it was never pointed to, or a Ref points to it or to a node it
      owns; and then its count is the number of these Refs. */
  lemma LiveUntilLastRef(h: Heap, n: nat)
    requires Sound(h) && n in h.owner && h.owner[n] == n
    ensures n in h.live <==> n in h.untouched || RefsTo(h, n) != {}
    ensures n in h.live ==> n in h.refCount && h.refCount[n] == |RefsTo(h, n)|
  {
    if r :| r in RefsTo(h, n) {
      assert h.refs[r].Some? && h.owner[h.refs[r].value] in h.live;
    }
    if n in h.live { assert CountedNode(h, n, 0); }
  }

  // ----- Steps -----

  lemma SameRefs(h: Heap, k: Heap, n: nat)
    requires forall r :: PointsTo(h, r, n) <==> PointsTo(k, r, n)
    ensures RefsTo(h, n) == RefsTo(k, n)
  {
    forall r ensures r in RefsTo(h, n) <==> r in RefsTo(k, n) { assert PointsTo(h, r, n) <==> PointsTo(k, r, n); }
  }

  lemma NewNodeIsSound(h: Heap, k: Heap, n: nat)
    requires Sound(h) && n !in h.owner
    requires k == h.(owner := h.owner[n := n], live := h.live + {n}, refCount := h.refCount[n := 0],
               untouched := h.untouched + {n})
    ensures Sound(k)
  {
    forall m | m in k.live ensures CountedNode(k, m, 0) {
      forall r ensures PointsTo(h, r, m) <==> PointsTo(k, r, m) {}
      SameRefs(h, k, m);
      if m == n {
        assert RefsTo(k, n) == {};
      } else {
        assert CountedNode(h, m, 0);
      }
    }
  }

  lemma NewOwnedIsSound(h: Heap, k: Heap, n: nat, master: nat)
    requires Sound(h) && n !in h.owner && master in h.live && k == h.(owner := h.owner[n := master])
    ensures Sound(k)
  {
    forall m | m in k.live ensures CountedNode(k, m, 0) {
      forall r ensures PointsTo(h, r, m) <==> PointsTo(k, r, m) {}
      SameRefs(h, k, m);
      assert CountedNode(h, m, 0);
    }
  }

  /** Pointing a Ref that points nowhere to t, with its count. */
  ghost function Pointed(h: Heap, r: nat, t: Option<nat>): Heap
    requires t.Some? ==> t.value in h.owner && h.owner[t.value] in h.refCount
  {
    if t.None? then h.(refs := h.refs[r := None])
    else
      var n := h.owner[t.value];
      h.(refs := h.refs[r := t], refCount := h.refCount[n := h.refCount[n] + 1], untouched := h.untouched - {n})
  }

  lemma PointedIsCounted(h: Heap, r: nat, t: Option<nat>, n: nat)
    requires Structure(h) && Counted(h, None) && (r !in h.refs || h.refs[r].None?) && n in h.live
    requires t.Some? ==> t.value in h.owner && h.owner[t.value] in h.live
    ensures CountedNode(Pointed(h, r, t), n, 0)
  {
    var k := Pointed(h, r, t);
    assert CountedNode(h, n, 0);
    if t.Some? && h.owner[t.value] == n {
      forall s
        ensures s in RefsTo(k, n) <==> s in RefsTo(h, n) + {r}
      {
        assert s != r ==> (PointsTo(h, s, n) <==> PointsTo(k, s, n));
      }
      assert RefsTo(k, n) == RefsTo(h, n) + {r} && r !in RefsTo(h, n);
    } else {
      forall s ensures PointsTo(h, s, n) <==> PointsTo(k, s, n) {}
      SameRefs(h, k, n);
    }
  }

  lemma PointedIsSound(h: Heap, r: nat, t: Option<nat>, inside: Option<nat>)
    requires Structure(h) && Held(h, {}) && Counted(h, None) && (r !in h.refs || h.refs[r].None?)
    requires t.Some? ==> t.value in h.owner && h.owner[t.value] in h.live
    requires inside.Some? ==> inside.value in h.live
    ensures Sound(Pointed(h, r, t).(holder := h.holder[r := inside]))
  {
    hide RefsTo, PointsTo, CountedNode;
    var k := Pointed(h, r, t).(holder := h.holder[r := inside]);
    PointedKeepsStructure(h, r, t, inside);
    forall n | n in k.live ensures CountedNode(k, n, 0) {
      PointedIsCounted(h, r, t, n);
      HolderDoesNotCount(Pointed(h, r, t), k, n);
    }
  }

  lemma HolderDoesNotCount(h: Heap, k: Heap, n: nat)
    requires CountedNode(h, n, 0) && k == h.(holder := k.holder)
    ensures CountedNode(k, n, 0)
  {
    forall s ensures PointsTo(h, s, n) <==> PointsTo(k, s, n) {}
    SameRefs(h, k, n);
  }

  lemma PointedKeepsStructure(h: Heap, r: nat, t: Option<nat>, inside: Option<nat>)
    requires Structure(h) && Held(h, {}) && (r !in h.refs || h.refs[r].None?)
    requires t.Some? ==> t.value in h.owner && h.owner[t.value] in h.live
    requires inside.Some? ==> inside.value in h.live
    ensures Structure(Pointed(h, r, t).(holder := h.holder[r := inside]))
    ensures Held(Pointed(h, r, t).(holder := h.holder[r := inside]), {})
  {}

  /** A Ref less, or pointing nowhere, with the count not yet adjusted. */
  lemma Unpointed(h: Heap, k: Heap, r: nat)
    requires Structure(h) && Counted(h, None) && r in h.refs
    requires k == h.(refs := h.refs - {r}) || k == h.(refs := h.refs[r := None])
    ensures Structure(k) && Counted(k, if h.refs[r].Some? then Some(h.owner[h.refs[r].value]) else None)
  {
    forall n | n in k.live
      ensures CountedNode(k, n, if h.refs[r].Some? && h.owner[h.refs[r].value] == n then 1 else 0)
    {
      assert CountedNode(h, n, 0);
      if PointsTo(h, r, n) {
        forall s
          ensures s in RefsTo(k, n) <==> s in RefsTo(h, n) - {r}
        {
          assert s != r ==> (PointsTo(h, s, n) <==> PointsTo(k, s, n));
        }
        assert RefsTo(k, n) == RefsTo(h, n) - {r};
      } else {
        forall s ensures PointsTo(h, s, n) <==> PointsTo(k, s, n) {}
        SameRefs(h, k, n);
      }
    }
  }

  ghost function CountedDown(h: Heap, n: nat): Heap
    requires n in h.refCount
  {
    h.(refCount := h.refCount[n := h.refCount[n] - 1])
  }

  lemma CountedDownIsCounted(h: Heap, n: nat)
    requires Structure(h) && n in h.live && Counted(h, Some(n)) && h.refCount[n] != 1
    ensures Structure(CountedDown(h, n)) && Counted(CountedDown(h, n), None)
  {
    var k := CountedDown(h, n);
    forall m | m in k.live ensures CountedNode(k, m, 0) {
      assert CountedNode(h, m, if m == n then 1 else 0);
      forall s ensures PointsTo(h, s, m) <==> PointsTo(k, s, m) {}
      SameRefs(h, k, m);
    }
  }

  /** The node with its count at zero is deleted: nothing points to it, and its Refs are doomed. */
  lemma Deleted(h: Heap, n: nat, doomed: set<nat>, fields: set<nat>)
    requires Structure(h) && n in h.live && Held(h, doomed) && Counted(h, Some(n)) && h.refCount[n] == 1
    requires fields == set r | r in h.refs && h.holder[r] == Some(n)
    ensures var k := CountedDown(h, n).(live := h.live - {n});
            Structure(k) && Held(k, doomed + fields) && Counted(k, None) && doomed !! fields
  {
    var k := CountedDown(h, n).(live := h.live - {n});
    assert CountedNode(h, n, 1);
    assert RefsTo(h, n) == {} && n !in h.untouched;
    forall r | r in k.refs && k.refs[r].Some? ensures k.refs[r].value in k.owner && k.owner[k.refs[r].value] in k.live {
      assert r !in RefsTo(h, n);
      assert !PointsTo(h, r, n);
    }
    forall m | m in k.live ensures CountedNode(k, m, 0) {
      assert CountedNode(h, m, 0);
      forall s ensures PointsTo(h, s, m) <==> PointsTo(k, s, m) {}
      SameRefs(h, k, m);
    }
  }

  /** Refs that remain point where they did. */
  ghost predicate Shrunk(before: map<nat, Option<nat>>, refs: map<nat, Option<nat>>) {
    forall r :: r in refs ==> r in before && refs[r] == before[r]
  }

  /** The Refs that are gone were fields of the nodes that are gone. */
  ghost predicate OnlyFieldsGone(h: Heap, refs: map<nat, Option<nat>>, gone: set<nat>) {
    h.refs.Keys <= h.holder.Keys && forall r :: r in h.refs && r !in refs ==>
        h.holder[r].Some? && h.holder[r].value in gone
  }

  // ----- What keeps nodes alive, whatever Ref r is made to let go -----

  /** Ref s, which is not r, points to m and is a field of no node or of one in `kept`. */
  ghost predicate Keeper(h: Heap, kept: set<nat>, r: nat, s: nat, m: nat) {
    s != r && PointsTo(h, s, m) && s in h.holder && (h.holder[s].None? || h.holder[s].value in kept)
  }

  /** The nodes of `kept` hold each other, together with Refs that are no fields, without help of r; a
      node that no Ref has pointed to yet needs no keeper. */
  ghost predicate Support(h: Heap, kept: set<nat>, r: nat) {
    kept <= h.live && forall m :: m in kept ==> m in h.untouched || exists s :: Keeper(h, kept, r, s, m)
  }

  /** The node of t and the node that r is a field of, where there are such, stay alive when r lets go. */
  ghost predicate Survives(h: Heap, r: nat, t: Option<nat>) {
    exists kept :: Support(h, kept, r) && Holds(h, kept, r, t)
  }

  ghost predicate Holds(h: Heap, kept: set<nat>, r: nat, t: Option<nat>) {
    && (t.Some? ==> t.value in h.owner && h.owner[t.value] in kept)
    && (r in h.holder && h.holder[r].Some? ==> h.holder[r].value in kept)
  }

  /** Whatever supports itself in h still does in k. */
  ghost predicate KeepsSupport(h: Heap, k: Heap) {
    forall kept, r :: Support(h, kept, r) ==> Support(k, kept, r)
  }

  lemma SameSupport(h: Heap, k: Heap)
    requires k.refs == h.refs && k.holder == h.holder && k.owner == h.owner && k.live == h.live
    requires k.untouched == h.untouched
    ensures KeepsSupport(h, k)
  {
    forall kept, r | Support(h, kept, r) ensures Support(k, kept, r) {
      forall m | m in kept && m !in h.untouched ensures exists s :: Keeper(k, kept, r, s, m) {
        var s :| Keeper(h, kept, r, s, m);
        assert Keeper(k, kept, r, s, m);
      }
    }
  }

  /** A node that is deleted had no Ref, so it was in no support. */
  lemma DeletionKeepsSupport(h: Heap, n: nat)
    requires Structure(h) && n in h.live && Counted(h, Some(n)) && h.refCount[n] == 1
    ensures KeepsSupport(h, CountedDown(h, n).(live := h.live - {n}))
  {
    var k := CountedDown(h, n).(live := h.live - {n});
    assert CountedNode(h, n, 1);
    assert RefsTo(h, n) == {} && n !in h.untouched;
    forall s ensures !PointsTo(h, s, n) { assert s !in RefsTo(h, n); }
    forall kept, r | Support(h, kept, r) ensures Support(k, kept, r) {
      forall m | m in kept && m !in h.untouched ensures exists s :: Keeper(k, kept, r, s, m) {
        var s :| Keeper(h, kept, r, s, m);
        assert Keeper(k, kept, r, s, m);
      }
    }
  }

  /** A field of a deleted node was no keeper. */
  lemma FieldKeepsSupport(h: Heap, doomed: set<nat>, f: nat)
    requires Held(h, doomed) && f in doomed
    ensures KeepsSupport(h, h.(refs := h.refs - {f}))
  {
    var k := h.(refs := h.refs - {f});
    forall kept, r | Support(h, kept, r) ensures Support(k, kept, r) {
      forall m | m in kept && m !in h.untouched ensures exists s :: Keeper(k, kept, r, s, m) {
        var s :| Keeper(h, kept, r, s, m);
        assert Keeper(k, kept, r, s, m);
      }
    }
  }

  /** Support does not ask where r points. */
  lemma ReleaseKeepsSupport(h: Heap, kept: set<nat>, r: nat)
    requires Support(h, kept, r)
    ensures Support(h.(refs := h.refs[r := None]), kept, r)
  {
    var k := h.(refs := h.refs[r := None]);
    forall m | m in kept && m !in h.untouched ensures exists s :: Keeper(k, kept, r, s, m) {
      var s :| Keeper(h, kept, r, s, m);
      assert Keeper(k, kept, r, s, m);
    }
  }

  /** The nodes that are left after r has let go supported each other before. */
  lemma LiveSupport(h: Heap, k: Heap, r: nat)
    requires Structure(k) && Held(k, {}) && Counted(k, None) && Shrunk(h.refs[r := None], k.refs)
    requires k.owner == h.owner && k.holder == h.holder && k.untouched == h.untouched && k.live <= h.live
    ensures Support(h, k.live, r)
  {
    forall m | m in k.live && m !in h.untouched ensures exists s :: Keeper(h, k.live, r, s, m) {
      assert CountedNode(k, m, 0);
      assert RefsTo(k, m) != {};
      var s :| s in RefsTo(k, m);
      assert s in k.refs && k.refs[s].Some? && s != r;
      assert Keeper(h, k.live, r, s, m);
    }
  }

  class Store {
    var owner: map<nat, nat>
    var live: set<nat>
    var refCount: map<nat, int>
    var refs: map<nat, Option<nat>>
    var holder: map<nat, Option<nat>>
    ghost var untouched: set<nat>

    ghost function H(): Heap
      reads this
    {
      Heap(owner, live, refCount, refs, holder, untouched)
    }

    constructor ()
      ensures Sound(H()) && H() == Heap(map[], {}, map[], map[], map[], {})
    {
      owner, live, refCount, refs, holder := map[], {}, map[], map[], map[];
      untouched := {};
    }

    /** A new counted node, with count zero. */
    method NewNode(n: nat)
      requires Sound(H()) && n !in owner
      modifies `owner, `live, `refCount, `untouched
      ensures Sound(H()) && owner == old(owner)[n := n] && live == old(live) + {n} && untouched == old(untouched) + {n}
    {
      hide Sound;
      NewNodeIsSound(H(), H().(owner := owner[n := n], live := live + {n}, refCount := refCount[n := 0],
          untouched := untouched + {n}), n);
      owner := owner[n := n];
      live := live + {n};
      refCount := refCount[n := 0];
      untouched := untouched + {n};
    }

    /** A new node that a live counted node owns. */
    method NewOwnedNode(n: nat, master: nat)
      requires Sound(H()) && n !in owner && master in live
      modifies `owner
      ensures Sound(H()) && owner == old(owner)[n := master]
    {
      hide Sound;
      NewOwnedIsSound(H(), H().(owner := owner[n := master]), n, master);
      owner := owner[n := master];
    }

    /** incRefNode: counts up at the node itself or at its owner. */
    method IncRefNode(t: Option<nat>)
      requires t.Some? ==> t.value in owner && owner[t.value] in refCount
      modifies `refCount, `untouched
      ensures t.None? ==> refCount == old(refCount) && untouched == old(untouched)
      ensures t.Some? ==> refCount == old(refCount)[owner[t.value] := old(refCount)[owner[t.value]] + 1]
      ensures t.Some? ==> untouched == old(untouched) - {owner[t.value]}
    {
      if t.Some? {
        refCount := refCount[owner[t.value] := refCount[owner[t.value]] + 1];
        untouched := untouched - {owner[t.value]};
      }
    }

    /** Ref(node): a new Ref r to t, as a field of `inside` or of no node. */
    method CreateRef(r: nat, t: Option<nat>, inside: Option<nat>)
      requires Sound(H()) && r !in refs
      requires t.Some? ==> t.value in owner && owner[t.value] in live
      requires inside.Some? ==> inside.value in live
      modifies `refs, `holder, `refCount, `untouched
      ensures Sound(H()) && refs == old(refs)[r := t] && holder == old(holder)[r := inside]
    {
      hide Held, Counted, NoDangling;
      PointedIsSound(H(), r, t, inside);
      refs := refs[r := t];
      holder := holder[r := inside];
      IncRefNode(t);
    }

    /** Ref(ref) */
    method CopyRef(r: nat, source: nat, inside: Option<nat>)
      requires Sound(H()) && r !in refs && source in refs
      requires inside.Some? ==> inside.value in live
      modifies `refs, `holder, `refCount, `untouched
      ensures Sound(H()) && refs == old(refs)[r := old(refs)[source]] && holder == old(holder)[r := inside]
    {
      assert NoDangling(H());
      CreateRef(r, refs[source], inside);
    }

    /** decRefNode at the counting node n, for a Ref that is gone: counts down, and at zero deletes the
        node, which destroys its Refs one after the other. */
    method DecRefNode(n: nat, ghost doomed: set<nat>) returns (deleted: bool)
      requires Structure(H()) && n in live && Held(H(), doomed) && Counted(H(), Some(n))
      modifies `live, `refCount, `refs
      ensures Structure(H()) && Held(H(), doomed) && Counted(H(), None)
      ensures live <= old(live) && Shrunk(old(refs), refs) && OnlyFieldsGone(old(H()), refs, old(live) - live)
      ensures deleted <==> n !in live
      ensures KeepsSupport(old(H()), H())
      decreases live, 0
    {
      hide Held, Counted, NoDangling, RefsTo, KeepsSupport;
      ghost var h := H();
      deleted := refCount[n] - 1 == 0;
      if deleted {
        var fields := set r | r in refs && r in holder && holder[r] == Some(n);
        Deleted(h, n, doomed, fields);
        DeletionKeepsSupport(h, n);
        refCount := refCount[n := refCount[n] - 1];
        live := live - {n};
        ghost var k := H();
        DestroyFields(n, fields, doomed, h);
        SupportOn(h, k, H());
      } else {
        CountedDownIsCounted(h, n);
        SameHeld(h, CountedDown(h, n), doomed);
        SameSupport(h, CountedDown(h, n));
        refCount := refCount[n := refCount[n] - 1];
      }
    }

    /** The destructors of the Refs of the deleted node n. */
    method DestroyFields(n: nat, toDestroy: set<nat>, ghost doomed: set<nat>, ghost h: Heap)
      requires Structure(H()) && Held(H(), doomed + toDestroy) && Counted(H(), None) && doomed !! toDestroy
      requires h.refs == refs && h.holder == holder && h.owner == owner && n in h.live && live <= h.live - {n}
      requires forall r :: r in toDestroy ==> r in h.holder && h.holder[r] == Some(n)
      modifies `live, `refCount, `refs
      ensures Structure(H()) && Held(H(), doomed) && Counted(H(), None)
      ensures live <= old(live) && Shrunk(h.refs, refs) && OnlyFieldsGone(h, refs, h.live - live)
      ensures KeepsSupport(old(H()), H())
      decreases live, 1
    {
      hide Held, Counted, NoDangling, RefsTo, OnlyFieldsGone, Shrunk, KeepsSupport;
      var fields := toDestroy;
      NothingGone(h);
      SameSupport(H(), H());
      ghost var was := live;
      while fields != {}
        invariant Structure(H()) && Held(H(), doomed + fields) && Counted(H(), None)
        invariant fields <= toDestroy && live <= was && owner == h.owner && holder == h.holder
        invariant Shrunk(h.refs, refs) && OnlyFieldsGone(h, refs, h.live - live)
        invariant KeepsSupport(old(H()), H())
        decreases fields
      {
        var f :| f in fields;
        ghost var k, all := H(), doomed + fields;
        DoomedExist(k, all, f);
        FieldKeepsSupport(k, all, f);
        SupportOn(old(H()), k, k.(refs := refs - {f}));
        var t := refs[f];
        fields := fields - {f};
        assert doomed + fields == all - {f};
        Unpointed(k, k.(refs := refs - {f}), f);
        DoomedLess(k, k.(refs := refs - {f}), all, doomed + fields, f);
        FieldGone(h, refs, f, n, h.live - live);
        refs := refs - {f};
        if t.Some? {
          PointsToLive(k, f);
          ghost var mid := H();
          var _ := DecRefNode(owner[t.value], doomed + fields);
          GoneOn(h, mid, refs, live);
          SupportOn(old(H()), mid, H());
        }
      }
      assert doomed + fields == doomed;
    }

    /** ~Ref: a Ref that is not a field of a node goes out of scope, or a live node drops a field. */
    method DestroyRef(r: nat)
      requires Sound(H()) && r in refs
      modifies `live, `refCount, `refs
      ensures Sound(H()) && r !in refs && live <= old(live) && Shrunk(old(refs), refs)
      ensures OnlyFieldsGone(old(H()).(refs := old(refs) - {r}), refs, old(live) - live)
    {
      hide Held, Counted, NoDangling, RefsTo;
      var t := refs[r];
      ghost var h := H();
      Unpointed(h, h.(refs := refs - {r}), r);
      HeldLess(h, h.(refs := refs - {r}));
      refs := refs - {r};
      if t.Some? {
        PointsToLive(h, r);
        var _ := DecRefNode(owner[t.value], {});
      }
    }

    /** Ref::decRef: lets go of the node that r points to. */
    method DecRef(r: nat)
      requires Sound(H()) && r in refs
      modifies `live, `refCount, `refs
      ensures Structure(H()) && Held(H(), {}) && Counted(H(), None) && live <= old(live)
      ensures Shrunk(old(refs)[r := None], refs) && OnlyFieldsGone(old(H()), refs, old(live) - live)
      ensures KeepsSupport(old(H()).(refs := old(refs)[r := None]), H())
    {
      hide Held, Counted, NoDangling, RefsTo, PointsTo, KeepsSupport;
      var t := refs[r];
      ghost var h := H();
      Unpointed(h, h.(refs := refs[r := None]), r);
      HeldSame(h, h.(refs := refs[r := None]));
      SameSupport(h.(refs := refs[r := None]), h.(refs := refs[r := None]));
      refs := refs[r := None];
      if t.Some? {
        PointsToLive(h, r);
        var _ := DecRefNode(owner[t.value], {});
      }
    }

    /** Ref::setNode. The old node is released before the new one is acquired: the assignment is defined
        (ok) exactly when this release deletes neither the new node nor the node that holds r. */
    method SetNode(r: nat, t: Option<nat>) returns (ok: bool)
      requires Sound(H()) && r in refs && (t.Some? ==> t.value in owner && owner[t.value] in live)
      modifies `live, `refCount, `refs, `untouched
      ensures ok <==> old(refs)[r] == t || Survives(old(H()), r, t)
      ensures Sound(H()) && live <= old(live)
      ensures ok ==> r in refs && refs[r] == t
      ensures ok ==> Shrunk(old(refs)[r := t], refs)
      ensures !ok ==> Shrunk(old(refs)[r := None], refs)
      ensures OnlyFieldsGone(old(H()), refs, old(live) - live)
    {
      hide Held, Counted, RefsTo, PointsTo, Survives, NoDangling, Shrunk, OnlyFieldsGone, KeepsSupport;
      if refs[r] == t {
        NothingGone(H());
        assert refs[r := t] == refs;
        return true;
      }
      ghost var h := H();
      DecRef(r);
      ghost var k := H();
      SurvivalDecides(h, r, t, k);
      if r !in refs || (t.Some? && owner[t.value] !in live) {
        return false;
      }
      HolderLives(k, r);
      StillThere(h.refs[r := None], refs, r);
      PointedIsSound(k, r, t, holder[r]);
      assert holder[r := holder[r]] == holder;
      Reassigned(h, refs, r, t, h.live - live);
      refs := refs[r := t];
      IncRefNode(t);
      assert H() == Pointed(k, r, t).(holder := holder[r := holder[r]]);
      ok := true;
    }
  }

  /** k is what is left of h after r has let go. */
  lemma SurvivalDecides(h: Heap, r: nat, t: Option<nat>, k: Heap)
    requires r in h.refs && h.refs.Keys <= h.holder.Keys && (t.Some? ==> t.value in h.owner)
    requires Structure(k) && Held(k, {}) && Counted(k, None) && Shrunk(h.refs[r := None], k.refs)
    requires k.owner == h.owner && k.holder == h.holder && k.untouched == h.untouched && k.live <= h.live
    requires OnlyFieldsGone(h, k.refs, h.live - k.live) && KeepsSupport(h.(refs := h.refs[r := None]), k)
    ensures Survives(h, r, t) <==> r in k.refs && (t.Some? ==> h.owner[t.value] in k.live)
  {
    if Survives(h, r, t) {
      var kept :| Support(h, kept, r) && Holds(h, kept, r, t);
      ReleaseKeepsSupport(h, kept, r);
      assert Support(k, kept, r);
    }
    if r in k.refs && (t.Some? ==> h.owner[t.value] in k.live) {
      LiveSupport(h, k, r);
      assert Holds(h, k.live, r, t);
    }
  }

  /** An assignment to a Ref that is no field is safe when another such Ref keeps the new node, or the
      new node is fresh. */
  lemma RootSurvives(h: Heap, r: nat, t: Option<nat>)
    requires Structure(h) && r in h.refs && h.holder[r].None?
    requires (t.Some? ==> t.value in h.owner && h.owner[t.value] in h.live)
    requires t.Some? ==>
      h.owner[t.value] in h.untouched ||
      exists s :: s != r && s in h.holder && h.holder[s].None? && PointsTo(h, s, h.owner[t.value])
    ensures Survives(h, r, t)
  {
    var kept := if t.Some? then {h.owner[t.value]} else {};
    if t.Some? && h.owner[t.value] !in h.untouched {
      var s :| s != r && s in h.holder && h.holder[s].None? && PointsTo(h, s, h.owner[t.value]);
      assert Keeper(h, kept, r, s, h.owner[t.value]);
    }
    assert Support(h, kept, r) && Holds(h, kept, r, t);
  }

  /** So is one to a field of a node that a Ref which is no field keeps, when another field of that node
      keeps the new one, or the new node is fresh. */
  lemma FieldSurvives(h: Heap, r: nat, t: nat, home: nat, q: nat, s: nat)
    requires Structure(h) && r in h.refs && h.holder[r] == Some(home) && home in h.live && t in h.owner
    requires h.owner[t] in h.live
    requires q != r && q in h.holder && h.holder[q].None? && PointsTo(h, q, home)
    requires h.owner[t] in h.untouched ||
               (s != r && s in h.holder && h.holder[s] == Some(home) && PointsTo(h, s, h.owner[t]))
    ensures Survives(h, r, Some(t))
  {
    var kept := {home, h.owner[t]};
    assert Keeper(h, kept, r, q, home);
    assert h.owner[t] !in h.untouched ==> Keeper(h, kept, r, s, h.owner[t]);
    assert Support(h, kept, r) && Holds(h, kept, r, Some(t));
  }

  lemma SupportOn(h: Heap, mid: Heap, k: Heap)
    requires KeepsSupport(h, mid) && KeepsSupport(mid, k)
    ensures KeepsSupport(h, k)
  {}

  lemma StillThere(before: map<nat, Option<nat>>, refs: map<nat, Option<nat>>, r: nat)
    requires Shrunk(before, refs) && r in refs
    ensures r in before && refs[r] == before[r]
  {}

  lemma Reassigned(h: Heap, refs: map<nat, Option<nat>>, r: nat, t: Option<nat>, gone: set<nat>)
    requires Shrunk(h.refs[r := None], refs) && OnlyFieldsGone(h, refs, gone) && r in refs
    ensures Shrunk(h.refs[r := t], refs[r := t]) && OnlyFieldsGone(h, refs[r := t], gone)
  {}

  lemma HolderLives(h: Heap, r: nat)
    requires Held(h, {}) && r in h.refs
    ensures r in h.holder && (h.holder[r].Some? ==> h.holder[r].value in h.live)
  {}

  lemma PointsToLive(h: Heap, r: nat)
    requires Structure(h) && r in h.refs
    ensures h.refs[r].Some? ==> h.refs[r].value in h.owner && h.owner[h.refs[r].value] in h.live
  {}

  lemma DoomedExist(h: Heap, doomed: set<nat>, r: nat)
    requires Held(h, doomed) && r in doomed
    ensures r in h.refs
  {}

  lemma DoomedLess(h: Heap, k: Heap, doomed: set<nat>, fewer: set<nat>, f: nat)
    requires Held(h, doomed) && f in doomed && fewer == doomed - {f} && k == h.(refs := h.refs - {f})
    ensures Held(k, fewer)
  {}

  lemma HeldLess(h: Heap, k: Heap)
    requires Held(h, {}) && k.holder == h.holder && k.live == h.live && k.refs.Keys <= h.refs.Keys
    ensures Held(k, {})
  {}

  lemma HeldSame(h: Heap, k: Heap)
    requires Held(h, {}) && k.holder == h.holder && k.live == h.live && k.refs.Keys == h.refs.Keys
    ensures Held(k, {})
  {}

  lemma NothingGone(h: Heap)
    requires h.refs.Keys <= h.holder.Keys
    ensures forall gone :: OnlyFieldsGone(h, h.refs, gone)
    ensures Shrunk(h.refs, h.refs)
  {}

  lemma FieldGone(h: Heap, refs: map<nat, Option<nat>>, f: nat, n: nat, gone: set<nat>)
    requires OnlyFieldsGone(h, refs, gone) && Shrunk(h.refs, refs) && n in gone && f in h.holder
    requires h.holder[f] == Some(n)
    ensures OnlyFieldsGone(h, refs - {f}, gone) && Shrunk(h.refs, refs - {f})
  {}

  lemma GoneOn(h: Heap, mid: Heap, refs: map<nat, Option<nat>>, live: set<nat>)
    requires OnlyFieldsGone(h, mid.refs, h.live - mid.live) && OnlyFieldsGone(mid, refs, mid.live - live)
    requires mid.holder == h.holder && live <= mid.live <= h.live && Shrunk(h.refs, mid.refs) && Shrunk(mid.refs, refs)
    ensures OnlyFieldsGone(h, refs, h.live - live) && Shrunk(h.refs, refs)
  {}

  lemma SameHeld(h: Heap, k: Heap, doomed: set<nat>)
    requires Held(h, doomed) && k.refs == h.refs && k.holder == h.holder && k.live == h.live
    ensures Held(k, doomed)
  {}
}
