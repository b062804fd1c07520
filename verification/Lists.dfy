/** What Python's list comprehensions do: filtering and removing duplicates. */
module Lists {

  ghost predicate NoRepeats<T>(p: seq<T>) {
    forall s, t :: 0 <= s < t < |p| ==> p[s] != p[t]
  }

  ghost function Set<T>(xs: seq<T>): set<T> {
    set x | x in xs
  }

  function Filter<T(!new)>(xs: seq<T>, keep: T -> bool): (r: seq<T>)
    ensures forall x :: x in r <==> x in xs && keep(x)
    ensures NoRepeats(xs) ==> NoRepeats(r)
  {
    if xs == [] then []
    else
      var last := xs[|xs| - 1];
      assert xs == xs[..|xs| - 1] + [last];
      var init := Filter(xs[..|xs| - 1], keep);
      if keep(last) then init + [last] else init
  }

  /** The positions that Filter takes, in order: a description of its result that fixes every element. */
  ghost predicate Takes<T>(xs: seq<T>, keep: T -> bool, r: seq<T>, positions: seq<nat>) {
    && |positions| == |r| && (forall i :: 0 <= i < |r| ==> positions[i] < |xs| && r[i] == xs[positions[i]])
    && (forall i, j :: 0 <= i < j < |r| ==> positions[i] < positions[j])
    && (forall k: nat :: k in positions <==> k < |xs| && keep(xs[k]))
  }

  lemma {:induction false} FilterTakes<T(!new)>(xs: seq<T>, keep: T -> bool) returns (positions: seq<nat>)
    ensures Takes(xs, keep, Filter(xs, keep), positions)
  {
    if xs == [] {
      positions := [];
    } else {
      hide Takes, Filter;
      var last := |xs| - 1;
      positions := FilterTakes(xs[..last], keep);
      TakesNext(xs, keep, Filter(xs[..last], keep), positions);
      FilterNext(xs, keep);
      if keep(xs[last]) { positions := positions + [last]; }
    }
  }

  lemma FilterNext<T(!new)>(xs: seq<T>, keep: T -> bool)
    requires xs != []
    ensures Filter(xs, keep) ==
            Filter(xs[..|xs| - 1], keep) + if keep(xs[|xs| - 1]) then [xs[|xs| - 1]] else []
  {}

  lemma TakesNext<T(!new)>(xs: seq<T>, keep: T -> bool, r: seq<T>, positions: seq<nat>)
    requires xs != [] && Takes(xs[..|xs| - 1], keep, r, positions)
    ensures keep(xs[|xs| - 1]) ==> Takes(xs, keep, r + [xs[|xs| - 1]], positions + [|xs| - 1])
    ensures !keep(xs[|xs| - 1]) ==> Takes(xs, keep, r + [], positions)
  {
    var last := |xs| - 1;
    assert r + [] == r;
    forall i | 0 <= i < |positions| ensures positions[i] < last && xs[positions[i]] == xs[..last][positions[i]] {
      assert positions[i] in positions;
    }
    forall k: nat | k < last ensures k in positions <==> keep(xs[k]) { assert xs[..last][k] == xs[k]; }
  }

  /** chosen are the positions of the elements that are kept. */
  lemma FilterLength<T(!new)>(xs: seq<T>, keep: T -> bool, chosen: set<nat>)
    requires forall k: nat :: k in chosen <==> k < |xs| && keep(xs[k])
    ensures |Filter(xs, keep)| == |chosen|
  {
    var positions := FilterTakes(xs, keep);
    CountDistinct(positions);
    assert Set(positions) == chosen;
  }

  lemma {:induction false} CountDistinct<T>(xs: seq<T>)
    requires NoRepeats(xs)
    ensures |Set(xs)| == |xs|
  {
    if xs != [] {
      var init, last := xs[..|xs| - 1], xs[|xs| - 1];
      CountDistinct(init);
      assert Set(xs) == Set(init) + {last};
      forall k | 0 <= k < |init| ensures init[k] != last { assert xs[k] != xs[|xs| - 1]; }
    }
  }

  function Map<S, T>(xs: seq<S>, f: S -> T): (r: seq<T>)
    ensures |r| == |xs| && forall i :: 0 <= i < |xs| ==> r[i] == f(xs[i])
  {
    seq(|xs|, i requires 0 <= i < |xs| => f(xs[i]))
  }

  function Flatten<T>(parts: seq<seq<T>>): seq<T> {
    if parts == [] then [] else Flatten(parts[..|parts| - 1]) + parts[|parts| - 1]
  }

  /** The first occurrence of every element. */
  function RemoveDuplicates<T(==, !new)>(xs: seq<T>): (r: seq<T>)
    ensures forall x :: x in r <==> x in xs
    ensures NoRepeats(r)
  {
    if xs == [] then []
    else
      var last := xs[|xs| - 1];
      assert xs == xs[..|xs| - 1] + [last];
      var init := RemoveDuplicates(xs[..|xs| - 1]);
      if last in init then init else init + [last]
  }

  /** list.index: the first position of x. */
  function IndexOf<T(==)>(xs: seq<T>, x: T): (i: nat)
    requires x in xs
    ensures i < |xs| && xs[i] == x && x !in xs[..i]
  {
    if xs[0] == x then 0 else
      assert xs == [xs[0]] + xs[1..];
      var rest := IndexOf(xs[1..], x);
      assert xs[..1 + rest] == [xs[0]] + xs[1..][..rest];
      1 + rest
  }

  lemma NotBefore<T>(xs: seq<T>, x: T, i: nat)
    requires i <= |xs| && x !in xs[..i]
    ensures forall k :: 0 <= k < i ==> xs[k] != x
  {
    forall k | 0 <= k < i ensures xs[k] != x {
      assert xs[..i][k] in xs[..i];
    }
  }

  /** Appending leaves the first positions of the elements as they are. */
  lemma IndexOfAppended<T>(xs: seq<T>, y: T, x: T)
    requires x in xs || x == y
    ensures IndexOf(xs + [y], x) == if x in xs then IndexOf(xs, x) else |xs|
  {
    var all, j := xs + [y], IndexOf(xs + [y], x);
    NotBefore(all, x, j);
    if x in xs {
      var i := IndexOf(xs, x);
      NotBefore(xs, x, i);
      assert all[i] == x;
      assert forall k :: 0 <= k < i ==> all[k] == xs[k];
    } else {
      assert all[|xs|] == x;
      assert forall k :: 0 <= k < |xs| ==> all[k] == xs[k] && xs[k] in xs;
    }
  }
}
