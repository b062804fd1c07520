/** Array layout conversion of jmi_array_none.c (TRANSPOSE_FUNC): row-major to column-major and back. */
module ArrayLayout {

  // ----- Arithmetic -----

  function Times(a: nat, b: nat): nat {
    a * b
  }

  lemma TimesAssoc(a: nat, b: nat, c: nat)
    ensures Times(Times(a, b), c) == Times(a, Times(b, c))
  {}

  lemma TimesDistributes(a: nat, b: nat, c: nat)
    ensures Times(a, b + c) == Times(a, b) + Times(a, c)
  {}

  lemma TimesComm(a: nat, b: nat)
    ensures Times(a, b) == Times(b, a)
  {}

  lemma DivMod(x: nat, q: nat, r: nat, s: nat)
    requires r < s && x == r + Times(s, q)
    ensures x % s == r && x / s == q
  {
    Unique(x / s - q, x % s - r, s);
  }

  lemma Unique(a: int, b: int, s: int)
    requires 0 - s < b < s && a * s + b == 0
    ensures a == 0 && b == 0
  {
    if a > 0 { AwayFromZero(a, s); }
    if a < 0 { AwayFromZero(-a, s); }
  }

  lemma AwayFromZero(a: int, s: int)
    requires a > 0 && s > 0
    ensures a * s >= s
  {}

  lemma TimesZero(a: nat)
    ensures Times(a, 0) == 0 && Times(0, a) == 0
  {}

  lemma DivModBack(x: nat, s: nat)
    requires s > 0
    ensures x == x % s + Times(s, x / s)
  {}

  // ----- Mixed radix -----

  function Product(sizes: seq<nat>): nat {
    if sizes == [] then 1 else Times(Product(sizes[..|sizes| - 1]), sizes[|sizes| - 1])
  }

  ghost predicate Positive(sizes: seq<nat>) {
    forall k :: 0 <= k < |sizes| ==> sizes[k] > 0
  }

  /** idx is an index into an array of these sizes. */
  ghost predicate IsIndex(sizes: seq<nat>, idx: seq<nat>) {
    |idx| == |sizes| && forall k :: 0 <= k < |idx| ==> idx[k] < sizes[k]
  }

  /** The position with the first index running fastest: column-major. */
  function ColumnMajor(sizes: seq<nat>, idx: seq<nat>): nat
    requires |idx| == |sizes|
  {
    if sizes == [] then 0
    else
      var l := |sizes| - 1;
      ColumnMajor(sizes[..l], idx[..l]) + Times(Product(sizes[..l]), idx[l])
  }

  /** The position with the last index running fastest: row-major. */
  function RowMajor(sizes: seq<nat>, idx: seq<nat>): nat
    requires |idx| == |sizes|
  {
    if sizes == [] then 0
    else
      var l := |sizes| - 1;
      Times(RowMajor(sizes[..l], idx[..l]), sizes[l]) + idx[l]
  }

  /** What is left of i after dividing by all sizes. */
  function Rest(sizes: seq<nat>, i: nat): nat
    requires Positive(sizes)
  {
    if sizes == [] then i else Rest(sizes[..|sizes| - 1], i) / sizes[|sizes| - 1]
  }

  /** The digits of i, the first size first. */
  function Digits(sizes: seq<nat>, i: nat): (idx: seq<nat>)
    requires Positive(sizes)
    ensures IsIndex(sizes, idx)
  {
    if sizes == [] then []
    else
      var l := |sizes| - 1;
      Digits(sizes[..l], i) + [Rest(sizes[..l], i) % sizes[l]]
  }

  /** Where the element for position i comes from: the digit loop. */
  function Source(sizes: seq<nat>, i: nat): nat
    requires Positive(sizes)
  {
    RowMajor(sizes, Digits(sizes, i))
  }

  lemma {:induction false} ProductPositive(sizes: seq<nat>)
    requires Positive(sizes)
    ensures Product(sizes) > 0
  {
    if sizes != [] {
      ProductPositive(sizes[..|sizes| - 1]);
      AtLeast(Product(sizes[..|sizes| - 1]), sizes[|sizes| - 1]);
    }
  }

  lemma AtLeast(a: nat, b: nat)
    requires a > 0 && b > 0
    ensures Times(a, b) >= a && Times(a, b) >= b
  {}

  lemma {:induction false} DigitsOfPosition(sizes: seq<nat>, i: nat)
    requires Positive(sizes)
    ensures i == ColumnMajor(sizes, Digits(sizes, i)) + Times(Product(sizes), Rest(sizes, i))
  {
    if sizes != [] {
      var l := |sizes| - 1;
      var init, s := sizes[..l], sizes[l];
      DigitsOfPosition(init, i);
      assert Digits(sizes, i)[..l] == Digits(init, i);
      var r := Rest(init, i);
      DivModBack(r, s);
      TimesDistributes(Product(init), r % s, Times(s, r / s));
      TimesAssoc(Product(init), s, r / s);
    }
  }

  lemma {:induction false} PositionDigits(sizes: seq<nat>, idx: seq<nat>, q: nat)
    requires IsIndex(sizes, idx)
    ensures Positive(sizes)
    ensures Digits(sizes, ColumnMajor(sizes, idx) + Times(Product(sizes), q)) == idx
    ensures Rest(sizes, ColumnMajor(sizes, idx) + Times(Product(sizes), q)) == q
  {
    if sizes != [] {
      var l := |sizes| - 1;
      var init, s, x := sizes[..l], sizes[l], idx[l];
      var q0 := x + Times(s, q);
      PositionDigits(init, idx[..l], q0);
      TimesAssoc(Product(init), s, q);
      TimesDistributes(Product(init), x, Times(s, q));
      DivMod(q0, q, x, s);
      assert idx == idx[..l] + [x];
    }
  }

  lemma {:induction false} ColumnMajorInRange(sizes: seq<nat>, idx: seq<nat>)
    requires IsIndex(sizes, idx)
    ensures ColumnMajor(sizes, idx) < Product(sizes)
  {
    if sizes != [] {
      var l := |sizes| - 1;
      ColumnMajorInRange(sizes[..l], idx[..l]);
      NextDigit(Product(sizes[..l]), idx[l], sizes[l]);
    }
  }

  lemma NextDigit(p: nat, x: nat, s: nat)
    requires x < s
    ensures p + Times(p, x) <= Times(p, s)
  {
    assert Times(p, s) == Times(p, x) + Times(p, s - x);
    assert s - x >= 1;
    assert Times(p, s - x) >= p by { Grows(p, s - x); }
  }

  lemma Grows(p: nat, k: nat)
    requires k >= 1
    ensures Times(p, k) >= p
  {
    assert Times(p, k) == p + p * (k - 1);
  }

  // ----- Reversing the order of the dimensions -----

  function Reversed<T>(xs: seq<T>): (r: seq<T>)
    ensures |r| == |xs| && forall k :: 0 <= k < |r| ==> r[k] == xs[|xs| - 1 - k]
  {
    if xs == [] then [] else [xs[|xs| - 1]] + Reversed(xs[..|xs| - 1])
  }

  lemma {:induction false} ProductCons(s: nat, sizes: seq<nat>)
    ensures Product([s] + sizes) == Times(s, Product(sizes))
  {
    if sizes == [] {
      assert [s] + sizes == [s];
      assert Product([s]) == Times(Product([]), s);
    } else {
      var l := |sizes| - 1;
      assert ([s] + sizes)[..l + 1] == [s] + sizes[..l];
      ProductCons(s, sizes[..l]);
      TimesAssoc(s, Product(sizes[..l]), sizes[l]);
    }
  }

  lemma {:induction false} ColumnMajorCons(s: nat, x: nat, sizes: seq<nat>, idx: seq<nat>)
    requires |idx| == |sizes|
    ensures ColumnMajor([s] + sizes, [x] + idx) == x + Times(s, ColumnMajor(sizes, idx))
  {
    if sizes == [] {
      assert [s] + sizes == [s] && [x] + idx == [x];
      assert [s][..0] == [] && [x][..0] == [];
    } else {
      var l := |sizes| - 1;
      var init, last := sizes[..l], idx[..l];
      assert ([s] + sizes)[..l + 1] == [s] + init && ([x] + idx)[..l + 1] == [x] + last;
      ColumnMajorCons(s, x, init, last);
      ProductCons(s, init);
      TimesAssoc(s, Product(init), idx[l]);
      TimesDistributes(s, ColumnMajor(init, last), Times(Product(init), idx[l]));
    }
  }

  /** Row-major is column-major with the dimensions in the other order. */
  lemma {:induction false} ReversedLayout(sizes: seq<nat>, idx: seq<nat>)
    requires |idx| == |sizes|
    ensures ColumnMajor(Reversed(sizes), Reversed(idx)) == RowMajor(sizes, idx)
    ensures Product(Reversed(sizes)) == Product(sizes)
  {
    if sizes != [] {
      var l := |sizes| - 1;
      ReversedLayout(sizes[..l], idx[..l]);
      ColumnMajorCons(sizes[l], idx[l], Reversed(sizes[..l]), Reversed(idx[..l]));
      ProductCons(sizes[l], Reversed(sizes[..l]));
      TimesComm(RowMajor(sizes[..l], idx[..l]), sizes[l]);
      TimesComm(Product(sizes[..l]), sizes[l]);
    }
  }

  lemma ReversedTwice<T>(xs: seq<T>)
    ensures Reversed(Reversed(xs)) == xs
  {}

  lemma ReversedIndex(sizes: seq<nat>, idx: seq<nat>)
    requires IsIndex(sizes, idx)
    ensures IsIndex(Reversed(sizes), Reversed(idx))
  {}

  lemma RowMajorInRange(sizes: seq<nat>, idx: seq<nat>)
    requires IsIndex(sizes, idx)
    ensures RowMajor(sizes, idx) < Product(sizes)
  {
    ReversedIndex(sizes, idx);
    ReversedLayout(sizes, idx);
    ColumnMajorInRange(Reversed(sizes), Reversed(idx));
  }

  // ----- The digit loop is a permutation -----

  /** The element for column-major position of idx comes from its row-major position. */
  lemma SourceOfIndex(sizes: seq<nat>, idx: seq<nat>)
    requires IsIndex(sizes, idx)
    ensures Positive(sizes) && Source(sizes, ColumnMajor(sizes, idx)) == RowMajor(sizes, idx)
  {
    hide Digits, ColumnMajor, RowMajor, Times;
    TimesZero(Product(sizes));
    PositionDigits(sizes, idx, 0);
  }

  /** With the sizes reversed, the other way round. */
  lemma SourceOfIndexReversed(sizes: seq<nat>, idx: seq<nat>)
    requires IsIndex(sizes, idx)
    ensures Positive(Reversed(sizes)) && Source(Reversed(sizes), RowMajor(sizes, idx)) == ColumnMajor(sizes, idx)
  {
    var rs, ri := Reversed(sizes), Reversed(idx);
    ReversedIndex(sizes, idx);
    ReversedLayout(sizes, idx);
    SourceOfIndex(rs, ri);
    ReversedLayout(rs, ri);
    ReversedTwice(sizes);
    ReversedTwice(idx);
  }

  lemma RestIsZero(sizes: seq<nat>, i: nat)
    requires Positive(sizes) && i < Product(sizes)
    ensures i == ColumnMajor(sizes, Digits(sizes, i))
  {
    DigitsOfPosition(sizes, i);
    if Rest(sizes, i) > 0 { AtLeast(Product(sizes), Rest(sizes, i)); }
  }

  /** Source maps 0..n-1 into itself, and the loop with the sizes reversed undoes it. */
  lemma SourceIsPermutation(sizes: seq<nat>, i: nat)
    requires Positive(sizes) && i < Product(sizes)
    ensures Source(sizes, i) < Product(sizes)
    ensures Positive(Reversed(sizes)) && Product(Reversed(sizes)) == Product(sizes)
    ensures Source(Reversed(sizes), Source(sizes, i)) == i
  {
    var idx := Digits(sizes, i);
    RestIsZero(sizes, i);
    RowMajorInRange(sizes, idx);
    SourceOfIndexReversed(sizes, idx);
    ReversedLayout(sizes, idx);
  }

  // ----- The loop -----

  /** The sizes in the order in which the loop takes them. */
  function LoopOrder(size: seq<nat>, toFortran: bool): (r: seq<nat>)
    ensures |r| == |size|
    ensures forall k :: 0 <= k < |r| ==> r[k] == size[if toFortran then k else |size| - k - 1]
    ensures Positive(size) ==> Positive(r)
  {
    if toFortran then size else Reversed(size)
  }

  lemma {:induction false} PrefixProduct(sizes: seq<nat>, k: nat)
    requires Positive(sizes) && k <= |sizes|
    ensures Product(sizes[..k]) <= Product(sizes)
  {
    if k == |sizes| {
      assert sizes[..k] == sizes;
    } else {
      var l := |sizes| - 1;
      PrefixProduct(sizes[..l], k);
      assert sizes[..l][..k] == sizes[..k];
      ProductPositive(sizes[..l]);
      AtLeast(Product(sizes[..l]), sizes[l]);
    }
  }

  /** One round of the digit loop. */
  lemma LoopStep(order: seq<nat>, k: nat, i: nat)
    requires Positive(order) && k < |order|
    ensures Source(order[..k + 1], i) == Times(Source(order[..k], i), order[k]) + Rest(order[..k], i) % order[k]
    ensures Rest(order[..k + 1], i) == Rest(order[..k], i) / order[k]
    ensures Source(order[..k + 1], i) < Product(order)
  {
    var now, idx := order[..k + 1], Digits(order[..k + 1], i);
    assert now[..k] == order[..k] && now[k] == order[k];
    assert idx[..k] == Digits(order[..k], i);
    RowMajorInRange(now, idx);
    PrefixProduct(order, k + 1);
  }

  /** The digits of i by repeated division, put together again with the first digit most significant.
      j never exceeds the number of elements. */
  method DigitLoop(size: seq<nat>, toFortran: bool, i: nat, n: nat) returns (j: nat)
    requires Positive(size) && n == Product(LoopOrder(size, toFortran)) && i < n
    ensures j == Source(LoopOrder(size, toFortran), i) && j < n
  {
    hide Source, Rest, Product, Positive;
    ghost var order := LoopOrder(size, toFortran);
    var dim := |size|;
    var tmp1, tmp2: nat := i, 0;
    j := 0;
    LoopStart(order, i);
    for k := 0 to dim
      invariant forall l :: 0 <= l <= |order| ==> Positive(order[..l])
      invariant j == Source(order[..k], i) && tmp1 == Rest(order[..k], i) && j < n
    {
      var s := size[if toFortran then k else dim - k - 1];
      LoopStep(order, k, i);
      IsPositive(order, k);
      tmp2 := tmp1 % s;
      tmp1 := tmp1 / s;
      j := Times(j, s);
      j := j + tmp2;
    }
    assert order[..dim] == order;
  }

  lemma LoopStart(order: seq<nat>, i: nat)
    requires Positive(order) && i < Product(order)
    ensures Source(order[..0], i) == 0 && Rest(order[..0], i) == i
    ensures forall l :: 0 <= l <= |order| ==> Positive(order[..l])
  {}

  lemma IsPositive(order: seq<nat>, k: nat)
    requires Positive(order) && k < |order|
    ensures order[k] > 0
  {}

  lemma {:induction false} NoZeroSize(sizes: seq<nat>)
    requires Product(sizes) > 0
    ensures Positive(sizes)
  {
    if sizes != [] {
      var l := |sizes| - 1;
      TimesZero(Product(sizes[..l]));
      TimesZero(sizes[l]);
      NoZeroSize(sizes[..l]);
    }
  }

  /** Element i of the result is the converted element of the source place. */
  ghost predicate MovedAt<S, T>(order: seq<nat>, i: nat, from: seq<S>, to: seq<T>, cast: S -> T)
    requires Positive(order) && i < |to|
  {
    Source(order, i) < |from| && to[i] == cast(from[Source(order, i)])
  }

  /** The first n elements of `to` are those of `from`, moved by the loop. */
  ghost predicate MovedBy<S, T>(size: seq<nat>, toFortran: bool, from: seq<S>, to: seq<T>, cast: S -> T) {
    && |from| >= Product(size) && |to| >= Product(size)
    && (Product(size) > 0 ==> Positive(LoopOrder(size, toFortran)))
    && forall i: nat :: i < Product(size) ==> MovedAt(LoopOrder(size, toFortran), i, from, to, cast)
  }

  /** jmi_matrix_to_fortran_* and jmi_matrix_from_fortran_*; cast converts the elements. */
  method Transpose<S, T>(size: seq<nat>, toFortran: bool, src: array<S>, dest: array<T>, cast: S -> T)
    requires src.Length >= Product(size) && dest.Length >= Product(size)
    requires (src as object) != (dest as object)
    modifies dest
    ensures MovedBy(size, toFortran, src[..], dest[..], cast)
    ensures dest[Product(size)..] == old(dest[Product(size)..])
  {
    hide Source, Product, Positive;
    var n := Product(size);
    ghost var order := LoopOrder(size, toFortran);
    if n > 0 { NoZeroSize(size); }
    SameProduct(size);
    for i := 0 to n
      invariant n > 0 ==> Positive(size) && Positive(order)
      invariant forall k: nat :: k < i ==> Source(order, k) < n && dest[k] == cast(src[Source(order, k)])
      invariant forall k :: n <= k < dest.Length ==> dest[k] == old(dest[k])
    {
      var j := DigitLoop(size, toFortran, i, n);
      dest[i] := cast(src[j]);
    }
    forall i: nat | i < n ensures MovedAt(order, i, src[..], dest[..], cast) {
      assert src[..][Source(order, i)] == src[Source(order, i)];
    }
  }

  lemma SameProduct(size: seq<nat>)
    ensures Product(Reversed(size)) == Product(size)
  {
    ReversedLayout(size, size);
  }

  /** What to-Fortran does to the element at an index: row-major place to column-major place. */
  lemma MovesEveryElement<S, T>(size: seq<nat>, from: seq<S>, to: seq<T>, cast: S -> T, idx: seq<nat>)
    requires MovedBy(size, true, from, to, cast) && IsIndex(size, idx)
    ensures ColumnMajor(size, idx) < |to| && RowMajor(size, idx) < |from|
    ensures to[ColumnMajor(size, idx)] == cast(from[RowMajor(size, idx)])
  {
    ColumnMajorInRange(size, idx);
    RowMajorInRange(size, idx);
    SourceOfIndex(size, idx);
    assert MovedAt(LoopOrder(size, true), ColumnMajor(size, idx), from, to, cast);
  }

  lemma OtherOrder(size: seq<nat>, toFortran: bool)
    ensures LoopOrder(size, toFortran) == Reversed(LoopOrder(size, !toFortran))
    ensures Product(LoopOrder(size, toFortran)) == Product(size)
  {
    SameProduct(size);
    ReversedTwice(size);
  }

  lemma RoundTripAt<S, T>(home: seq<nat>, i: nat, a: seq<S>, b: seq<T>, c: seq<S>, there: S -> T, back: T -> S)
    requires Positive(home) && Positive(Reversed(home)) && i < Product(home) && Product(home) <= |a|
    requires Product(home) <= |b| && i < |c|
    requires MovedAt(home, i, b, c, back)
    requires forall k: nat :: k < Product(home) ==> MovedAt(Reversed(home), k, a, b, there)
    requires forall k :: 0 <= k < Product(home) ==> back(there(a[k])) == a[k]
    ensures c[i] == a[i]
  {
    hide Source, Product, Reversed, Positive;
    SourceIsPermutation(home, i);
    assert MovedAt(Reversed(home), Source(home, i), a, b, there);
  }

  /** From-Fortran after to-Fortran, and to-Fortran after from-Fortran, give the elements back. */
  lemma RoundTrip<S, T>(size: seq<nat>, toFortran: bool, a: seq<S>, b: seq<T>, c: seq<S>, there: S -> T, back: T -> S)
    requires MovedBy(size, toFortran, a, b, there) && MovedBy(size, !toFortran, b, c, back)
    requires forall k :: 0 <= k < Product(size) ==> back(there(a[k])) == a[k]
    ensures c[..Product(size)] == a[..Product(size)]
  {
    hide Source, Product, Positive, Reversed, LoopOrder, MovedAt;
    var home := LoopOrder(size, !toFortran);
    OtherOrder(size, toFortran);
    OtherOrder(size, !toFortran);
    forall i: nat | i < Product(size) ensures c[i] == a[i] {
      RoundTripAt(home, i, a, b, c, there, back);
    }
  }
}
