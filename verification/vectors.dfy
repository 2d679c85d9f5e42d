/**
 * Points, the relation that holds them, and the Manhattan segmental
 * distance PROCLUS assigns points with.
 *
 * Coordinates are Dafny reals.  The one floating-point value the model keeps
 * is NaN, because the segmental distance over an empty dimension set is
 * `0.0 / 0` in the Java code and such distances do take part in the
 * argmin of the assignment step.
 */
module Vectors {

  /** A database object identifier (DBID). */
  type Id = nat

  /** A number vector; `v[d]` is its value on dimension `d`. */
  type Vector = seq<real>

  predicate Distinct<T(==)>(s: seq<T>) {
    forall i, j :: 0 <= i < j < |s| ==> s[i] != s[j]
  }

  /** The elements of a sequence, as a set. */
  function Elements<T>(s: seq<T>): set<T> {
    set x | x in s
  }

  /** A duplicate-free sequence has as many elements as positions. */
  lemma {:induction false} DistinctCardinality<T>(s: seq<T>)
    requires Distinct(s)
    ensures |Elements(s)| == |s|
    decreases |s|
  {
    if |s| > 0 {
      DistinctCardinality(s[1..]);
      assert Elements(s) == {s[0]} + Elements(s[1..]);
      assert s[0] !in Elements(s[1..]);
    }
  }

  /** Every dimension index in `dims` addresses a vector of length `n`. */
  predicate InRange(dims: seq<nat>, n: nat) {
    forall i :: 0 <= i < |dims| ==> dims[i] < n
  }

  function Abs(x: real): (r: real)
    ensures r >= 0.0
    ensures r == x || r == -x
  {
    if x < 0.0 then -x else x
  }

  /**
   * The relation PROCLUS runs on: its identifiers in iteration order, the
   * vector of each object, and the common dimensionality.
   */
  datatype Relation = Relation(ids: seq<Id>, vec: map<Id, Vector>, dim: nat) {

    predicate Valid() {
      && Distinct(ids)
      && (forall id :: id in ids ==> id in vec)
      && (forall id :: id in vec ==> |vec[id]| == dim)
    }

    /** `relation.size()`. */
    function Size(): nat {
      |ids|
    }
  }

  /**
   * A `DoubleDistance`.  Distances are compared with `Double.compare`, under
   * which NaN lies above every number and equals itself.
   */
  datatype Distance = Num(value: real) | NaN

  /** `a.compareTo(b) < 0`. */
  predicate Less(a: Distance, b: Distance) {
    match a
    case NaN => false
    case Num(x) => b.NaN? || x < b.value
  }

  /** `Less` is a strict total order, so an argmin under it is well defined. */
  lemma LessIsStrictTotalOrder(a: Distance, b: Distance, c: Distance)
    ensures !Less(a, a)
    ensures Less(a, b) ==> !Less(b, a)
    ensures Less(a, b) && Less(b, c) ==> Less(a, c)
    ensures a != b ==> Less(a, b) || Less(b, a)
  {
  }

  // ----- sums --------------------------------------------------------------

  /** The sum of `g` over the elements of `xs`, in order. */
  function SumOver<T>(xs: seq<T>, g: T -> real): real
    decreases |xs|
  {
    if |xs| == 0 then 0.0 else g(xs[0]) + SumOver(xs[1..], g)
  }

  lemma {:induction false} SumOverNonNegative<T>(xs: seq<T>, g: T -> real)
    requires forall i :: 0 <= i < |xs| ==> g(xs[i]) >= 0.0
    ensures SumOver(xs, g) >= 0.0
    decreases |xs|
  {
    if |xs| > 0 {
      assert forall i :: 0 <= i < |xs[1..]| ==> xs[1..][i] == xs[i + 1];
      SumOverNonNegative(xs[1..], g);
    }
  }

  /** Dividing every term by `n` divides the sum by `n`. */
  lemma {:induction false} SumOverScaled<T>(xs: seq<T>, g: T -> real, h: T -> real, n: real)
    requires n != 0.0
    requires forall i :: 0 <= i < |xs| ==> g(xs[i]) == h(xs[i]) / n
    ensures SumOver(xs, g) == SumOver(xs, h) / n
    decreases |xs|
  {
    if |xs| > 0 {
      assert forall i :: 0 <= i < |xs[1..]| ==> xs[1..][i] == xs[i + 1];
      SumOverScaled(xs[1..], g, h, n);
      AddDiv(h(xs[0]), SumOver(xs[1..], h), n);
    }
  }

  lemma AddDiv(a: real, b: real, n: real)
    requires n != 0.0
    ensures a / n + b / n == (a + b) / n
  {
  }

  /** Taking one element out of the list takes its term out of the sum. */
  lemma {:induction false} SumOverRemoveAt<T>(xs: seq<T>, g: T -> real, i: nat)
    requires i < |xs|
    ensures SumOver(xs, g) == g(xs[i]) + SumOver(xs[..i] + xs[i + 1..], g)
    decreases i
  {
    var rest := xs[..i] + xs[i + 1..];
    if i == 0 {
      assert rest == xs[1..];
    } else {
      var tail := xs[1..];
      SumOverRemoveAt(tail, g, i - 1);
      assert tail[i - 1] == xs[i];
      assert rest == [xs[0]] + (tail[..i - 1] + tail[i..]);
      assert rest[0] == xs[0];
      assert rest[1..] == tail[..i - 1] + tail[i..];
    }
  }

  /** The order of the terms does not matter. */
  lemma {:induction false} SumOverPermutation<T>(xs: seq<T>, ys: seq<T>, g: T -> real)
    requires multiset(xs) == multiset(ys)
    ensures SumOver(xs, g) == SumOver(ys, g)
    decreases |xs|
  {
    if |xs| == 0 {
      assert |multiset(ys)| == 0;
    } else {
      assert xs[0] in multiset(xs);
      var i :| 0 <= i < |ys| && ys[i] == xs[0];
      SumOverRemoveAt(ys, g, i);
      MultisetRemoveAt(ys, i);
      MultisetTail(xs);
      SumOverPermutation(xs[1..], ys[..i] + ys[i + 1..], g);
    }
  }

  lemma MultisetRemoveAt<T>(s: seq<T>, i: nat)
    requires i < |s|
    ensures multiset(s[..i] + s[i + 1..]) == multiset(s) - multiset{s[i]}
  {
    assert s == s[..i] + [s[i]] + s[i + 1..];
  }

  lemma MultisetTail<T>(s: seq<T>)
    requires |s| > 0
    ensures multiset(s[1..]) == multiset(s) - multiset{s[0]}
  {
    assert s == [s[0]] + s[1..];
  }

  // ----- the segmental distance ------------------------------------------

  /** The sum of `|o1[d] - o2[d]|` over the dimensions `d` of `dims`. */
  function SumAbsDiff(o1: Vector, o2: Vector, dims: seq<nat>): (r: real)
    requires InRange(dims, |o1|) && InRange(dims, |o2|)
    ensures r >= 0.0
  {
    if |dims| == 0 then 0.0
    else Abs(o1[dims[0]] - o2[dims[0]]) + SumAbsDiff(o1, o2, dims[1..])
  }

  /**
   * `manhattanSegmentalDistance(o1, o2, dims)`: the mean absolute coordinate
   * difference over `dims`.  For an empty `dims` Java divides 0.0 by 0.
   */
  function SegmentalDistance(o1: Vector, o2: Vector, dims: seq<nat>): (r: Distance)
    requires InRange(dims, |o1|) && InRange(dims, |o2|)
    ensures r.NaN? <==> |dims| == 0
    ensures r.Num? ==> r.value >= 0.0
  {
    if |dims| == 0 then NaN
    else Num(SumAbsDiff(o1, o2, dims) / |dims| as real)
  }

  lemma {:induction false} SumAbsDiffSymmetric(o1: Vector, o2: Vector, dims: seq<nat>)
    requires InRange(dims, |o1|) && InRange(dims, |o2|)
    ensures SumAbsDiff(o1, o2, dims) == SumAbsDiff(o2, o1, dims)
    decreases |dims|
  {
    if |dims| > 0 {
      SumAbsDiffSymmetric(o1, o2, dims[1..]);
    }
  }

  /** The segmental distance does not depend on the order of its arguments. */
  lemma SegmentalDistanceSymmetric(o1: Vector, o2: Vector, dims: seq<nat>)
    requires InRange(dims, |o1|) && InRange(dims, |o2|)
    ensures SegmentalDistance(o1, o2, dims) == SegmentalDistance(o2, o1, dims)
  {
    SumAbsDiffSymmetric(o1, o2, dims);
  }

  lemma {:induction false} SumAbsDiffZero(o1: Vector, o2: Vector, dims: seq<nat>)
    requires InRange(dims, |o1|) && InRange(dims, |o2|)
    ensures SumAbsDiff(o1, o2, dims) == 0.0
            <==> forall i :: 0 <= i < |dims| ==> o1[dims[i]] == o2[dims[i]]
    decreases |dims|
  {
    if |dims| > 0 {
      SumAbsDiffZero(o1, o2, dims[1..]);
      forall i | 1 <= i < |dims|
        ensures o1[dims[i]] == o2[dims[i]] <==> o1[dims[1..][i - 1]] == o2[dims[1..][i - 1]]
      {
      }
    }
  }

  /**
   * Over a non-empty dimension set the distance is zero exactly when the two
   * vectors agree on every selected dimension; in particular a vector is at
   * distance zero from itself.
   */
  lemma SegmentalDistanceZero(o1: Vector, o2: Vector, dims: seq<nat>)
    requires InRange(dims, |o1|) && InRange(dims, |o2|)
    requires |dims| > 0
    ensures SegmentalDistance(o1, o2, dims) == Num(0.0)
            <==> forall i :: 0 <= i < |dims| ==> o1[dims[i]] == o2[dims[i]]
    ensures SegmentalDistance(o1, o1, dims) == Num(0.0)
  {
    SumAbsDiffZero(o1, o2, dims);
    SumAbsDiffZero(o1, o1, dims);
  }

  /** `|o1[j] - o2[j]|` as a term over dimensions. */
  function AbsGap(o1: Vector, o2: Vector): nat -> real {
    (j: nat) => if j < |o1| && j < |o2| then Abs(o1[j] - o2[j]) else 0.0
  }

  /** The loop's sum is the generic sum of the per-dimension gaps. */
  lemma {:induction false} SumAbsDiffIsSumOver(o1: Vector, o2: Vector, dims: seq<nat>)
    requires InRange(dims, |o1|) && InRange(dims, |o2|)
    ensures SumAbsDiff(o1, o2, dims) == SumOver(dims, AbsGap(o1, o2))
    decreases |dims|
  {
    if |dims| > 0 {
      SumAbsDiffIsSumOver(o1, o2, dims[1..]);
    }
  }

  /**
   * The dimensions come from a hash set whose iteration order is arbitrary:
   * any reordering of `dims` gives the same distance.
   */
  lemma SegmentalDistanceOrderFree(o1: Vector, o2: Vector, d1: seq<nat>, d2: seq<nat>)
    requires InRange(d1, |o1|) && InRange(d1, |o2|)
    requires InRange(d2, |o1|) && InRange(d2, |o2|)
    requires multiset(d1) == multiset(d2)
    ensures SegmentalDistance(o1, o2, d1) == SegmentalDistance(o1, o2, d2)
  {
    SumAbsDiffIsSumOver(o1, o2, d1);
    SumAbsDiffIsSumOver(o1, o2, d2);
    SumOverPermutation(d1, d2, AbsGap(o1, o2));
    assert |d1| == |multiset(d1)| == |multiset(d2)| == |d2|;
  }

  lemma {:induction false} SumAbsDiffTriangle(a: Vector, b: Vector, c: Vector, dims: seq<nat>)
    requires InRange(dims, |a|) && InRange(dims, |b|) && InRange(dims, |c|)
    ensures SumAbsDiff(a, c, dims) <= SumAbsDiff(a, b, dims) + SumAbsDiff(b, c, dims)
    decreases |dims|
  {
    if |dims| > 0 {
      SumAbsDiffTriangle(a, b, c, dims[1..]);
    }
  }

  /** For a fixed non-empty dimension set the distance obeys the triangle inequality. */
  lemma SegmentalDistanceTriangle(a: Vector, b: Vector, c: Vector, dims: seq<nat>)
    requires InRange(dims, |a|) && InRange(dims, |b|) && InRange(dims, |c|)
    requires |dims| > 0
    ensures SegmentalDistance(a, c, dims).value
            <= SegmentalDistance(a, b, dims).value + SegmentalDistance(b, c, dims).value
  {
    SumAbsDiffTriangle(a, b, c, dims);
    DivideSum(SumAbsDiff(a, c, dims), SumAbsDiff(a, b, dims), SumAbsDiff(b, c, dims), |dims| as real);
  }

  lemma DivideSum(x: real, y: real, z: real, n: real)
    requires x <= y + z
    requires n > 0.0
    ensures x / n <= y / n + z / n
  {
    assert y / n + z / n == (y + z) / n;
    assert (y + z) / n - x / n == (y + z - x) / n;
  }
}
