/**
 * The selection half of both `findDimensions` overloads of PROCLUS.
 *
 * The z-scores themselves (averages over localities or cluster members,
 * their mean and standard deviation) are inputs: `z[i][j]` is the z-score
 * of entity `i` on dimension `j`.  What is modelled is what the code does
 * with them: one `(z, entity, dimension)` triple per pair, an ascending sort,
 * and the first `max(k * l, 2)` triples distributed over per-entity
 * dimension sets.
 */
module DimensionSelection {
  import opened Outcomes
  import opened Vectors

  /** A `CTriple<Double, key, Integer>`: z-score, entity key, dimension. */
  datatype Triple = Triple(z: real, entity: nat, dim: nat)

  /** The triple order: by z-score, then entity key, then dimension. */
  predicate Le(a: Triple, b: Triple) {
    || a.z < b.z
    || (a.z == b.z && (a.entity < b.entity || (a.entity == b.entity && a.dim <= b.dim)))
  }

  predicate Sorted(s: seq<Triple>) {
    forall i, j :: 0 <= i < j < |s| ==> Le(s[i], s[j])
  }

  /** No two triples of `s` are about the same (entity, dimension) pair. */
  predicate UniquePairs(s: seq<Triple>) {
    forall i, j :: 0 <= i < j < |s| ==> s[i].entity != s[j].entity || s[i].dim != s[j].dim
  }

  /** `Math.max(k * l, 2)`: how many triples are selected. */
  function Budget(k: nat, l: nat): nat {
    if k * l < 2 then 2 else k * l
  }

  // ----- building the triples ---------------------------------------------

  /** The triples of one entity, one per dimension. */
  function Row(e: nat, zs: seq<real>): (r: seq<Triple>)
    ensures |r| == |zs|
    ensures forall j :: 0 <= j < |r| ==> r[j] == Triple(zs[j], e, j)
  {
    seq(|zs|, j requires 0 <= j < |zs| => Triple(zs[j], e, j))
  }

  /** Every row has one z-score per dimension. */
  predicate Rectangular(z: seq<seq<real>>, dim: nat) {
    forall i :: 0 <= i < |z| ==> |z[i]| == dim
  }

  /** The triple list `z_ijs`, entity by entity, dimension by dimension. */
  function Triples(keys: seq<nat>, z: seq<seq<real>>, dim: nat): (r: seq<Triple>)
    requires |keys| == |z| && Rectangular(z, dim)
    ensures |r| == |keys| * dim
    ensures forall i :: 0 <= i < |r| ==> r[i].entity in keys && r[i].dim < dim
    decreases |keys|
  {
    if |keys| == 0 then []
    else Row(keys[0], z[0]) + Triples(keys[1..], z[1..], dim)
  }

  /** `Triple(z[i][j], keys[i], j)` is a triple of the list, and every triple of the list is such a one. */
  lemma {:induction false} TriplesMembers(keys: seq<nat>, z: seq<seq<real>>, dim: nat)
    requires |keys| == |z| && Rectangular(z, dim)
    ensures forall i, j :: 0 <= i < |keys| && 0 <= j < dim ==> Triple(z[i][j], keys[i], j) in Triples(keys, z, dim)
    ensures forall t :: t in Triples(keys, z, dim) ==>
              exists i :: 0 <= i < |keys| && t.dim < dim && t == Triple(z[i][t.dim], keys[i], t.dim)
    decreases |keys|
  {
    if |keys| > 0 {
      TriplesMembers(keys[1..], z[1..], dim);
      var row, tail := Row(keys[0], z[0]), Triples(keys[1..], z[1..], dim);
      assert Triples(keys, z, dim) == row + tail;
      forall i, j | 0 <= i < |keys| && 0 <= j < dim
        ensures Triple(z[i][j], keys[i], j) in Triples(keys, z, dim)
      {
        if i == 0 {
          assert row[j] == Triple(z[i][j], keys[i], j);
        } else {
          assert keys[1..][i - 1] == keys[i] && z[1..][i - 1] == z[i];
        }
      }
      forall t | t in Triples(keys, z, dim)
        ensures exists i :: 0 <= i < |keys| && t.dim < dim && t == Triple(z[i][t.dim], keys[i], t.dim)
      {
        if t in row {
          var j :| 0 <= j < |row| && row[j] == t;
          assert t == Triple(z[0][t.dim], keys[0], t.dim);
        } else {
          assert t in tail;
          var i :| 0 <= i < |keys[1..]| && t.dim < dim && t == Triple(z[1..][i][t.dim], keys[1..][i], t.dim);
          assert t == Triple(z[i + 1][t.dim], keys[i + 1], t.dim);
        }
      }
    }
  }

  /** With distinct entity keys, no (entity, dimension) pair occurs twice. */
  lemma {:induction false} TriplesUnique(keys: seq<nat>, z: seq<seq<real>>, dim: nat)
    requires |keys| == |z| && Rectangular(z, dim) && Distinct(keys)
    ensures UniquePairs(Triples(keys, z, dim))
    decreases |keys|
  {
    if |keys| > 0 {
      TriplesUnique(keys[1..], z[1..], dim);
      TriplesMembers(keys[1..], z[1..], dim);
      var row, tail := Row(keys[0], z[0]), Triples(keys[1..], z[1..], dim);
      var s := row + tail;
      forall i, j | 0 <= i < j < |s|
        ensures s[i].entity != s[j].entity || s[i].dim != s[j].dim
      {
        if j < |row| {
        } else if i < |row| {
          assert s[j] in tail;
          var i' :| 0 <= i' < |keys[1..]| && s[j] == Triple(z[1..][i'][s[j].dim], keys[1..][i'], s[j].dim);
          assert keys[1..][i'] == keys[i' + 1];
        } else {
          assert s[i] == tail[i - |row|] && s[j] == tail[j - |row|];
        }
      }
    }
  }

  // ----- sorting --------------------------------------------------------

  function Insert(t: Triple, s: seq<Triple>): (r: seq<Triple>)
    requires Sorted(s)
    ensures Sorted(r)
    ensures multiset(r) == multiset(s) + multiset{t}
    decreases |s|
  {
    if |s| == 0 || Le(t, s[0]) then
      InsertFront(t, s);
      [t] + s
    else
      var tail := Insert(t, s[1..]);
      InsertBehind(t, s, tail);
      [s[0]] + tail
  }

  lemma InsertFront(t: Triple, s: seq<Triple>)
    requires Sorted(s) && (|s| == 0 || Le(t, s[0]))
    ensures Sorted([t] + s)
  {
    forall j | 0 <= j < |s| ensures Le(t, s[j]) {
      if j > 0 {
        assert Le(s[0], s[j]);
      }
    }
  }

  lemma InsertBehind(t: Triple, s: seq<Triple>, tail: seq<Triple>)
    requires Sorted(s) && |s| > 0 && !Le(t, s[0])
    requires Sorted(tail) && multiset(tail) == multiset(s[1..]) + multiset{t}
    ensures Sorted([s[0]] + tail)
    ensures multiset([s[0]] + tail) == multiset(s) + multiset{t}
  {
    forall j | 0 <= j < |tail| ensures Le(s[0], tail[j]) {
      assert tail[j] in multiset(tail);
      if tail[j] != t {
        assert tail[j] in multiset(s[1..]);
        var p :| 0 <= p < |s[1..]| && s[1..][p] == tail[j];
        assert s[p + 1] == tail[j];
      }
    }
    assert s == [s[0]] + s[1..];
  }

  /** `Collections.sort(z_ijs)`. */
  function Sort(s: seq<Triple>): (r: seq<Triple>)
    ensures Sorted(r)
    ensures multiset(r) == multiset(s)
    ensures |r| == |s|
    decreases |s|
  {
    if |s| == 0 then []
    else
      assert s == [s[0]] + s[1..];
      var r := Insert(s[0], Sort(s[1..]));
      assert |r| == |multiset(r)| == |multiset(s)| == |s|;
      r
  }

  /**
   * The triple order is total and antisymmetric, so the sorted list is unique:
   * any sort (in particular the library's merge sort) yields this one.
   */
  lemma {:induction false} SortedUnique(a: seq<Triple>, b: seq<Triple>)
    requires Sorted(a) && Sorted(b) && multiset(a) == multiset(b)
    ensures a == b
    decreases |a|
  {
    if |a| == 0 {
      assert |multiset(b)| == 0;
    } else {
      assert |b| == |multiset(b)| == |multiset(a)| == |a|;
      HeadIsLeast(b, a[0]);
      HeadIsLeast(a, b[0]);
      LeAntisymmetric(a[0], b[0]);
      TailMultiset(a);
      TailMultiset(b);
      SortedUnique(a[1..], b[1..]);
      assert a == [a[0]] + a[1..] && b == [b[0]] + b[1..];
    }
  }

  lemma LeAntisymmetric(x: Triple, y: Triple)
    requires Le(x, y) && Le(y, x)
    ensures x == y
  {
  }

  lemma HeadIsLeast(s: seq<Triple>, x: Triple)
    requires Sorted(s) && x in multiset(s)
    ensures |s| > 0 && Le(s[0], x)
  {
    var i :| 0 <= i < |s| && s[i] == x;
    if i > 0 {
      assert Le(s[0], s[i]);
    }
  }

  lemma TailMultiset(s: seq<Triple>)
    requires |s| > 0
    ensures Sorted(s) ==> Sorted(s[1..])
    ensures multiset(s[1..]) == multiset(s) - multiset{s[0]}
  {
    assert s == [s[0]] + s[1..];
  }

  // ----- taking the smallest triples ---------------------------------------

  /**
   * `z_ijs.get(m)` for `m < n` on the sorted list: the first `n` triples, or
   * the exception when there are fewer.  The taken triples are `n` of the
   * input, sorted, and none of them is greater than any triple left behind.
   */
  function TopTriples(triples: seq<Triple>, n: nat): (r: Result<seq<Triple>>)
    ensures r.Ok? <==> n <= |triples|
    ensures r.Err? ==> r.fault == IndexOutOfBounds
    ensures r.Ok? ==>
      && |r.value| == n
      && Sorted(r.value)
      && multiset(r.value) <= multiset(triples)
      && (forall a, b :: a in r.value && b in multiset(triples) - multiset(r.value) ==> Le(a, b))
  {
    var sorted := Sort(triples);
    if |sorted| < n then Err(IndexOutOfBounds)
    else
      SplitSorted(sorted, n);
      Ok(sorted[..n])
  }

  /** Cutting a sorted list leaves no taken triple above a left-behind one. */
  lemma SplitSorted(sorted: seq<Triple>, n: nat)
    requires Sorted(sorted) && n <= |sorted|
    ensures Sorted(sorted[..n])
    ensures multiset(sorted[..n]) <= multiset(sorted)
    ensures multiset(sorted) - multiset(sorted[..n]) == multiset(sorted[n..])
    ensures forall a, b :: a in sorted[..n] && b in multiset(sorted) - multiset(sorted[..n]) ==> Le(a, b)
  {
    var taken, left := sorted[..n], sorted[n..];
    assert sorted == taken + left;
    assert multiset(sorted) == multiset(taken) + multiset(left);
    forall a, b | a in taken && b in multiset(left) ensures Le(a, b) {
      var i :| 0 <= i < |taken| && taken[i] == a;
      var j :| 0 <= j < |left| && left[j] == b;
      assert sorted[i] == a && sorted[n + j] == b;
    }
  }

  // ----- distributing dimensions over entities ------------------------------

  /** `dims_i.add(j)` on a `TIntSet`. */
  function AddDim(dims: seq<nat>, d: nat): (r: seq<nat>)
    ensures forall x :: x in r <==> x in dims || x == d
    ensures Distinct(dims) ==> Distinct(r)
  {
    if d in dims then dims else dims + [d]
  }

  /** The dimensions the triples of `taken` select for entity `e`. */
  predicate Selected(taken: seq<Triple>, e: nat, d: nat) {
    exists i :: 0 <= i < |taken| && taken[i].entity == e && taken[i].dim == d
  }

  /** Every dimension set of `m` is duplicate-free and within `[0, dim)`. */
  predicate WellFormedDims(m: map<nat, seq<nat>>, dim: nat) {
    forall e :: e in m ==> Distinct(m[e]) && InRange(m[e], dim)
  }

  predicate TriplesInRange(taken: seq<Triple>, dim: nat) {
    forall i :: 0 <= i < |taken| ==> taken[i].dim < dim
  }

  /**
   * The selection loop: each taken triple adds its dimension to its
   * entity's set, creating the set when the entity has none yet.
   */
  function Collect(taken: seq<Triple>, acc: map<nat, seq<nat>>): (r: map<nat, seq<nat>>)
    ensures r.Keys == acc.Keys + (set i | 0 <= i < |taken| :: taken[i].entity)
    ensures forall e, d :: e in r ==> (d in r[e] <==> (e in acc && d in acc[e]) || Selected(taken, e, d))
    decreases |taken|
  {
    if |taken| == 0 then acc
    else
      var t := taken[0];
      var dims := if t.entity in acc then acc[t.entity] else [];
      var r := Collect(taken[1..], acc[t.entity := AddDim(dims, t.dim)]);
      assert forall i :: 1 <= i < |taken| ==> taken[1..][i - 1] == taken[i];
      assert (set i | 0 <= i < |taken| :: taken[i].entity)
             == {t.entity} + (set i | 0 <= i < |taken[1..]| :: taken[1..][i].entity);
      assert forall e, d :: Selected(taken, e, d) <==> (e == t.entity && d == t.dim) || Selected(taken[1..], e, d);
      r
  }

  /** Dimension sets stay duplicate-free and within range. */
  lemma {:induction false} CollectWellFormed(taken: seq<Triple>, acc: map<nat, seq<nat>>, dim: nat)
    requires WellFormedDims(acc, dim) && TriplesInRange(taken, dim)
    ensures WellFormedDims(Collect(taken, acc), dim)
    decreases |taken|
  {
    if |taken| > 0 {
      var t := taken[0];
      var dims := if t.entity in acc then acc[t.entity] else [];
      var added := AddDim(dims, t.dim);
      assert InRange(added, dim) by {
        forall i | 0 <= i < |added| ensures added[i] < dim {
          assert added[i] in added;
        }
      }
      assert forall i :: 1 <= i < |taken| ==> taken[1..][i - 1] == taken[i];
      CollectWellFormed(taken[1..], acc[t.entity := added], dim);
    }
  }

  // ----- counting the selected dimensions ----------------------------------

  /** The total size of the dimension sets of the entities `es`. */
  function SizeSum(m: map<nat, seq<nat>>, es: seq<nat>): nat
    decreases |es|
  {
    if |es| == 0 then 0
    else (if es[0] in m then |m[es[0]]| else 0) + SizeSum(m, es[1..])
  }

  lemma {:induction false} SizeSumUpdate(m: map<nat, seq<nat>>, es: seq<nat>, e: nat, v: seq<nat>)
    requires Distinct(es) && e in es
    ensures SizeSum(m[e := v], es) + (if e in m then |m[e]| else 0) == SizeSum(m, es) + |v|
    decreases |es|
  {
    if es[0] != e {
      assert e in es[1..];
      assert Distinct(es[1..]);
      SizeSumUpdate(m, es[1..], e, v);
    } else {
      SizeSumUnchanged(m, es[1..], e, v);
    }
  }

  lemma {:induction false} SizeSumUnchanged(m: map<nat, seq<nat>>, es: seq<nat>, e: nat, v: seq<nat>)
    requires e !in es
    ensures SizeSum(m[e := v], es) == SizeSum(m, es)
    decreases |es|
  {
    if |es| > 0 {
      SizeSumUnchanged(m, es[1..], e, v);
    }
  }

  /** No taken triple names a dimension its entity already holds. */
  predicate Fresh(taken: seq<Triple>, acc: map<nat, seq<nat>>) {
    forall i :: 0 <= i < |taken| && taken[i].entity in acc ==> taken[i].dim !in acc[taken[i].entity]
  }

  /**
   * Each taken triple adds at most one dimension; when the triples name
   * distinct (entity, dimension) pairs none of which is already present,
   * each adds exactly one.
   */
  lemma {:induction false} CollectSize(taken: seq<Triple>, acc: map<nat, seq<nat>>, es: seq<nat>)
    requires Distinct(es)
    requires forall i :: 0 <= i < |taken| ==> taken[i].entity in es
    ensures SizeSum(Collect(taken, acc), es) <= SizeSum(acc, es) + |taken|
    ensures UniquePairs(taken) && Fresh(taken, acc)
            ==> SizeSum(Collect(taken, acc), es) == SizeSum(acc, es) + |taken|
    decreases |taken|
  {
    if |taken| > 0 {
      var t := taken[0];
      var dims := if t.entity in acc then acc[t.entity] else [];
      var acc' := acc[t.entity := AddDim(dims, t.dim)];
      assert forall i :: 1 <= i < |taken| ==> taken[1..][i - 1] == taken[i];
      CollectSize(taken[1..], acc', es);
      SizeSumUpdate(acc, es, t.entity, AddDim(dims, t.dim));
      if UniquePairs(taken) && Fresh(taken, acc) {
        assert t.dim !in dims;
        forall i | 0 <= i < |taken[1..]| && taken[1..][i].entity in acc'
          ensures taken[1..][i].dim !in acc'[taken[1..][i].entity]
        {
          var u := taken[i + 1];
          assert u.entity != t.entity || u.dim != t.dim;
        }
      }
    }
  }

  // ----- unique pairs survive sorting ----------------------------------------

  lemma {:induction false} DistinctCount(s: seq<Triple>, x: Triple)
    requires forall i, j :: 0 <= i < j < |s| ==> s[i] != s[j]
    ensures multiset(s)[x] <= 1
    decreases |s|
  {
    if |s| > 0 {
      DistinctCount(s[1..], x);
      assert s == [s[0]] + s[1..];
      if s[0] == x {
        assert x !in s[1..];
      }
    }
  }

  lemma RepeatCount(s: seq<Triple>, i: nat, j: nat)
    requires i < j < |s| && s[i] == s[j]
    ensures multiset(s)[s[i]] >= 2
  {
    assert s == s[..j] + [s[j]] + s[j + 1..];
    assert s[i] in s[..j];
  }

  /**
   * Reordering keeps pairs unique when, as for the z-score triples, a pair
   * determines its z-score.
   */
  lemma PermutationUnique(a: seq<Triple>, b: seq<Triple>)
    requires UniquePairs(a) && multiset(a) == multiset(b)
    ensures UniquePairs(b)
  {
    forall i, j | 0 <= i < j < |b|
      ensures b[i].entity != b[j].entity || b[i].dim != b[j].dim
    {
      if b[i] == b[j] {
        RepeatCount(b, i, j);
        DistinctCount(a, b[i]);
      } else {
        assert b[i] in multiset(a) && b[j] in multiset(a);
        var p :| 0 <= p < |a| && a[p] == b[i];
        var q :| 0 <= q < |a| && a[q] == b[j];
        assert p != q;
        if p > q {
          assert a[q].entity != a[p].entity || a[q].dim != a[p].dim;
        }
      }
    }
  }

  lemma SubMultisetUnique(a: seq<Triple>, b: seq<Triple>)
    requires UniquePairs(a) && multiset(b) <= multiset(a)
    ensures UniquePairs(b)
  {
    forall i, j | 0 <= i < j < |b|
      ensures b[i].entity != b[j].entity || b[i].dim != b[j].dim
    {
      if b[i] == b[j] {
        RepeatCount(b, i, j);
        DistinctCount(a, b[i]);
      } else {
        assert b[i] in multiset(a) && b[j] in multiset(a);
        var p :| 0 <= p < |a| && a[p] == b[i];
        var q :| 0 <= q < |a| && a[q] == b[j];
        if p > q {
          assert a[q].entity != a[p].entity || a[q].dim != a[p].dim;
        }
      }
    }
  }

  // ----- the two findDimensions forms ---------------------------------------

  /** Triples taken from the list keep its entities and dimension bound. */
  lemma TakenFrom(taken: seq<Triple>, keys: seq<nat>, z: seq<seq<real>>, dim: nat)
    requires |keys| == |z| && Rectangular(z, dim)
    requires multiset(taken) <= multiset(Triples(keys, z, dim))
    ensures TriplesInRange(taken, dim)
    ensures forall i :: 0 <= i < |taken| ==> taken[i].entity in keys
  {
    var triples := Triples(keys, z, dim);
    forall i | 0 <= i < |taken| ensures taken[i].dim < dim && taken[i].entity in keys {
      assert taken[i] in multiset(triples);
      var p :| 0 <= p < |triples| && triples[p] == taken[i];
    }
  }

  function EmptyDims(medoids: seq<Id>): (r: map<nat, seq<nat>>)
    ensures r.Keys == Elements(medoids)
    ensures forall e :: e in r ==> r[e] == []
  {
    map e | e in medoids :: []
  }

  /**
   * `findDimensions(medoids, ...)`: every medoid gets an entry, possibly
   * empty, and the first `max(k * l, 2)` triples are distributed over them.
   */
  function FindDimensions(medoids: seq<Id>, z: seq<seq<real>>, dim: nat, k: nat, l: nat)
    : (r: Result<map<Id, seq<nat>>>)
    requires Distinct(medoids) && |z| == |medoids| && Rectangular(z, dim)
    ensures r.Ok? <==> Budget(k, l) <= |medoids| * dim
    ensures r.Err? ==> r.fault == IndexOutOfBounds
    ensures r.Ok? ==> r.value.Keys == Elements(medoids) && WellFormedDims(r.value, dim)
  {
    match TopTriples(Triples(medoids, z, dim), Budget(k, l))
    case Err(f) => Err(f)
    case Ok(taken) =>
      TakenFrom(taken, medoids, z, dim);
      CollectWellFormed(taken, EmptyDims(medoids), dim);
      Ok(Collect(taken, EmptyDims(medoids)))
  }

  /** The medoid form selects exactly `max(k * l, 2)` (medoid, dimension) pairs. */
  lemma FindDimensionsCount(medoids: seq<Id>, z: seq<seq<real>>, dim: nat, k: nat, l: nat)
    requires Distinct(medoids) && |z| == |medoids| && Rectangular(z, dim)
    requires Budget(k, l) <= |medoids| * dim
    ensures FindDimensions(medoids, z, dim, k, l).Ok?
    ensures SizeSum(FindDimensions(medoids, z, dim, k, l).value, medoids) == Budget(k, l)
  {
    var taken := TopTriples(Triples(medoids, z, dim), Budget(k, l)).value;
    SelectionCount(medoids, z, dim, taken, EmptyDims(medoids));
    EmptySizeSum(medoids);
  }

  /**
   * In the medoid form a selected (medoid, dimension) pair never has a
   * larger z-score than an unselected one.
   */
  lemma FindDimensionsSmallest(medoids: seq<Id>, z: seq<seq<real>>, dim: nat, k: nat, l: nat,
                               i: nat, j: nat, i': nat, j': nat)
    requires Distinct(medoids) && |z| == |medoids| && Rectangular(z, dim)
    requires Budget(k, l) <= |medoids| * dim
    requires i < |medoids| && j < dim && i' < |medoids| && j' < dim
    ensures var dm := FindDimensions(medoids, z, dim, k, l).value;
      && medoids[i] in dm && medoids[i'] in dm
      && (j in dm[medoids[i]] && j' !in dm[medoids[i']] ==> z[i][j] <= z[i'][j'])
  {
    var triples := Triples(medoids, z, dim);
    var taken := TopTriples(triples, Budget(k, l)).value;
    var acc := EmptyDims(medoids);
    assert medoids[i] in acc && medoids[i'] in acc;
    CollectedFromEmpty(taken, acc, medoids[i], j);
    CollectedFromEmpty(taken, acc, medoids[i'], j');
    var dm := FindDimensions(medoids, z, dim, k, l).value;
    if j in dm[medoids[i]] && j' !in dm[medoids[i']] {
      SelectedSmallest(medoids, z, dim, triples, taken, i, j, i', j');
    }
  }

  lemma SelectedIsCollected(taken: seq<Triple>, acc: map<nat, seq<nat>>, e: nat, d: nat)
    ensures Selected(taken, e, d) ==> e in Collect(taken, acc) && d in Collect(taken, acc)[e]
  {
    if Selected(taken, e, d) {
      var p :| 0 <= p < |taken| && taken[p].entity == e && taken[p].dim == d;
      assert e in (set p | 0 <= p < |taken| :: taken[p].entity);
    }
  }

  /** Over empty initial sets, a collected dimension is exactly a selected one. */
  lemma CollectedFromEmpty(taken: seq<Triple>, acc: map<nat, seq<nat>>, e: nat, d: nat)
    requires forall e :: e in acc ==> acc[e] == []
    requires e in acc
    ensures e in Collect(taken, acc)
    ensures d in Collect(taken, acc)[e] <==> Selected(taken, e, d)
  {
  }

  /** Every taken triple contributes one dimension. */
  lemma SelectionCount(keys: seq<nat>, z: seq<seq<real>>, dim: nat, taken: seq<Triple>,
                       acc: map<nat, seq<nat>>)
    requires Distinct(keys) && |keys| == |z| && Rectangular(z, dim)
    requires multiset(taken) <= multiset(Triples(keys, z, dim))
    requires forall e :: e in acc ==> acc[e] == []
    ensures SizeSum(Collect(taken, acc), keys) == SizeSum(acc, keys) + |taken|
  {
    TriplesUnique(keys, z, dim);
    SubMultisetUnique(Triples(keys, z, dim), taken);
    TakenFrom(taken, keys, z, dim);
    CollectSize(taken, acc, keys);
  }

  lemma {:induction false} EmptySizeSum(es: seq<nat>)
    ensures SizeSum(EmptyDims(es), es) == 0
  {
    var m := EmptyDims(es);
    EmptySizeSumOf(m, es);
  }

  lemma {:induction false} EmptySizeSumOf(m: map<nat, seq<nat>>, es: seq<nat>)
    requires forall e :: e in m ==> m[e] == []
    ensures SizeSum(m, es) == 0
    decreases |es|
  {
    if |es| > 0 {
      EmptySizeSumOf(m, es[1..]);
    }
  }

  /** The comparison step behind `FindDimensionsSelection`. */
  lemma SelectedSmallest(keys: seq<nat>, z: seq<seq<real>>, dim: nat, triples: seq<Triple>,
                         taken: seq<Triple>, i: nat, j: nat, i': nat, j': nat)
    requires Distinct(keys) && |z| == |keys| && Rectangular(z, dim)
    requires triples == Triples(keys, z, dim)
    requires multiset(taken) <= multiset(triples)
    requires forall a, b :: a in taken && b in multiset(triples) - multiset(taken) ==> Le(a, b)
    requires i < |keys| && j < dim && i' < |keys| && j' < dim
    requires Selected(taken, keys[i], j) && !Selected(taken, keys[i'], j')
    ensures z[i][j] <= z[i'][j']
  {
    var p :| 0 <= p < |taken| && taken[p].entity == keys[i] && taken[p].dim == j;
    var a := taken[p];
    assert a in multiset(triples);
    TripleAt(keys, z, dim, a, i);
    var b := Triple(z[i'][j'], keys[i'], j');
    TripleIn(keys, z, dim, i', j');
    assert b !in taken;
    assert b in multiset(triples) - multiset(taken);
    assert Le(a, b);
  }

  /** A triple of the list naming `keys[i]` carries that entity's z-score. */
  lemma TripleAt(keys: seq<nat>, z: seq<seq<real>>, dim: nat, t: Triple, i: nat)
    requires Distinct(keys) && |z| == |keys| && Rectangular(z, dim)
    requires t in Triples(keys, z, dim) && i < |keys| && t.entity == keys[i]
    ensures t.dim < dim && t.z == z[i][t.dim]
  {
    TriplesMembers(keys, z, dim);
    var q :| 0 <= q < |keys| && t.dim < dim && t == Triple(z[q][t.dim], keys[q], t.dim);
  }

  lemma TripleIn(keys: seq<nat>, z: seq<seq<real>>, dim: nat, i: nat, j: nat)
    requires |z| == |keys| && Rectangular(z, dim) && i < |keys| && j < dim
    ensures Triple(z[i][j], keys[i], j) in Triples(keys, z, dim)
  {
    TriplesMembers(keys, z, dim);
  }

  /**
   * `findDimensions(clusters, ...)`: entity keys are the cluster indices
   * `0 .. n - 1`, and only clusters that receive a dimension get an entry.
   * Fewer than `max(k * l, 2)` triples (fewer clusters than expected) make
   * `z_ijs.get(m)` throw.
   */
  function RefineDimensions(z: seq<seq<real>>, dim: nat, k: nat, l: nat): (r: Result<map<nat, seq<nat>>>)
    requires Rectangular(z, dim)
    ensures r.Ok? <==> Budget(k, l) <= |z| * dim
    ensures r.Err? ==> r.fault == IndexOutOfBounds
    ensures r.Ok? ==>
      && |r.value.Keys| > 0
      && (forall e :: e in r.value ==> e < |z| && |r.value[e]| > 0)
      && WellFormedDims(r.value, dim)
  {
    var keys := Indices(|z|);
    match TopTriples(Triples(keys, z, dim), Budget(k, l))
    case Err(f) => Err(f)
    case Ok(taken) =>
      RefinedFrom(taken, z, dim);
      CollectNonEmpty(taken);
      Ok(Collect(taken, map[]))
  }

  /** One taken triple is enough for an entry. */
  lemma CollectNonEmpty(taken: seq<Triple>)
    requires |taken| > 0
    ensures |Collect(taken, map[]).Keys| > 0
  {
    assert taken[0].entity in Collect(taken, map[]).Keys;
  }

  /** Dimensions collected from triples of the cluster-index list are well formed. */
  lemma RefinedFrom(taken: seq<Triple>, z: seq<seq<real>>, dim: nat)
    requires Rectangular(z, dim)
    requires multiset(taken) <= multiset(Triples(Indices(|z|), z, dim))
    ensures forall e :: e in Collect(taken, map[]) ==> e < |z| && |Collect(taken, map[])[e]| > 0
    ensures WellFormedDims(Collect(taken, map[]), dim)
  {
    var keys := Indices(|z|);
    TakenFrom(taken, keys, z, dim);
    CollectWellFormed(taken, map[], dim);
    assert forall i :: 0 <= i < |taken| ==> taken[i].entity < |z|;
    CollectEntities(taken, |z|);
  }

  /**
   * Starting from no entries, every entry holds a dimension and belongs to
   * an entity some triple names.
   */
  lemma CollectEntities(taken: seq<Triple>, n: nat)
    requires forall i :: 0 <= i < |taken| ==> taken[i].entity < n
    ensures forall e :: e in Collect(taken, map[]) ==> e < n && |Collect(taken, map[])[e]| > 0
  {
    var dm := Collect(taken, map[]);
    forall e | e in dm ensures e < n && |dm[e]| > 0 {
      var i :| 0 <= i < |taken| && taken[i].entity == e;
      assert Selected(taken, e, taken[i].dim);
      assert taken[i].dim in dm[e];
    }
  }

  /** `0, 1, ..., n - 1`. */
  function Indices(n: nat): (r: seq<nat>)
    ensures |r| == n && forall i :: 0 <= i < n ==> r[i] == i
  {
    seq(n, i requires 0 <= i < n => i)
  }

  /**
   * The refinement form also selects exactly `max(k * l, 2)` (cluster,
   * dimension) pairs, and a selected pair never has a larger z-score than
   * an unselected one.
   */
  lemma RefineDimensionsSelection(z: seq<seq<real>>, dim: nat, k: nat, l: nat)
    requires Rectangular(z, dim)
    requires Budget(k, l) <= |z| * dim
    ensures RefineDimensions(z, dim, k, l).Ok?
    ensures SizeSum(RefineDimensions(z, dim, k, l).value, Indices(|z|)) == Budget(k, l)
    ensures SelectsSmallest(z, dim, RefineDimensions(z, dim, k, l).value)
  {
    var keys := Indices(|z|);
    var triples := Triples(keys, z, dim);
    assert |triples| == |z| * dim;
    assert TopTriples(triples, Budget(k, l)).Ok?;
    var taken := TopTriples(triples, Budget(k, l)).value;
    assert RefineDimensions(z, dim, k, l).value == Collect(taken, map[]);
    assert Distinct(keys);
    SelectionCount(keys, z, dim, taken, map[]);
    EmptySizeSumOf(map[], keys);
    RefinedSmallest(z, dim, triples, taken);
  }

  /**
   * Every selected (row, dimension) pair of `dm` has a z-score no larger
   * than any pair left out.
   */
  predicate SelectsSmallest(z: seq<seq<real>>, dim: nat, dm: map<nat, seq<nat>>)
    requires Rectangular(z, dim)
  {
    forall i, j, i', j' ::
      0 <= i < |z| && 0 <= j < dim && 0 <= i' < |z| && 0 <= j' < dim
      && i in dm && j in dm[i] && (i' !in dm || j' !in dm[i'])
      ==> z[i][j] <= z[i'][j']
  }

  /** A cluster dimension collected from the front of the sorted triples is no worse than one left out. */
  lemma RefinedSmallest(z: seq<seq<real>>, dim: nat, triples: seq<Triple>, taken: seq<Triple>)
    requires Rectangular(z, dim) && triples == Triples(Indices(|z|), z, dim)
    requires multiset(taken) <= multiset(triples)
    requires forall a, b :: a in taken && b in multiset(triples) - multiset(taken) ==> Le(a, b)
    ensures SelectsSmallest(z, dim, Collect(taken, map[]))
  {
    var keys := Indices(|z|);
    var dm := Collect(taken, map[]);
    assert Distinct(keys);
    forall i, j, i', j' |
      0 <= i < |z| && 0 <= j < dim && 0 <= i' < |z| && 0 <= j' < dim
      && i in dm && j in dm[i] && (i' !in dm || j' !in dm[i'])
      ensures z[i][j] <= z[i'][j']
    {
      assert keys[i] == i && keys[i'] == i';
      assert Selected(taken, i, j);
      SelectedIsCollected(taken, map[], i', j');
      SelectedSmallest(keys, z, dim, triples, taken, i, j, i', j');
    }
  }
}
