/**
 * Assigning points to their nearest entity under the segmental distance:
 * `assignPoints` (entities are the current medoids with their dimension
 * sets) and `finalAssignment` (entities are the refined centroids with
 * their dimension sets), together with the centroid of a cluster.
 */
module Assignment {
  import opened Vectors

  /** What a point is measured against: a representative vector and its dimension set. */
  datatype Entity = Entity(rep: Vector, dims: seq<nat>)

  /** A `PROCLUSCluster`: member ids, correlated dimensions, centroid. */
  datatype Cluster = Cluster(members: seq<Id>, dims: seq<nat>, centroid: Vector)

  /** Every entity lives in the data space of dimensionality `dim`. */
  predicate Fits(es: seq<Entity>, dim: nat) {
    forall i :: 0 <= i < |es| ==> |es[i].rep| == dim && InRange(es[i].dims, dim)
  }

  /** The setting of an assignment: a valid relation and at least one fitting entity. */
  predicate Ready(rel: Relation, es: seq<Entity>) {
    rel.Valid() && |es| > 0 && Fits(es, rel.dim)
  }

  /** The distance of `p` to each entity, in entity order. */
  function Distances(p: Vector, es: seq<Entity>): (r: seq<Distance>)
    requires Fits(es, |p|)
    ensures |r| == |es|
    ensures forall i :: 0 <= i < |es| ==> r[i] == SegmentalDistance(p, es[i].rep, es[i].dims)
  {
    seq(|es|, i requires 0 <= i < |es| => SegmentalDistance(p, es[i].rep, es[i].dims))
  }

  // ----- the nearest entity ------------------------------------------------

  /**
   * The scan for the nearest entity: a later entity replaces the running
   * minimum only when it is strictly closer, so the first of several equally
   * close entities wins.  The result is closer than every entity before it
   * and no entity after it is closer.
   */
  function FirstArgMin(ds: seq<Distance>): (r: nat)
    requires |ds| > 0
    ensures r < |ds|
    ensures forall j :: 0 <= j < r ==> Less(ds[r], ds[j])
    ensures forall j :: r < j < |ds| ==> !Less(ds[j], ds[r])
    decreases |ds|
  {
    if |ds| == 1 then 0
    else
      var init := ds[..|ds| - 1];
      var r := FirstArgMin(init);
      assert forall j :: 0 <= j < |init| ==> init[j] == ds[j];
      if Less(ds[|ds| - 1], ds[r]) then
        forall j | 0 <= j < r ensures Less(ds[|ds| - 1], ds[j]) {
          LessIsStrictTotalOrder(ds[|ds| - 1], ds[r], ds[j]);
        }
        forall j | r < j < |ds| - 1 ensures Less(ds[|ds| - 1], ds[j]) {
          LessIsStrictTotalOrder(ds[|ds| - 1], ds[r], ds[j]);
          LessIsStrictTotalOrder(ds[r], ds[j], ds[r]);
        }
        |ds| - 1
      else
        r
  }

  /** No entity is strictly closer than the chosen one, and the choice is the only index with both properties. */
  lemma FirstArgMinUnique(ds: seq<Distance>, k: nat)
    requires k < |ds|
    requires forall j :: 0 <= j < k ==> Less(ds[k], ds[j])
    requires forall j :: k < j < |ds| ==> !Less(ds[j], ds[k])
    ensures FirstArgMin(ds) == k
    ensures forall j :: 0 <= j < |ds| ==> !Less(ds[j], ds[FirstArgMin(ds)])
  {
    var r := FirstArgMin(ds);
    var a, b := ds[r], ds[k];
    forall j | 0 <= j < |ds| ensures !Less(ds[j], ds[r]) {
      if j < r {
        LessIsStrictTotalOrder(ds[r], ds[j], ds[r]);
      }
    }
  }

  /** The index of the entity point `p` is assigned to. */
  function Owner(rel: Relation, es: seq<Entity>, p: Id): (r: nat)
    requires Ready(rel, es) && p in rel.vec
    ensures r < |es|
  {
    FirstArgMin(Distances(rel.vec[p], es))
  }

  /** The ids of `ids` assigned to entity `i`, in the order of `ids`. */
  function Members(rel: Relation, es: seq<Entity>, ids: seq<Id>, i: nat): (r: seq<Id>)
    requires Ready(rel, es) && forall p :: p in ids ==> p in rel.vec
    ensures forall p :: p in r <==> p in ids && Owner(rel, es, p) == i
    ensures Distinct(ids) ==> Distinct(r)
    decreases |ids|
  {
    if |ids| == 0 then []
    else
      var rest := Members(rel, es, ids[1..], i);
      assert forall p :: p in ids <==> p == ids[0] || p in ids[1..];
      if Owner(rel, es, ids[0]) == i then [ids[0]] + rest else rest
  }

  /** The total number of members of entities `lo .. |es| - 1`. */
  function SizesFrom(rel: Relation, es: seq<Entity>, ids: seq<Id>, lo: nat): nat
    requires Ready(rel, es) && forall p :: p in ids ==> p in rel.vec
    decreases |es| - lo
  {
    if lo >= |es| then 0
    else |Members(rel, es, ids, lo)| + SizesFrom(rel, es, ids, lo + 1)
  }

  lemma {:induction false} SizesFromStep(rel: Relation, es: seq<Entity>, ids: seq<Id>, lo: nat)
    requires Ready(rel, es) && |ids| > 0 && forall p :: p in ids ==> p in rel.vec
    ensures SizesFrom(rel, es, ids, lo)
            == SizesFrom(rel, es, ids[1..], lo) + (if lo <= Owner(rel, es, ids[0]) then 1 else 0)
    decreases |es| - lo
  {
    if lo < |es| {
      SizesFromStep(rel, es, ids, lo + 1);
      MembersStep(rel, es, ids, lo);
    }
  }

  /** The first point counts towards its own entity only. */
  lemma MembersStep(rel: Relation, es: seq<Entity>, ids: seq<Id>, i: nat)
    requires Ready(rel, es) && |ids| > 0 && forall p :: p in ids ==> p in rel.vec
    ensures forall p :: p in ids[1..] ==> p in rel.vec
    ensures |Members(rel, es, ids, i)|
            == |Members(rel, es, ids[1..], i)| + (if Owner(rel, es, ids[0]) == i then 1 else 0)
  {
  }

  /** Every point goes to exactly one entity: the member counts add up to the number of points. */
  lemma {:induction false} MembersCount(rel: Relation, es: seq<Entity>, ids: seq<Id>)
    requires Ready(rel, es) && forall p :: p in ids ==> p in rel.vec
    ensures SizesFrom(rel, es, ids, 0) == |ids|
    decreases |ids|
  {
    if |ids| == 0 {
      EmptySizes(rel, es, ids, 0);
    } else {
      SizesFromStep(rel, es, ids, 0);
      MembersCount(rel, es, ids[1..]);
    }
  }

  lemma {:induction false} EmptySizes(rel: Relation, es: seq<Entity>, ids: seq<Id>, lo: nat)
    requires Ready(rel, es) && ids == []
    ensures SizesFrom(rel, es, ids, lo) == 0
    decreases |es| - lo
  {
    if lo < |es| {
      EmptySizes(rel, es, ids, lo + 1);
    }
  }

  // ----- centroids ---------------------------------------------------------

  /** The sum of coordinate `d` over the points `ps`. */
  function CoordSum(rel: Relation, ps: seq<Id>, d: nat): real
    requires rel.Valid() && d < rel.dim && forall p :: p in ps ==> p in rel.vec
    decreases |ps|
  {
    if |ps| == 0 then 0.0
    else
      assert ps[0] in ps;
      rel.vec[ps[0]][d] + CoordSum(rel, ps[1..], d)
  }

  /** The sum of the signed deviations `p[d] - c` over the points `ps`. */
  function Deviation(rel: Relation, ps: seq<Id>, d: nat, c: real): real
    requires rel.Valid() && d < rel.dim && forall p :: p in ps ==> p in rel.vec
    decreases |ps|
  {
    if |ps| == 0 then 0.0
    else
      assert ps[0] in ps;
      (rel.vec[ps[0]][d] - c) + Deviation(rel, ps[1..], d, c)
  }

  lemma {:induction false} DeviationSum(rel: Relation, ps: seq<Id>, d: nat, c: real)
    requires rel.Valid() && d < rel.dim && forall p :: p in ps ==> p in rel.vec
    ensures Deviation(rel, ps, d, c) == CoordSum(rel, ps, d) - |ps| as real * c
    decreases |ps|
  {
    if |ps| > 0 {
      DeviationSum(rel, ps[1..], d, c);
    }
  }

  /** `Centroid.make(database, ids)`: the coordinate-wise mean of the points. */
  function Centroid(rel: Relation, ps: seq<Id>): (r: Vector)
    requires rel.Valid() && |ps| > 0 && forall p :: p in ps ==> p in rel.vec
    ensures |r| == rel.dim
  {
    seq(rel.dim, d requires 0 <= d < rel.dim => CoordSum(rel, ps, d) / |ps| as real)
  }

  /** The deviations of the points from their centroid cancel out on every dimension. */
  lemma CentroidBalances(rel: Relation, ps: seq<Id>)
    requires rel.Valid() && |ps| > 0 && forall p :: p in ps ==> p in rel.vec
    ensures forall d :: 0 <= d < rel.dim ==> Deviation(rel, ps, d, Centroid(rel, ps)[d]) == 0.0
  {
    var c := Centroid(rel, ps);
    forall d | 0 <= d < rel.dim ensures Deviation(rel, ps, d, c[d]) == 0.0 {
      DeviationSum(rel, ps, d, c[d]);
      var n := |ps| as real;
      assert c[d] == CoordSum(rel, ps, d) / n;
      assert n * c[d] == CoordSum(rel, ps, d);
    }
  }

  // ----- assignPoints ------------------------------------------------------

  /** The medoids, in key order, as entities: medoid vector and its dimension set. */
  function MedoidEntities(rel: Relation, medoids: seq<Id>, dm: map<Id, seq<nat>>): (r: seq<Entity>)
    requires forall i :: 0 <= i < |medoids| ==> medoids[i] in rel.vec && medoids[i] in dm
    ensures |r| == |medoids|
    ensures forall i :: 0 <= i < |r| ==> r[i] == Entity(rel.vec[medoids[i]], dm[medoids[i]])
  {
    seq(|medoids|, i requires 0 <= i < |medoids| => Entity(rel.vec[medoids[i]], dm[medoids[i]]))
  }

  /**
   * What `assignPoints` needs: medoids of the relation in the key order of
   * the dimension map, with in-range dimension sets.
   */
  predicate AssignReady(rel: Relation, medoids: seq<Id>, dm: map<Id, seq<nat>>) {
    && rel.Valid()
    && |medoids| > 0
    && Distinct(medoids)
    && Elements(medoids) == dm.Keys
    && (forall m :: m in dm ==> m in rel.vec && InRange(dm[m], rel.dim))
  }

  lemma MedoidEntitiesReady(rel: Relation, medoids: seq<Id>, dm: map<Id, seq<nat>>)
    requires AssignReady(rel, medoids, dm)
    ensures forall i :: 0 <= i < |medoids| ==> medoids[i] in rel.vec && medoids[i] in dm
    ensures Ready(rel, MedoidEntities(rel, medoids, dm))
  {
    assert forall i :: 0 <= i < |medoids| ==> medoids[i] in Elements(medoids);
  }

  /** The cluster entity `i` forms from its members. */
  function ClusterOf(rel: Relation, es: seq<Entity>, i: nat): (r: Cluster)
    requires Ready(rel, es) && i < |es| && |Members(rel, es, rel.ids, i)| > 0
    ensures |r.members| > 0 && Distinct(r.members) && r.dims == es[i].dims
    ensures forall p :: p in r.members ==> p in rel.ids
    ensures r.centroid == Centroid(rel, r.members)
  {
    var ms := Members(rel, es, rel.ids, i);
    Cluster(ms, es[i].dims, Centroid(rel, ms))
  }

  /** The position of `x` in `s`. */
  function IndexOf(s: seq<Id>, x: Id): (r: nat)
    requires x in s
    ensures r < |s| && s[r] == x
    ensures Distinct(s) ==> forall i :: 0 <= i < |s| && s[i] == x ==> i == r
  {
    if s[0] == x then 0 else 1 + IndexOf(s[1..], x)
  }

  /**
   * `assignPoints(dimensions, database)`: every point goes to the medoid at
   * the smallest segmental distance over that medoid's dimensions (the first
   * one in key order on ties), and every medoid that received a point gets a
   * cluster of those points with their centroid.
   */
  function AssignPoints(rel: Relation, medoids: seq<Id>, dm: map<Id, seq<nat>>): (r: map<Id, Cluster>)
    requires AssignReady(rel, medoids, dm)
    ensures forall m :: m in r ==> m in dm && |r[m].members| > 0 && r[m].dims == dm[m]
    ensures forall m :: m in r ==> Distinct(r[m].members) && forall p :: p in r[m].members ==> p in rel.ids
    ensures forall m :: m in r ==> r[m].centroid == Centroid(rel, r[m].members)
  {
    MedoidEntitiesReady(rel, medoids, dm);
    var es := MedoidEntities(rel, medoids, dm);
    map m | m in dm && |Members(rel, es, rel.ids, IndexOf(medoids, m))| > 0
      :: ClusterOf(rel, es, IndexOf(medoids, m))
  }

  /** The medoid point `p` chooses: its nearest one. */
  function AssignedMedoid(rel: Relation, medoids: seq<Id>, dm: map<Id, seq<nat>>, p: Id): (r: Id)
    requires AssignReady(rel, medoids, dm) && p in rel.vec
    ensures r in dm
  {
    MedoidEntitiesReady(rel, medoids, dm);
    medoids[Owner(rel, MedoidEntities(rel, medoids, dm), p)]
  }

  /** Every point of the relation is a member of the cluster of the medoid it chose. */
  lemma AssignPointsCovers(rel: Relation, medoids: seq<Id>, dm: map<Id, seq<nat>>, p: Id)
    requires AssignReady(rel, medoids, dm) && p in rel.ids
    ensures AssignedMedoid(rel, medoids, dm, p) in AssignPoints(rel, medoids, dm)
    ensures p in AssignPoints(rel, medoids, dm)[AssignedMedoid(rel, medoids, dm, p)].members
  {
    MedoidEntitiesReady(rel, medoids, dm);
    var es := MedoidEntities(rel, medoids, dm);
    var o := Owner(rel, es, p);
    assert p in Members(rel, es, rel.ids, o);
    assert IndexOf(medoids, medoids[o]) == o;
  }

  /**
   * The members of a medoid's cluster are exactly the points that chose
   * that medoid, so no point is in two clusters; a medoid without a
   * cluster was chosen by no point.
   */
  lemma AssignPointsMembers(rel: Relation, medoids: seq<Id>, dm: map<Id, seq<nat>>, m: Id)
    requires AssignReady(rel, medoids, dm)
    ensures m in AssignPoints(rel, medoids, dm) ==>
      forall p :: p in AssignPoints(rel, medoids, dm)[m].members <==>
        p in rel.ids && AssignedMedoid(rel, medoids, dm, p) == m
    ensures m !in AssignPoints(rel, medoids, dm) ==>
      forall p :: p in rel.ids ==> AssignedMedoid(rel, medoids, dm, p) != m
  {
    if m in dm {
      MedoidEntitiesReady(rel, medoids, dm);
      var es := MedoidEntities(rel, medoids, dm);
      var i := IndexOf(medoids, m);
      forall p | p in rel.ids ensures AssignedMedoid(rel, medoids, dm, p) == m <==> Owner(rel, es, p) == i {
      }
      forall p | p in rel.ids && Owner(rel, es, p) == i ensures m in AssignPoints(rel, medoids, dm) {
        assert p in Members(rel, es, rel.ids, i);
      }
    }
  }

  /** No medoid is strictly closer, on its own dimensions, to a point than the one the point chose. */
  lemma AssignedIsNearest(rel: Relation, medoids: seq<Id>, dm: map<Id, seq<nat>>, p: Id)
    requires AssignReady(rel, medoids, dm) && p in rel.ids
    ensures var a := AssignedMedoid(rel, medoids, dm, p);
      forall i :: 0 <= i < |medoids| ==>
        !Less(SegmentalDistance(rel.vec[p], rel.vec[medoids[i]], dm[medoids[i]]),
              SegmentalDistance(rel.vec[p], rel.vec[a], dm[a]))
  {
    MedoidEntitiesReady(rel, medoids, dm);
    var es := MedoidEntities(rel, medoids, dm);
    var o := Owner(rel, es, p);
    FirstArgMinUnique(Distances(rel.vec[p], es), o);
  }

  // ----- finalAssignment ---------------------------------------------------

  predicate Increasing(s: seq<nat>) {
    forall i, j :: 0 <= i < j < |s| ==> s[i] < s[j]
  }

  /** The entities from `lo` on that received at least one point, in ascending order. */
  function NonEmptyFrom(rel: Relation, es: seq<Entity>, lo: nat): (r: seq<nat>)
    requires Ready(rel, es)
    ensures forall j :: j in r <==> lo <= j < |es| && |Members(rel, es, rel.ids, j)| > 0
    ensures Increasing(r)
    decreases |es| - lo
  {
    if lo >= |es| then []
    else
      var rest := NonEmptyFrom(rel, es, lo + 1);
      if |Members(rel, es, rel.ids, lo)| > 0 then
        assert forall j :: 0 <= j < |rest| ==> rest[j] in rest;
        IncreasingCons(lo, rest);
        [lo] + rest
      else rest
  }

  lemma IncreasingCons(x: nat, s: seq<nat>)
    requires Increasing(s) && forall j :: 0 <= j < |s| ==> x < s[j]
    ensures Increasing([x] + s)
  {
    assert forall j :: 0 < j <= |s| ==> ([x] + s)[j] == s[j - 1];
  }

  /** Entity indices that received at least one point. */
  predicate AllNonEmpty(rel: Relation, es: seq<Entity>, idx: seq<nat>)
    requires Ready(rel, es)
  {
    forall c :: 0 <= c < |idx| ==> idx[c] < |es| && |Members(rel, es, rel.ids, idx[c])| > 0
  }

  /** The clusters of the entities `idx`, in that order. */
  function ClustersAt(rel: Relation, es: seq<Entity>, idx: seq<nat>): (r: seq<Cluster>)
    requires Ready(rel, es)
    requires AllNonEmpty(rel, es, idx)
    ensures |r| == |idx|
    ensures forall c :: 0 <= c < |r| ==> r[c] == ClusterOf(rel, es, idx[c])
  {
    seq(|idx|, c requires 0 <= c < |idx| => ClusterOf(rel, es, idx[c]))
  }

  lemma NonEmptyFromFacts(rel: Relation, es: seq<Entity>, lo: nat)
    requires Ready(rel, es)
    ensures forall c :: 0 <= c < |NonEmptyFrom(rel, es, lo)| ==>
      NonEmptyFrom(rel, es, lo)[c] < |es| && |Members(rel, es, rel.ids, NonEmptyFrom(rel, es, lo)[c])| > 0
  {
    var idx := NonEmptyFrom(rel, es, lo);
    assert forall c :: 0 <= c < |idx| ==> idx[c] in idx;
  }

  /**
   * `finalAssignment(dimensions, database)`: every point goes to the nearest
   * refined centroid (the first in list order on ties), and the clusters
   * that received points are listed in centroid order.
   */
  function FinalAssignment(rel: Relation, es: seq<Entity>): (r: seq<Cluster>)
    requires Ready(rel, es)
    ensures |r| <= |es|
    ensures forall c :: 0 <= c < |r| ==> |r[c].members| > 0 && Distinct(r[c].members)
    ensures forall c :: 0 <= c < |r| ==> forall p :: p in r[c].members ==> p in rel.ids
    ensures forall c :: 0 <= c < |r| ==>
      && (exists i :: 0 <= i < |es| && r[c].dims == es[i].dims)
      && r[c].centroid == Centroid(rel, r[c].members)
  {
    var idx := NonEmptyFrom(rel, es, 0);
    NonEmptyFromFacts(rel, es, 0);
    assert AllNonEmpty(rel, es, idx);
    IncreasingBound(idx, |es|);
    var r := ClustersAt(rel, es, idx);
    forall c | 0 <= c < |r| ensures exists i :: 0 <= i < |es| && r[c].dims == es[i].dims {
      assert r[c].dims == es[idx[c]].dims;
    }
    r
  }

  lemma {:induction false} IncreasingBound(s: seq<nat>, n: nat)
    requires Increasing(s) && forall i :: 0 <= i < |s| ==> s[i] < n
    ensures |s| <= n
    decreases |s|
  {
    if |s| > 0 {
      var init := s[..|s| - 1];
      assert forall i :: 0 <= i < |init| ==> init[i] < s[|s| - 1];
      IncreasingBound(init, s[|s| - 1]);
    }
  }

  /**
   * The final clusters partition the points: each point of the relation is
   * in exactly one final cluster, that of its nearest centroid, to which no
   * other centroid is strictly closer; every member is a point of the
   * relation, and the cluster sizes add up to the number of points.
   */
  lemma FinalAssignmentPartition(rel: Relation, es: seq<Entity>, p: Id)
    requires Ready(rel, es) && p in rel.ids
    ensures var r := FinalAssignment(rel, es);
      && (exists c :: 0 <= c < |r| && p in r[c].members && r[c].dims == es[Owner(rel, es, p)].dims)
      && (forall c, c' :: 0 <= c < c' < |r| ==> !(p in r[c].members && p in r[c'].members))
      && (forall i :: 0 <= i < |es| ==>
            !Less(Distances(rel.vec[p], es)[i], Distances(rel.vec[p], es)[Owner(rel, es, p)]))
  {
    var r := FinalAssignment(rel, es);
    var idx := NonEmptyFrom(rel, es, 0);
    var o := Owner(rel, es, p);
    assert p in Members(rel, es, rel.ids, o);
    assert o in idx;
    var c :| 0 <= c < |idx| && idx[c] == o;
    assert p in r[c].members;
    forall c, c' | 0 <= c < c' < |r| ensures !(p in r[c].members && p in r[c'].members) {
      assert idx[c] < idx[c'];
    }
    FirstArgMinUnique(Distances(rel.vec[p], es), o);
  }

  /** The total number of members of the clusters `cs`. */
  function ClusterSizes(cs: seq<Cluster>): nat
    decreases |cs|
  {
    if |cs| == 0 then 0 else |cs[0].members| + ClusterSizes(cs[1..])
  }

  /** The total number of members of the entities `idx`. */
  function SizesAt(rel: Relation, es: seq<Entity>, idx: seq<nat>): nat
    requires Ready(rel, es)
    decreases |idx|
  {
    if |idx| == 0 then 0 else |Members(rel, es, rel.ids, idx[0])| + SizesAt(rel, es, idx[1..])
  }

  lemma {:induction false} ClustersAtSizes(rel: Relation, es: seq<Entity>, idx: seq<nat>)
    requires Ready(rel, es) && AllNonEmpty(rel, es, idx)
    ensures ClusterSizes(ClustersAt(rel, es, idx)) == SizesAt(rel, es, idx)
    decreases |idx|
  {
    if |idx| > 0 {
      ClustersAtSizes(rel, es, idx[1..]);
      assert ClustersAt(rel, es, idx)[1..] == ClustersAt(rel, es, idx[1..]);
    }
  }

  lemma SizesAtCons(rel: Relation, es: seq<Entity>, i: nat, rest: seq<nat>)
    requires Ready(rel, es)
    ensures SizesAt(rel, es, [i] + rest) == |Members(rel, es, rel.ids, i)| + SizesAt(rel, es, rest)
  {
    assert ([i] + rest)[1..] == rest;
  }

  lemma {:induction false} NonEmptySizes(rel: Relation, es: seq<Entity>, lo: nat)
    requires Ready(rel, es)
    ensures SizesAt(rel, es, NonEmptyFrom(rel, es, lo)) == SizesFrom(rel, es, rel.ids, lo)
    decreases |es| - lo
  {
    if lo < |es| {
      NonEmptySizes(rel, es, lo + 1);
      var rest := NonEmptyFrom(rel, es, lo + 1);
      var n := |Members(rel, es, rel.ids, lo)|;
      assert SizesFrom(rel, es, rel.ids, lo) == n + SizesFrom(rel, es, rel.ids, lo + 1);
      if n > 0 {
        assert NonEmptyFrom(rel, es, lo) == [lo] + rest;
        SizesAtCons(rel, es, lo, rest);
      } else {
        assert NonEmptyFrom(rel, es, lo) == rest;
      }
    }
  }

  /** Every member of a final cluster is a point of the relation, and the sizes add up to the number of points. */
  lemma FinalAssignmentCount(rel: Relation, es: seq<Entity>)
    requires Ready(rel, es)
    ensures ClusterSizes(FinalAssignment(rel, es)) == |rel.ids|
    ensures forall c, p :: 0 <= c < |FinalAssignment(rel, es)| && p in FinalAssignment(rel, es)[c].members
              ==> p in rel.ids
  {
    NonEmptySizes(rel, es, 0);
    NonEmptyFromFacts(rel, es, 0);
    ClustersAtSizes(rel, es, NonEmptyFrom(rel, es, 0));
    MembersCount(rel, es, rel.ids);
  }

  // ----- the refined entities ------------------------------------------------

  /** The keys of `dm` below `n`, from `lo` on, in ascending order. */
  function KeysFrom(dm: map<nat, seq<nat>>, n: nat, lo: nat): (r: seq<nat>)
    ensures forall j :: j in r <==> lo <= j < n && j in dm
    ensures Increasing(r)
    decreases n - lo
  {
    if lo >= n then []
    else
      var rest := KeysFrom(dm, n, lo + 1);
      if lo in dm then
        assert forall j :: 0 <= j < |rest| ==> rest[j] in rest;
        [lo] + rest
      else rest
  }

  lemma KeysFromCount(dm: map<nat, seq<nat>>, n: nat)
    requires forall i :: i in dm ==> i < n
    ensures |KeysFrom(dm, n, 0)| == |dm.Keys|
  {
    var ks := KeysFrom(dm, n, 0);
    assert Elements(ks) == dm.Keys;
    assert Distinct(ks) by {
      forall i, j | 0 <= i < j < |ks| ensures ks[i] != ks[j] {
        assert ks[i] < ks[j];
      }
    }
    DistinctCardinality(ks);
  }

  /**
   * The result list of the refinement `findDimensions`: for each cluster
   * index that received dimensions, in ascending order, the cluster's
   * centroid paired with those dimensions.
   */
  function RefinedEntities(cs: seq<Cluster>, dm: map<nat, seq<nat>>): (r: seq<Entity>)
    requires forall i :: i in dm ==> i < |cs|
    ensures |r| == |dm.Keys|
    ensures forall i :: i in dm ==> Entity(cs[i].centroid, dm[i]) in r
    ensures forall e :: e in r ==> exists i :: i in dm && e == Entity(cs[i].centroid, dm[i])
  {
    var ks := KeysFrom(dm, |cs|, 0);
    KeysFromCount(dm, |cs|);
    assert forall j :: 0 <= j < |ks| ==> ks[j] in ks;
    EntitiesAtMembers(cs, dm, ks);
    EntitiesAt(cs, dm, ks)
  }

  /** The entities of the keys `ks`, in that order. */
  function EntitiesAt(cs: seq<Cluster>, dm: map<nat, seq<nat>>, ks: seq<nat>): (r: seq<Entity>)
    requires forall j :: 0 <= j < |ks| ==> ks[j] in dm && ks[j] < |cs|
    ensures |r| == |ks|
    ensures forall j :: 0 <= j < |ks| ==> r[j] == Entity(cs[ks[j]].centroid, dm[ks[j]])
  {
    seq(|ks|, j requires 0 <= j < |ks| => Entity(cs[ks[j]].centroid, dm[ks[j]]))
  }

  lemma EntitiesAtMembers(cs: seq<Cluster>, dm: map<nat, seq<nat>>, ks: seq<nat>)
    requires forall i :: i in dm ==> i < |cs|
    requires forall j :: 0 <= j < |ks| ==> ks[j] in dm
    ensures forall i :: i in ks ==> Entity(cs[i].centroid, dm[i]) in EntitiesAt(cs, dm, ks)
    ensures forall e :: e in EntitiesAt(cs, dm, ks) ==> exists i :: i in dm && e == Entity(cs[i].centroid, dm[i])
  {
    var r := EntitiesAt(cs, dm, ks);
    forall i | i in ks ensures Entity(cs[i].centroid, dm[i]) in r {
      var j :| 0 <= j < |ks| && ks[j] == i;
      assert r[j] == Entity(cs[i].centroid, dm[i]);
    }
    forall e | e in r ensures exists i :: i in dm && e == Entity(cs[i].centroid, dm[i]) {
      var j :| 0 <= j < |r| && r[j] == e;
      assert ks[j] in dm;
    }
  }
}
