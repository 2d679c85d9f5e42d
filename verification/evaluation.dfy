/**
 * Scoring a clustering: `evaluateClusters` (the objective PROCLUS
 * minimises), `avgDistance`, and `computeBadMedoids` with its threshold.
 */
module Evaluation {
  import opened Vectors
  import opened Assignment

  // ----- per-cluster quantities --------------------------------------------

  /** A cluster of the relation: non-empty, of relation points, with a centroid of the relation's dimensionality. */
  predicate ClusterOk(rel: Relation, c: Cluster) {
    && rel.Valid()
    && |c.members| > 0
    && (forall p :: p in c.members ==> p in rel.vec)
    && |c.centroid| == rel.dim
  }

  /** `|c[j] - p[j]|` for the point `p`, as a term over ids. */
  function Gap(rel: Relation, c: Vector, j: nat): Id -> real {
    p => if p in rel.vec && j < |rel.vec[p]| && j < |c| then Abs(c[j] - rel.vec[p][j]) else 0.0
  }

  /** The sum of `|c[j] - p[j]|` over the points `ps`. */
  function AbsDeviation(rel: Relation, c: Vector, ps: seq<Id>, j: nat): (r: real)
    ensures r >= 0.0
  {
    SumOverNonNegative(ps, Gap(rel, c, j));
    SumOver(ps, Gap(rel, c, j))
  }

  /** `avgDistance(centroid, objectIDs, database, j)`: the mean of `|c[j] - p[j]|` over the points. */
  function AvgDistance(rel: Relation, c: Cluster, j: nat): (r: real)
    requires ClusterOk(rel, c) && j < rel.dim
    ensures r >= 0.0
  {
    AbsDeviation(rel, c.centroid, c.members, j) / |c.members| as real
  }

  /** The per-dimension averages of a cluster, as a term over dimensions. */
  function Avg(rel: Relation, c: Cluster): nat -> real {
    (j: nat) => if ClusterOk(rel, c) && j < rel.dim then AvgDistance(rel, c, j) else 0.0
  }

  /** The per-dimension total deviations of a cluster, as a term over dimensions. */
  function Dev(rel: Relation, c: Cluster): nat -> real {
    (j: nat) => AbsDeviation(rel, c.centroid, c.members, j)
  }

  /** `w_i` before the division: the sum of the average deviations over the dimensions `dims`. */
  function Spread(rel: Relation, c: Cluster, dims: seq<nat>): (r: real)
    requires ClusterOk(rel, c) && InRange(dims, rel.dim)
    ensures r >= 0.0
  {
    SumOverNonNegative(dims, Avg(rel, c));
    SumOver(dims, Avg(rel, c))
  }

  /** The sum of the absolute deviations from the centroid over the dimensions `dims`. */
  function TotalDeviation(rel: Relation, c: Cluster, dims: seq<nat>): (r: real)
    ensures r >= 0.0
  {
    SumOverNonNegative(dims, Dev(rel, c));
    SumOver(dims, Dev(rel, c))
  }

  /** The averaged spread is the total deviation over the cluster size. */
  lemma SpreadIsMeanDeviation(rel: Relation, c: Cluster, dims: seq<nat>)
    requires ClusterOk(rel, c) && InRange(dims, rel.dim)
    ensures Spread(rel, c, dims) == TotalDeviation(rel, c, dims) / |c.members| as real
  {
    SumOverScaled(dims, Avg(rel, c), Dev(rel, c), |c.members| as real);
  }

  // ----- the objective -----------------------------------------------------

  /**
   * What `evaluateClusters` needs: points to average over, and for each
   * cluster key a well-formed cluster with an in-range dimension set.
   */
  predicate EvalReady(rel: Relation, keys: seq<Id>, cs: map<Id, Cluster>, dm: map<Id, seq<nat>>) {
    && rel.Valid()
    && |rel.ids| > 0
    && (forall m :: m in keys ==> m in cs && m in dm && ClusterOk(rel, cs[m]) && InRange(dm[m], rel.dim))
  }

  /** One medoid's contribution `|C_i| * (w_i / |M|)`, with `|M|` the number of medoids, the keys of the dimension map. */
  function Contribution(rel: Relation, cs: map<Id, Cluster>, dm: map<Id, seq<nat>>): Id -> real {
    m => if m in cs && m in dm && ClusterOk(rel, cs[m]) && InRange(dm[m], rel.dim)
         then |cs[m].members| as real * (Spread(rel, cs[m], dm[m]) / |dm.Keys| as real)
         else 0.0
  }

  /** One cluster's total deviation over its dimensions. */
  function ClusterDeviation(rel: Relation, cs: map<Id, Cluster>, dm: map<Id, seq<nat>>): Id -> real {
    m => if m in cs && m in dm then TotalDeviation(rel, cs[m], dm[m]) else 0.0
  }

  /**
   * `evaluateClusters(clusters, dimensions, database)`: the size-weighted
   * spread of the clusters, each spread divided by the number of medoids,
   * over the number of points.  It is never negative.
   */
  function EvaluateClusters(rel: Relation, keys: seq<Id>, cs: map<Id, Cluster>, dm: map<Id, seq<nat>>)
    : (r: real)
    requires EvalReady(rel, keys, cs, dm)
    ensures r >= 0.0
  {
    forall i | 0 <= i < |keys| ensures Contribution(rel, cs, dm)(keys[i]) >= 0.0 {
      ContributionNonNegative(rel, cs, dm, keys[i]);
    }
    SumOverNonNegative(keys, Contribution(rel, cs, dm));
    QuotientNonNegative(SumOver(keys, Contribution(rel, cs, dm)), |rel.ids| as real);
    SumOver(keys, Contribution(rel, cs, dm)) / |rel.ids| as real
  }

  lemma ContributionNonNegative(rel: Relation, cs: map<Id, Cluster>, dm: map<Id, seq<nat>>, m: Id)
    ensures Contribution(rel, cs, dm)(m) >= 0.0
  {
    if m in cs && m in dm && ClusterOk(rel, cs[m]) && InRange(dm[m], rel.dim) {
      var sp := Spread(rel, cs[m], dm[m]);
      assert m in dm.Keys;
      QuotientNonNegative(sp, |dm.Keys| as real);
      ProductNonNegative(|cs[m].members| as real, sp / |dm.Keys| as real);
    }
  }

  lemma QuotientNonNegative(a: real, b: real)
    requires a >= 0.0 && b > 0.0
    ensures a / b >= 0.0
  {
  }

  lemma ProductNonNegative(a: real, b: real)
    requires a >= 0.0 && b >= 0.0
    ensures a * b >= 0.0
  {
  }

  lemma Cancel(n: real, td: real, k: real)
    requires n > 0.0 && k > 0.0
    ensures n * ((td / n) / k) == td / k
  {
  }

  lemma ContributionIsDeviation(rel: Relation, cs: map<Id, Cluster>, dm: map<Id, seq<nat>>, m: Id)
    requires m in cs && m in dm && ClusterOk(rel, cs[m]) && InRange(dm[m], rel.dim) && |dm.Keys| > 0
    ensures Contribution(rel, cs, dm)(m) == ClusterDeviation(rel, cs, dm)(m) / |dm.Keys| as real
  {
    var n, k := |cs[m].members| as real, |dm.Keys| as real;
    var sp, td := Spread(rel, cs[m], dm[m]), TotalDeviation(rel, cs[m], dm[m]);
    SpreadIsMeanDeviation(rel, cs[m], dm[m]);
    assert Contribution(rel, cs, dm)(m) == n * (sp / k);
    assert ClusterDeviation(rel, cs, dm)(m) == td;
    Cancel(n, td, k);
  }

  /**
   * The objective is the total absolute deviation of the cluster members
   * from their centroids over each cluster's dimensions, divided by the
   * number of medoids and the number of points.
   */
  lemma EvaluateIsMeanDeviation(rel: Relation, keys: seq<Id>, cs: map<Id, Cluster>, dm: map<Id, seq<nat>>)
    requires EvalReady(rel, keys, cs, dm) && |dm.Keys| > 0
    ensures EvaluateClusters(rel, keys, cs, dm)
            == SumOver(keys, ClusterDeviation(rel, cs, dm)) / |dm.Keys| as real / |rel.ids| as real
  {
    ContributionsScaled(rel, keys, cs, dm);
  }

  lemma ContributionsScaled(rel: Relation, keys: seq<Id>, cs: map<Id, Cluster>, dm: map<Id, seq<nat>>)
    requires EvalReady(rel, keys, cs, dm) && |dm.Keys| > 0
    ensures SumOver(keys, Contribution(rel, cs, dm))
            == SumOver(keys, ClusterDeviation(rel, cs, dm)) / |dm.Keys| as real
  {
    forall i | 0 <= i < |keys|
      ensures Contribution(rel, cs, dm)(keys[i]) == ClusterDeviation(rel, cs, dm)(keys[i]) / |dm.Keys| as real
    {
      assert keys[i] in keys;
      ContributionIsDeviation(rel, cs, dm, keys[i]);
    }
    SumOverScaled(keys, Contribution(rel, cs, dm), ClusterDeviation(rel, cs, dm), |dm.Keys| as real);
  }

  /**
   * The clusters come from a hash map whose iteration order is arbitrary:
   * any reordering of the keys gives the same objective.
   */
  lemma EvaluateOrderFree(rel: Relation, k1: seq<Id>, k2: seq<Id>, cs: map<Id, Cluster>, dm: map<Id, seq<nat>>)
    requires EvalReady(rel, k1, cs, dm) && EvalReady(rel, k2, cs, dm)
    requires multiset(k1) == multiset(k2)
    ensures EvaluateClusters(rel, k1, cs, dm) == EvaluateClusters(rel, k2, cs, dm)
  {
    SumOverPermutation(k1, k2, Contribution(rel, cs, dm));
  }

  // ----- bad medoids -------------------------------------------------------

  /**
   * `(int) (relation.size() * 0.1 / k)`: a tenth of the average cluster
   * size, truncated.  For a non-negative quotient truncation is the floor.
   */
  function BadThreshold(n: nat, k: nat): (r: nat)
    requires k > 0
    ensures r * 10 * k <= n < (r + 1) * 10 * k
  {
    n / (10 * k)
  }

  /**
   * `computeBadMedoids(clusters, threshold)`: a medoid is bad when its
   * cluster has fewer than `threshold` members.  Only medoids with a
   * cluster are examined.
   */
  function ComputeBadMedoids(cs: map<Id, Cluster>, threshold: nat): (r: set<Id>)
    ensures r <= cs.Keys
    ensures forall m :: m in cs ==> (m in r <==> |cs[m].members| < threshold)
  {
    set m | m in cs && |cs[m].members| < threshold
  }

  /**
   * A medoid that attracted no point has no cluster and so is never bad,
   * however small the threshold, while a medoid whose cluster is smaller
   * than the threshold always is.
   */
  lemma EmptyClusterNeverBad(rel: Relation, medoids: seq<Id>, dm: map<Id, seq<nat>>, threshold: nat, m: Id)
    requires AssignReady(rel, medoids, dm) && m in dm
    ensures (forall p :: p in rel.ids ==> AssignedMedoid(rel, medoids, dm, p) != m)
            ==> m !in ComputeBadMedoids(AssignPoints(rel, medoids, dm), threshold)
    ensures m in AssignPoints(rel, medoids, dm)
            ==> (m in ComputeBadMedoids(AssignPoints(rel, medoids, dm), threshold)
                 <==> |AssignPoints(rel, medoids, dm)[m].members| < threshold)
  {
    var cs := AssignPoints(rel, medoids, dm);
    if m in cs {
      AssignPointsMembers(rel, medoids, dm, m);
      var p := cs[m].members[0];
      assert p in cs[m].members;
    }
  }
}
