/**
 * The phases of `PROCLUS.run`: the greedy choice of medoid candidates, the
 * iterative phase that evaluates medoid sets round by round, keeps the best
 * one and replaces its bad medoids at random until ten rounds pass without
 * improvement, and the refinement phase that assigns every point once more
 * to the clusters found last.
 */
module Iteration {
  import opened Outcomes
  import opened Vectors
  import opened MedoidSelection
  import opened DimensionSelection
  import opened Assignment
  import opened Evaluation

  /** `bestObjective`: positive infinity until the first round. */
  datatype Objective = Infinite | Finite(value: real)

  /** `objectiveFunction < bestObjective`. */
  predicate Improves(x: real, best: Objective) {
    best.Infinite? || x < best.value
  }

  /** `a <= b` on objectives. */
  predicate AtMost(a: Objective, b: Objective) {
    b.Infinite? || (a.Finite? && a.value <= b.value)
  }

  /**
   * What the iterative phase works on: the relation, the medoid candidates
   * `M` of the greedy phase, the parameters `k` and `l`, the random oracle,
   * and the z-scores the medoid form of `findDimensions` computes for a
   * medoid set from its localities (row `i` for medoid `i`, one column per
   * dimension).
   */
  datatype Setting = Setting(rel: Relation, medoids: seq<Id>, k: nat, l: nat,
                             zs: seq<Id> -> seq<seq<real>>, rnd: Oracle)

  /** One row of z-scores per medoid, one column per dimension. */
  ghost predicate ZScoresFit(zs: seq<Id> -> seq<seq<real>>, dim: nat) {
    forall m: seq<Id> :: |zs(m)| == |m| && Rectangular(zs(m), dim)
  }

  ghost predicate SettingOk(s: Setting) {
    && s.rel.Valid()
    && |s.rel.ids| > 0
    && s.k > 0
    && Distinct(s.medoids)
    && (forall x :: x in s.medoids ==> x in s.rel.ids)
    && ZScoresFit(s.zs, s.rel.dim)
  }

  /**
   * The loop variables of the iterative phase: `bestObjective`, `m_best`
   * (null until the first improvement), `m_bad`, `m_current`, `loops`, the
   * position in the random stream, the values of the latest `clusters` map
   * in key order, and the latest objective value.
   */
  datatype State = State(best: Objective, mBest: Option<seq<Id>>, mBad: set<Id>, current: seq<Id>,
                         loops: nat, cursor: nat, clusters: seq<Cluster>, objective: real)

  /** The variables before the first round. */
  function Start(current: seq<Id>, cursor: nat): State {
    State(Infinite, None, {}, current, 0, cursor, [], 0.0)
  }

  /**
   * What holds between rounds: `k` distinct current medoids from `M`, a
   * best set exactly once some round has been evaluated, and clusters that
   * are non-empty and live in the data space.
   */
  predicate StateOk(s: Setting, st: State) {
    && MedoidSet(s, st.current)
    && (st.best.Infinite? <==> st.mBest.None?)
    && (st.mBest.Some? ==> MedoidSet(s, st.mBest.value))
    && (forall c :: c in st.clusters ==> |c.members| > 0 && |c.centroid| == s.rel.dim)
  }

  /** `k` distinct medoids taken from `M`. */
  predicate MedoidSet(s: Setting, m: seq<Id>) {
    |m| == s.k && Distinct(m) && forall x :: x in m ==> x in s.medoids
  }

  // ----- one evaluation --------------------------------------------------

  /** What one medoid set yields: its dimensions, its clusters, their keys in iteration order, the objective. */
  datatype Outcome = Outcome(dims: map<Id, seq<nat>>, clusters: map<Id, Cluster>, keys: seq<Id>, objective: real)

  /** The keys of `cs` in the order of `medoids`: the iteration order of the clusters map. */
  function KeysIn(medoids: seq<Id>, cs: map<Id, Cluster>): (r: seq<Id>)
    ensures forall m :: m in r <==> m in medoids && m in cs
    ensures Distinct(medoids) ==> Distinct(r)
    decreases |medoids|
  {
    if |medoids| == 0 then []
    else (if medoids[0] in cs then [medoids[0]] else []) + KeysIn(medoids[1..], cs)
  }

  /** `clusters.values()` in key order. */
  function ValuesAt(keys: seq<Id>, cs: map<Id, Cluster>): (r: seq<Cluster>)
    requires forall m :: m in keys ==> m in cs
    ensures |r| == |keys|
    ensures forall i :: 0 <= i < |keys| ==> r[i] == cs[keys[i]]
  {
    seq(|keys|, i requires 0 <= i < |keys| => cs[keys[i]])
  }

  /**
   * Lines 200-202 of `run`: `findDimensions` on the current medoids,
   * `assignPoints`, `evaluateClusters`.  Too few (medoid, dimension)
   * pairs for `max(k * l, 2)` make the selection throw.
   */
  function Evaluate(s: Setting, cur: seq<Id>): (r: Result<Outcome>)
    requires SettingOk(s) && Distinct(cur) && forall x :: x in cur ==> x in s.rel.ids
    ensures r.Ok? <==> Budget(s.k, s.l) <= |cur| * s.rel.dim
    ensures r.Err? ==> r.fault == IndexOutOfBounds
    ensures r.Ok? ==> r.value.objective >= 0.0
    ensures r.Ok? ==>
      && Distinct(r.value.keys)
      && (forall m :: m in r.value.keys <==> m in r.value.clusters)
      && (forall m :: m in r.value.clusters ==> m in cur)
      && (forall m :: m in r.value.clusters ==>
            |r.value.clusters[m].members| > 0 && |r.value.clusters[m].centroid| == s.rel.dim)
  {
    var rel := s.rel;
    match FindDimensions(cur, s.zs(cur), rel.dim, s.k, s.l)
    case Err(f) => Err(f)
    case Ok(dm) =>
      EvaluationReady(rel, cur, dm);
      var cs := AssignPoints(rel, cur, dm);
      var keys := KeysIn(cur, cs);
      EvaluatedClusters(rel, cur, dm, keys);
      Ok(Outcome(dm, cs, keys, EvaluateClusters(rel, keys, cs, dm)))
  }

  /** The dimensions of the current medoids are what `assignPoints` needs. */
  lemma EvaluationReady(rel: Relation, cur: seq<Id>, dm: map<Id, seq<nat>>)
    requires rel.Valid() && Distinct(cur) && forall x :: x in cur ==> x in rel.ids
    requires |cur| > 0 && dm.Keys == Elements(cur) && WellFormedDims(dm, rel.dim)
    ensures AssignReady(rel, cur, dm)
  {
  }

  /** The clusters of `assignPoints`, in medoid order, are what `evaluateClusters` needs. */
  lemma EvaluatedClusters(rel: Relation, cur: seq<Id>, dm: map<Id, seq<nat>>, keys: seq<Id>)
    requires AssignReady(rel, cur, dm) && |rel.ids| > 0
    requires keys == KeysIn(cur, AssignPoints(rel, cur, dm))
    ensures EvalReady(rel, keys, AssignPoints(rel, cur, dm), dm)
    ensures forall m :: m in keys <==> m in AssignPoints(rel, cur, dm)
  {
    var cs := AssignPoints(rel, cur, dm);
    forall m | m in cs ensures m in keys {
      assert m in Elements(cur);
    }
  }

  /**
   * Every point of the relation lies in the cluster of exactly one medoid
   * of an evaluated set: the one it is nearest to.
   */
  lemma EvaluatePartition(s: Setting, cur: seq<Id>, p: Id)
    requires SettingOk(s) && Distinct(cur) && forall x :: x in cur ==> x in s.rel.ids
    requires Budget(s.k, s.l) <= |cur| * s.rel.dim && p in s.rel.ids
    ensures Evaluate(s, cur).Ok?
    ensures var cs := Evaluate(s, cur).value.clusters;
      && (exists m :: m in cs && p in cs[m].members)
      && (forall m, m' :: m in cs && m' in cs && p in cs[m].members && p in cs[m'].members ==> m == m')
  {
    var dm := FindDimensions(cur, s.zs(cur), s.rel.dim, s.k, s.l).value;
    EvaluationReady(s.rel, cur, dm);
    var cs := AssignPoints(s.rel, cur, dm);
    AssignPointsCovers(s.rel, cur, dm, p);
    forall m, m' | m in cs && m' in cs && p in cs[m].members && p in cs[m'].members ensures m == m' {
      AssignPointsMembers(s.rel, cur, dm, m);
      AssignPointsMembers(s.rel, cur, dm, m');
    }
  }

  // ----- one round -------------------------------------------------------

  /**
   * One pass of the `while (loops < 10)` body: evaluate the current
   * medoids; on strict improvement restart the counter and keep them as
   * the best set together with its bad medoids; then draw the next current
   * set from the best one and count the round.
   */
  function Round(s: Setting, st: State): (r: Result<State>)
    requires SettingOk(s) && StateOk(s, st)
    ensures Budget(s.k, s.l) > s.k * s.rel.dim ==> r == Err(IndexOutOfBounds)
    ensures r.Err? ==> r.fault == IndexOutOfBounds || r.fault == RandomBoundNotPositive
    ensures r.Ok? ==> StateOk(s, r.value) && r.value.cursor >= st.cursor
    ensures r.Ok? ==> Progress(st, r.value)
    ensures r.Ok? ==> Evaluate(s, st.current).Ok? && r.value.objective == Evaluate(s, st.current).value.objective
    ensures r.Ok? && Improves(r.value.objective, st.best)
            ==> r.value.mBad == BadMedoids(s, Evaluate(s, st.current).value.clusters)
    ensures r.Ok? ==> r.value.mBest.Some?
    ensures r.Ok? ==> Replacement(r.value.mBest.value, r.value.mBad, Without(s.medoids, r.value.mBest.value),
                                  r.value.current)
    ensures r.Ok? ==> r.value.clusters == ValuesAt(Evaluate(s, st.current).value.keys, Evaluate(s, st.current).value.clusters)
  {
    match Evaluate(s, st.current)
    case Err(f) => Err(f)
    case Ok(o) =>
      if Improves(o.objective, st.best) then
        Advance(s, o, Finite(o.objective), st.current, BadMedoids(s, o.clusters), 0, st.cursor)
      else
        Advance(s, o, st.best, st.mBest.value, st.mBad, st.loops, st.cursor)
  }

  /**
   * How a round moves the loop variables: a strict improvement makes the
   * evaluated set the best one and leaves the counter at 1; otherwise the
   * best objective, set and bad medoids stay and the counter goes up.
   */
  predicate Progress(st: State, st': State) {
    if Improves(st'.objective, st.best) then
      st'.best == Finite(st'.objective) && st'.mBest == Some(st.current) && st'.loops == 1
    else
      st'.best == st.best && st'.mBest == st.mBest && st'.mBad == st.mBad && st'.loops == st.loops + 1
  }

  /** The best objective never increases, and it changes exactly on an improvement. */
  lemma ProgressBest(st: State, st': State)
    requires Progress(st, st')
    ensures AtMost(st'.best, st.best)
    ensures Improves(st'.objective, st.best) <==> st'.best != st.best
  {
  }

  /**
   * The rest of the loop body once the best set and the bad medoids are
   * settled: `computeM_current` draws the next current set and `loops++`
   * counts the round.
   */
  function Advance(s: Setting, o: Outcome, best: Objective, mBest: seq<Id>, mBad: set<Id>, loops: nat,
                   cursor: nat): (r: Result<State>)
    requires SettingOk(s) && MedoidSet(s, mBest) && best.Finite?
    requires forall m :: m in o.keys ==> m in o.clusters
    requires forall m :: m in o.clusters ==> |o.clusters[m].members| > 0 && |o.clusters[m].centroid| == s.rel.dim
    ensures r.Ok? <==> CountIn(mBest, mBad) + s.k <= |s.medoids|
    ensures r.Err? ==> r.fault == RandomBoundNotPositive
    ensures r.Ok? ==> StateOk(s, r.value) && r.value.cursor == cursor + CountIn(mBest, mBad)
    ensures r.Ok? ==>
      && r.value.best == best && r.value.mBest == Some(mBest) && r.value.mBad == mBad
      && r.value.loops == loops + 1 && r.value.objective == o.objective
    ensures r.Ok? ==> Replacement(mBest, mBad, Without(s.medoids, mBest), r.value.current)
    ensures r.Ok? ==> r.value.clusters == ValuesAt(o.keys, o.clusters)
  {
    ComputeMCurrentSucceeds(s.medoids, mBest, mBad, s.rnd, cursor);
    match ComputeMCurrent(s.medoids, mBest, mBad, s.rnd, cursor)
    case Err(f) => Err(f)
    case Ok(next) =>
      ComputeMCurrentWithin(s.medoids, mBest, mBad, s.rnd, cursor);
      var values := ValuesAt(o.keys, o.clusters);
      assert forall c :: c in values ==> |c.members| > 0 && |c.centroid| == s.rel.dim;
      Ok(State(best, Some(mBest), mBad, next.0, loops + 1, next.1, values, o.objective))
  }

  /**
   * `computeBadMedoids(clusters, (int) (relation.size() * 0.1 / k))`: the
   * medoids whose clusters hold fewer than a tenth of the average cluster
   * size, truncated; that is, a cluster of `c` points is bad exactly when
   * `(c + 1) * 10 * k` points fit into the relation.
   */
  function BadMedoids(s: Setting, cs: map<Id, Cluster>): (r: set<Id>)
    requires s.k > 0
    ensures r <= cs.Keys
    ensures forall m :: m in cs ==> (m in r <==> (|cs[m].members| + 1) * (10 * s.k) <= |s.rel.ids|)
  {
    var t := BadThreshold(|s.rel.ids|, s.k);
    forall m | m in cs ensures |cs[m].members| < t <==> (|cs[m].members| + 1) * (10 * s.k) <= |s.rel.ids| {
      BelowThreshold(|cs[m].members|, t, |s.rel.ids|, 10 * s.k);
    }
    ComputeBadMedoids(cs, t)
  }

  /** Below the floor of `n / q` means one more still fits `q` times into `n`. */
  lemma BelowThreshold(c: nat, t: nat, n: nat, q: nat)
    requires q > 0 && t * q <= n < (t + 1) * q
    ensures c < t <==> (c + 1) * q <= n
  {
    if c < t {
      assert (c + 1) * q <= t * q;
    } else {
      assert (t + 1) * q <= (c + 1) * q;
    }
  }

  /**
   * `n` rounds, without the stop rule.  The best objective never
   * increases, and while it stays the same the counter counts the rounds:
   * a round that improves changes the best objective and leaves the
   * counter at 1, so the loop only ends after nine further rounds without
   * improvement.
   */
  function Rounds(s: Setting, st: State, n: nat): (r: Result<State>)
    requires SettingOk(s) && StateOk(s, st)
    ensures r.Ok? ==> StateOk(s, r.value)
    ensures r.Ok? ==> AtMost(r.value.best, st.best)
    ensures r.Ok? && r.value.best == st.best ==> r.value.loops == st.loops + n
    decreases n
  {
    if n == 0 then Ok(st)
    else
      match Round(s, st)
      case Err(f) => Err(f)
      case Ok(st') =>
        ProgressBest(st, st');
        var r := Rounds(s, st', n - 1);
        if r.Ok? && Improves(st'.objective, st.best) then
          BelowImprovement(r.value.best, st'.best, st.best);
          r
        else
          r
  }

  /** What is at most an improved best is below the old best. */
  lemma BelowImprovement(a: Objective, b: Objective, c: Objective)
    requires AtMost(a, b) && AtMost(b, c) && b != c
    ensures a != c
  {
  }

  // ----- the loop --------------------------------------------------------

  /**
   * `while (loops < 10) { ... }`.  The loop always ends in Java, since
   * only finitely many medoid sets exist; the model bounds the number of
   * rounds by `fuel` instead.
   */
  function Run(s: Setting, st: State, fuel: nat): (r: Result<State>)
    requires SettingOk(s) && StateOk(s, st)
    ensures r.Ok? ==> StateOk(s, r.value) && AtMost(r.value.best, st.best)
    ensures r.Ok? && st.loops <= 10 ==> r.value.loops == 10
    ensures r.Ok? && st.loops < 10 ==> r.value.mBest.Some?
    ensures st.loops < 10 && fuel == 0 ==> r == Err(FuelExhausted)
    ensures r.Err? ==> r.fault == IndexOutOfBounds || r.fault == RandomBoundNotPositive || r.fault == FuelExhausted
    decreases fuel
  {
    if st.loops >= 10 then Ok(st)
    else if fuel == 0 then Err(FuelExhausted)
    else
      match Round(s, st)
      case Err(f) => Err(f)
      case Ok(st') =>
        ProgressBest(st, st');
        var r := Run(s, st', fuel - 1);
        assert r.Ok? ==> AtMost(r.value.best, st'.best);
        r
  }

  // ----- refinement ------------------------------------------------------

  /** One row of z-scores per cluster, one column per dimension. */
  ghost predicate RefineZScoresFit(zs: seq<Cluster> -> seq<seq<real>>, dim: nat) {
    forall cs: seq<Cluster> :: |zs(cs)| == |cs| && Rectangular(zs(cs), dim)
  }

  /**
   * Lines 228-229 of `run`: the cluster form of `findDimensions` on the
   * clusters of the last round, then `finalAssignment` to their centroids.
   * Every point lies in exactly one of the resulting clusters, none of
   * which is empty, and the sizes add up to the relation's; each cluster
   * carries its refined dimensions and the centroid of its members.
   */
  function Refine(rel: Relation, clusters: seq<Cluster>, z: seq<seq<real>>, k: nat, l: nat)
    : (r: Result<seq<Cluster>>)
    requires rel.Valid() && |z| == |clusters| && Rectangular(z, rel.dim)
    requires forall c :: c in clusters ==> |c.centroid| == rel.dim
    ensures r.Ok? <==> Budget(k, l) <= |clusters| * rel.dim
    ensures r.Err? ==> r.fault == IndexOutOfBounds
    ensures r.Ok? ==> Partitions(rel, r.value) && SubspaceClusters(rel, r.value)
  {
    match RefineDimensions(z, rel.dim, k, l)
    case Err(f) => Err(f)
    case Ok(dm) =>
      var es := RefinedEntities(clusters, dm);
      RefinedReady(rel, clusters, dm);
      FinalAssignmentCount(rel, es);
      RefinedDims(rel, clusters, dm);
      forall p | p in rel.ids
        ensures exists c :: 0 <= c < |FinalAssignment(rel, es)| && p in FinalAssignment(rel, es)[c].members
        ensures forall c, c' :: 0 <= c < c' < |FinalAssignment(rel, es)| && p in FinalAssignment(rel, es)[c].members
                  ==> p !in FinalAssignment(rel, es)[c'].members
      {
        FinalAssignmentPartition(rel, es, p);
      }
      Ok(FinalAssignment(rel, es))
  }

  /**
   * The clusters split the relation: each is non-empty and duplicate-free,
   * holds only points of the relation, every point is in one of them and
   * in no other, and so their sizes add up to the relation's.
   */
  predicate Partitions(rel: Relation, r: seq<Cluster>) {
    && ClusterSizes(r) == |rel.ids|
    && (forall c :: 0 <= c < |r| ==> |r[c].members| > 0 && Distinct(r[c].members))
    && (forall c, p :: 0 <= c < |r| && p in r[c].members ==> p in rel.ids)
    && (forall p :: p in rel.ids ==> exists c :: 0 <= c < |r| && p in r[c].members)
    && (forall p, c, c' :: 0 <= c < c' < |r| && p in r[c].members ==> p !in r[c'].members)
  }

  /**
   * Every cluster has a non-empty set of dimensions of the data space, and
   * its centroid is the mean of its members.
   */
  predicate SubspaceClusters(rel: Relation, r: seq<Cluster>)
    requires rel.Valid() && Partitions(rel, r)
  {
    forall c :: 0 <= c < |r| ==>
      && |r[c].dims| > 0
      && InRange(r[c].dims, rel.dim)
      && r[c].centroid == Centroid(rel, r[c].members)
  }

  /** The final clusters carry the dimensions of the refined entities, which are never empty. */
  lemma RefinedDims(rel: Relation, clusters: seq<Cluster>, dm: map<nat, seq<nat>>)
    requires rel.Valid() && forall c :: c in clusters ==> |c.centroid| == rel.dim
    requires |dm.Keys| > 0 && WellFormedDims(dm, rel.dim)
    requires forall e :: e in dm ==> e < |clusters| && |dm[e]| > 0
    ensures Ready(rel, RefinedEntities(clusters, dm))
    ensures var fa := FinalAssignment(rel, RefinedEntities(clusters, dm));
      forall c :: 0 <= c < |fa| ==> |fa[c].dims| > 0 && InRange(fa[c].dims, rel.dim)
  {
    var es := RefinedEntities(clusters, dm);
    RefinedReady(rel, clusters, dm);
    var fa := FinalAssignment(rel, es);
    forall c | 0 <= c < |fa| ensures |fa[c].dims| > 0 && InRange(fa[c].dims, rel.dim) {
      var i :| 0 <= i < |es| && fa[c].dims == es[i].dims;
      assert es[i] in es;
      var e :| e in dm && es[i] == Entity(clusters[e].centroid, dm[e]);
    }
  }

  /** The refined entities live in the data space. */
  lemma RefinedReady(rel: Relation, clusters: seq<Cluster>, dm: map<nat, seq<nat>>)
    requires rel.Valid() && forall c :: c in clusters ==> |c.centroid| == rel.dim
    requires |dm.Keys| > 0 && WellFormedDims(dm, rel.dim) && forall e :: e in dm ==> e < |clusters|
    ensures Ready(rel, RefinedEntities(clusters, dm))
  {
    var es := RefinedEntities(clusters, dm);
    forall i | 0 <= i < |es| ensures |es[i].rep| == rel.dim && InRange(es[i].dims, rel.dim) {
      assert es[i] in es;
      var e :| e in dm && es[i] == Entity(clusters[e].centroid, dm[e]);
      assert clusters[e] in clusters;
    }
  }

  // ----- the whole algorithm ---------------------------------------------

  /**
   * `run`: check the dimensionality, choose `min(|DB|, m_i * k)` medoid
   * candidates greedily from the sample, draw the first `k` current
   * medoids, iterate, refine.  The random sample itself is an input.
   *
   * The first round's `getLocalities` needs, for every current medoid, a
   * radius to another medoid; with `k = 1` there is none.  Every later
   * current set again has `k` distinct medoids (`StateOk`), so by
   * `RadiusExists` the radius can only be missing in the first round.
   */
  method Proclus(rel: Relation, sample: seq<Id>, dist: (Id, Id) -> real, k: nat, l: nat, mi: nat,
                 zs: seq<Id> -> seq<seq<real>>, refineZs: seq<Cluster> -> seq<seq<real>>,
                 rnd: Oracle, cursor: nat, fuel: nat)
    returns (r: Result<seq<Cluster>>)
    requires rel.Valid() && k > 0
    requires Distinct(sample) && forall x :: x in sample ==> x in rel.ids
    requires ZScoresFit(zs, rel.dim) && RefineZScoresFit(refineZs, rel.dim)
    ensures rel.dim < l ==> r == Err(IllegalState)
    ensures l <= rel.dim && |rel.ids| == 0 ==> r == Err(RandomBoundNotPositive)
    ensures k == 1 ==> r.Err?
    ensures r == Err(NullRadius) ==> k == 1
    ensures r.Ok? ==> Partitions(rel, r.value) && SubspaceClusters(rel, r.value)
  {
    if rel.dim < l {
      return Err(IllegalState);
    }
    var medoidSize := if |rel.ids| < mi * k then |rel.ids| else mi * k;
    var greedy := Greedy(dist, sample, medoidSize, rnd, cursor);
    if greedy.Err? {
      return Err(greedy.fault);
    }
    var medoids := greedy.value.0;
    assert medoids[0] in rel.ids;
    var initial := InitialSet(medoids, k, rnd, greedy.value.1);
    if initial.Err? {
      return Err(initial.fault);
    }
    var current := initial.value.0;
    if k == 1 {
      assert LocalityRadius(dist, current[0], current).None?;
    }
    if exists i :: 0 <= i < |current| && LocalityRadius(dist, current[i], current).None? {
      var i :| 0 <= i < |current| && LocalityRadius(dist, current[i], current).None?;
      RadiusExists(dist, current, current[i]);
      return Err(NullRadius);
    }
    var s := Setting(rel, medoids, k, l, zs, rnd);
    var run := Run(s, Start(current, initial.value.1), fuel);
    if run.Err? {
      return Err(run.fault);
    }
    var clusters := run.value.clusters;
    r := Refine(rel, clusters, refineZs(clusters), k, l);
  }
}
