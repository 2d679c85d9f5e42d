/**
 * Medoid bookkeeping of PROCLUS: the greedy farthest-point ("piercing")
 * selection of the medoid superset, the random initial working set, the
 * replacement of bad medoids, and the locality radius of each medoid.
 *
 * `java.util.Random` becomes an oracle: `rnd(i)` is the raw value of the
 * i-th draw, and `rnd(i) % n` stands for `random.nextInt(n)`, so every
 * outcome of `nextInt` is reachable.  Each operation takes the cursor of its
 * first draw and returns the cursor after its last one.  Identifier sets
 * are sequences in their iteration order.
 */
module MedoidSelection {
  import opened Outcomes
  import opened Vectors

  type Oracle = nat -> nat

  /** `random.nextInt(n)` as the draw at `cursor`. */
  function Draw(rnd: Oracle, cursor: nat, n: nat): (r: nat)
    requires n > 0
    ensures r < n
  {
    rnd(cursor) % n
  }

  /** `list.remove(i)` on an array list. */
  function RemoveAt<T(==)>(s: seq<T>, i: nat): (r: seq<T>)
    requires i < |s|
    ensures |r| == |s| - 1
    ensures multiset(r) == multiset(s) - multiset{s[i]}
    ensures forall j :: 0 <= j < i ==> r[j] == s[j]
    ensures forall j :: i <= j < |r| ==> r[j] == s[j + 1]
    ensures Distinct(s) ==> Distinct(r) && forall j :: 0 <= j < |r| ==> r[j] != s[i]
  {
    MultisetRemoveAt(s, i);
    RemoveAtDistinct(s, i);
    s[..i] + s[i + 1..]
  }

  lemma RemoveAtDistinct<T>(s: seq<T>, i: nat)
    requires i < |s|
    ensures Distinct(s) ==> Distinct(s[..i] + s[i + 1..])
    ensures Distinct(s) ==> s[i] !in s[..i] + s[i + 1..]
  {
    var r := s[..i] + s[i + 1..];
    assert forall j :: 0 <= j < |r| ==> r[j] == s[if j < i then j else j + 1];
  }

  /** Removing a position of a duplicate-free list removes exactly its element. */
  lemma RemoveAtMembers(s: seq<Id>, i: nat)
    requires i < |s| && Distinct(s)
    ensures forall x :: x in RemoveAt(s, i) <==> x in s && x != s[i]
  {
    var r := RemoveAt(s, i);
    forall x | x in s && x != s[i] ensures x in r {
      var j :| 0 <= j < |s| && s[j] == x;
      if j < i {
        assert r[j] == x;
      } else {
        assert r[j - 1] == x;
      }
    }
  }

  lemma PrependDistinct(x: Id, s: seq<Id>)
    requires Distinct(s) && x !in s
    ensures Distinct([x] + s)
  {
    var r := [x] + s;
    forall i, j | 0 <= i < j < |r| ensures r[i] != r[j] {
      if i == 0 {
        assert r[j] == s[j - 1];
      } else {
        assert r[i] == s[i - 1] && r[j] == s[j - 1];
      }
    }
  }

  // ----- greedy ---------------------------------------------------------

  /** `dist_new.compareTo(dist_old) < 0 ? dist_new : dist_old`. */
  function Closer(previous: real, candidate: real): real {
    if candidate < previous then candidate else previous
  }

  /**
   * The distance of `y` to the nearest medoid of `chosen`, folded in choice
   * order the way the greedy loop updates it.
   */
  function MinDist(dist: (Id, Id) -> real, y: Id, chosen: seq<Id>): (r: real)
    requires |chosen| > 0
    ensures forall i :: 0 <= i < |chosen| ==> r <= dist(y, chosen[i])
    ensures exists i :: 0 <= i < |chosen| && r == dist(y, chosen[i])
    decreases |chosen|
  {
    if |chosen| == 1 then dist(y, chosen[0])
    else Closer(MinDist(dist, y, chosen[..|chosen| - 1]), dist(y, chosen[|chosen| - 1]))
  }

  /**
   * `x` is a farthest remaining candidate: it is a sample point not chosen
   * yet, and no other such point lies farther from the chosen medoids.
   */
  ghost predicate Farthest(dist: (Id, Id) -> real, sample: seq<Id>, chosen: seq<Id>, x: Id)
    requires |chosen| > 0
  {
    && x in sample && x !in chosen
    && forall y :: y in sample && y !in chosen ==> MinDist(dist, y, chosen) <= MinDist(dist, x, chosen)
  }

  /**
   * The position the greedy step picks: sorting the tracked distances
   * ascending (a stable sort) and taking the last entry yields a maximal
   * distance, and among equal maxima the last one in candidate order.
   */
  function LastArgMax(t: seq<real>): (k: nat)
    requires |t| > 0
    ensures k < |t|
    ensures forall j :: 0 <= j < |t| ==> t[j] <= t[k]
    ensures forall j :: k < j < |t| ==> t[j] < t[k]
    decreases |t|
  {
    if |t| == 1 then 0
    else
      var k := LastArgMax(t[..|t| - 1]);
      if t[|t| - 1] >= t[k] then |t| - 1 else k
  }

  /** `track[j]` is the distance of candidate `rest[j]` to its nearest chosen medoid. */
  ghost predicate Tracks(dist: (Id, Id) -> real, rest: seq<Id>, track: seq<real>, chosen: seq<Id>)
    requires |chosen| > 0
  {
    |track| == |rest| && forall j :: 0 <= j < |rest| ==> track[j] == MinDist(dist, rest[j], chosen)
  }

  /** The chosen medoids and the remaining candidates split the sample. */
  ghost predicate Splits(sample: seq<Id>, chosen: seq<Id>, rest: seq<Id>) {
    && Distinct(chosen) && Distinct(rest)
    && (forall x :: x in sample <==> x in chosen || x in rest)
    && (forall x :: x in chosen ==> x !in rest)
  }

  /** The first draw splits the sample into the first medoid and the rest. */
  lemma SplitsStart(sample: seq<Id>, first: nat)
    requires Distinct(sample) && first < |sample|
    ensures Splits(sample, [sample[first]], RemoveAt(sample, first))
  {
    RemoveAtMembers(sample, first);
  }

  /** Moving candidate `k` to the chosen medoids keeps the split. */
  lemma SplitsStep(sample: seq<Id>, chosen: seq<Id>, rest: seq<Id>, k: nat)
    requires Splits(sample, chosen, rest) && k < |rest|
    ensures Splits(sample, chosen + [rest[k]], RemoveAt(rest, k))
  {
    RemoveAtMembers(rest, k);
    assert rest[k] !in chosen;
  }

  /** Every medoid after the first was a farthest candidate when it was chosen. */
  ghost predicate PiercingOrder(dist: (Id, Id) -> real, sample: seq<Id>, chosen: seq<Id>) {
    forall t :: 1 <= t < |chosen| ==> Farthest(dist, sample, chosen[..t], chosen[t])
  }

  /** The candidate at the last maximal tracked distance is a farthest one. */
  lemma PickIsFarthest(dist: (Id, Id) -> real, sample: seq<Id>, chosen: seq<Id>, rest: seq<Id>,
                       track: seq<real>)
    requires |chosen| > 0 && |rest| > 0
    requires Splits(sample, chosen, rest) && Tracks(dist, rest, track, chosen)
    ensures Farthest(dist, sample, chosen, rest[LastArgMax(track)])
  {
    var k := LastArgMax(track);
    forall y | y in sample && y !in chosen
      ensures MinDist(dist, y, chosen) <= MinDist(dist, rest[k], chosen)
    {
      var j :| 0 <= j < |rest| && rest[j] == y;
      assert track[j] <= track[k];
    }
  }

  /** Appending a farthest candidate extends the piercing order. */
  lemma ExtendPiercing(dist: (Id, Id) -> real, sample: seq<Id>, chosen: seq<Id>, x: Id)
    requires |chosen| > 0
    requires PiercingOrder(dist, sample, chosen)
    requires Farthest(dist, sample, chosen, x)
    ensures PiercingOrder(dist, sample, chosen + [x])
  {
    var next := chosen + [x];
    assert next[..|chosen|] == chosen;
    forall t | 1 <= t < |next|
      ensures Farthest(dist, sample, next[..t], next[t])
    {
      if t < |chosen| {
        assert next[..t] == chosen[..t];
      }
    }
  }

  /**
   * After medoid `x` is chosen and removed from the candidates, folding
   * `min(old, dist(y, x))` into the tracked distances keeps them the
   * distances to the nearest chosen medoid.
   */
  lemma UpdateTracks(dist: (Id, Id) -> real, rest: seq<Id>, track: seq<real>, chosen: seq<Id>, k: nat)
    requires |chosen| > 0 && k < |rest|
    requires Tracks(dist, rest, track, chosen)
    ensures var rest', x := RemoveAt(rest, k), rest[k];
            var left := RemoveAt(track, k);
            Tracks(dist, rest', seq(|rest'|, j requires 0 <= j < |rest'| => Closer(left[j], dist(rest'[j], x))),
                   chosen + [x])
  {
    var rest', x := RemoveAt(rest, k), rest[k];
    var next := chosen + [x];
    assert next[..|next| - 1] == chosen;
    forall j | 0 <= j < |rest'|
      ensures RemoveAt(track, k)[j] == MinDist(dist, rest'[j], chosen)
    {
      if j < k {
        assert rest'[j] == rest[j];
      } else {
        assert rest'[j] == rest[j + 1];
      }
    }
  }

  /**
   * `greedy(distFunc, sampleSet, m, random)`: a random first medoid, then
   * repeatedly the candidate farthest from all medoids chosen so far.  The
   * medoids are returned in the order they were chosen.  Even for `m = 0`
   * the first medoid is chosen.  An empty sample makes the first draw fail;
   * more medoids than samples make the pick from an empty distance list fail.
   */
  method Greedy(dist: (Id, Id) -> real, sample: seq<Id>, m: nat, rnd: Oracle, cursor: nat)
    returns (r: Result<(seq<Id>, nat)>)
    requires Distinct(sample)
    ensures |sample| == 0 ==> r == Err(RandomBoundNotPositive)
    ensures 0 < |sample| < m ==> r == Err(IndexOutOfBounds)
    ensures 0 < |sample| && m <= |sample| ==> r.Ok?
    ensures r.Ok? ==>
      && |r.value.0| == (if m == 0 then 1 else m)
      && Distinct(r.value.0)
      && (forall x :: x in r.value.0 ==> x in sample)
      && r.value.0[0] == sample[Draw(rnd, cursor, |sample|)]
      && r.value.1 == cursor + 1
    ensures r.Ok? ==>
      forall t :: 1 <= t < |r.value.0| ==> Farthest(dist, sample, r.value.0[..t], r.value.0[t])
  {
    if |sample| == 0 {
      return Err(RandomBoundNotPositive);
    }
    if m > |sample| {
      return Err(IndexOutOfBounds);
    }
    var first := Draw(rnd, cursor, |sample|);
    var medoid := sample[first];
    var chosen := [medoid];
    var rest := RemoveAt(sample, first);
    SplitsStart(sample, first);
    var track := seq(|rest|, j requires 0 <= j < |rest| => dist(rest[j], medoid));
    while |chosen| < m
      invariant 1 <= |chosen| <= (if m == 0 then 1 else m)
      invariant |rest| == |sample| - |chosen|
      invariant Splits(sample, chosen, rest)
      invariant Tracks(dist, rest, track, chosen)
      invariant chosen[0] == sample[first]
      invariant PiercingOrder(dist, sample, chosen)
      decreases m - |chosen|
    {
      chosen, rest, track := PickNext(dist, sample, chosen, rest, track);
    }
    return Ok((chosen, cursor + 1));
  }

  /**
   * One round of the greedy loop: move the candidate at the last maximal
   * tracked distance to the chosen medoids and fold its distances into the
   * tracked ones.
   */
  method PickNext(dist: (Id, Id) -> real, sample: seq<Id>, chosen: seq<Id>, rest: seq<Id>, track: seq<real>)
    returns (chosen': seq<Id>, rest': seq<Id>, track': seq<real>)
    requires |chosen| > 0 && |rest| > 0
    requires Splits(sample, chosen, rest) && Tracks(dist, rest, track, chosen)
    requires PiercingOrder(dist, sample, chosen)
    ensures |chosen'| == |chosen| + 1 && chosen'[..|chosen|] == chosen
    ensures |rest'| == |rest| - 1
    ensures Splits(sample, chosen', rest') && Tracks(dist, rest', track', chosen')
    ensures PiercingOrder(dist, sample, chosen')
  {
    var k := LastArgMax(track);
    var medoid := rest[k];
    PickIsFarthest(dist, sample, chosen, rest, track);
    ExtendPiercing(dist, sample, chosen, medoid);
    UpdateTracks(dist, rest, track, chosen, k);
    SplitsStep(sample, chosen, rest, k);
    var trackLeft := RemoveAt(track, k);
    chosen' := chosen + [medoid];
    rest' := RemoveAt(rest, k);
    track' := seq(|rest'|, j requires 0 <= j < |rest'| => Closer(trackLeft[j], dist(rest'[j], medoid)));
  }

  // ----- initialSet -----------------------------------------------------

  /**
   * `initialSet(sampleSet, k, random)`: `k` elements drawn without
   * replacement from the sample, in draw order.  Drawing from an exhausted
   * sample fails.
   */
  function InitialSet(sample: seq<Id>, k: nat, rnd: Oracle, cursor: nat): (r: Result<(seq<Id>, nat)>)
    requires Distinct(sample)
    ensures r.Ok? <==> k <= |sample|
    ensures r.Err? ==> r.fault == RandomBoundNotPositive
    ensures r.Ok? ==>
      && |r.value.0| == k
      && Distinct(r.value.0)
      && (forall x :: x in r.value.0 ==> x in sample)
      && r.value.1 == cursor + k
    decreases k
  {
    if k == 0 then Ok(([], cursor))
    else if |sample| == 0 then Err(RandomBoundNotPositive)
    else
      var i := Draw(rnd, cursor, |sample|);
      var left := RemoveAt(sample, i);
      RemoveAtMembers(sample, i);
      var rest := InitialSet(left, k - 1, rnd, cursor + 1);
      if rest.Err? then rest
      else
        PrependDistinct(sample[i], rest.value.0);
        Ok(([sample[i]] + rest.value.0, rest.value.1))
  }

  // ----- computeM_current -----------------------------------------------

  /** `m_list.removeDBIDs(m_best)`: the elements of `s` not in `t`, in order. */
  function Without(s: seq<Id>, t: seq<Id>): (r: seq<Id>)
    ensures forall x :: x in r <==> x in s && x !in t
    ensures |r| <= |s|
    ensures Distinct(s) ==> Distinct(r)
    decreases |s|
  {
    if |s| == 0 then []
    else (if s[0] in t then [] else [s[0]]) + Without(s[1..], t)
  }

  /** The number of positions of `s` that hold an element of `bad`. */
  function CountIn(s: seq<Id>, bad: set<Id>): nat
    decreases |s|
  {
    if |s| == 0 then 0
    else (if s[0] in bad then 1 else 0) + CountIn(s[1..], bad)
  }

  /**
   * `cur` is `best` with every bad medoid replaced by an element of `pool`,
   * position by position, without repetitions.
   */
  ghost predicate Replacement(best: seq<Id>, bad: set<Id>, pool: seq<Id>, cur: seq<Id>) {
    && |cur| == |best|
    && Distinct(cur)
    && (forall i :: 0 <= i < |best| && best[i] !in bad ==> cur[i] == best[i])
    && (forall i :: 0 <= i < |best| && best[i] in bad ==> cur[i] in pool)
  }

  lemma ReplacementMembers(best: seq<Id>, bad: set<Id>, pool: seq<Id>, cur: seq<Id>)
    requires Replacement(best, bad, pool, cur)
    ensures forall x :: x in cur ==> x in best || x in pool
  {
    forall x | x in cur ensures x in best || x in pool {
      var j :| 0 <= j < |cur| && cur[j] == x;
      if best[j] !in bad {
        assert cur[j] == best[j];
      }
    }
  }

  /** Keeping a good head medoid extends a replacement of the tail. */
  lemma KeepStep(best: seq<Id>, bad: set<Id>, pool: seq<Id>, cur: seq<Id>)
    requires |best| > 0 && Distinct(best) && best[0] !in bad
    requires forall x :: x in pool ==> x !in best
    requires Replacement(best[1..], bad, pool, cur)
    ensures Replacement(best, bad, pool, [best[0]] + cur)
  {
    ReplacementMembers(best[1..], bad, pool, cur);
    assert best[0] !in best[1..];
    PrependDistinct(best[0], cur);
  }

  /** Replacing a bad head medoid by `pool[i]` extends a replacement of the tail from the rest of the pool. */
  lemma DrawStep(best: seq<Id>, bad: set<Id>, pool: seq<Id>, i: nat, cur: seq<Id>)
    requires |best| > 0 && best[0] in bad && i < |pool| && Distinct(pool)
    requires forall x :: x in pool ==> x !in best
    requires Replacement(best[1..], bad, RemoveAt(pool, i), cur)
    ensures Replacement(best, bad, pool, [pool[i]] + cur)
  {
    RemoveAtMembers(pool, i);
    ReplacementMembers(best[1..], bad, RemoveAt(pool, i), cur);
    assert pool[i] !in best;
    assert pool[i] !in best[1..] by {
      forall j | 0 <= j < |best[1..]| ensures best[1..][j] != pool[i] {
        assert best[1..][j] == best[j + 1];
      }
    }
    assert pool[i] !in RemoveAt(pool, i);
    PrependDistinct(pool[i], cur);
  }

  /**
   * The loop of `computeM_current` over the best medoids: a good medoid is
   * kept, a bad one is replaced by a draw from the pool, which removes the
   * drawn element from the pool.  Because the pool is disjoint from the best
   * medoids and shrinks with every draw, one draw always yields a fresh
   * medoid, so the source's inner `while` runs exactly once per bad medoid.
   */
  function Replace(best: seq<Id>, bad: set<Id>, pool: seq<Id>, rnd: Oracle, cursor: nat)
    : (r: Result<(seq<Id>, nat)>)
    requires Distinct(best) && Distinct(pool)
    requires forall x :: x in pool ==> x !in best
    ensures r.Ok? <==> CountIn(best, bad) <= |pool|
    ensures r.Err? ==> r.fault == RandomBoundNotPositive
    ensures r.Ok? ==> Replacement(best, bad, pool, r.value.0) && r.value.1 == cursor + CountIn(best, bad)
    decreases |best|
  {
    if |best| == 0 then Ok(([], cursor))
    else if best[0] in bad then
      if |pool| == 0 then Err(RandomBoundNotPositive)
      else
        var i := Draw(rnd, cursor, |pool|);
        RemoveAtMembers(pool, i);
        var tail := Replace(best[1..], bad, RemoveAt(pool, i), rnd, cursor + 1);
        if tail.Err? then tail
        else
          DrawStep(best, bad, pool, i, tail.value.0);
          Ok(([pool[i]] + tail.value.0, tail.value.1))
    else
      var tail := Replace(best[1..], bad, pool, rnd, cursor);
      if tail.Err? then tail
      else
        KeepStep(best, bad, pool, tail.value.0);
        Ok(([best[0]] + tail.value.0, tail.value.1))
  }

  /**
   * `computeM_current(m, m_best, m_bad, random)`: every good medoid of
   * `m_best` is kept in place, every bad one is replaced by a fresh medoid of
   * `m` that is not in `m_best`.  The draw fails when fewer such medoids
   * remain than there are bad ones.
   */
  function ComputeMCurrent(m: seq<Id>, best: seq<Id>, bad: set<Id>, rnd: Oracle, cursor: nat)
    : (r: Result<(seq<Id>, nat)>)
    requires Distinct(m) && Distinct(best)
    ensures r.Ok? <==> CountIn(best, bad) <= |Without(m, best)|
    ensures r.Err? ==> r.fault == RandomBoundNotPositive
    ensures r.Ok? ==>
      && |r.value.0| == |best|
      && Distinct(r.value.0)
      && (forall i :: 0 <= i < |best| && best[i] !in bad ==> r.value.0[i] == best[i])
      && (forall i :: 0 <= i < |best| && best[i] in bad ==> r.value.0[i] in m && r.value.0[i] !in best)
      && r.value.1 == cursor + CountIn(best, bad)
  {
    Replace(best, bad, Without(m, best), rnd, cursor)
  }

  /**
   * Every medoid of the new working set is a good medoid of `m_best` or a
   * medoid of `m` outside `m_best`; every good medoid of `m_best` survives.
   */
  lemma ComputeMCurrentWithin(m: seq<Id>, best: seq<Id>, bad: set<Id>, rnd: Oracle, cursor: nat)
    requires Distinct(m) && Distinct(best)
    requires ComputeMCurrent(m, best, bad, rnd, cursor).Ok?
    ensures var cur := ComputeMCurrent(m, best, bad, rnd, cursor).value.0;
      && (forall x :: x in cur ==> (x in best && x !in bad) || (x in m && x !in best))
      && (forall x :: x in best && x !in bad ==> x in cur)
  {
    var cur := ComputeMCurrent(m, best, bad, rnd, cursor).value.0;
    forall x | x in cur ensures (x in best && x !in bad) || (x in m && x !in best) {
      var i :| 0 <= i < |cur| && cur[i] == x;
      if best[i] in bad {
      } else {
        assert cur[i] == best[i];
      }
    }
    forall x | x in best && x !in bad ensures x in cur {
      var i :| 0 <= i < |best| && best[i] == x;
      assert cur[i] == x;
    }
  }

  /** When `m_best` is drawn from `m`, the replacement pool holds exactly `|m| - |m_best|` medoids. */
  lemma PoolSize(m: seq<Id>, best: seq<Id>)
    requires Distinct(m) && Distinct(best)
    requires forall x :: x in best ==> x in m
    ensures |Without(m, best)| == |m| - |best|
  {
    var pool := Without(m, best);
    DistinctCardinality(m);
    DistinctCardinality(best);
    DistinctCardinality(pool);
    var sm, sb, sp := Elements(m), Elements(best), Elements(pool);
    assert sp == sm - sb;
    assert sb <= sm;
    assert |sm - sb| == |sm| - |sb|;
  }

  /**
   * `computeM_current` succeeds exactly when `m` has at least as many
   * medoids outside `m_best` as `m_best` has bad ones.  With `|m| = |m_best|`
   * (`m_i = 1`) a single bad medoid is enough to make it fail.
   */
  lemma ComputeMCurrentSucceeds(m: seq<Id>, best: seq<Id>, bad: set<Id>, rnd: Oracle, cursor: nat)
    requires Distinct(m) && Distinct(best)
    requires forall x :: x in best ==> x in m
    ensures ComputeMCurrent(m, best, bad, rnd, cursor).Ok? <==> CountIn(best, bad) + |best| <= |m|
  {
    PoolSize(m, best);
  }

  // ----- getLocalities --------------------------------------------------

  /**
   * The locality radius of medoid `m` in `getLocalities`: the smallest
   * distance from `m` to another medoid, or `None` (Java's null) when there
   * is no other medoid.
   */
  function LocalityRadius(dist: (Id, Id) -> real, m: Id, medoids: seq<Id>): (r: Option<real>)
    ensures r.None? <==> forall i :: 0 <= i < |medoids| ==> medoids[i] == m
    ensures r.Some? ==>
      && (exists i :: 0 <= i < |medoids| && medoids[i] != m && r.value == dist(m, medoids[i]))
      && (forall i :: 0 <= i < |medoids| && medoids[i] != m ==> r.value <= dist(m, medoids[i]))
    decreases |medoids|
  {
    if |medoids| == 0 then None
    else
      var prev := LocalityRadius(dist, m, medoids[..|medoids| - 1]);
      var x := medoids[|medoids| - 1];
      if x == m then prev
      else if prev.None? || dist(m, x) < prev.value then Some(dist(m, x))
      else prev
  }

  /**
   * Among distinct medoids, a medoid's radius is null exactly when it is
   * the only medoid; so only a run with `k = 1` reaches the null radius.
   */
  lemma RadiusExists(dist: (Id, Id) -> real, medoids: seq<Id>, m: Id)
    requires Distinct(medoids) && m in medoids
    ensures LocalityRadius(dist, m, medoids).None? <==> |medoids| == 1
  {
    if |medoids| > 1 {
      var i :| 0 <= i < |medoids| && medoids[i] == m;
      var j := if i == 0 then 1 else 0;
      assert medoids[j] != m;
    }
  }
}
