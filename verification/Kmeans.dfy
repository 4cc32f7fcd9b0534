/**
  The k-means loop: seed picking, the accumulation after the device's assignment,
  averaging, and the iteration around them.  A row of a float** is a `seq<real>`.
  The device is a function of the iteration number and the centres, so that it may
  break ties differently each time; None is an OpenCL error.
 */
module Kmeans {
  import opened Options
  import opened Clusters

  // ---------- seeds ----------

  /** The point that seeds cluster `i`. */
  function SeedOf(i: nat, n: nat): int {
    if i <= n - 1 - i then i else n - 1 - i
  }

  /** The shuffled index array after `i` picks: {p, n-1-p} has been swapped once for
      each of the two that has had its turn. */
  function Shuffled(p: int, i: nat, n: nat): int {
    if (p < i) != (n - 1 - p < i) then n - 1 - p else p
  }

  /** It stays a permutation of 0..n-1 throughout. */
  lemma ShuffledPermutes(i: nat, n: nat)
    requires i <= n
    ensures forall p :: 0 <= p < n ==> 0 <= Shuffled(p, i, n) < n
    ensures forall p, q :: 0 <= p < q < n ==> Shuffled(p, i, n) != Shuffled(q, i, n)
  {
  }

  /** No point seeds two clusters -- exactly if at most half the points (rounded up)
      are asked for.  The intent stated in the source is that it never happens. */
  lemma SeedsDistinct(k: nat, n: nat)
    requires k <= n
    ensures (forall i, j :: 0 <= i < j < k ==> SeedOf(i, n) != SeedOf(j, n)) <==> 2 * k <= n + 1
  {
    if 2 * k > n + 1 {
      assert SeedOf(k - 1, n) == SeedOf(n - k, n) && n - k < k - 1;
    }
  }

  /** Three clusters of four points: points 0, 1 and 1 again. */
  lemma SeedTwice()
    ensures SeedOf(0, 4) == 0 && SeedOf(1, 4) == 1 && SeedOf(2, 4) == 1
    ensures !(forall i, j :: 0 <= i < j < 3 ==> SeedOf(i, 4) != SeedOf(j, 4))
  {
  }

  method PickSeeds(feature: Matrix, nfeatures: nat, nclusters: nat, clusters: array<seq<real>>)
    requires Shaped(feature, |feature|, nfeatures) && clusters.Length == nclusters <= |feature|
    modifies clusters
    ensures forall i :: 0 <= i < nclusters ==> clusters[i] == feature[SeedOf(i, |feature|)]
    ensures forall i :: 0 <= i < nclusters ==>
              clusters[i] == feature[if i <= |feature| - 1 - i then i else |feature| - 1 - i]
  {
    var npoints := |feature|;
    var initial := new int[npoints];
    for i := 0 to npoints
      invariant forall p :: 0 <= p < i ==> initial[p] == p
    {
      initial[i] := i;
    }
    var initialPoints, n, i := npoints, 0, 0;
    while i < nclusters && initialPoints >= 0
      invariant 0 <= i <= nclusters && n == i && initialPoints == npoints - i
      invariant forall p :: 0 <= p < npoints ==> initial[p] == Shuffled(p, i, npoints)
      invariant forall c :: 0 <= c < i ==> clusters[c] == feature[SeedOf(c, npoints)]
    {
      clusters[i] := feature[initial[n]];
      var temp := initial[n];
      initial[n] := initial[initialPoints - 1];
      initial[initialPoints - 1] := temp;
      initialPoints := initialPoints - 1;
      n := n + 1;
      i := i + 1;
    }
  }

  // ---------- one iteration ----------

  /** How many entries two memberships differ in. */
  function Moved(member: seq<int>, member': seq<int>): nat
    requires |member| == |member'|
  {
    if member == [] then 0
    else Moved(member[..|member| - 1], member'[..|member| - 1])
         + if member[|member| - 1] != member'[|member| - 1] then 1 else 0
  }

  lemma {:induction false} NothingMoved(member: seq<int>, member': seq<int>)
    requires |member| == |member'|
    ensures Moved(member, member') == 0 <==> forall i :: 0 <= i < |member| ==> member[i] == member'[i]
  {
    if member != [] {
      var n := |member| - 1;
      NothingMoved(member[..n], member'[..n]);
      assert forall i :: 0 <= i < n ==> member[i] == member[..n][i] && member'[i] == member'[..n][i];
    }
  }

  lemma {:induction false} MovedCount(member: seq<int>, member': seq<int>)
    requires |member| == |member'|
    ensures Moved(member, member') == |MovedSet(member, member')|
  {
    if member == [] {
      assert MovedSet(member, member') == {};
    } else {
      var n := |member| - 1;
      MovedCount(member[..n], member'[..n]);
      var before := MovedSet(member[..n], member'[..n]);
      assert MovedSet(member, member') == if member[n] != member'[n] then before + {n} else before;
    }
  }

  ghost function MovedSet(member: seq<int>, member': seq<int>): set<int>
    requires |member| == |member'|
  {
    set i | 0 <= i < |member| && member[i] != member'[i]
  }

  /** The accumulators are clear. */
  ghost predicate Zeroed(len: seq<int>, sums: Matrix, k: nat, d: nat) {
    && |len| == k && Shaped(sums, k, d)
    && (forall c :: 0 <= c < k ==> len[c] == 0)
    && (forall c, j :: 0 <= c < k && 0 <= j < d ==> sums[c][j] == 0.0)
  }

  method AddFeatures(row: seq<real>, feature: seq<real>) returns (r: seq<real>)
    requires |row| == |feature|
    ensures |r| == |row| && forall j :: 0 <= j < |row| ==> r[j] == row[j] + feature[j]
  {
    r := row;
    for j := 0 to |feature|
      invariant |r| == |row|
      invariant forall k :: 0 <= k < j ==> r[k] == row[k] + feature[k]
      invariant forall k :: j <= k < |row| ==> r[k] == row[k]
    {
      r := r[j := r[j] + feature[j]];
    }
  }

  lemma AccumulateNone(feature: Matrix, d: nat, was: seq<int>, ocl: seq<int>, len: seq<int>, sums: Matrix, k: nat)
    requires Shaped(feature, |feature|, d) && |ocl| == |was| == |feature| && Zeroed(len, sums, k, d)
    ensures Moved(was[..0], ocl[..0]) == 0 && |len| == k && Shaped(sums, k, d)
    ensures forall c :: 0 <= c < k ==> len[c] == Members(ocl[..0], c)
    ensures forall c, j :: 0 <= c < k && 0 <= j < d ==> sums[c][j] == Total(feature[..0], ocl[..0], c, j, d)
  {
  }

  lemma AccumulateStep(feature: Matrix, d: nat, was: seq<int>, ocl: seq<int>, i: nat)
    requires Shaped(feature, |feature|, d) && |ocl| == |was| == |feature| && i < |feature|
    ensures Moved(was[..i + 1], ocl[..i + 1]) == Moved(was[..i], ocl[..i]) + if was[i] != ocl[i] then 1 else 0
    ensures forall c :: Members(ocl[..i + 1], c) == Members(ocl[..i], c) + if ocl[i] == c then 1 else 0
    ensures forall c, j :: 0 <= j < d ==>
              Total(feature[..i + 1], ocl[..i + 1], c, j, d)
              == Total(feature[..i], ocl[..i], c, j, d) + if ocl[i] == c then feature[i][j] else 0.0
  {
    assert was[..i + 1][..i] == was[..i] && ocl[..i + 1][..i] == ocl[..i] && feature[..i + 1][..i] == feature[..i];
  }

  /** The accumulation of kmeansOCL, given the device's membership. */
  method Accumulate(feature: Matrix, nfeatures: nat, nclusters: nat, ocl: seq<int>, membership: array<int>,
                    newCentersLen: array<int>, newCenters: array<seq<real>>) returns (delta: int)
    requires Shaped(feature, |feature|, nfeatures) && |ocl| == |feature| == membership.Length && InRange(ocl, nclusters)
    requires Zeroed(newCentersLen[..], newCenters[..], nclusters, nfeatures) && membership != newCentersLen
    modifies membership, newCentersLen, newCenters
    ensures membership[..] == ocl
    ensures Accumulated(feature, ocl, newCentersLen[..], newCenters[..], nclusters, nfeatures)
    ensures delta == Moved(old(membership[..]), ocl)
  {
    hide Moved, Members, Total, Zeroed;
    AccumulateNone(feature, nfeatures, membership[..], ocl, newCentersLen[..], newCenters[..], nclusters);
    delta := 0;
    ghost var was := membership[..];
    for i := 0 to |feature|
      invariant newCentersLen.Length == newCenters.Length == nclusters
      invariant Shaped(newCenters[..], nclusters, nfeatures)
      invariant forall p :: 0 <= p < i ==> membership[p] == ocl[p]
      invariant forall p :: i <= p < |feature| ==> membership[p] == was[p]
      invariant delta == Moved(was[..i], ocl[..i])
      invariant forall c :: 0 <= c < nclusters ==> newCentersLen[c] == Members(ocl[..i], c)
      invariant forall c, j :: 0 <= c < nclusters && 0 <= j < nfeatures ==>
                  newCenters[c][j] == Total(feature[..i], ocl[..i], c, j, nfeatures)
    {
      AccumulateStep(feature, nfeatures, was, ocl, i);
      var cluster := ocl[i];
      newCentersLen[cluster] := newCentersLen[cluster] + 1;
      if ocl[i] != membership[i] {
        delta := delta + 1;
        membership[i] := ocl[i];
      }
      var row := AddFeatures(newCenters[cluster], feature[i]);
      newCenters[cluster] := row;
    }
    assert was[..|feature|] == was && ocl[..|feature|] == ocl && feature[..|feature|] == feature;
  }

  /** kmeansOCL: -1 and nothing done if the device failed. */
  method KmeansOCL(feature: Matrix, nfeatures: nat, nclusters: nat, result: Option<seq<int>>, membership: array<int>,
                   newCentersLen: array<int>, newCenters: array<seq<real>>) returns (delta: int)
    requires Shaped(feature, |feature|, nfeatures) && membership.Length == |feature|
    requires result.Some? ==> |result.value| == |feature| && InRange(result.value, nclusters)
    requires Zeroed(newCentersLen[..], newCenters[..], nclusters, nfeatures) && membership != newCentersLen
    modifies membership, newCentersLen, newCenters
    ensures match result
            case None =>
              delta == -1 && membership[..] == old(membership[..])
              && newCentersLen[..] == old(newCentersLen[..]) && newCenters[..] == old(newCenters[..])
            case Some(ocl) =>
              delta == Moved(old(membership[..]), ocl) && membership[..] == ocl
              && Accumulated(feature, ocl, newCentersLen[..], newCenters[..], nclusters, nfeatures)
  {
    match result
    case None => return -1;
    case Some(ocl) => delta := Accumulate(feature, nfeatures, nclusters, ocl, membership, newCentersLen, newCenters);
  }

  /** One row of the averaging loop. */
  method AverageRow(centre: seq<real>, len: int, sum: seq<real>) returns (centre': seq<real>, sum': seq<real>)
    requires |centre| == |sum|
    ensures |centre'| == |sum'| == |centre|
    ensures forall j :: 0 <= j < |centre| ==> centre'[j] == if len > 0 then sum[j] / (len as real) else centre[j]
    ensures forall j :: 0 <= j < |centre| ==> sum'[j] == 0.0
  {
    centre', sum' := centre, sum;
    for j := 0 to |centre|
      invariant |centre'| == |sum'| == |centre|
      invariant forall k :: 0 <= k < j ==>
                centre'[k] == (if len > 0 then sum[k] / (len as real) else centre[k]) && sum'[k] == 0.0
      invariant forall k :: j <= k < |centre| ==> centre'[k] == centre[k] && sum'[k] == sum[k]
    {
      if len > 0 {
        centre' := centre'[j := sum'[j] / (len as real)];
      }
      sum' := sum'[j := 0.0];
    }
  }

  /** The averaging loop, which also clears the accumulators for the next iteration. */
  method Average(nclusters: nat, nfeatures: nat, clusters: array<seq<real>>, newCentersLen: array<int>,
                 newCenters: array<seq<real>>)
    requires Shaped(clusters[..], nclusters, nfeatures) && newCentersLen.Length == nclusters
    requires Shaped(newCenters[..], nclusters, nfeatures) && clusters != newCenters
    modifies clusters, newCentersLen, newCenters
    ensures clusters[..] == Averaged(old(clusters[..]), old(newCentersLen[..]), old(newCenters[..]), nfeatures)
    ensures Zeroed(newCentersLen[..], newCenters[..], nclusters, nfeatures)
  {
    ghost var centres, len, sums := clusters[..], newCentersLen[..], newCenters[..];
    for i := 0 to nclusters
      invariant forall c :: 0 <= c < i ==> clusters[c] == Averaged(centres, len, sums, nfeatures)[c]
      invariant forall c :: i <= c < nclusters ==>
                clusters[c] == centres[c] && newCentersLen[c] == len[c] && newCenters[c] == sums[c]
      invariant forall c :: 0 <= c < i ==> newCentersLen[c] == 0 && |newCenters[c]| == nfeatures
      invariant forall c, j :: 0 <= c < i && 0 <= j < nfeatures ==> newCenters[c][j] == 0.0
    {
      var centre, sum := AverageRow(clusters[i], newCentersLen[i], newCenters[i]);
      assert centre == Averaged(centres, len, sums, nfeatures)[i];
      clusters[i], newCenters[i] := centre, sum;
      newCentersLen[i] := 0;
    }
  }

  // ---------- whole runs ----------

  /** The centres after averaging: the mean of the members, or unmoved if there are none. */
  ghost function MeansOf(points: Matrix, centres: Matrix, member: seq<int>, d: nat): (r: Matrix)
    requires Shaped(points, |points|, d) && Shaped(centres, |centres|, d) && |member| == |points|
    ensures Shaped(r, |centres|, d)
  {
    seq(|centres|, c requires 0 <= c < |centres| =>
      seq(d, j requires 0 <= j < d =>
        if Members(member, c) > 0 then Total(points, member, c, j, d) / (Members(member, c) as real)
        else centres[c][j]))
  }

  lemma AveragedIsMeans(points: Matrix, centres: Matrix, member: seq<int>, len: seq<int>, sums: Matrix, d: nat)
    requires Shaped(points, |points|, d) && Shaped(centres, |centres|, d) && |member| == |points|
    requires Accumulated(points, member, len, sums, |centres|, d)
    ensures Averaged(centres, len, sums, d) == MeansOf(points, centres, member, d)
  {
    var x, y := Averaged(centres, len, sums, d), MeansOf(points, centres, member, d);
    forall c | 0 <= c < |centres| ensures x[c] == y[c] {
    }
  }

  lemma NothingAveraged(centres: Matrix, len: seq<int>, sums: Matrix, d: nat)
    requires Shaped(centres, |centres|, d) && Zeroed(len, sums, |centres|, d)
    ensures Averaged(centres, len, sums, d) == centres
  {
    var x := Averaged(centres, len, sums, d);
    forall c | 0 <= c < |centres| ensures x[c] == centres[c] {
    }
  }

  /** The state after an iteration (or, first, before any), with the delta it returned. */
  datatype Snapshot = Snapshot(centres: Matrix, member: seq<int>, delta: int)

  type Device = (nat, Matrix) -> Option<seq<int>>

  /** The device's answers are memberships. */
  ghost predicate Answers(device: Device, n: nat, k: nat, d: nat) {
    forall t: nat, centres: Matrix :: Shaped(centres, k, d) && device(t, centres).Some? ==>
      |device(t, centres).value| == n && InRange(device(t, centres).value, k)
  }

  /** The device's answers are nearest centres. */
  ghost predicate AnswersNearest(device: Device, points: Matrix, k: nat, d: nat) {
    forall t: nat, centres: Matrix :: Shaped(centres, k, d) && device(t, centres).Some? ==>
      Nearest(points, centres, device(t, centres).value, d)
  }

  ghost predicate Iterates(points: Matrix, d: nat, answer: Option<seq<int>>, x: Snapshot, y: Snapshot)
    requires Shaped(points, |points|, d) && Shaped(x.centres, |x.centres|, d) && |x.member| == |points|
  {
    match answer
    case None => y == Snapshot(x.centres, x.member, -1)
    case Some(m) => |m| == |points| && y == Snapshot(MeansOf(points, x.centres, m, d), m, Moved(x.member, m))
  }

  function Clamped(nclusters: nat, npoints: nat): nat {
    if nclusters > npoints then npoints else nclusters
  }

  /** What a run of kmeans_clustering goes through: from the seeds with no membership,
      one iteration after the other, for as long as delta stays above the threshold. */
  ghost predicate IsRun(points: Matrix, d: nat, k: nat, threshold: real, device: Device, run: seq<Snapshot>) {
    && Shaped(points, |points|, d) && 1 <= k <= |points| && 1 <= |run| <= 502
    && run[0] == Snapshot(seq(k, i requires 0 <= i < k => points[SeedOf(i, |points|)]), seq(|points|, i => -1), 0)
    && (forall t :: 0 <= t < |run| ==> Shaped(run[t].centres, k, d) && |run[t].member| == |points|)
    && (forall t :: 0 <= t < |run| - 1 ==> Iterates(points, d, device(t, run[t].centres), run[t], run[t + 1]))
    && (forall t :: 0 < t < |run| - 1 ==> (run[t].delta as real) > threshold)
  }

  lemma RunGrows(points: Matrix, d: nat, k: nat, threshold: real, device: Device, run: seq<Snapshot>, y: Snapshot)
    requires IsRun(points, d, k, threshold, device, run) && |run| <= 501
    requires |run| > 1 ==> (run[|run| - 1].delta as real) > threshold
    requires Iterates(points, d, device(|run| - 1, run[|run| - 1].centres), run[|run| - 1], y)
    ensures IsRun(points, d, k, threshold, device, run + [y])
  {
  }

  /** The body of the do-while loop. */
  method Iteration(feature: Matrix, nfeatures: nat, nclusters: nat, answer: Option<seq<int>>, membership: array<int>,
                   clusters: array<seq<real>>, newCentersLen: array<int>, newCenters: array<seq<real>>)
    returns (delta: int)
    requires Shaped(feature, |feature|, nfeatures) && membership.Length == |feature|
    requires answer.Some? ==> |answer.value| == |feature| && InRange(answer.value, nclusters)
    requires Shaped(clusters[..], nclusters, nfeatures)
    requires Zeroed(newCentersLen[..], newCenters[..], nclusters, nfeatures)
    requires membership != newCentersLen && clusters != newCenters
    modifies membership, clusters, newCentersLen, newCenters
    ensures Zeroed(newCentersLen[..], newCenters[..], nclusters, nfeatures)
    ensures Iterates(feature, nfeatures, answer, Snapshot(old(clusters[..]), old(membership[..]), 0),
                     Snapshot(clusters[..], membership[..], delta))
  {
    hide Averaged, MeansOf, Accumulated;
    ghost var centres := clusters[..];
    delta := KmeansOCL(feature, nfeatures, nclusters, answer, membership, newCentersLen, newCenters);
    match answer {
      case None => NothingAveraged(centres, newCentersLen[..], newCenters[..], nfeatures);
      case Some(ocl) =>
        AccumulatedShape(feature, ocl, newCentersLen[..], newCenters[..], nclusters, nfeatures);
        AveragedIsMeans(feature, centres, ocl, newCentersLen[..], newCenters[..], nfeatures);
    }
    Average(nclusters, nfeatures, clusters, newCentersLen, newCenters);
  }

  lemma AccumulatedShape(points: Matrix, member: seq<int>, len: seq<int>, sums: Matrix, k: nat, d: nat)
    requires Shaped(points, |points|, d) && |member| == |points| && Accumulated(points, member, len, sums, k, d)
    ensures |len| == k && Shaped(sums, k, d)
  {
  }

  /** kmeans_clustering: the run it goes through, its last state, and why it stopped. */
  method KmeansClustering(feature: Matrix, nfeatures: nat, nclusters: nat, threshold: real, membership: array<int>,
                          device: Device)
    returns (clusters: array<seq<real>>, c: nat, ghost run: seq<Snapshot>)
    requires Shaped(feature, |feature|, nfeatures) && |feature| > 0 && nclusters > 0 && membership.Length == |feature|
    requires Answers(device, |feature|, Clamped(nclusters, |feature|), nfeatures)
    modifies membership
    ensures fresh(clusters)
    ensures nclusters <= |feature| ==> clusters.Length == nclusters
    ensures nclusters > |feature| ==> clusters.Length == |feature|
    ensures IsRun(feature, nfeatures, Clamped(nclusters, |feature|), threshold, device, run) && |run| == c + 1 && c >= 1
    ensures clusters[..] == run[c].centres && membership[..] == run[c].member
    ensures (run[c].delta as real) <= threshold || c == 501
  {
    var npoints := |feature|;
    var k := if nclusters > npoints then npoints else nclusters;
    clusters := new seq<real>[k](_ => []);
    PickSeeds(feature, nfeatures, k, clusters);
    for i := 0 to npoints
      invariant forall p :: 0 <= p < i ==> membership[p] == -1
      invariant forall p :: 0 <= p < k ==> clusters[p] == feature[SeedOf(p, npoints)]
    {
      membership[i] := -1;
    }
    var newCentersLen := new int[k](_ => 0);
    var newCenters := new seq<real>[k](_ => seq(nfeatures, j => 0.0));
    c, run := 0, [Snapshot(clusters[..], membership[..], 0)];
    var loop, again := 0, true;
    while again
      invariant IsRun(feature, nfeatures, k, threshold, device, run) && |run| == c + 1
      invariant clusters.Length == k && clusters[..] == run[c].centres && membership[..] == run[c].member
      invariant Zeroed(newCentersLen[..], newCenters[..], k, nfeatures)
      invariant again ==> loop == c <= 500 && (c > 0 ==> (run[c].delta as real) > threshold)
      invariant !again ==> c > 0 && ((run[c].delta as real) <= threshold || c == 501)
      decreases 502 - c, again
    {
      hide IsRun, Iterates, Zeroed, SeedOf;
      ghost var was := run[c];
      RunShape(feature, nfeatures, k, threshold, device, run);
      var answer := device(c, clusters[..]);
      var delta := Iteration(feature, nfeatures, k, answer, membership, clusters, newCentersLen, newCenters);
      ghost var next := Snapshot(clusters[..], membership[..], delta);
      DeltaImmaterial(feature, nfeatures, answer, was, next);
      RunGrows(feature, nfeatures, k, threshold, device, run, next);
      run := run + [next];
      c := c + 1;
      again := false;
      if (delta as real) > threshold {
        again := loop < 500;
        loop := loop + 1;
      }
    }
  }

  lemma RunShape(points: Matrix, d: nat, k: nat, threshold: real, device: Device, run: seq<Snapshot>)
    requires IsRun(points, d, k, threshold, device, run)
    ensures Shaped(points, |points|, d)
    ensures forall t :: 0 <= t < |run| ==> Shaped(run[t].centres, k, d) && |run[t].member| == |points|
  {
  }

  lemma DeltaImmaterial(points: Matrix, d: nat, answer: Option<seq<int>>, x: Snapshot, y: Snapshot)
    requires Shaped(points, |points|, d) && Shaped(x.centres, |x.centres|, d) && |x.member| == |points|
    requires Iterates(points, d, answer, x.(delta := 0), y)
    ensures Iterates(points, d, answer, x, y)
  {
  }

  // ---------- what runs achieve ----------

  /** Once there is a membership, no iteration increases the objective -- neither the
      reassignment nor the averaging, and a failed one changes nothing. */
  lemma ObjectiveFalls(points: Matrix, d: nat, k: nat, threshold: real, device: Device, run: seq<Snapshot>, t: nat)
    requires IsRun(points, d, k, threshold, device, run)
    requires Answers(device, |points|, k, d) && AnswersNearest(device, points, k, d)
    requires t + 1 < |run| && InRange(run[t].member, k)
    ensures Fits(points, run[t].centres, run[t].member, d) && Fits(points, run[t + 1].centres, run[t + 1].member, d)
    ensures Fits(points, run[t].centres, run[t + 1].member, d)
    ensures Objective(points, run[t].centres, run[t + 1].member, d)
         <= Objective(points, run[t].centres, run[t].member, d)
    ensures Objective(points, run[t + 1].centres, run[t + 1].member, d)
         <= Objective(points, run[t].centres, run[t + 1].member, d)
  {
    var x, y := run[t], run[t + 1];
    assert Iterates(points, d, device(t, x.centres), x, y);
    match device(t, x.centres)
    case None =>
    case Some(m) =>
      NearestIsBest(points, x.centres, x.member, m, d);
      MeansImprove(points, x.centres, m, d);
  }

  /** From the first membership on, the objective never rises. */
  lemma {:induction false} ObjectiveNeverRises(points: Matrix, d: nat, k: nat, threshold: real, device: Device,
                                               run: seq<Snapshot>, s: nat, t: nat)
    requires IsRun(points, d, k, threshold, device, run)
    requires Answers(device, |points|, k, d) && AnswersNearest(device, points, k, d)
    requires s <= t < |run| && InRange(run[s].member, k)
    ensures Fits(points, run[s].centres, run[s].member, d) && Fits(points, run[t].centres, run[t].member, d)
    ensures Objective(points, run[t].centres, run[t].member, d) <= Objective(points, run[s].centres, run[s].member, d)
    decreases t
  {
    if s < t {
      ObjectiveNeverRises(points, d, k, threshold, device, run, s, t - 1);
      ObjectiveFalls(points, d, k, threshold, device, run, t - 1);
    }
  }

  lemma MeansImprove(points: Matrix, centres: Matrix, member: seq<int>, d: nat)
    requires Fits(points, centres, member, d)
    ensures Fits(points, MeansOf(points, centres, member, d), member, d)
    ensures Objective(points, MeansOf(points, centres, member, d), member, d) <= Objective(points, centres, member, d)
  {
    var k := |centres|;
    var len := seq(k, c requires 0 <= c < k => Members(member, c));
    var sums := seq(k, c requires 0 <= c < k => seq(d, j requires 0 <= j < d => Total(points, member, c, j, d)));
    AveragedIsMeans(points, centres, member, len, sums, d);
    AveragingImproves(points, centres, member, len, sums, d);
  }

  /** The centres are the means of their members, and the members are at a nearest one. */
  ghost predicate FixedPoint(points: Matrix, centres: Matrix, member: seq<int>, d: nat) {
    && Fits(points, centres, member, d)
    && MeansOf(points, centres, member, d) == centres
    && Nearest(points, centres, member, d)
  }

  /** A run that stops because delta has fallen to a threshold in [0, 1) either met a
      device error or has converged: delta is 0, this was not the first iteration, its
      averaging moved no centre, and the result is a fixed point. */
  lemma ConvergedIsFixed(points: Matrix, d: nat, k: nat, threshold: real, device: Device, run: seq<Snapshot>)
    requires IsRun(points, d, k, threshold, device, run) && |run| > 1
    requires Answers(device, |points|, k, d) && AnswersNearest(device, points, k, d)
    requires 0.0 <= threshold < 1.0 && (run[|run| - 1].delta as real) <= threshold
    ensures var c := |run| - 1;
            || (run[c].delta == -1 && device(c - 1, run[c - 1].centres) == None)
            || (&& run[c].delta == 0 && c >= 2
                && run[c].centres == run[c - 1].centres && run[c].member == run[c - 1].member
                && FixedPoint(points, run[c].centres, run[c].member, d))
  {
    var c := |run| - 1;
    var x, y := run[c - 1], run[c];
    assert Iterates(points, d, device(c - 1, x.centres), x, y);
    match device(c - 1, x.centres)
    case None =>
    case Some(m) =>
      NothingMoved(x.member, m);
      assert x.member == m;
      assert y.delta == 0;
      if c >= 2 {
        var w := run[c - 2];
        assert Iterates(points, d, device(c - 2, w.centres), w, x);
        assert (x.delta as real) > threshold;
        assert x.centres == MeansOf(points, w.centres, m, d);
        MeansOnce(points, w.centres, m, d);
      }
  }

  /** Averaging a second time over the same membership changes nothing. */
  lemma MeansOnce(points: Matrix, centres: Matrix, member: seq<int>, d: nat)
    requires Shaped(points, |points|, d) && Shaped(centres, |centres|, d) && |member| == |points|
    ensures var means := MeansOf(points, centres, member, d);
            MeansOf(points, means, member, d) == means
  {
    var x := MeansOf(points, centres, member, d);
    var y := MeansOf(points, x, member, d);
    forall c | 0 <= c < |centres| ensures x[c] == y[c] {
    }
  }
}
