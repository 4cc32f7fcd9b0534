/** The error measure of rmse.c, over the reals and up to the division and root. */
module Rmse {
  import opened Options
  import opened Clusters
  import opened Kmeans

  const FLT_MAX := 340282346638528859811704183484516925440.0

  /** The largest single-precision number: 24 bits with the exponent 104. */
  lemma FloatMax()
    ensures FLT_MAX == 16777215.0 * 4503599627370496.0 * 4503599627370496.0
    ensures 16777216 == 16 * 16 * 16 * 16 * 16 * 16 && 4503599627370496 == 8192 * 8192 * 8192 * 8192
  {
  }

  method EuclidDist2(pt1: seq<real>, pt2: seq<real>) returns (ans: real)
    requires |pt1| == |pt2|
    ensures ans == Dist2(pt1, pt2)
    ensures ans == 0.0 <==> pt1 == pt2
    ensures forall j :: 0 <= j < |pt1| && pt1 == pt2[j := pt1[j]] ==> ans == (pt1[j] - pt2[j]) * (pt1[j] - pt2[j])
  {
    ans := 0.0;
    for i := 0 to |pt1|
      invariant ans == Dist2(pt1[..i], pt2[..i])
    {
      assert pt1[..i + 1][..i] == pt1[..i] && pt2[..i + 1][..i] == pt2[..i];
      ans := ans + (pt1[i] - pt2[i]) * (pt1[i] - pt2[i]);
    }
    assert pt1[..|pt1|] == pt1 && pt2[..|pt1|] == pt2;
    Dist2Zero(pt1, pt2);
    forall j | 0 <= j < |pt1| && pt1 == pt2[j := pt1[j]] ensures ans == (pt1[j] - pt2[j]) * (pt1[j] - pt2[j]) {
      Dist2OneApart(pt1, pt2, j);
    }
  }

  /** Some centre is nearer than FLT_MAX. */
  ghost predicate Reached(pt: seq<real>, pts: Matrix, d: nat)
    requires |pt| == d && Shaped(pts, |pts|, d)
  {
    exists c :: 0 <= c < |pts| && Dist2(pt, pts[c]) < FLT_MAX
  }

  /** The index of the first nearest centre -- if one is nearer than FLT_MAX; if none
      is, the variable keeps whatever it held (`uninitialised`). */
  method FindNearestPoint(pt: seq<real>, nfeatures: nat, pts: Matrix, uninitialised: int) returns (index: int)
    requires |pt| == nfeatures && Shaped(pts, |pts|, nfeatures)
    ensures Reached(pt, pts, nfeatures) ==>
              && NearestTo(pt, pts, index, nfeatures)
              && forall c :: 0 <= c < index ==> Dist2(pt, pts[c]) > Dist2(pt, pts[index])
    ensures !Reached(pt, pts, nfeatures) ==> index == uninitialised
  {
    index := uninitialised;
    var maxDist := FLT_MAX;
    for i := 0 to |pts|
      invariant forall c :: 0 <= c < i ==> maxDist <= Dist2(pt, pts[c])
      invariant if maxDist == FLT_MAX then index == uninitialised
                else maxDist < FLT_MAX && 0 <= index < i && Dist2(pt, pts[index]) == maxDist
                     && forall c :: 0 <= c < index ==> Dist2(pt, pts[c]) > maxDist
    {
      var dist := EuclidDist2(pt, pts[i]);
      if dist < maxDist {
        maxDist := dist;
        index := i;
      }
    }
  }

  /** Every point has a centre nearer than FLT_MAX, so the source's index is always set. */
  ghost predicate Within(points: Matrix, centres: Matrix, d: nat)
    requires Shaped(points, |points|, d) && Shaped(centres, |centres|, d)
  {
    forall i :: 0 <= i < |points| ==> Reached(points[i], centres, d)
  }

  lemma WithinStep(points: Matrix, centres: Matrix, d: nat, i: nat)
    requires Shaped(points, |points|, d) && Shaped(centres, |centres|, d) && i < |points|
    requires Within(points[..i], centres, d)
    ensures if Reached(points[i], centres, d) then Within(points[..i + 1], centres, d) else !Within(points, centres, d)
  {
    hide Reached;
  }

  /** The sum that rms_err accumulates: the objective of the nearest membership that it
      finds itself.  None where the source would use an index that was never set. */
  method SumEuclid(feature: Matrix, nfeatures: nat, centres: Matrix) returns (sum: Option<real>, ghost own: seq<int>)
    requires Shaped(feature, |feature|, nfeatures) && Shaped(centres, |centres|, nfeatures)
    ensures sum.Some? <==> Within(feature, centres, nfeatures)
    ensures sum.Some? ==> Nearest(feature, centres, own, nfeatures) && Fits(feature, centres, own, nfeatures)
                          && sum.value == Objective(feature, centres, own, nfeatures)
  {
    hide Reached, Within, Nearest, Fits, Objective, Dist2;
    var total := 0.0;
    own := [];
    NothingMeasured(centres, nfeatures);
    for i := 0 to |feature|
      invariant Within(feature[..i], centres, nfeatures)
      invariant Nearest(feature[..i], centres, own, nfeatures) && Fits(feature[..i], centres, own, nfeatures)
      invariant total == Objective(feature[..i], centres, own, nfeatures)
    {
      var index := FindNearestPoint(feature[i], nfeatures, centres, -1);
      WithinStep(feature, centres, nfeatures, i);
      if index == -1 {
        return None, own;
      }
      var dist := EuclidDist2(feature[i], centres[index]);
      OneMoreNearest(feature, nfeatures, centres, own, i, index);
      total := total + dist;
      own := own + [index];
    }
    assert feature[..|feature|] == feature;
    return Some(total), own;
  }

  lemma NothingMeasured(centres: Matrix, d: nat)
    requires Shaped(centres, |centres|, d)
    ensures Within([], centres, d) && Nearest([], centres, [], d) && Fits([], centres, [], d)
    ensures Objective([], centres, [], d) == 0.0
  {
  }

  lemma OneMoreNearest(points: Matrix, d: nat, centres: Matrix, own: seq<int>, i: nat, index: int)
    requires Shaped(points, |points|, d) && Shaped(centres, |centres|, d) && i < |points|
    requires Nearest(points[..i], centres, own, d) && Fits(points[..i], centres, own, d)
    requires NearestTo(points[i], centres, index, d)
    ensures Nearest(points[..i + 1], centres, own + [index], d) && Fits(points[..i + 1], centres, own + [index], d)
    ensures Objective(points[..i + 1], centres, own + [index], d)
         == Objective(points[..i], centres, own, d) + Dist2(points[i], centres[index])
  {
    assert points[..i + 1][..i] == points[..i] && (own + [index])[..i] == own;
  }

  /** Which of several nearest centres a point is counted to does not matter. */
  lemma TiesDoNotMatter(points: Matrix, centres: Matrix, member: seq<int>, member': seq<int>, d: nat)
    requires Shaped(points, |points|, d) && Shaped(centres, |centres|, d)
    requires Nearest(points, centres, member, d) && Nearest(points, centres, member', d)
    ensures Fits(points, centres, member, d) && Fits(points, centres, member', d)
    ensures Objective(points, centres, member, d) == Objective(points, centres, member', d)
  {
    NearestFits(points, centres, member, d);
    NearestFits(points, centres, member', d);
    NearestIsBest(points, centres, member, member', d);
    NearestIsBest(points, centres, member', member, d);
  }

  lemma NearestFits(points: Matrix, centres: Matrix, member: seq<int>, d: nat)
    requires Shaped(points, |points|, d) && Shaped(centres, |centres|, d)
    requires Nearest(points, centres, member, d)
    ensures Fits(points, centres, member, d)
  {
  }

  /** Clustering and then measuring: after a stop by a threshold in [0, 1) without a
      device error, the sum inside rms_err is the objective of the very membership that
      kmeans_clustering returned. */
  method ClusterAndMeasure(feature: Matrix, nfeatures: nat, nclusters: nat, threshold: real, membership: array<int>,
                           device: Device)
    returns (clusters: array<seq<real>>, sum: Option<real>, ghost run: seq<Snapshot>)
    requires Shaped(feature, |feature|, nfeatures) && |feature| > 0 && nclusters > 0 && membership.Length == |feature|
    requires Answers(device, |feature|, Clamped(nclusters, |feature|), nfeatures)
    requires AnswersNearest(device, feature, Clamped(nclusters, |feature|), nfeatures)
    modifies membership
    ensures clusters.Length == if nclusters > |feature| then |feature| else nclusters
    ensures IsRun(feature, nfeatures, Clamped(nclusters, |feature|), threshold, device, run) && |run| > 1
    ensures clusters[..] == run[|run| - 1].centres && membership[..] == run[|run| - 1].member
    ensures var delta := run[|run| - 1].delta;
            0.0 <= threshold < 1.0 && (delta as real) <= threshold && delta != -1 ==>
              && FixedPoint(feature, clusters[..], membership[..], nfeatures)
              && (sum.Some? <==> Within(feature, clusters[..], nfeatures))
              && (sum.Some? ==> sum.value == Objective(feature, clusters[..], membership[..], nfeatures))
  {
    hide IsRun, Objective, Within, Nearest, Answers, AnswersNearest, MeansOf;
    var c: nat;
    clusters, c, run := KmeansClustering(feature, nfeatures, nclusters, threshold, membership, device);
    RunShape(feature, nfeatures, Clamped(nclusters, |feature|), threshold, device, run);
    if 0.0 <= threshold < 1.0 && (run[c].delta as real) <= threshold {
      ConvergedIsFixed(feature, nfeatures, Clamped(nclusters, |feature|), threshold, device, run);
    }
    ghost var own;
    sum, own := SumEuclid(feature, nfeatures, clusters[..]);
    if sum.Some? && FixedPoint(feature, clusters[..], membership[..], nfeatures) {
      TiesDoNotMatter(feature, clusters[..], membership[..], own, nfeatures);
    }
  }
}
