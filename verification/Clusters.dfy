/**
  What k-means is about: points, centres and memberships, over the reals, and the
  objective -- the sum of the squared distances to the assigned centres.
 */
module Clusters {
  type Matrix = seq<seq<real>>

  predicate Shaped(m: Matrix, rows: nat, cols: nat) {
    |m| == rows && forall i :: 0 <= i < rows ==> |m[i]| == cols
  }

  predicate InRange(member: seq<int>, k: nat) {
    forall i :: 0 <= i < |member| ==> 0 <= member[i] < k
  }

  function Square(x: real): (r: real)
    ensures r >= 0.0
  {
    x * x
  }

  function Dist2(p: seq<real>, q: seq<real>): (r: real)
    requires |p| == |q|
    ensures r >= 0.0
  {
    if p == [] then 0.0
    else Dist2(p[..|p| - 1], q[..|q| - 1]) + Square(p[|p| - 1] - q[|q| - 1])
  }

  ghost predicate Fits(points: Matrix, centres: Matrix, member: seq<int>, d: nat) {
    Shaped(points, |points|, d) && Shaped(centres, |centres|, d) && |member| == |points| && InRange(member, |centres|)
  }

  /** The sum of squared distances from the points to their assigned centres. */
  ghost function Objective(points: Matrix, centres: Matrix, member: seq<int>, d: nat): real
    requires Fits(points, centres, member, d)
  {
    if points == [] then 0.0
    else Objective(points[..|points| - 1], centres, member[..|points| - 1], d)
         + Dist2(points[|points| - 1], centres[member[|points| - 1]])
  }

  /** The number of members of cluster `c`. */
  function Members(member: seq<int>, c: int): nat {
    if member == [] then 0
    else Members(member[..|member| - 1], c) + if member[|member| - 1] == c then 1 else 0
  }

  /** They are the points that the membership sends there. */
  lemma {:induction false} MembersCount(member: seq<int>, c: int)
    ensures Members(member, c) == |MemberSet(member, c)|
  {
    if member == [] {
      assert MemberSet(member, c) == {};
    } else {
      var n := |member| - 1;
      MembersCount(member[..n], c);
      var before := MemberSet(member[..n], c);
      assert MemberSet(member, c) == if member[n] == c then before + {n} else before;
    }
  }

  ghost function MemberSet(member: seq<int>, c: int): set<int> {
    set i | 0 <= i < |member| && member[i] == c
  }

  /** The sum of feature `j` over the members of cluster `c`. */
  function Total(points: Matrix, member: seq<int>, c: int, j: nat, d: nat): real
    requires Shaped(points, |points|, d) && |member| == |points| && j < d
  {
    if points == [] then 0.0
    else Total(points[..|points| - 1], member[..|points| - 1], c, j, d)
         + if member[|points| - 1] == c then points[|points| - 1][j] else 0.0
  }

  /** The number of members of the clusters 0..k. */
  function MembersBelow(member: seq<int>, k: nat): nat {
    if k == 0 then 0 else MembersBelow(member, k - 1) + Members(member, k - 1)
  }

  /** Every point is counted in exactly one cluster. */
  lemma {:induction false} MembersAddUp(member: seq<int>, k: nat)
    requires InRange(member, k)
    ensures MembersBelow(member, k) == |member|
  {
    if member == [] {
      NoMembers(k);
    } else {
      var n := |member| - 1;
      MembersAddUp(member[..n], k);
      OneMore(member, k);
    }
  }

  lemma {:induction false} NoMembers(k: nat)
    ensures MembersBelow([], k) == 0
  {
    if k > 0 {
      NoMembers(k - 1);
    }
  }

  lemma {:induction false} OneMore(member: seq<int>, k: nat)
    requires member != []
    ensures var n := |member| - 1;
            MembersBelow(member, k) == MembersBelow(member[..n], k) + if 0 <= member[n] < k then 1 else 0
  {
    if k > 0 {
      OneMore(member, k - 1);
    }
  }

  /** The sum of feature `j` over the clusters 0..k, and over all points. */
  function TotalBelow(points: Matrix, member: seq<int>, k: nat, j: nat, d: nat): real
    requires Shaped(points, |points|, d) && |member| == |points| && j < d
  {
    if k == 0 then 0.0 else TotalBelow(points, member, k - 1, j, d) + Total(points, member, k - 1, j, d)
  }

  function Sum(points: Matrix, j: nat, d: nat): real
    requires Shaped(points, |points|, d) && j < d
  {
    if points == [] then 0.0 else Sum(points[..|points| - 1], j, d) + points[|points| - 1][j]
  }

  /** No feature is lost or counted twice either. */
  lemma {:induction false} TotalsAddUp(points: Matrix, member: seq<int>, k: nat, j: nat, d: nat)
    requires Shaped(points, |points|, d) && |member| == |points| && j < d && InRange(member, k)
    ensures TotalBelow(points, member, k, j, d) == Sum(points, j, d)
  {
    if points == [] {
      NoTotal(points, member, k, j, d);
    } else {
      var n := |points| - 1;
      TotalsAddUp(points[..n], member[..n], k, j, d);
      OneMoreTotal(points, member, k, j, d);
    }
  }

  lemma {:induction false} NoTotal(points: Matrix, member: seq<int>, k: nat, j: nat, d: nat)
    requires points == [] && member == [] && j < d
    ensures TotalBelow(points, member, k, j, d) == 0.0
  {
    if k > 0 {
      NoTotal(points, member, k - 1, j, d);
    }
  }

  lemma {:induction false} OneMoreTotal(points: Matrix, member: seq<int>, k: nat, j: nat, d: nat)
    requires Shaped(points, |points|, d) && |member| == |points| && j < d && points != []
    ensures var n := |points| - 1;
            TotalBelow(points, member, k, j, d)
            == TotalBelow(points[..n], member[..n], k, j, d) + if 0 <= member[n] < k then points[n][j] else 0.0
  {
    if k > 0 {
      OneMoreTotal(points, member, k - 1, j, d);
    }
  }

  // ---------- assignment ----------

  /** Cluster `c` has a nearest centre to `p`. */
  ghost predicate NearestTo(p: seq<real>, centres: Matrix, c: int, d: nat) {
    && Shaped(centres, |centres|, d) && |p| == d && 0 <= c < |centres|
    && forall e :: 0 <= e < |centres| ==> Dist2(p, centres[c]) <= Dist2(p, centres[e])
  }

  ghost predicate Nearest(points: Matrix, centres: Matrix, member: seq<int>, d: nat) {
    |member| == |points| && forall i :: 0 <= i < |points| ==> NearestTo(points[i], centres, member[i], d)
  }

  /** Sending every point to a nearest centre gives the least objective of all. */
  lemma {:induction false} NearestIsBest(points: Matrix, centres: Matrix, member: seq<int>, member': seq<int>, d: nat)
    requires Fits(points, centres, member, d) && Fits(points, centres, member', d)
    requires Nearest(points, centres, member', d)
    ensures Objective(points, centres, member', d) <= Objective(points, centres, member, d)
  {
    if points != [] {
      var n := |points| - 1;
      assert Nearest(points[..n], centres, member'[..n], d);
      NearestIsBest(points[..n], centres, member[..n], member'[..n], d);
      assert NearestTo(points[n], centres, member'[n], d);
    }
  }

  // ---------- averaging ----------

  lemma {:induction false} Dist2Update(p: seq<real>, q: seq<real>, j: nat, v: real)
    requires |p| == |q| && j < |p|
    ensures Dist2(p, q[j := v]) == Dist2(p, q) - Square(p[j] - q[j]) + Square(p[j] - v)
  {
    var n := |p| - 1;
    if j < n {
      Dist2Update(p[..n], q[..n], j, v);
      assert q[j := v][..n] == q[..n][j := v];
    } else {
      assert q[j := v][..n] == q[..n];
    }
  }

  /** A squared distance is zero exactly between equal points ... */
  lemma {:induction false} Dist2Zero(p: seq<real>, q: seq<real>)
    requires |p| == |q|
    ensures Dist2(p, q) == 0.0 <==> p == q
  {
    if p != [] {
      var n := |p| - 1;
      Dist2Zero(p[..n], q[..n]);
      assert p == p[..n] + [p[n]] && q == q[..n] + [q[n]];
      SquareZero(p[n] - q[n]);
    }
  }

  lemma SquareZero(x: real)
    ensures Square(x) == 0.0 <==> x == 0.0
  {
    if x != 0.0 {
      assert 1.0 == (1.0 / x) * x;
      assert x == (1.0 / x) * Square(x);
    }
  }

  /** ... and the square of the difference between points that differ in one coordinate. */
  lemma Dist2OneApart(p: seq<real>, q: seq<real>, j: nat)
    requires |p| == |q| && j < |p| && p == q[j := p[j]]
    ensures Dist2(p, q) == (p[j] - q[j]) * (p[j] - q[j])
  {
    assert q == p[j := q[j]];
    Dist2Update(p, p, j, q[j]);
    Dist2Zero(p, p);
    SquareZero(p[j] - p[j]);
    assert Square(p[j] - q[j]) == (p[j] - q[j]) * (p[j] - q[j]);
    hide Dist2, Square;
  }

  /** What moving a coordinate from `u` to `v` adds to the objective, for a cluster of
      `count` points with the coordinate sum `total`. */
  function Change(count: nat, total: real, u: real, v: real): real {
    (count as real) * (Square(v) - Square(u)) - 2.0 * total * (v - u)
  }

  /** Moving one coordinate of one centre. */
  lemma {:induction false} MoveCoordinate(points: Matrix, centres: Matrix, member: seq<int>, d: nat, c: nat, j: nat,
                                          v: real)
    requires Fits(points, centres, member, d) && c < |centres| && j < d
    ensures var moved := centres[c := centres[c][j := v]];
            && Fits(points, moved, member, d)
            && Objective(points, moved, member, d)
               == Objective(points, centres, member, d)
                  + Change(Members(member, c), Total(points, member, c, j, d), centres[c][j], v)
  {
    var u, moved := centres[c][j], centres[c := centres[c][j := v]];
    if points == [] {
    } else {
      hide Change, Dist2, Square;
      var n := |points| - 1;
      var p, m := points[n], member[n];
      MoveCoordinate(points[..n], centres, member[..n], d, c, j, v);
      if m == c {
        Dist2Update(p, centres[c], j, v);
        OnePoint(p[j], u, v, Members(member[..n], c), Total(points[..n], member[..n], c, j, d));
      }
    }
  }

  lemma OnePoint(x: real, u: real, v: real, count: nat, total: real)
    ensures Change(count + 1, total + x, u, v) == Change(count, total, u, v) - Square(x - u) + Square(x - v)
  {
  }

  /** The mean lowers the objective by the squared way to it, once per member. */
  lemma MeanChange(count: nat, total: real, u: real)
    requires count > 0
    ensures Change(count, total, u, total / (count as real)) == -(count as real) * Square(u - total / (count as real))
    ensures Change(count, total, u, total / (count as real)) <= 0.0
  {
  }

  lemma StayChange(count: nat, total: real, u: real, v: real)
    requires u == v
    ensures Change(count, total, u, v) == 0.0
  {
  }

  /** The averaging step: means for the clusters that have members, as counted in `len`
      and added up in `sums`; the others keep their centres. */
  function Averaged(centres: Matrix, len: seq<int>, sums: Matrix, d: nat): (r: Matrix)
    requires Shaped(centres, |centres|, d) && |len| == |centres| && Shaped(sums, |centres|, d)
    ensures Shaped(r, |centres|, d)
    ensures forall c, j :: 0 <= c < |centres| && 0 <= j < d ==>
              r[c][j] == if len[c] > 0 then sums[c][j] / (len[c] as real) else centres[c][j]
  {
    seq(|centres|, c requires 0 <= c < |centres| =>
      seq(d, j requires 0 <= j < d => if len[c] > 0 then sums[c][j] / (len[c] as real) else centres[c][j]))
  }

  /** The accumulators hold the counts and sums of `member`. */
  ghost predicate Accumulated(points: Matrix, member: seq<int>, len: seq<int>, sums: Matrix, k: nat, d: nat)
    requires Shaped(points, |points|, d) && |member| == |points|
  {
    && |len| == k && Shaped(sums, k, d)
    && (forall c :: 0 <= c < k ==> len[c] == Members(member, c))
    && (forall c, j :: 0 <= c < k && 0 <= j < d ==> sums[c][j] == Total(points, member, c, j, d))
  }

  /** Averaging the first `done` coordinates of centre `c`. */
  lemma {:induction false} AverageRow(points: Matrix, centres: Matrix, means: Matrix, member: seq<int>, len: seq<int>,
                                      sums: Matrix, d: nat, c: nat, done: nat)
    requires Fits(points, centres, member, d) && Shaped(means, |centres|, d) && c < |centres| && done <= d
    requires Accumulated(points, member, len, sums, |centres|, d)
    requires forall j :: 0 <= j < d ==>
             means[c][j] == if len[c] > 0 then sums[c][j] / (len[c] as real) else centres[c][j]
    ensures var row := means[c][..done] + centres[c][done..];
            Fits(points, centres[c := row], member, d)
            && Objective(points, centres[c := row], member, d) <= Objective(points, centres, member, d)
  {
    if done == 0 {
      assert means[c][..0] + centres[c][0..] == centres[c];
      assert centres[c := centres[c]] == centres;
    } else {
      var j := done - 1;
      AverageRow(points, centres, means, member, len, sums, d, c, j);
      var before, after := means[c][..j] + centres[c][j..], means[c][..done] + centres[c][done..];
      var m := centres[c := before];
      assert after == before[j := means[c][j]] && m[c := after] == centres[c := after];
      MoveCoordinate(points, m, member, d, c, j, means[c][j]);
      if len[c] > 0 {
        MeanChange(Members(member, c), Total(points, member, c, j, d), before[j]);
      } else {
        StayChange(Members(member, c), Total(points, member, c, j, d), before[j], means[c][j]);
      }
    }
  }

  lemma {:induction false} AverageRows(points: Matrix, centres: Matrix, means: Matrix, member: seq<int>,
                                       len: seq<int>, sums: Matrix, d: nat, done: nat)
    requires Fits(points, centres, member, d) && done <= |centres|
    requires Accumulated(points, member, len, sums, |centres|, d)
    requires means == Averaged(centres, len, sums, d)
    ensures Fits(points, means[..done] + centres[done..], member, d)
    ensures Objective(points, means[..done] + centres[done..], member, d) <= Objective(points, centres, member, d)
  {
    if done == 0 {
      assert means[..0] + centres[0..] == centres;
    } else {
      var c := done - 1;
      AverageRows(points, centres, means, member, len, sums, d, c);
      var m := means[..c] + centres[c..];
      AverageRow(points, m, means, member, len, sums, d, c, d);
      assert means[c][..d] + m[c][d..] == means[c];
      assert m[c := means[c]] == means[..done] + centres[done..];
    }
  }

  /** Averaging never increases the objective. */
  lemma AveragingImproves(points: Matrix, centres: Matrix, member: seq<int>, len: seq<int>, sums: Matrix, d: nat)
    requires Fits(points, centres, member, d)
    requires Accumulated(points, member, len, sums, |centres|, d)
    ensures Fits(points, Averaged(centres, len, sums, d), member, d)
    ensures Objective(points, Averaged(centres, len, sums, d), member, d) <= Objective(points, centres, member, d)
  {
    var means := Averaged(centres, len, sums, d);
    AverageRows(points, centres, means, member, len, sums, d, |centres|);
    assert means[..|centres|] + centres[|centres|..] == means;
  }
}
