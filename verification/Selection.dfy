/** Partial selection of the nearest records (findLowest in nearestNeighbor.cpp). */
module Selection {
  datatype Record = Record(recString: string, distance: real)

  /** `src` rearranges 0..n-1. */
  ghost predicate Permutation(src: seq<int>) {
    && (forall p :: 0 <= p < |src| ==> 0 <= src[p] < |src|)
    && (forall p, q :: 0 <= p < q < |src| ==> src[p] != src[q])
  }

  lemma Distinct(src: seq<int>, p: int, q: int)
    requires Permutation(src) && 0 <= p < q < |src|
    ensures src[p] != src[q]
  {
  }

  /** The first `i` are in ascending order, and nothing after them is smaller. */
  ghost predicate Selected(d: seq<real>, i: nat) {
    i <= |d| && forall p, q :: 0 <= p < i && p < q < |d| ==> d[p] <= d[q]
  }

  ghost function Swap<T>(s: seq<T>, i: nat, m: nat): (r: seq<T>)
    requires i < |s| && m < |s|
    ensures |r| == |s|
  {
    s[i := s[m]][m := s[i]]
  }

  /** Place i gets the record of place m, with the distance of place m; place m keeps its record. */
  ghost function Take(r: seq<Record>, d: seq<real>, i: nat, m: nat): (r': seq<Record>)
    requires i < |r| && m < |r| && m < |d|
    ensures |r'| == |r|
  {
    r[i := Record(r[m].recString, d[m])]
  }

  /** What is known of where things are before step `i`: every distance came from
      `src`; behind `i` it is in its own place or was displaced from the front; the
      record at rank p was found in place slot[p], and it belongs to the distance
      there exactly if that had not been displaced. */
  ghost predicate Tracks(src: seq<int>, slot: seq<int>, i: nat) {
    && Permutation(src) && |slot| == i <= |src|
    && (forall p :: i <= p < |src| ==> src[p] == p || src[p] < i)
    && (forall p :: 0 <= p < i ==> p <= slot[p] < |src| && (slot[p] == src[p] <==> src[p] >= p))
  }

  lemma TracksSwap(src: seq<int>, slot: seq<int>, i: nat, m: nat)
    requires Tracks(src, slot, i) && i <= m < |src|
    ensures Tracks(Swap(src, i, m), slot + [m], i + 1)
  {
  }

  /** Each distance is the original one of place src[p]. */
  ghost predicate Drawn(d: seq<real>, d0: seq<real>, src: seq<int>) {
    |d| == |d0| == |src| && forall p :: 0 <= p < |d| ==> 0 <= src[p] < |d0| && d[p] == d0[src[p]]
  }

  ghost predicate Rearranged(d: seq<real>, d0: seq<real>) {
    multiset(d) == multiset(d0)
  }

  lemma SwapRearranges(d: seq<real>, d0: seq<real>, i: nat, m: nat)
    requires Rearranged(d, d0) && i < |d| && m < |d|
    ensures Rearranged(Swap(d, i, m), d0)
  {
  }

  lemma SwapStep(d: seq<real>, d0: seq<real>, src: seq<int>, i: nat, m: nat)
    requires Selected(d, i) && Drawn(d, d0, src) && i <= m < |d|
    requires forall j :: i <= j < |d| ==> d[m] <= d[j]
    ensures var d' := Swap(d, i, m);
            Selected(d', i + 1) && Drawn(d', d0, Swap(src, i, m))
  {
  }

  /** Distances move only to let a smaller one in: what lies behind its own place gave
      way there to a smaller one, and the original of a place that now holds another
      distance, or that did when its record was taken, is smaller than that one. */
  ghost predicate GaveWay(d: seq<real>, d0: seq<real>, src: seq<int>, slot: seq<int>) {
    && |d| == |d0| == |src| && |slot| <= |d|
    && (forall q :: 0 <= q < |d| && 0 <= src[q] < q ==> d[src[q]] < d[q])
    && (forall q :: |slot| <= q < |d| && src[q] != q ==> d0[q] < d[q])
    && (forall p :: 0 <= p < |slot| && slot[p] != src[p] ==> 0 <= slot[p] < |d0| && d0[slot[p]] < d[p])
  }

  lemma GaveWayStep(d: seq<real>, d0: seq<real>, src: seq<int>, slot: seq<int>, m: nat)
    requires GaveWay(d, d0, src, slot) && Tracks(src, slot, |slot|) && Drawn(d, d0, src)
    requires |slot| <= m < |d| && (m > |slot| ==> d[m] < d[|slot|])
    ensures var i := |slot|;
            GaveWay(Swap(d, i, m), d0, Swap(src, i, m), slot + [m])
  {
  }

  /** Rank p holds the record of place slot[p], with the distance of rank p; the rest are untouched. */
  ghost predicate Listed(r: seq<Record>, r0: seq<Record>, d: seq<real>, slot: seq<int>) {
    && |slot| <= |r| == |r0| && |slot| <= |d|
    && (forall p :: 0 <= p < |slot| ==> 0 <= slot[p] < |r0| && r[p] == Record(r0[slot[p]].recString, d[p]))
    && (forall p :: |slot| <= p < |r| ==> r[p] == r0[p])
  }

  lemma ListStep(r: seq<Record>, r0: seq<Record>, d: seq<real>, slot: seq<int>, m: nat)
    requires Listed(r, r0, d, slot) && |slot| <= m < |d| <= |r|
    ensures var i := |slot|;
            Listed(Take(r, d, i, m), r0, Swap(d, i, m), slot + [m])
  {
  }

  method MinFrom(distances: array<real>, i: nat, n: nat) returns (minLoc: nat)
    requires i < n <= distances.Length
    ensures i <= minLoc < n && forall j :: i <= j < n ==> distances[minLoc] <= distances[j]
    ensures forall j :: i <= j < minLoc ==> distances[minLoc] < distances[j]
  {
    minLoc := i;
    for j := i to n
      invariant i <= minLoc < n && forall k :: i <= k < j ==> distances[minLoc] <= distances[k]
      invariant forall k :: i <= k < minLoc ==> distances[minLoc] < distances[k]
    {
      var val := distances[j];
      if val < distances[minLoc] {
        minLoc := j;
      }
    }
  }

  /** The exchange that was meant to swap both arrays. */
  method TakeRank(records: array<Record>, distances: array<real>, i: nat, minLoc: nat)
    requires i <= minLoc < distances.Length <= records.Length
    modifies records, distances
    ensures distances[..] == Swap(old(distances[..]), i, minLoc)
    ensures records[..] == Take(old(records[..]), old(distances[..]), i, minLoc)
  {
    records[i] := records[minLoc];
    records[minLoc] := records[i];  // *tempRec, which by now is records[minLoc] itself
    var tempDist := distances[i];
    distances[i] := distances[minLoc];
    distances[minLoc] := tempDist;
    records[i] := records[i].(distance := distances[i]);
  }

  /** All that is known after the ranks below |slot| have been selected. */
  ghost predicate Traced(r: seq<Record>, r0: seq<Record>, d: seq<real>, d0: seq<real>, src: seq<int>, slot: seq<int>) {
    && Rearranged(d, d0)
    && Tracks(src, slot, |slot|) && Selected(d, |slot|) && Drawn(d, d0, src)
    && Listed(r, r0, d, slot) && GaveWay(d, d0, src, slot)
  }

  lemma Start(r: seq<Record>, d: seq<real>, src: seq<int>)
    requires |src| == |d| <= |r| && forall p :: 0 <= p < |src| ==> src[p] == p
    ensures Traced(r, r, d, d, src, [])
  {
  }

  lemma SelectStep(r: seq<Record>, r0: seq<Record>, d: seq<real>, d0: seq<real>, src: seq<int>, slot: seq<int>, m: nat)
    requires Traced(r, r0, d, d0, src, slot) && |slot| <= m < |d| == |src| && |d| <= |r|
    requires forall j :: |slot| <= j < |d| ==> d[m] <= d[j]
    requires m > |slot| ==> d[m] < d[|slot|]
    ensures var i := |slot|;
            Traced(Take(r, d, i, m), r0, Swap(d, i, m), d0, Swap(src, i, m), slot + [m])
  {
    hide Tracks, Drawn, Selected, Listed, GaveWay, Rearranged, Swap, Take;
    assert |slot + [m]| == |slot| + 1;
    TracksSwap(src, slot, |slot|, m);
    SwapRearranges(d, d0, |slot|, m);
    SwapStep(d, d0, src, |slot|, m);
    ListStep(r, r0, d, slot, m);
    GaveWayStep(d, d0, src, slot, m);
  }

  /**
    findLowest.  The distances are selected in place.  The records are not swapped:
    the pointer that was meant to save one aliases the place that is overwritten.  So
    rank i gets the record found in place slot[i], which is the record of the distance
    src[i] there exactly if that distance did not come from before rank i.
   */
  method FindLowest(records: array<Record>, distances: array<real>, numRecords: nat, topN: nat)
    returns (ghost src: seq<int>, ghost slot: seq<int>)
    requires topN <= numRecords <= records.Length && numRecords == distances.Length
    modifies records, distances
    ensures multiset(distances[..]) == multiset(old(distances[..]))
    ensures forall p, q :: 0 <= p < topN && p < q < numRecords ==> distances[p] <= distances[q]
    ensures forall i :: 0 <= i < topN ==> records[i].distance == distances[i]
    ensures forall i :: topN <= i < records.Length ==> records[i] == old(records[i])
    ensures |slot| == topN && Traced(records[..], old(records[..]), distances[..], old(distances[..]), src, slot)
    ensures InTime(old(distances[..]), topN) ==> Genuine(records[..], old(records[..]), old(distances[..]), topN)
    ensures Different(old(records[..]), numRecords) && CleanCut(old(distances[..]), topN) ==>
              (Genuine(records[..], old(records[..]), old(distances[..]), topN) <==> InTime(old(distances[..]), topN))
  {
    hide Traced, Swap, Take, InTime, Genuine, Different, CleanCut;
    src, slot := seq(numRecords, p => p), [];
    Start(records[..], distances[..], src);
    var i := 0;
    while i < topN
      invariant 0 <= i <= topN && |slot| == i && |src| == numRecords
      invariant Traced(records[..], old(records[..]), distances[..], old(distances[..]), src, slot)
    {
      ghost var d, r := distances[..], records[..];
      var minLoc := MinFrom(distances, i, numRecords);
      SelectStep(r, old(records[..]), d, old(distances[..]), src, slot, minLoc);
      src, slot := Swap(src, i, minLoc), slot + [minLoc];
      TakeRank(records, distances, i, minLoc);
      i := i + 1;
    }
    AsSelected(records[..], old(records[..]), distances[..], old(distances[..]), src, slot);
  }

  lemma AsSelected(r: seq<Record>, r0: seq<Record>, d: seq<real>, d0: seq<real>, src: seq<int>, slot: seq<int>)
    requires Traced(r, r0, d, d0, src, slot) && |d0| <= |r0|
    ensures |slot| <= |r| == |r0| && |slot| <= |d| && multiset(d) == multiset(d0)
    ensures forall p, q :: 0 <= p < |slot| && p < q < |d| ==> d[p] <= d[q]
    ensures forall i :: 0 <= i < |slot| ==> r[i].distance == d[i]
    ensures forall i :: |slot| <= i < |r| ==> r[i] == r0[i]
    ensures InTime(d0, |slot|) ==> Genuine(r, r0, d0, |slot|)
    ensures Different(r0, |d0|) && CleanCut(d0, |slot|) ==> (Genuine(r, r0, d0, |slot|) <==> InTime(d0, |slot|))
  {
    hide InTime, Genuine, Different, CleanCut;
    GenuineExactly(r, r0, d, d0, src, slot);
  }

  /** So a full selection keeps all records with their distances only if no distance
      had to move at all. */
  lemma {:induction false} AllPairedOnlyIfInPlace(src: seq<int>, k: nat)
    requires Permutation(src) && k <= |src|
    requires forall i :: 0 <= i < |src| ==> src[i] >= i
    ensures forall i :: k <= i < |src| ==> src[i] == i
    decreases |src| - k
  {
    if k < |src| {
      AllPairedOnlyIfInPlace(src, k + 1);
      if k < src[k] {
        Distinct(src, k, src[k]);
      }
    }
  }

  /** The ranks are listed under their own records exactly if none of the selected
      distances was originally at a place before its rank. */
  lemma ListingRight(r: seq<Record>, r0: seq<Record>, d: seq<real>, d0: seq<real>, src: seq<int>, slot: seq<int>)
    requires Tracks(src, slot, |slot|) && Drawn(d, d0, src) && Listed(r, r0, d, slot)
    requires forall p, q :: 0 <= p < q < |r0| ==> r0[p].recString != r0[q].recString
    ensures (forall i :: 0 <= i < |slot| ==> r[i] == Record(r0[src[i]].recString, d0[src[i]]))
            <==> (forall i :: 0 <= i < |slot| ==> src[i] >= i)
  {
  }

  /** The places whose distance is smaller than that of place p, or no larger. */
  ghost function Below(d0: seq<real>, p: int): (s: set<int>)
    requires 0 <= p < |d0|
  {
    set q | 0 <= q < |d0| && d0[q] < d0[p]
  }

  ghost function AtMost(d0: seq<real>, p: int): (s: set<int>)
    requires 0 <= p < |d0|
  {
    set q | 0 <= q < |d0| && d0[q] <= d0[p]
  }

  /** One of the records, with its own distance. */
  ghost predicate Own(entry: Record, r0: seq<Record>, d0: seq<real>) {
    exists p :: 0 <= p < |d0| && p < |r0| && entry == Record(r0[p].recString, d0[p])
  }

  /** Every listed entry is a record with its own distance. */
  ghost predicate Genuine(r: seq<Record>, r0: seq<Record>, d0: seq<real>, topN: nat) {
    topN <= |r| && forall i :: 0 <= i < topN ==> Own(r[i], r0, d0)
  }

  ghost predicate Different(r0: seq<Record>, n: nat) {
    forall p, q :: 0 <= p < q < n <= |r0| ==> r0[p].recString != r0[q].recString
  }

  /** No distance that is to be listed stands before the first rank it may get. */
  ghost predicate InTime(d0: seq<real>, topN: nat) {
    forall p :: 0 <= p < |d0| && |Below(d0, p)| < topN ==> |Below(d0, p)| <= p
  }

  /** The last rank listed does not separate equal distances. */
  ghost predicate CleanCut(d0: seq<real>, topN: nat) {
    forall p :: 0 <= p < |d0| ==> |AtMost(d0, p)| <= topN || topN <= |Below(d0, p)|
  }

  ghost function Firsts(src: seq<int>, k: nat): (s: set<int>)
    requires k <= |src|
  {
    set x | x in src[..k]
  }

  lemma {:induction false} FirstsCount(src: seq<int>, k: nat)
    requires Permutation(src) && k <= |src|
    ensures |Firsts(src, k)| == k
  {
    if k == 0 {
      assert Firsts(src, k) == {};
    } else {
      FirstsCount(src, k - 1);
      Distinctness(src, k - 1, k - 1);
      FirstsStep(src, k);
    }
  }

  lemma FirstsStep(src: seq<int>, k: nat)
    requires 0 < k <= |src| && src[k - 1] !in Firsts(src, k - 1)
    ensures |Firsts(src, k)| == |Firsts(src, k - 1)| + 1
  {
    assert src[..k] == src[..k - 1] + [src[k - 1]];
    assert Firsts(src, k) == Firsts(src, k - 1) + {src[k - 1]};
  }

  lemma SubsetCount(s: set<int>, t: set<int>)
    requires s <= t
    ensures |s| <= |t| && (|s| == |t| ==> s == t)
  {
    assert t == s + (t - s);
  }

  ghost function Places(n: nat): (s: set<int>)
    ensures forall q :: q in s <==> 0 <= q < n
  {
    if n == 0 then {} else Places(n - 1) + {n - 1}
  }

  lemma {:induction false} PlacesCount(n: nat)
    ensures |Places(n)| == n
  {
    if n > 0 {
      PlacesCount(n - 1);
    }
  }

  /** A permutation takes every value. */
  lemma RankOf(src: seq<int>, x: int) returns (i: int)
    requires Permutation(src) && 0 <= x < |src|
    ensures 0 <= i < |src| && src[i] == x
  {
    assert Firsts(src, |src|) <= Places(|src|);
    assert x in Firsts(src, |src|) by {
      hide Permutation, Firsts;
      FirstsCount(src, |src|);
      PlacesCount(|src|);
      SubsetCount(Firsts(src, |src|), Places(|src|));
    }
    i :| 0 <= i < |src| && src[i] == x;
  }

  /** The distance at rank i has at most i smaller ones ... */
  lemma RankAtLeast(d: seq<real>, d0: seq<real>, src: seq<int>, topN: nat, i: nat)
    requires Permutation(src) && Drawn(d, d0, src) && Selected(d, topN) && i < topN
    ensures |Below(d0, src[i])| <= i
  {
    hide Permutation;
    forall q | q in Below(d0, src[i]) ensures q in Firsts(src, i) {
      var j := RankOf(src, q);
    }
    hide Firsts, Below, Drawn, Selected;
    FirstsCount(src, i);
    SubsetCount(Below(d0, src[i]), Firsts(src, i));
  }

  /** ... of which each rank with a smaller distance is one ... */
  lemma RankAtMost(d: seq<real>, d0: seq<real>, src: seq<int>, topN: nat, x: nat, i: nat)
    requires Permutation(src) && Drawn(d, d0, src) && Selected(d, topN)
    requires x < topN && i < |d| && d[x] < d[i]
    ensures x < |Below(d0, src[i])|
  {
    hide Permutation;
    assert Firsts(src, x + 1) <= Below(d0, src[i]);
    hide Firsts, Below, Drawn, Selected;
    FirstsCount(src, x + 1);
    SubsetCount(Firsts(src, x + 1), Below(d0, src[i]));
  }

  /** ... and one that is not selected has topN others that are no larger. */
  lemma NotSelected(d: seq<real>, d0: seq<real>, src: seq<int>, topN: nat, i: nat)
    requires Permutation(src) && Drawn(d, d0, src) && Selected(d, topN) && topN <= i < |d|
    ensures |AtMost(d0, src[i])| > topN
  {
    hide Permutation;
    assert Firsts(src, topN) + {src[i]} <= AtMost(d0, src[i]);
    hide Firsts, AtMost, Drawn, Selected;
    FirstsCount(src, topN);
    Distinctness(src, topN, i);
    SubsetCount(Firsts(src, topN) + {src[i]}, AtMost(d0, src[i]));
  }

  lemma Distinctness(src: seq<int>, k: nat, i: nat)
    requires Permutation(src) && k <= i < |src|
    ensures src[i] !in Firsts(src, k)
  {
  }

  /** An entry is genuine exactly if its distance did not come from before its rank. */
  lemma GenuineEntry(r: seq<Record>, r0: seq<Record>, d: seq<real>, d0: seq<real>, src: seq<int>, slot: seq<int>,
                     i: nat)
    requires Tracks(src, slot, |slot|) && Drawn(d, d0, src) && Listed(r, r0, d, slot) && GaveWay(d, d0, src, slot)
    requires i < |slot| && |d0| <= |r0|
    ensures src[i] >= i ==> Own(r[i], r0, d0)
    ensures src[i] < i && Different(r0, |d0|) ==> !Own(r[i], r0, d0)
  {
    hide Own, Different;
    assert d[i] == d0[src[i]] && (src[i] < i ==> d0[slot[i]] < d[i]);
    OwnEntry(r0, d0, slot[i], d[i]);
  }

  lemma OwnEntry(r0: seq<Record>, d0: seq<real>, m: nat, distance: real)
    requires m < |d0| <= |r0|
    ensures distance == d0[m] ==> Own(Record(r0[m].recString, distance), r0, d0)
    ensures distance != d0[m] && Different(r0, |d0|) ==> !Own(Record(r0[m].recString, distance), r0, d0)
  {
  }

  lemma EnoughInTime(r: seq<Record>, r0: seq<Record>, d: seq<real>, d0: seq<real>, src: seq<int>, slot: seq<int>)
    requires Tracks(src, slot, |slot|) && Selected(d, |slot|) && Drawn(d, d0, src)
    requires Listed(r, r0, d, slot) && GaveWay(d, d0, src, slot) && |d0| <= |r0|
    requires InTime(d0, |slot|)
    ensures Genuine(r, r0, d0, |slot|)
  {
    hide Below, AtMost, Selected, Own, Different;
    forall i | 0 <= i < |slot| ensures Own(r[i], r0, d0) {
      if src[i] < i {
        RankAtLeast(d, d0, src, |slot|, i);
        RankAtMost(d, d0, src, |slot|, src[i], i);
      }
      GenuineEntry(r, r0, d, d0, src, slot, i);
    }
  }

  lemma NeededInTime(r: seq<Record>, r0: seq<Record>, d: seq<real>, d0: seq<real>, src: seq<int>, slot: seq<int>,
                     p: int)
    requires Tracks(src, slot, |slot|) && Selected(d, |slot|) && Drawn(d, d0, src)
    requires Listed(r, r0, d, slot) && GaveWay(d, d0, src, slot) && |d0| <= |r0|
    requires Genuine(r, r0, d0, |slot|) && Different(r0, |d0|)
    requires 0 <= p < |d0| && |AtMost(d0, p)| <= |slot|
    ensures |Below(d0, p)| <= p
  {
    hide Below, AtMost, Selected, Own, Different, Listed, GaveWay;
    var i := RankOf(src, p);
    if i >= |slot| {
      NotSelected(d, d0, src, |slot|, i);
    }
    RankAtLeast(d, d0, src, |slot|, i);
    GenuineEntry(r, r0, d, d0, src, slot, i);
  }

  /** What a selection needs of its input: all listed entries are genuine if every
      distance to be listed is in time; and, the records being different, only then,
      unless the list ends between equal distances -- but those listed in full must be
      in time even so. */
  lemma GenuineExactly(r: seq<Record>, r0: seq<Record>, d: seq<real>, d0: seq<real>, src: seq<int>, slot: seq<int>)
    requires Tracks(src, slot, |slot|) && Selected(d, |slot|) && Drawn(d, d0, src)
    requires Listed(r, r0, d, slot) && GaveWay(d, d0, src, slot) && |d0| <= |r0|
    ensures InTime(d0, |slot|) ==> Genuine(r, r0, d0, |slot|)
    ensures Different(r0, |d0|) && Genuine(r, r0, d0, |slot|) ==>
              forall p :: 0 <= p < |d0| && |AtMost(d0, p)| <= |slot| ==> |Below(d0, p)| <= p
    ensures Different(r0, |d0|) && CleanCut(d0, |slot|) ==> (Genuine(r, r0, d0, |slot|) <==> InTime(d0, |slot|))
  {
    hide Below, AtMost, Tracks, Selected, Drawn, Listed, GaveWay, Genuine, Different;
    if InTime(d0, |slot|) {
      EnoughInTime(r, r0, d, d0, src, slot);
    }
    if Different(r0, |d0|) && Genuine(r, r0, d0, |slot|) {
      forall p | 0 <= p < |d0| && |AtMost(d0, p)| <= |slot| ensures |Below(d0, p)| <= p {
        NeededInTime(r, r0, d, d0, src, slot, p);
      }
    }
  }

  /** Two records, the nearer one second: it is listed twice and the other is lost. */
  lemma ListedTwice(r: seq<Record>, r0: seq<Record>, d: seq<real>, src: seq<int>, slot: seq<int>)
    requires r0 == [Record("far", 0.0), Record("near", 0.0)]
    requires Tracks(src, slot, 2) && Selected(d, 2) && Drawn(d, [2.0, 1.0], src) && Listed(r, r0, d, slot)
    ensures r == [Record("near", 1.0), Record("near", 2.0)]
  {
    assert src[0] == 1 by {
      assert d[0] <= d[1] && d[0] == [2.0, 1.0][src[0]] && d[1] == [2.0, 1.0][src[1]];
    }
    assert slot[0] == 1 && slot[1] == 1;
  }
}
