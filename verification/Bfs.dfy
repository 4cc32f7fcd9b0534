/**
  run_bfs_cpu: rounds of two phases over mask arrays, proved to compute exact
  shortest-path lengths, with exact counts of rounds and of edge visits.
 */
module Bfs {
  import opened Graphs
  import opened BfsPhase

  // ---------- what holds between rounds ----------

  /** After `k` rounds: visited is {dist <= k} with the distance as cost, -1 is the
      cost of the rest, the mask is {dist = k} and the updating mask is clear. */
  ghost predicate RoundInv(g: Graph, s: int, k: nat, visited: seq<bool>, a: Arrays) {
    && Sized(g, visited, a)
    && (forall v :: 0 <= v < |g.nodes| ==> !a.updating[v])
    && (forall v :: 0 <= v < |g.nodes| ==> a.mask[v] == (a.cost[v] == k))
    && (forall v :: 0 <= v < |g.nodes| ==> visited[v] == (a.cost[v] != -1))
    && (forall v :: 0 <= v < |g.nodes| && visited[v] ==> 0 <= a.cost[v] <= k && g.Dist(s, v, a.cost[v]))
    && (forall v, d: nat :: 0 <= v < |g.nodes| && !visited[v] && d <= k ==> !g.Walk(s, v, d))
  }

  lemma WalkFurther(g: Graph, s: int, u: int, v: int, d: nat)
    requires g.Walk(s, u, d) && g.Edge(u, v)
    ensures g.Walk(s, v, d + 1)
  {
  }

  lemma DistUnique(g: Graph, s: int, v: int, d: nat, e: nat)
    requires g.Dist(s, v, d) && g.Dist(s, v, e)
    ensures d == e
  {
  }

  /** The unvisited neighbours of the frontier are the nodes at distance k + 1. */
  lemma HitIsNextLevel(g: Graph, s: int, k: nat, visited: seq<bool>, a: Arrays, v: int)
    requires g.WellFormed() && RoundInv(g, s, k, visited, a) && 0 <= v < |g.nodes|
    ensures Hit(g, visited, a.mask, Nodes(Ascending(|g.nodes|)), v) <==> g.Dist(s, v, k + 1)
  {
    AscendingNodes(|g.nodes|);
    if g.Dist(s, v, k + 1) {
      assert !visited[v];
      var u :| g.Walk(s, u, k) && g.Edge(u, v);
      forall d: nat | g.Walk(s, u, d) ensures g.Walk(s, v, d + 1) {
        WalkFurther(g, s, u, v, d);
      }
      assert g.Dist(s, u, k);
      assert visited[u];
      DistUnique(g, s, u, k, a.cost[u]);
    }
    if Hit(g, visited, a.mask, Nodes(Ascending(|g.nodes|)), v) {
      var u :| 0 <= u < |g.nodes| && a.mask[u] && g.Edge(u, v);
      assert visited[u] && g.Walk(s, u, k);
      assert g.Walk(s, v, k + 1);
    }
  }

  /** 0, 1, ..., n-1: the order of the for-loops. */
  function Ascending(n: nat): (r: seq<int>)
    ensures |r| == n && forall k :: 0 <= k < n ==> r[k] == k
  {
    seq(n, k => k)
  }

  lemma AscendingNodes(n: nat)
    ensures forall u :: u in Nodes(Ascending(n)) <==> 0 <= u < n
  {
    forall u | 0 <= u < n ensures u in Nodes(Ascending(n)) {
      assert Ascending(n)[u] == u;
    }
  }

  /** The second phase. */
  ghost predicate Promoted(g: Graph, visited: seq<bool>, a: Arrays, visited': seq<bool>, a': Arrays) {
    && Sized(g, visited, a) && Sized(g, visited', a') && a'.cost == a.cost
    && (forall v :: 0 <= v < |g.nodes| ==> visited'[v] == (visited[v] || a.updating[v]))
    && (forall v :: 0 <= v < |g.nodes| ==> a'.mask[v] == (a.mask[v] || a.updating[v]))
    && (forall v :: 0 <= v < |g.nodes| ==> !a'.updating[v])
  }

  /** Round `k` gives exactly the nodes `next`, all unvisited so far, the cost k + 1. */
  ghost predicate NextLevel(g: Graph, k: nat, visited: seq<bool>, a: Arrays, next: seq<bool>, visited': seq<bool>,
                            c: Arrays) {
    && Sized(g, visited, a) && Sized(g, visited', c) && |next| == |g.nodes|
    && forall v :: 0 <= v < |g.nodes| ==>
         && a.mask[v] == (a.cost[v] == k) && visited[v] == (a.cost[v] != -1) && a.cost[v] <= k
         && !(visited[v] && next[v])
         && c.cost[v] == (if next[v] then k + 1 else a.cost[v])
         && c.mask[v] == next[v] && visited'[v] == (visited[v] || next[v])
  }

  /** One whole round keeps the invariant. */
  lemma RoundKeeps(g: Graph, s: int, k: nat, visited: seq<bool>, a: Arrays, b: Arrays, visited': seq<bool>, c: Arrays)
    requires g.WellFormed() && RoundInv(g, s, k, visited, a)
    requires b == ExpandAll(g, visited, Ascending(|g.nodes|), a)
    requires Promoted(g, visited, b, visited', c)
    ensures RoundInv(g, s, k + 1, visited', c)
    ensures NextLevel(g, k, visited, a, b.updating, visited', c)
  {
    ExpandAllClosed(g, visited, Ascending(|g.nodes|), a, k);
    AscendingNodes(|g.nodes|);
    forall v | 0 <= v < |g.nodes|
      ensures b.updating[v] == g.Dist(s, v, k + 1) && !b.mask[v]
      ensures b.cost[v] == if g.Dist(s, v, k + 1) then k + 1 else a.cost[v]
    {
      HitIsNextLevel(g, s, k, visited, a, v);
    }
    forall v | 0 <= v < |g.nodes| && !visited'[v] ensures !g.Walk(s, v, k + 1) {
      assert !g.Dist(s, v, k + 1);
    }
  }

  /** The same round with the nodes of the first phase taken in any other order. */
  lemma RoundKeepsInAnyOrder(g: Graph, s: int, k: nat, visited: seq<bool>, a: Arrays, order: seq<int>, b: Arrays,
                             visited': seq<bool>, c: Arrays)
    requires g.WellFormed() && RoundInv(g, s, k, visited, a)
    requires InGraph(g, order) && Nodes(order) == Nodes(Ascending(|g.nodes|))
    requires b == ExpandAll(g, visited, order, a)
    requires Promoted(g, visited, b, visited', c)
    ensures RoundInv(g, s, k + 1, visited', c)
    ensures NextLevel(g, k, visited, a, b.updating, visited', c)
  {
    OrderIrrelevant(g, visited, order, Ascending(|g.nodes|), a, k);
    RoundKeeps(g, s, k, visited, a, b, visited', c);
  }

  /** Once the frontier is empty, everything reachable has been visited. */
  lemma {:induction false} NothingBeyond(g: Graph, s: int, k: nat, visited: seq<bool>, a: Arrays, v: int, d: nat)
    requires g.WellFormed() && RoundInv(g, s, k, visited, a)
    requires 0 <= v < |g.nodes| && g.Walk(s, v, d)
    requires forall u :: 0 <= u < |g.nodes| ==> !a.mask[u]
    ensures visited[v]
    decreases d
  {
    if d > 0 {
      var u :| g.Walk(s, u, d - 1) && g.Edge(u, v);
      NothingBeyond(g, s, k, visited, a, u, d - 1);
      assert g.Walk(s, v, a.cost[u] + 1);
    }
  }

  // ---------- counting ----------

  function Count(m: seq<bool>): nat {
    if m == [] then 0 else Count(m[..|m| - 1]) + if m[|m| - 1] then 1 else 0
  }

  lemma {:induction false} CountGrows(m: seq<bool>, m': seq<bool>)
    requires |m| == |m'| && forall v :: 0 <= v < |m| && m[v] ==> m'[v]
    ensures Count(m) <= Count(m') <= |m'|
    ensures (exists v :: 0 <= v < |m| && !m[v] && m'[v]) ==> Count(m) < Count(m')
  {
    if m != [] {
      var n := |m| - 1;
      CountGrows(m[..n], m'[..n]);
      if v :| 0 <= v < |m| && !m[v] && m'[v] {
        assert v < n ==> !m[..n][v] && m'[..n][v];
      }
    }
  }

  /** The number of edges that leave the marked nodes. */
  function EdgesFrom(g: Graph, m: seq<bool>): nat
    requires |m| <= |g.nodes|
  {
    if m == [] then 0 else EdgesFrom(g, m[..|m| - 1]) + if m[|m| - 1] then g.Degree(|m| - 1) else 0
  }

  lemma {:induction false} EdgesFromSum(g: Graph, x: seq<bool>, y: seq<bool>, z: seq<bool>)
    requires |x| == |y| == |z| <= |g.nodes|
    requires forall v :: 0 <= v < |x| ==> !(x[v] && y[v]) && z[v] == (x[v] || y[v])
    ensures EdgesFrom(g, x) + EdgesFrom(g, y) == EdgesFrom(g, z)
  {
    if x != [] {
      var n := |x| - 1;
      EdgesFromSum(g, x[..n], y[..n], z[..n]);
    }
  }

  /** The places of the edge list in the rows of the marked nodes. */
  ghost function EdgePlaces(g: Graph, m: seq<bool>): (s: set<(int, int)>)
    requires |m| <= |g.nodes|
  {
    if m == [] then {} else EdgePlaces(g, m[..|m| - 1]) + if m[|m| - 1] then Row(g, |m| - 1, g.Degree(|m| - 1)) else {}
  }

  ghost function Row(g: Graph, u: int, k: nat): set<(int, int)>
    requires 0 <= u < |g.nodes|
  {
    if k == 0 then {} else Row(g, u, k - 1) + {(u, g.nodes[u].starting + k - 1)}
  }

  lemma {:induction false} RowPlaces(g: Graph, u: int, k: nat)
    requires 0 <= u < |g.nodes|
    ensures |Row(g, u, k)| == k
    ensures forall p :: p in Row(g, u, k) <==> p.0 == u && g.nodes[u].starting <= p.1 < g.nodes[u].starting + k
  {
    if k > 0 {
      RowPlaces(g, u, k - 1);
    }
  }

  /** EdgesFrom counts each edge of each marked node once. */
  lemma {:induction false} EdgesFromCounts(g: Graph, m: seq<bool>)
    requires |m| <= |g.nodes|
    ensures EdgesFrom(g, m) == |EdgePlaces(g, m)|
    ensures forall p :: p in EdgePlaces(g, m) <==>
              && 0 <= p.0 < |m| && m[p.0]
              && g.nodes[p.0].starting <= p.1 < g.nodes[p.0].starting + g.nodes[p.0].noOfEdges
  {
    if m != [] {
      var n := |m| - 1;
      EdgesFromCounts(g, m[..n]);
      RowPlaces(g, n, g.Degree(n));
      assert EdgePlaces(g, m[..n]) !! Row(g, n, g.Degree(n));
    }
  }

  /** The accounts after `k` rounds: which nodes each round expanded, and the edges
      looked at so far -- those of the visited nodes that are not on the frontier. */
  ghost predicate Books(g: Graph, k: nat, visited: seq<bool>, a: Arrays, before: seq<bool>, steps: nat,
                        levels: seq<seq<bool>>) {
    && Sized(g, visited, a) && |before| == |g.nodes|
    && (forall v :: 0 <= v < |g.nodes| ==> before[v] == (visited[v] && !a.mask[v]))
    && steps == EdgesFrom(g, before)
    && |levels| == k
    && (forall r, v :: 0 <= r < k && 0 <= v < |g.nodes| ==>
      |levels[r]| == |g.nodes| && levels[r][v] == (a.cost[v] == r))
  }

  ghost predicate HasFrontier(m: seq<bool>) {
    exists v :: 0 <= v < |m| && m[v]
  }

  /** All that is known before round `k`; `more` says that there will be one. */
  ghost predicate Between(g: Graph, s: int, k: nat, more: bool, visited: seq<bool>, a: Arrays,
                          before: seq<bool>, steps: nat, levels: seq<seq<bool>>) {
    && g.WellFormed() && RoundInv(g, s, k, visited, a) && Books(g, k, visited, a, before, steps, levels)
    && more == HasFrontier(a.mask)
    && Count(visited) >= (if more then k + 1 else k)
    && (!more ==> k > 0 && exists v :: 0 <= v < |g.nodes| && a.cost[v] == k - 1)
  }

  lemma BooksKept(g: Graph, k: nat, visited: seq<bool>, a: Arrays, next: seq<bool>, visited': seq<bool>, c: Arrays,
                  before: seq<bool>, steps: nat, levels: seq<seq<bool>>)
    requires NextLevel(g, k, visited, a, next, visited', c) && HasFrontier(a.mask)
    requires Books(g, k, visited, a, before, steps, levels)
    requires Count(visited) >= k + 1
    ensures Books(g, k + 1, visited', c, visited, steps + EdgesFrom(g, a.mask), levels + [a.mask])
    ensures HasFrontier(c.mask) <==> HasFrontier(next)
    ensures Count(visited') >= if HasFrontier(c.mask) then k + 2 else k + 1
    ensures exists v :: 0 <= v < |g.nodes| && c.cost[v] == k
  {
    CountGrows(visited, visited');
    EdgesFromSum(g, before, a.mask, visited);
    var v :| 0 <= v < |a.mask| && a.mask[v];
    assert c.cost[v] == k;
    if HasFrontier(c.mask) {
      var u :| 0 <= u < |c.mask| && c.mask[u];
      assert !visited[u] && visited'[u];
    }
  }

  lemma BetweenKept(g: Graph, s: int, k: nat, visited: seq<bool>, a: Arrays, b: Arrays, visited': seq<bool>, c: Arrays,
                    before: seq<bool>, steps: nat, levels: seq<seq<bool>>)
    requires Between(g, s, k, true, visited, a, before, steps, levels)
    requires b == ExpandAll(g, visited, Ascending(|g.nodes|), a)
    requires Promoted(g, visited, b, visited', c)
    ensures Between(g, s, k + 1, HasFrontier(b.updating), visited', c, visited,
                    steps + EdgesFrom(g, a.mask), levels + [a.mask])
  {
    hide RoundInv, Books, NextLevel, HasFrontier, Count;
    RoundKeeps(g, s, k, visited, a, b, visited', c);
    BooksKept(g, k, visited, a, b.updating, visited', c, before, steps, levels);
  }

  // ---------- the program ----------

  /** The arrays as main leaves them for run_bfs_cpu, and the graph it read. */
  ghost predicate Initial(g: Graph, s: int, visited: seq<bool>, a: Arrays) {
    && g.WellFormed() && 0 <= s < |g.nodes| && Sized(g, visited, a)
    && forall v :: 0 <= v < |g.nodes| ==>
         && !a.updating[v]
         && visited[v] == a.mask[v] == (v == s)
         && a.cost[v] == if v == s then 0 else -1
  }

  /** What main does to the arrays before the CPU run. */
  method Prepare(n: int, mask: array<bool>, updating: array<bool>, visited: array<bool>, cost: array<int>, source: int)
    requires 0 <= source < n == mask.Length == updating.Length == visited.Length == cost.Length
    requires mask != updating && mask != visited && updating != visited
    modifies mask, updating, visited, cost
    ensures forall v :: 0 <= v < n ==>
              && !updating[v] && mask[v] == (v == source) && visited[v] == (v == source)
              && cost[v] == if v == source then 0 else -1
  {
    for i := 0 to n
      invariant forall v :: 0 <= v < i ==> cost[v] == -1
    {
      cost[i] := -1;
    }
    cost[source] := 0;
    for i := 0 to n
      invariant forall v :: 0 <= v < i ==> !mask[v] && !updating[v] && !visited[v]
      invariant forall v :: 0 <= v < n ==> cost[v] == if v == source then 0 else -1
    {
      mask[i] := false;
      updating[i] := false;
      visited[i] := false;
    }
    mask[source] := true;
    visited[source] := true;
  }

  /** First phase: expand the frontier.  `steps` counts the inner loop. */
  method ExpandFrontier(g: Graph, mask: array<bool>, updating: array<bool>, visited: array<bool>, cost: array<int>)
    returns (ghost steps: nat)
    requires g.WellFormed() && Sized(g, visited[..], Arrays(mask[..], updating[..], cost[..]))
    requires mask != updating && mask != visited && updating != visited
    modifies mask, updating, cost
    ensures Sized(g, visited[..], Arrays(mask[..], updating[..], cost[..]))
    ensures Arrays(mask[..], updating[..], cost[..])
         == ExpandAll(g, visited[..], Ascending(|g.nodes|), old(Arrays(mask[..], updating[..], cost[..])))
    ensures steps == EdgesFrom(g, old(mask[..]))
  {
    ghost var a := Arrays(mask[..], updating[..], cost[..]);
    steps := 0;
    for tid := 0 to |g.nodes|
      invariant Sized(g, visited[..], Arrays(mask[..], updating[..], cost[..]))
      invariant Arrays(mask[..], updating[..], cost[..]) == ExpandAll(g, visited[..], Ascending(tid), a)
      invariant forall v :: tid <= v < |g.nodes| ==> mask[v] == a.mask[v]
      invariant steps == EdgesFrom(g, a.mask[..tid])
    {
      ghost var steps' := VisitNode(g, mask, updating, visited, cost, tid);
      assert Ascending(tid + 1)[..tid] == Ascending(tid);
      assert a.mask[..tid + 1][..tid] == a.mask[..tid];
      steps := steps + steps';
    }
    assert a.mask[..|g.nodes|] == a.mask;
  }

  /** The body of the first phase's loop. */
  method VisitNode(g: Graph, mask: array<bool>, updating: array<bool>, visited: array<bool>, cost: array<int>, tid: int)
    returns (ghost steps: nat)
    requires g.WellFormed() && Sized(g, visited[..], Arrays(mask[..], updating[..], cost[..])) && 0 <= tid < |g.nodes|
    requires mask != updating && mask != visited && updating != visited
    modifies mask, updating, cost
    ensures Arrays(mask[..], updating[..], cost[..])
         == ExpandNode(g, visited[..], tid, old(Arrays(mask[..], updating[..], cost[..])))
    ensures forall v :: 0 <= v < |g.nodes| && v != tid ==> mask[v] == old(mask[v])
    ensures steps == if old(mask[tid]) then g.Degree(tid) else 0
  {
    steps := 0;
    if mask[tid] {
      mask[tid] := false;
      ghost var b := Arrays(mask[..], updating[..], cost[..]);
      ghost var start := g.nodes[tid].starting;
      var i := g.nodes[tid].starting;
      while i < g.nodes[tid].noOfEdges + g.nodes[tid].starting
        invariant start <= i && i - start == steps <= g.Degree(tid)
        invariant Sized(g, visited[..], Arrays(mask[..], updating[..], cost[..]))
        invariant mask[..] == b.mask
        invariant Arrays(mask[..], updating[..], cost[..]) == VisitSlots(g, visited[..], tid, b, steps)
      {
        assert g.Slot(tid, i);
        var id := g.edges[i];
        if !visited[id] {
          cost[id] := cost[tid] + 1;
          updating[id] := true;
        }
        i, steps := i + 1, steps + 1;
      }
    }
  }

  /** Second phase: the updating mask becomes the frontier. */
  method PromoteFrontier(g: Graph, mask: array<bool>, updating: array<bool>, visited: array<bool>, cost: array<int>)
    returns (stop: bool)
    requires Sized(g, visited[..], Arrays(mask[..], updating[..], cost[..]))
    requires mask != updating && mask != visited && updating != visited
    modifies mask, updating, visited
    ensures Promoted(g, old(visited[..]), old(Arrays(mask[..], updating[..], cost[..])),
                     visited[..], Arrays(mask[..], updating[..], cost[..]))
    ensures stop <==> HasFrontier(old(updating[..]))
  {
    stop := false;
    for tid := 0 to |g.nodes|
      invariant forall v :: tid <= v < |g.nodes| ==>
                  mask[v] == old(mask[v]) && updating[v] == old(updating[v]) && visited[v] == old(visited[v])
      invariant forall v :: 0 <= v < tid ==>
                  && mask[v] == (old(mask[v]) || old(updating[v]))
                  && visited[v] == (old(visited[v]) || old(updating[v]))
                  && !updating[v]
      invariant stop <==> exists v :: 0 <= v < tid && old(updating[v])
    {
      if updating[tid] {
        mask[tid] := true;
        visited[tid] := true;
        stop := true;
        updating[tid] := false;
      }
    }
  }

  lemma {:induction false} NoEdgesYet(g: Graph, m: seq<bool>)
    requires |m| <= |g.nodes| && forall v :: 0 <= v < |m| ==> !m[v]
    ensures EdgesFrom(g, m) == 0
  {
    if m != [] {
      NoEdgesYet(g, m[..|m| - 1]);
    }
  }

  lemma BetweenInitially(g: Graph, s: int, visited: seq<bool>, a: Arrays, none: seq<bool>)
    requires Initial(g, s, visited, a)
    requires |none| == |g.nodes| && forall v :: 0 <= v < |none| ==> !none[v]
    ensures Between(g, s, 0, true, visited, a, none, 0, [])
  {
    NoEdgesYet(g, none);
    CountGrows(none, visited);
    assert !none[s] && visited[s] && a.mask[s];
  }

  lemma Finished(g: Graph, s: int, k: nat, visited: seq<bool>, a: Arrays, before: seq<bool>, steps: nat,
                 levels: seq<seq<bool>>)
    requires Between(g, s, k, false, visited, a, before, steps, levels)
    ensures 1 <= k <= |g.nodes| && Sized(g, visited, a)
    ensures steps == EdgesFrom(g, visited)
    ensures exists v :: 0 <= v < |g.nodes| && a.cost[v] == k - 1
    ensures |levels| == k && forall r, v :: 0 <= r < k && 0 <= v < |g.nodes| ==>
                               |levels[r]| == |g.nodes| && levels[r][v] == (a.cost[v] == r)
    ensures forall v :: 0 <= v < |g.nodes| ==> visited[v] == (a.cost[v] != -1)
    ensures forall v :: 0 <= v < |g.nodes| ==>
              if a.cost[v] == -1 then forall d: nat :: !g.Walk(s, v, d)
              else 0 <= a.cost[v] <= k - 1 && g.Dist(s, v, a.cost[v])
  {
    assert before == visited;
    CountGrows(visited, visited);
    forall v, d: nat | 0 <= v < |g.nodes| && a.cost[v] == -1 ensures !g.Walk(s, v, d) {
      if g.Walk(s, v, d) { NothingBeyond(g, s, k, visited, a, v, d); }
    }
  }

  lemma RoundsLeft(g: Graph, s: int, k: nat, visited: seq<bool>, a: Arrays, before: seq<bool>, steps: nat,
                   levels: seq<seq<bool>>)
    requires Between(g, s, k, true, visited, a, before, steps, levels)
    ensures k < |g.nodes|
  {
    CountGrows(visited, visited);
  }

  /** Both phases of round `k`. */
  method Round(g: Graph, mask: array<bool>, updating: array<bool>, visited: array<bool>, cost: array<int>,
               ghost source: int, ghost k: nat, ghost before: seq<bool>, ghost steps: nat, ghost levels: seq<seq<bool>>)
    returns (stop: bool, ghost before': seq<bool>, ghost steps': nat, ghost levels': seq<seq<bool>>)
    requires mask != updating && mask != visited && updating != visited
    requires Between(g, source, k, true, visited[..], Arrays(mask[..], updating[..], cost[..]), before, steps, levels)
    modifies mask, updating, visited, cost
    ensures Between(g, source, k + 1, stop, visited[..], Arrays(mask[..], updating[..], cost[..]),
                    before', steps', levels')
  {
    hide Promoted, ExpandAll, EdgesFrom;
    ghost var was, a := visited[..], Arrays(mask[..], updating[..], cost[..]);
    steps' := ExpandFrontier(g, mask, updating, visited, cost);
    ghost var b := Arrays(mask[..], updating[..], cost[..]);
    stop := PromoteFrontier(g, mask, updating, visited, cost);
    BetweenKept(g, source, k, was, a, b, visited[..], Arrays(mask[..], updating[..], cost[..]), before, steps, levels);
    before', steps', levels' := was, steps + steps', levels + [a.mask];
  }

  /**
    The whole search.  `k` is the program's own round counter, `steps` the number
    of times the innermost loop body ran, and levels[r] the frontier of round r.
   */
  method RunBfsCpu(g: Graph, mask: array<bool>, updating: array<bool>, visited: array<bool>, cost: array<int>,
                   ghost source: int)
    returns (k: nat, ghost steps: nat, ghost levels: seq<seq<bool>>)
    requires Initial(g, source, visited[..], Arrays(mask[..], updating[..], cost[..]))
    requires mask != updating && mask != visited && updating != visited
    modifies mask, updating, visited, cost
    ensures cost.Length == |g.nodes|
    ensures forall v :: 0 <= v < |g.nodes| ==>
              if cost[v] == -1 then forall d: nat :: !g.Walk(source, v, d)
              else cost[v] >= 0 && g.Dist(source, v, cost[v])
    ensures 1 <= k <= |g.nodes| && |levels| == k
    ensures exists v :: 0 <= v < |g.nodes| && cost[v] == k - 1
    ensures forall v :: 0 <= v < |g.nodes| ==> cost[v] <= k - 1
    ensures forall r, v :: 0 <= r < k && 0 <= v < |g.nodes| ==>
            |levels[r]| == |g.nodes| && levels[r][v] == (cost[v] == r)
    ensures visited.Length == |g.nodes| && (forall v :: 0 <= v < |g.nodes| ==> visited[v] == (cost[v] != -1))
    ensures steps == EdgesFrom(g, visited[..])
  {
    hide Between, EdgesFrom;
    k, steps, levels := 0, 0, [];
    var stop := true;
    ghost var before := seq(|g.nodes|, _ => false);
    BetweenInitially(g, source, visited[..], Arrays(mask[..], updating[..], cost[..]), before);
    while stop
      invariant Between(g, source, k, stop, visited[..], Arrays(mask[..], updating[..], cost[..]),
                        before, steps, levels)
      decreases |g.nodes| - k
    {
      RoundsLeft(g, source, k, visited[..], Arrays(mask[..], updating[..], cost[..]), before, steps, levels);
      stop, before, steps, levels := Round(g, mask, updating, visited, cost, source, k, before, steps, levels);
      k := k + 1;
    }
    Finished(g, source, k, visited[..], Arrays(mask[..], updating[..], cost[..]), before, steps, levels);
  }

  /** Exact distances, -1 being the cost of what cannot be reached. */
  ghost predicate Exact(g: Graph, s: int, cost: seq<int>) {
    && g.WellFormed() && 0 <= s < |g.nodes| == |cost|
    && forall v :: 0 <= v < |cost| ==>
         if cost[v] == -1 then forall d: nat :: !g.Walk(s, v, d) else cost[v] >= 0 && g.Dist(s, v, cost[v])
  }

  /** The same of the raw arrays: the costs start at the source, no entry of a row leads
      past the next level, and some entry leads to each node from the level before. */
  ghost predicate LevelByLevel(g: Graph, s: int, cost: seq<int>) {
    && |g.nodes| == |cost|
    && (forall v :: 0 <= v < |cost| ==> cost[v] >= -1 && (cost[v] == 0 <==> v == s))
    && (forall u :: 0 <= u < |cost| && cost[u] >= 0 ==>
          forall i :: 0 <= i < |g.edges| && g.nodes[u].starting <= i < g.nodes[u].starting + g.nodes[u].noOfEdges ==>
            0 <= g.edges[i] < |cost| && 0 <= cost[g.edges[i]] <= cost[u] + 1)
    && (forall v :: 0 <= v < |cost| && cost[v] > 0 ==>
          exists u, i :: && 0 <= u < |cost| && cost[u] == cost[v] - 1
                         && g.nodes[u].starting <= i < g.nodes[u].starting + g.nodes[u].noOfEdges
                         && 0 <= i < |g.edges| && g.edges[i] == v)
  }

  /** The source is the only start, ... */
  lemma StartLevel(g: Graph, s: int, cost: seq<int>, v: int)
    requires Exact(g, s, cost) && 0 <= v < |cost|
    ensures cost[v] >= -1 && (cost[v] == 0 <==> v == s)
  {
    assert g.Walk(s, s, 0);
  }

  /** ... no edge skips a level, ... */
  lemma NextLevels(g: Graph, s: int, cost: seq<int>, u: int)
    requires Exact(g, s, cost) && 0 <= u < |cost| && cost[u] >= 0
    ensures forall i :: 0 <= i < |g.edges|
                        && g.nodes[u].starting <= i < g.nodes[u].starting + g.nodes[u].noOfEdges ==>
              0 <= g.edges[i] < |cost| && 0 <= cost[g.edges[i]] <= cost[u] + 1
  {
    forall i | 0 <= i < |g.edges| && g.nodes[u].starting <= i < g.nodes[u].starting + g.nodes[u].noOfEdges
      ensures 0 <= g.edges[i] < |cost| && 0 <= cost[g.edges[i]] <= cost[u] + 1
    {
      assert g.Slot(u, i);
      WalkFurther(g, s, u, g.edges[i], cost[u]);
    }
  }

  /** ... and every other level is entered by an edge from the one before. */
  lemma LevelBefore(g: Graph, s: int, cost: seq<int>, v: int) returns (u: int, i: int)
    requires Exact(g, s, cost) && 0 <= v < |cost| && cost[v] > 0
    ensures 0 <= u < |cost| && cost[u] == cost[v] - 1
    ensures g.nodes[u].starting <= i < g.nodes[u].starting + g.nodes[u].noOfEdges
    ensures 0 <= i < |g.edges| && g.edges[i] == v
  {
    var d := cost[v];
    assert g.Walk(s, v, d);
    u :| g.Walk(s, u, d - 1) && g.Edge(u, v);
    i :| 0 <= i < |g.edges| && g.Slot(u, i) && g.edges[i] == v;
    assert cost[u] != -1;
    WalkFurther(g, s, u, v, cost[u]);
  }

  lemma Levels(g: Graph, s: int, cost: seq<int>)
    requires Exact(g, s, cost)
    ensures LevelByLevel(g, s, cost)
  {
    assert |g.nodes| == |cost|;
    hide Exact;
    forall v | 0 <= v < |cost| ensures cost[v] >= -1 && (cost[v] == 0 <==> v == s) {
      StartLevel(g, s, cost, v);
    }
    forall u | 0 <= u < |cost| && cost[u] >= 0
      ensures forall i :: 0 <= i < |g.edges|
                          && g.nodes[u].starting <= i < g.nodes[u].starting + g.nodes[u].noOfEdges ==>
                0 <= g.edges[i] < |cost| && 0 <= cost[g.edges[i]] <= cost[u] + 1
    {
      NextLevels(g, s, cost, u);
    }
    forall v | 0 <= v < |cost| && cost[v] > 0
      ensures exists u, i :: && 0 <= u < |cost| && cost[u] == cost[v] - 1
                             && g.nodes[u].starting <= i < g.nodes[u].starting + g.nodes[u].noOfEdges
                             && 0 <= i < |g.edges| && g.edges[i] == v
    {
      var u, i := LevelBefore(g, s, cost, v);
    }
  }

  /** main's CPU reference: from any well-formed graph to exact distances. */
  method RunFromSource(g: Graph, source: int) returns (cost: array<int>)
    requires g.WellFormed() && 0 <= source < |g.nodes|
    ensures fresh(cost) && cost.Length == |g.nodes|
    ensures forall v :: 0 <= v < |g.nodes| ==>
              if cost[v] == -1 then forall d: nat :: !g.Walk(source, v, d)
              else cost[v] >= 0 && g.Dist(source, v, cost[v])
    ensures LevelByLevel(g, source, cost[..])
  {
    var n := |g.nodes|;
    var mask, updating, visited := new bool[n], new bool[n], new bool[n];
    cost := new int[n];
    Prepare(n, mask, updating, visited, cost, source);
    var k, steps, levels := RunBfsCpu(g, mask, updating, visited, cost, source);
    assert Exact(g, source, cost[..]);
    hide *;
    Levels(g, source, cost[..]);
  }
}
