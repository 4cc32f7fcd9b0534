/**
  The first phase of a round of run_bfs_cpu as a function of the order in which
  the nodes are taken -- and the proof that the order does not matter.
 */
module BfsPhase {
  import opened Graphs

  /** The arrays that the phase writes. */
  datatype Arrays = Arrays(mask: seq<bool>, updating: seq<bool>, cost: seq<int>)

  ghost predicate Sized(g: Graph, visited: seq<bool>, a: Arrays) {
    |visited| == |a.mask| == |a.updating| == |a.cost| == |g.nodes|
  }

  ghost predicate InGraph(g: Graph, order: seq<int>) {
    forall k :: 0 <= k < |order| ==> 0 <= order[k] < |g.nodes|
  }

  function VisitSlot(g: Graph, visited: seq<bool>, u: int, a: Arrays, i: int): (r: Arrays)
    requires g.WellFormed() && Sized(g, visited, a) && 0 <= u < |g.nodes| && g.Slot(u, i)
    ensures Sized(g, visited, r)
  {
    var id := g.edges[i];
    if visited[id] then a
    else a.(cost := a.cost[id := a.cost[u] + 1], updating := a.updating[id := true])
  }

  /** The first `k` edges of node `u`. */
  function VisitSlots(g: Graph, visited: seq<bool>, u: int, a: Arrays, k: nat): (r: Arrays)
    requires g.WellFormed() && Sized(g, visited, a) && 0 <= u < |g.nodes| && k <= g.Degree(u)
    ensures Sized(g, visited, r)
  {
    if k == 0 then a
    else VisitSlot(g, visited, u, VisitSlots(g, visited, u, a, k - 1), g.nodes[u].starting + k - 1)
  }

  function ExpandNode(g: Graph, visited: seq<bool>, u: int, a: Arrays): (r: Arrays)
    requires g.WellFormed() && Sized(g, visited, a) && 0 <= u < |g.nodes|
    ensures Sized(g, visited, r)
  {
    if a.mask[u] then VisitSlots(g, visited, u, a.(mask := a.mask[u := false]), g.Degree(u)) else a
  }

  function ExpandAll(g: Graph, visited: seq<bool>, order: seq<int>, a: Arrays): (r: Arrays)
    requires g.WellFormed() && Sized(g, visited, a)
    requires InGraph(g, order)
    ensures Sized(g, visited, r)
  {
    if order == [] then a
    else ExpandNode(g, visited, order[|order| - 1], ExpandAll(g, visited, order[..|order| - 1], a))
  }

  // ---------- the closed form ----------

  /** An unvisited node next to a frontier node among `s`. */
  ghost predicate Hit(g: Graph, visited: seq<bool>, mask: seq<bool>, s: set<int>, v: int)
    requires |visited| == |mask| == |g.nodes| && 0 <= v < |g.nodes|
  {
    !visited[v] && exists u :: u in s && 0 <= u < |mask| && mask[u] && g.Edge(u, v)
  }

  /** All frontier nodes are visited and have the cost `level`. */
  ghost predicate Frontier(g: Graph, visited: seq<bool>, a: Arrays, level: int) {
    Sized(g, visited, a) && forall u :: 0 <= u < |a.mask| && a.mask[u] ==> visited[u] && a.cost[u] == level
  }

  /** `r` is what `a` becomes when exactly the nodes `s` have been expanded. */
  ghost predicate Expanded(g: Graph, visited: seq<bool>, s: set<int>, a: Arrays, level: int, r: Arrays) {
    && Sized(g, visited, a) && Sized(g, visited, r)
    && (forall v :: 0 <= v < |g.nodes| ==> r.mask[v] == (a.mask[v] && v !in s))
    && (forall v :: 0 <= v < |g.nodes| ==> r.updating[v] == (a.updating[v] || Hit(g, visited, a.mask, s, v)))
    && (forall v :: 0 <= v < |g.nodes| ==> r.cost[v] == if Hit(g, visited, a.mask, s, v) then level + 1 else a.cost[v])
  }

  /** `v` is at the end of one of the first `k` edges of `u`. */
  ghost predicate Among(g: Graph, u: int, k: nat, v: int)
    requires g.WellFormed() && 0 <= u < |g.nodes| && k <= g.Degree(u)
  {
    exists j :: 0 <= j < |g.edges| && g.nodes[u].starting <= j < g.nodes[u].starting + k && g.edges[j] == v
  }

  lemma AmongAll(g: Graph, u: int, v: int)
    requires g.WellFormed() && 0 <= u < |g.nodes|
    ensures Among(g, u, g.Degree(u), v) <==> g.Edge(u, v)
  {
  }

  lemma {:induction false} VisitSlotsClosed(g: Graph, visited: seq<bool>, u: int, a: Arrays, k: nat)
    requires g.WellFormed() && Sized(g, visited, a) && 0 <= u < |g.nodes| && k <= g.Degree(u)
    requires visited[u]
    ensures var r := VisitSlots(g, visited, u, a, k);
            && r.mask == a.mask
            && (forall v :: 0 <= v < |g.nodes| ==>
              r.updating[v] == (a.updating[v] || (!visited[v] && Among(g, u, k, v))))
            && (forall v :: 0 <= v < |g.nodes| ==>
              r.cost[v] == if !visited[v] && Among(g, u, k, v) then a.cost[u] + 1 else a.cost[v])
  {
    if k > 0 {
      VisitSlotsClosed(g, visited, u, a, k - 1);
      var i := g.nodes[u].starting + k - 1;
      assert g.Slot(u, i);
      forall v ensures Among(g, u, k, v) <==> Among(g, u, k - 1, v) || g.edges[i] == v {
      }
    }
  }

  lemma ExpandNodeClosed(g: Graph, visited: seq<bool>, s: set<int>, a: Arrays, level: int, u: int, r: Arrays)
    requires g.WellFormed() && Frontier(g, visited, a, level) && 0 <= u < |g.nodes|
    requires Expanded(g, visited, s, a, level, r)
    ensures Expanded(g, visited, s + {u}, a, level, ExpandNode(g, visited, u, r))
  {
    if r.mask[u] {
      VisitSlotsClosed(g, visited, u, r.(mask := r.mask[u := false]), g.Degree(u));
      forall v | 0 <= v < |g.nodes|
        ensures Hit(g, visited, a.mask, s + {u}, v) <==>
                Hit(g, visited, a.mask, s, v) || (!visited[v] && Among(g, u, g.Degree(u), v))
      {
        AmongAll(g, u, v);
      }
    } else {
      forall v | 0 <= v < |g.nodes|
        ensures Hit(g, visited, a.mask, s + {u}, v) <==> Hit(g, visited, a.mask, s, v)
      {
      }
    }
  }

  function Nodes(order: seq<int>): set<int> {
    set u | u in order
  }

  lemma {:induction false} ExpandAllClosed(g: Graph, visited: seq<bool>, order: seq<int>, a: Arrays, level: int)
    requires g.WellFormed() && Frontier(g, visited, a, level)
    requires InGraph(g, order)
    ensures Expanded(g, visited, Nodes(order), a, level, ExpandAll(g, visited, order, a))
  {
    if order != [] {
      var init, u := order[..|order| - 1], order[|order| - 1];
      ExpandAllClosed(g, visited, init, a, level);
      ExpandNodeClosed(g, visited, Nodes(init), a, level, u, ExpandAll(g, visited, init, a));
      assert order == init + [u];
      assert Nodes(order) == Nodes(init) + {u};
    }
  }

  /** Any two orders over the same nodes -- a permutation, or even one that takes
      some node again -- leave identical arrays. */
  lemma OrderIrrelevant(g: Graph, visited: seq<bool>, order: seq<int>, order': seq<int>, a: Arrays, level: int)
    requires g.WellFormed() && Frontier(g, visited, a, level)
    requires InGraph(g, order)
    requires InGraph(g, order') && Nodes(order) == Nodes(order')
    ensures ExpandAll(g, visited, order, a) == ExpandAll(g, visited, order', a)
  {
    ExpandAllClosed(g, visited, order, a, level);
    ExpandAllClosed(g, visited, order', a, level);
    var r, r' := ExpandAll(g, visited, order, a), ExpandAll(g, visited, order', a);
    assert r.mask == r'.mask && r.updating == r'.updating && r.cost == r'.cost;
  }
}
