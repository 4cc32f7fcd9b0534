/** The graph of bfs.cpp, in compressed rows, and distances in it. */
module Graphs {
  datatype Node = Node(starting: int, noOfEdges: int)

  datatype Graph = Graph(nodes: seq<Node>, edges: seq<int>) {
    /** Index `i` of the edge list belongs to node `u`. */
    predicate Slot(u: int, i: int)
      requires 0 <= u < |nodes|
    {
      nodes[u].starting <= i < nodes[u].noOfEdges + nodes[u].starting
    }

    /** Every row lies in the edge list and leads to nodes of the graph. */
    ghost predicate WellFormed() {
      forall u, i :: 0 <= u < |nodes| && Slot(u, i) ==> 0 <= i < |edges| && 0 <= edges[i] < |nodes|
    }

    ghost predicate Edge(u: int, v: int) {
      0 <= u < |nodes| && exists i :: 0 <= i < |edges| && Slot(u, i) && edges[i] == v
    }

    function Degree(u: int): nat
      requires 0 <= u < |nodes|
    {
      if nodes[u].noOfEdges > 0 then nodes[u].noOfEdges else 0
    }

    /** There is a walk of exactly `k` edges from `s` to `v`. */
    ghost predicate Walk(s: int, v: int, k: nat)
      decreases k
    {
      if k == 0 then s == v
      else exists u :: Walk(s, u, k - 1) && Edge(u, v)
    }

    /** `d` is the length of a shortest walk from `s` to `v`. */
    ghost predicate Dist(s: int, v: int, d: nat) {
      Walk(s, v, d) && forall k: nat :: k < d ==> !Walk(s, v, k)
    }

    /** The same notion as explicit node sequences. */
    ghost predicate Path(p: seq<int>, s: int, v: int) {
      && p != [] && p[0] == s && p[|p| - 1] == v
      && forall i {:trigger p[i]} :: 0 <= i < |p| - 1 ==> Edge(p[i], p[i + 1])
    }

    lemma {:induction false} PathOfWalk(s: int, v: int, k: nat) returns (p: seq<int>)
      requires Walk(s, v, k)
      ensures Path(p, s, v) && |p| == k + 1
      decreases k
    {
      if k == 0 {
        p := [s];
      } else {
        var u :| Walk(s, u, k - 1) && Edge(u, v);
        var q := PathOfWalk(s, u, k - 1);
        p := q + [v];
      }
    }

    lemma {:induction false} WalkOfPath(p: seq<int>, s: int, v: int)
      requires Path(p, s, v)
      ensures Walk(s, v, |p| - 1)
      decreases |p|
    {
      if |p| > 1 {
        var q := p[..|p| - 1];
        assert p[|p| - 2] == q[|q| - 1];
        WalkOfPath(q, s, q[|q| - 1]);
      }
    }

    /** A distance is the edge count of a path that no other path undercuts. */
    lemma DistIsShortestPath(s: int, v: int, d: nat)
      ensures Dist(s, v, d) <==>
              (exists p :: Path(p, s, v) && |p| == d + 1) && (forall p :: Path(p, s, v) ==> |p| >= d + 1)
    {
      forall p | Path(p, s, v) ensures Walk(s, v, |p| - 1) {
        WalkOfPath(p, s, v);
      }
      forall k: nat | Walk(s, v, k) ensures exists p :: Path(p, s, v) && |p| == k + 1 {
        var p := PathOfWalk(s, v, k);
      }
    }
  }
}
