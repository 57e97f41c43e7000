/** What a route is in the graph store: a sequence of valid nodes in which
    every consecutive pair is joined by an edge of positive weight. Cells
    holding 0 or a negative number are never traversed. */
module Paths {
  import opened Network

  /** An edge that routing may use: both endpoints valid, weight positive. */
  predicate Edge(net: NetworkTopology, u: int, v: int)
    reads net, net.graph
    requires net.Valid()
  {
    net.IsValidNode(u) && net.IsValidNode(v) && net.graph[u, v] > 0
  }

  ghost predicate IsPath(net: NetworkTopology, p: seq<int>)
    reads net, net.graph
    requires net.Valid()
  {
    && |p| >= 1
    && (forall i :: 0 <= i < |p| ==> net.IsValidNode(p[i]))
    && (forall i :: 0 <= i < |p| - 1 ==> Edge(net, p[i], p[i + 1]))
  }

  ghost predicate IsPathBetween(net: NetworkTopology, p: seq<int>, source: int, destination: int)
    reads net, net.graph
    requires net.Valid()
  {
    IsPath(net, p) && p[0] == source && p[|p| - 1] == destination
  }

  /** The total weight of a path: the sum of the weights of its edges. */
  ghost function Cost(net: NetworkTopology, p: seq<int>): int
    reads net, net.graph
    requires net.Valid() && IsPath(net, p)
    decreases |p|
  {
    if |p| == 1 then 0
    else Cost(net, p[..|p| - 1]) + net.graph[p[|p| - 2], p[|p| - 1]]
  }

  ghost predicate Reachable(net: NetworkTopology, source: int, destination: int)
    reads net, net.graph
    requires net.Valid()
  {
    exists p :: IsPathBetween(net, p, source, destination)
  }

  /** No node occurs twice. */
  predicate Distinct(p: seq<int>)
  {
    forall i, j :: 0 <= i < j < |p| ==> p[i] != p[j]
  }

  /** Weights are positive, so a path costs nothing exactly when it has no edge. */
  lemma {:induction false} CostSign(net: NetworkTopology, p: seq<int>)
    requires net.Valid() && IsPath(net, p)
    ensures Cost(net, p) >= 0
    ensures Cost(net, p) == 0 <==> |p| == 1
    decreases |p|
  {
    if |p| > 1 {
      CostSign(net, p[..|p| - 1]);
    }
  }

  /** A path that ends at v extends by an edge v -> w, at the cost of that edge. */
  lemma ExtendPath(net: NetworkTopology, p: seq<int>, w: int)
    requires net.Valid() && IsPath(net, p) && Edge(net, p[|p| - 1], w)
    ensures IsPath(net, p + [w])
    ensures Cost(net, p + [w]) == Cost(net, p) + net.graph[p[|p| - 1], w]
  {
    var q := p + [w];
    assert q[..|q| - 1] == p;
    assert forall i :: 0 <= i < |p| ==> q[i] == p[i];
  }

  /** A potential phi that no edge can undercut (phi[v] <= phi[u] + weight of
      u -> v) bounds the cost of every path from below by the difference of
      the potentials of its ends; a path that meets the bound uses only edges
      that are tight for phi. */
  lemma {:induction false} PotentialBound(net: NetworkTopology, phi: seq<int>, p: seq<int>)
    requires net.Valid() && |phi| == net.nodeCount && IsPath(net, p)
    requires forall u, v :: 0 <= u < |phi| && 0 <= v < |phi| && net.graph[u, v] > 0 ==> phi[v] <= phi[u] + net.graph[u, v]
    ensures Cost(net, p) >= phi[p[|p| - 1]] - phi[p[0]]
    ensures Cost(net, p) == phi[p[|p| - 1]] - phi[p[0]] ==>
              forall i :: 0 <= i < |p| - 1 ==> phi[p[i + 1]] == phi[p[i]] + net.graph[p[i], p[i + 1]]
    decreases |p|
  {
    if |p| > 1 {
      var q := p[..|p| - 1];
      PotentialBound(net, phi, q);
      assert Edge(net, p[|p| - 2], p[|p| - 1]);
      if Cost(net, p) == phi[p[|p| - 1]] - phi[p[0]] {
        forall i | 0 <= i < |p| - 1
          ensures phi[p[i + 1]] == phi[p[i]] + net.graph[p[i], p[i + 1]]
        {
          if i < |p| - 2 {
            assert p[i] == q[i] && p[i + 1] == q[i + 1];
          }
        }
      }
    }
  }

  /** Pigeonhole: a path without repeated nodes visits at most nodeCount nodes. */
  lemma {:induction false} DistinctBound(p: seq<int>, n: int)
    requires Distinct(p)
    requires forall i :: 0 <= i < |p| ==> 0 <= p[i] < n
    ensures |p| <= if n < 0 then 0 else n
    decreases if n < 0 then 0 else n
  {
    if |p| > 0 {
      assert 0 <= p[0] < n;
      if k :| 0 <= k < |p| && p[k] == n - 1 {
        var rest := p[..k] + p[k + 1..];
        assert forall i :: 0 <= i < |rest| ==> rest[i] == if i < k then p[i] else p[i + 1];
        DistinctBound(rest, n - 1);
      } else {
        DistinctBound(p, n - 1);
      }
    }
  }
}
