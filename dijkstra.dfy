/** The shortest-path engine: the O(n^2) form of Dijkstra's algorithm over the
    positive-weight edges of the graph store, stopping as soon as the
    destination is the nearest unvisited node, and rebuilding the route by
    walking predecessor links back from the destination. */
module ShortestPath {
  import opened Network
  import opened Paths

  /** Stands for the C code's INT_MAX distance, "not reached yet"; every real
      distance is at least 0. */
  const UNREACHED: int := -1

  /** How many nodes are marked visited. */
  function NumVisited(visited: seq<bool>): (k: nat)
    ensures k <= |visited|
  {
    if visited == [] then 0
    else NumVisited(visited[..|visited| - 1]) + (if visited[|visited| - 1] then 1 else 0)
  }

  lemma {:induction false} NumVisitedNone(visited: seq<bool>)
    requires forall v :: 0 <= v < |visited| ==> !visited[v]
    ensures NumVisited(visited) == 0
    decreases |visited|
  {
    if visited != [] {
      NumVisitedNone(visited[..|visited| - 1]);
    }
  }

  lemma {:induction false} NumVisitedMark(visited: seq<bool>, u: int)
    requires 0 <= u < |visited| && !visited[u]
    ensures NumVisited(visited[u := true]) == NumVisited(visited) + 1
    decreases |visited|
  {
    var n := |visited|;
    if u == n - 1 {
      assert visited[u := true][..n - 1] == visited[..n - 1];
    } else {
      NumVisitedMark(visited[..n - 1], u);
      assert visited[u := true][..n - 1] == visited[..n - 1][u := true];
    }
  }

  /** While some node is unvisited, fewer than all nodes are visited. */
  lemma {:induction false} NumVisitedMissing(visited: seq<bool>, d: int)
    requires 0 <= d < |visited| && !visited[d]
    ensures NumVisited(visited) < |visited|
    decreases |visited|
  {
    if d < |visited| - 1 {
      NumVisitedMissing(visited[..|visited| - 1], d);
    }
  }

  // ---------------------------------------------------------------------
  // The state of the algorithm, over snapshots of its dist, prev and
  // visited arrays.

  ghost predicate Shape(net: NetworkTopology, source: int, destination: int,
                        dist: seq<int>, prev: seq<int>, visited: seq<bool>)
    reads net
  {
    && net.Valid()
    && |dist| == net.nodeCount && |prev| == |dist| && |visited| == |dist|
    && 0 <= source < |dist| && 0 <= destination < |dist|
  }

  /** Every reached node other than the source hangs off a visited
      predecessor by an edge that accounts for the difference of distances. */
  ghost predicate PrevLinks(net: NetworkTopology, source: int, dist: seq<int>, prev: seq<int>, visited: seq<bool>)
    reads net, net.graph
    requires net.Valid() && |dist| == net.nodeCount && |prev| == |dist| && |visited| == |dist|
  {
    forall v {:trigger prev[v]} :: 0 <= v < |dist| && dist[v] >= 0 && v != source ==>
      && 0 <= prev[v] < |dist| && visited[prev[v]]
      && net.graph[prev[v], v] > 0
      && dist[v] == dist[prev[v]] + net.graph[prev[v], v]
  }

  /** No edge out of a visited node leads to a node that is unreached or
      farther than the edge allows. */
  ghost predicate Triangle(net: NetworkTopology, dist: seq<int>, visited: seq<bool>)
    reads net, net.graph
    requires net.Valid() && |dist| == net.nodeCount && |visited| == |dist|
  {
    forall x, y :: 0 <= x < |dist| && 0 <= y < |dist| && visited[x] && net.graph[x, y] > 0 ==>
      0 <= dist[y] <= dist[x] + net.graph[x, y]
  }

  /** Nodes are visited in order of distance. */
  ghost predicate VisitedFirst(dist: seq<int>, visited: seq<bool>)
    requires |visited| == |dist|
  {
    forall x, y :: 0 <= x < |dist| && 0 <= y < |dist| && visited[x] && !visited[y] && dist[y] >= 0 ==>
      dist[x] <= dist[y]
  }

  ghost predicate Inv(net: NetworkTopology, source: int, destination: int,
                      dist: seq<int>, prev: seq<int>, visited: seq<bool>)
    reads net, net.graph
  {
    && Shape(net, source, destination, dist, prev, visited)
    && (forall v :: 0 <= v < |dist| ==> dist[v] == UNREACHED || dist[v] >= 0)
    && dist[source] == 0
    && (forall v :: 0 <= v < |dist| && visited[v] ==> dist[v] >= 0)
    && Triangle(net, dist, visited)
    && VisitedFirst(dist, visited)
    && PrevLinks(net, source, dist, prev, visited)
    && !visited[destination]
    && (visited[source] || forall v :: 0 <= v < |dist| && dist[v] >= 0 ==> v == source)
  }

  /** What one pass of the relaxation loop does for the node u just visited. */
  ghost predicate Relaxed(net: NetworkTopology, u: int, visited: seq<bool>,
                          dist0: seq<int>, prev0: seq<int>, dist1: seq<int>, prev1: seq<int>)
    reads net, net.graph
    requires net.Valid() && |dist0| == net.nodeCount && 0 <= u < |dist0|
    requires |visited| == |dist0| && |prev0| == |dist0| && |dist1| == |dist0| && |prev1| == |dist0|
  {
    forall v :: 0 <= v < |dist0| ==>
      if net.graph[u, v] > 0 && !visited[v] && dist0[u] != UNREACHED &&
         (dist0[v] == UNREACHED || dist0[u] + net.graph[u, v] < dist0[v])
      then dist1[v] == dist0[u] + net.graph[u, v] && prev1[v] == u
      else dist1[v] == dist0[v] && prev1[v] == prev0[v]
  }

  // ---------------------------------------------------------------------
  // Why the algorithm is right.

  /** Pointwise effect of a round: visited nodes keep their distance and
      predecessor, reached nodes stay reached and only get closer, and no
      unvisited node ends up closer than the node u just visited. */
  lemma RoundPointwise(net: NetworkTopology, source: int, destination: int,
                       dist0: seq<int>, prev0: seq<int>, visited0: seq<bool>, u: int,
                       dist1: seq<int>, prev1: seq<int>, v: int)
    requires Inv(net, source, destination, dist0, prev0, visited0)
    requires 0 <= u < |dist0| && !visited0[u] && dist0[u] >= 0
    requires forall y :: 0 <= y < |dist0| && !visited0[y] && dist0[y] >= 0 ==> dist0[u] <= dist0[y]
    requires |dist1| == |dist0| && |prev1| == |dist0|
    requires Relaxed(net, u, visited0[u := true], dist0, prev0, dist1, prev1)
    requires 0 <= v < |dist0|
    ensures visited0[u := true][v] ==> dist1[v] == dist0[v] && prev1[v] == prev0[v]
    ensures dist1[v] == UNREACHED || dist1[v] >= 0
    ensures dist0[v] >= 0 ==> 0 <= dist1[v] <= dist0[v]
    ensures !visited0[u := true][v] && dist1[v] >= 0 ==> dist0[u] <= dist1[v]
    ensures net.graph[u, v] > 0 ==> 0 <= dist1[v] <= dist0[u] + net.graph[u, v] || visited0[v]
    ensures dist1[v] >= 0 && dist0[v] < 0 ==> prev1[v] == u && dist1[v] == dist0[u] + net.graph[u, v] && net.graph[u, v] > 0
    ensures dist1[v] != dist0[v] ==> prev1[v] == u && dist1[v] == dist0[u] + net.graph[u, v] && net.graph[u, v] > 0
    ensures dist1[v] == dist0[v] ==> prev1[v] == prev0[v]
  {
  }

  /** The pointwise effect of a round, for every node. */
  ghost predicate RoundEffect(net: NetworkTopology, u: int, visited0: seq<bool>,
                              dist0: seq<int>, prev0: seq<int>, dist1: seq<int>, prev1: seq<int>)
    reads net, net.graph
    requires net.Valid() && |dist0| == net.nodeCount && 0 <= u < |dist0|
    requires |visited0| == |dist0| && |prev0| == |dist0| && |dist1| == |dist0| && |prev1| == |dist0|
  {
    forall v :: 0 <= v < |dist0| ==>
      && (visited0[u := true][v] ==> dist1[v] == dist0[v] && prev1[v] == prev0[v])
      && (dist1[v] == UNREACHED || dist1[v] >= 0)
      && (dist0[v] >= 0 ==> 0 <= dist1[v] <= dist0[v])
      && (!visited0[u := true][v] && dist1[v] >= 0 ==> dist0[u] <= dist1[v])
      && (net.graph[u, v] > 0 ==> 0 <= dist1[v] <= dist0[u] + net.graph[u, v] || visited0[v])
      && (dist1[v] != dist0[v] ==> prev1[v] == u && dist1[v] == dist0[u] + net.graph[u, v] && net.graph[u, v] > 0)
      && (dist1[v] == dist0[v] ==> prev1[v] == prev0[v])
  }

  lemma RoundTriangle(net: NetworkTopology, u: int, visited0: seq<bool>,
                      dist0: seq<int>, prev0: seq<int>, dist1: seq<int>, prev1: seq<int>)
    requires net.Valid() && |dist0| == net.nodeCount && 0 <= u < |dist0|
    requires |visited0| == |dist0| && |prev0| == |dist0| && |dist1| == |dist0| && |prev1| == |dist0|
    requires RoundEffect(net, u, visited0, dist0, prev0, dist1, prev1)
    requires Triangle(net, dist0, visited0) && VisitedFirst(dist0, visited0)
    requires forall v :: 0 <= v < |dist0| && visited0[v] ==> dist0[v] >= 0
    requires !visited0[u] && dist0[u] >= 0
    ensures Triangle(net, dist1, visited0[u := true])
  {
    var visited1 := visited0[u := true];
    var n := |dist0|;
    forall x, y | 0 <= x < n && 0 <= y < n && visited1[x] && net.graph[x, y] > 0
      ensures 0 <= dist1[y] <= dist1[x] + net.graph[x, y]
    {
      if x == u {
        if visited0[y] {
          assert dist1[y] == dist0[y] <= dist0[u];
        }
      } else {
        assert 0 <= dist0[y] <= dist0[x] + net.graph[x, y];
      }
    }
  }

  lemma RoundVisitedFirst(net: NetworkTopology, u: int, visited0: seq<bool>,
                          dist0: seq<int>, prev0: seq<int>, dist1: seq<int>, prev1: seq<int>)
    requires net.Valid() && |dist0| == net.nodeCount && 0 <= u < |dist0|
    requires |visited0| == |dist0| && |prev0| == |dist0| && |dist1| == |dist0| && |prev1| == |dist0|
    requires RoundEffect(net, u, visited0, dist0, prev0, dist1, prev1)
    requires VisitedFirst(dist0, visited0)
    requires !visited0[u] && dist0[u] >= 0
    ensures VisitedFirst(dist1, visited0[u := true])
  {
    var visited1 := visited0[u := true];
    var n := |dist0|;
    forall x, y | 0 <= x < n && 0 <= y < n && visited1[x] && !visited1[y] && dist1[y] >= 0
      ensures dist1[x] <= dist1[y]
    {
      if x != u {
        assert dist0[x] <= dist0[u];
      }
    }
  }

  lemma RoundPrevLinks(net: NetworkTopology, source: int, u: int, visited0: seq<bool>,
                       dist0: seq<int>, prev0: seq<int>, dist1: seq<int>, prev1: seq<int>)
    requires net.Valid() && |dist0| == net.nodeCount && 0 <= u < |dist0|
    requires |visited0| == |dist0| && |prev0| == |dist0| && |dist1| == |dist0| && |prev1| == |dist0|
    requires RoundEffect(net, u, visited0, dist0, prev0, dist1, prev1)
    requires PrevLinks(net, source, dist0, prev0, visited0)
    ensures PrevLinks(net, source, dist1, prev1, visited0[u := true])
  {
    var visited1 := visited0[u := true];
    var n := |dist0|;
    forall v {:trigger prev1[v]} | 0 <= v < n && dist1[v] >= 0 && v != source
      ensures 0 <= prev1[v] < n && visited1[prev1[v]] && net.graph[prev1[v], v] > 0
      ensures dist1[v] == dist1[prev1[v]] + net.graph[prev1[v], v]
    {
      if dist1[v] == dist0[v] {
        assert visited0[prev0[v]];
      }
    }
  }

  /** The state after initialisation, with only the source reached and at
      distance 0 and nothing visited, satisfies the invariant. */
  lemma InitialInv(net: NetworkTopology, source: int, destination: int,
                   dist: seq<int>, prev: seq<int>, visited: seq<bool>)
    requires Shape(net, source, destination, dist, prev, visited)
    requires forall v :: 0 <= v < |dist| ==> dist[v] == (if v == source then 0 else UNREACHED) && !visited[v]
    ensures Inv(net, source, destination, dist, prev, visited) && NumVisited(visited) == 0
  {
    NumVisitedNone(visited);
  }

  /** Visiting the nearest unvisited node u and relaxing its edges keeps the
      invariant. */
  lemma RoundKeepsInv(net: NetworkTopology, source: int, destination: int,
                      dist0: seq<int>, prev0: seq<int>, visited0: seq<bool>, u: int,
                      dist1: seq<int>, prev1: seq<int>)
    requires Inv(net, source, destination, dist0, prev0, visited0)
    requires 0 <= u < |dist0| && !visited0[u] && dist0[u] >= 0 && u != destination
    requires forall y :: 0 <= y < |dist0| && !visited0[y] && dist0[y] >= 0 ==> dist0[u] <= dist0[y]
    requires |dist1| == |dist0| && |prev1| == |dist0|
    requires Relaxed(net, u, visited0[u := true], dist0, prev0, dist1, prev1)
    ensures Inv(net, source, destination, dist1, prev1, visited0[u := true])
  {
    forall v | 0 <= v < |dist0|
      ensures visited0[u := true][v] ==> dist1[v] == dist0[v] && prev1[v] == prev0[v]
      ensures dist1[v] == UNREACHED || dist1[v] >= 0
      ensures dist0[v] >= 0 ==> 0 <= dist1[v] <= dist0[v]
      ensures !visited0[u := true][v] && dist1[v] >= 0 ==> dist0[u] <= dist1[v]
      ensures net.graph[u, v] > 0 ==> 0 <= dist1[v] <= dist0[u] + net.graph[u, v] || visited0[v]
      ensures dist1[v] != dist0[v] ==> prev1[v] == u && dist1[v] == dist0[u] + net.graph[u, v] && net.graph[u, v] > 0
      ensures dist1[v] == dist0[v] ==> prev1[v] == prev0[v]
    {
      RoundPointwise(net, source, destination, dist0, prev0, visited0, u, dist1, prev1, v);
    }
    assert RoundEffect(net, u, visited0, dist0, prev0, dist1, prev1);
    RoundTriangle(net, u, visited0, dist0, prev0, dist1, prev1);
    RoundVisitedFirst(net, u, visited0, dist0, prev0, dist1, prev1);
    RoundPrevLinks(net, source, u, visited0, dist0, prev0, dist1, prev1);
  }

  /** Dijkstra's argument: once the source is visited, a path from it either
      stays among visited nodes and costs at least the distance recorded for
      its end, or it costs at least the distance of the nearest unvisited node. */
  lemma {:induction false} LeavingCostsAtLeastMin(net: NetworkTopology, source: int, destination: int,
                                                  dist: seq<int>, prev: seq<int>, visited: seq<bool>,
                                                  m: int, q: seq<int>)
    requires Inv(net, source, destination, dist, prev, visited) && visited[source]
    requires 0 <= m < |dist| && !visited[m] && dist[m] >= 0
    requires forall y :: 0 <= y < |dist| && !visited[y] && dist[y] >= 0 ==> dist[m] <= dist[y]
    requires IsPath(net, q) && q[0] == source
    ensures || Cost(net, q) >= dist[m]
            || ((forall i :: 0 <= i < |q| ==> visited[q[i]]) && Cost(net, q) >= dist[q[|q| - 1]])
    decreases |q|
  {
    if |q| > 1 {
      var q' := q[..|q| - 1];
      LeavingCostsAtLeastMin(net, source, destination, dist, prev, visited, m, q');
      var x, y := q[|q| - 2], q[|q| - 1];
      assert Edge(net, x, y);
      assert Cost(net, q) == Cost(net, q') + net.graph[x, y];
      if Cost(net, q') < dist[m] {
        assert visited[x] && Cost(net, q') >= dist[x] by {
          assert q'[|q'| - 1] == x;
        }
        if visited[y] {
          assert forall i :: 0 <= i < |q| ==> visited[q[i]] by {
            assert forall i :: 0 <= i < |q'| ==> q[i] == q'[i];
          }
        }
      }
    }
  }

  /** When the destination is the nearest unvisited node, its recorded
      distance is a lower bound on the cost of every path to it. */
  lemma SettledIsOptimal(net: NetworkTopology, source: int, destination: int,
                         dist: seq<int>, prev: seq<int>, visited: seq<bool>, q: seq<int>)
    requires Inv(net, source, destination, dist, prev, visited) && dist[destination] >= 0
    requires forall y :: 0 <= y < |dist| && !visited[y] && dist[y] >= 0 ==> dist[destination] <= dist[y]
    requires IsPathBetween(net, q, source, destination)
    ensures Cost(net, q) >= dist[destination]
  {
    CostSign(net, q);
    if visited[source] {
      LeavingCostsAtLeastMin(net, source, destination, dist, prev, visited, destination, q);
    }
  }

  /** Once the source is visited and every unvisited node is unreached, every
      path from the source stays among visited nodes. */
  lemma {:induction false} StaysVisited(net: NetworkTopology, source: int, destination: int,
                                        dist: seq<int>, prev: seq<int>, visited: seq<bool>, q: seq<int>)
    requires Inv(net, source, destination, dist, prev, visited) && visited[source]
    requires forall y :: 0 <= y < |dist| && !visited[y] ==> dist[y] < 0
    requires IsPath(net, q) && q[0] == source
    ensures forall i :: 0 <= i < |q| ==> visited[q[i]]
    ensures visited[q[|q| - 1]]
    decreases |q|
  {
    if |q| > 1 {
      var q' := q[..|q| - 1];
      StaysVisited(net, source, destination, dist, prev, visited, q');
      assert Edge(net, q[|q| - 2], q[|q| - 1]);
      assert q'[|q'| - 1] == q[|q| - 2];
      assert forall i :: 0 <= i < |q'| ==> q[i] == q'[i];
    }
  }

  /** When no unvisited node is reached, the destination (never visited) cannot
      be reached at all. */
  lemma ClosedUnreachable(net: NetworkTopology, source: int, destination: int,
                          dist: seq<int>, prev: seq<int>, visited: seq<bool>)
    requires Inv(net, source, destination, dist, prev, visited)
    requires forall y :: 0 <= y < |dist| && !visited[y] ==> dist[y] < 0
    ensures !Reachable(net, source, destination)
  {
    if Reachable(net, source, destination) {
      var q :| IsPathBetween(net, q, source, destination);
      StaysVisited(net, source, destination, dist, prev, visited, q);
      assert false;
    }
  }

  /** What the predecessor walk needs: the source at distance 0, visited nodes
      reached, and the links of PrevLinks. */
  ghost predicate WalkReady(net: NetworkTopology, source: int, dist: seq<int>, prev: seq<int>, visited: seq<bool>)
    reads net, net.graph
    requires net.Valid() && |dist| == net.nodeCount && |prev| == |dist| && |visited| == |dist|
  {
    && 0 <= source < |dist| && dist[source] == 0
    && (forall v :: 0 <= v < |dist| && visited[v] ==> dist[v] >= 0)
    && PrevLinks(net, source, dist, prev, visited)
  }

  /** The nodes met when following prev from v back to the source, in path
      order. It ends because every link strictly lowers the distance. */
  ghost function Walk(net: NetworkTopology, source: int, dist: seq<int>, prev: seq<int>, visited: seq<bool>, v: int): (w: seq<int>)
    reads net, net.graph
    requires net.Valid() && |dist| == net.nodeCount && |prev| == |dist| && |visited| == |dist|
    requires WalkReady(net, source, dist, prev, visited) && 0 <= v < |dist| && dist[v] >= 0
    ensures |w| >= 1 && w[0] == source && w[|w| - 1] == v
    decreases dist[v]
  {
    if v == source then [source] else Walk(net, source, dist, prev, visited, prev[v]) + [v]
  }

  /** The walk is a path from the source to v that costs exactly dist[v]. */
  lemma {:induction false} WalkCost(net: NetworkTopology, source: int, dist: seq<int>, prev: seq<int>,
                                    visited: seq<bool>, v: int)
    requires net.Valid() && |dist| == net.nodeCount && |prev| == |dist| && |visited| == |dist|
    requires WalkReady(net, source, dist, prev, visited) && 0 <= v < |dist| && dist[v] >= 0
    ensures var w := Walk(net, source, dist, prev, visited, v);
      IsPathBetween(net, w, source, v) && Cost(net, w) == dist[v]
    decreases dist[v]
  {
    if v != source {
      var u := prev[v];
      assert 0 <= u < |dist| && net.graph[u, v] > 0 && dist[v] == dist[u] + net.graph[u, v];
      WalkCost(net, source, dist, prev, visited, u);
      var w' := Walk(net, source, dist, prev, visited, u);
      assert Walk(net, source, dist, prev, visited, v) == w' + [v];
      assert Edge(net, w'[|w'| - 1], v);
      ExtendPath(net, w', v);
    }
  }

  /** The nodes of w are nodes of dist whose distances lie in [0, top] and
      strictly grow along w. */
  ghost predicate Rising(dist: seq<int>, w: seq<int>, top: int)
  {
    && (forall i :: 0 <= i < |w| ==> 0 <= w[i] < |dist| && 0 <= dist[w[i]] <= top)
    && (forall i, j :: 0 <= i < j < |w| ==> dist[w[i]] < dist[w[j]])
  }

  /** Distances strictly grow along the walk to v and stay within [0, dist[v]],
      so the walk never repeats a node. */
  lemma {:induction false} WalkRises(net: NetworkTopology, source: int, dist: seq<int>, prev: seq<int>,
                                     visited: seq<bool>, v: int)
    requires net.Valid() && |dist| == net.nodeCount && |prev| == |dist| && |visited| == |dist|
    requires WalkReady(net, source, dist, prev, visited) && 0 <= v < |dist| && dist[v] >= 0
    ensures Rising(dist, Walk(net, source, dist, prev, visited, v), dist[v])
    decreases dist[v]
  {
    var w := Walk(net, source, dist, prev, visited, v);
    if v != source {
      var u := prev[v];
      assert 0 <= u < |dist| && net.graph[u, v] > 0 && dist[v] == dist[u] + net.graph[u, v];
      WalkRises(net, source, dist, prev, visited, u);
      var w' := Walk(net, source, dist, prev, visited, u);
      assert w == w' + [v];
      assert dist[u] < dist[v];
      forall i | 0 <= i < |w|
        ensures 0 <= w[i] < |dist| && 0 <= dist[w[i]] <= dist[v]
        ensures i < |w'| ==> w[i] == w'[i] && dist[w[i]] <= dist[u]
      {
        if i < |w'| {
          assert w[i] == w'[i];
        } else {
          assert w[i] == v;
        }
      }
      forall i, j | 0 <= i < j < |w|
        ensures dist[w[i]] < dist[w[j]]
      {
        if j == |w'| {
          assert w[j] == v;
        }
      }
    }
  }

  /** walk is a chain of predecessors starting at source: prev leads from
      each node back to the one before it, and only the first node is the
      source. */
  ghost predicate PrevChain(prev: seq<int>, source: int, walk: seq<int>)
  {
    && |walk| >= 1 && walk[0] == source
    && (forall i :: 0 <= i < |walk| ==> 0 <= walk[i] < |prev|)
    && (forall i :: 0 < i < |walk| ==> prev[walk[i]] == walk[i - 1] && walk[i] != source)
  }

  /** The walk to v is such a chain, and it ends at v. */
  lemma {:induction false} WalkLinks(net: NetworkTopology, source: int, dist: seq<int>, prev: seq<int>,
                                     visited: seq<bool>, v: int)
    requires net.Valid() && |dist| == net.nodeCount && |prev| == |dist| && |visited| == |dist|
    requires WalkReady(net, source, dist, prev, visited) && 0 <= v < |dist| && dist[v] >= 0
    ensures var w := Walk(net, source, dist, prev, visited, v);
      PrevChain(prev, source, w) && w[|w| - 1] == v
    decreases dist[v]
  {
    var w := Walk(net, source, dist, prev, visited, v);
    if v != source {
      var u := prev[v];
      assert 0 <= u < |dist| && dist[u] >= 0;
      WalkLinks(net, source, dist, prev, visited, u);
      var w' := Walk(net, source, dist, prev, visited, u);
      assert w == w' + [v];
      assert forall i :: 0 <= i < |w'| ==> w[i] == w'[i];
    }
  }

  // ---------------------------------------------------------------------
  // The algorithm.

  /** The unvisited reached node of least distance, the lowest-numbered one
      on a tie, or -1 when every unvisited node is unreached. */
  method MinUnvisited(dist: array<int>, visited: array<bool>) returns (minNode: int)
    requires dist.Length == visited.Length
    ensures minNode == -1 <==> forall v :: 0 <= v < dist.Length ==> visited[v] || dist[v] == UNREACHED
    ensures minNode != -1 ==> 0 <= minNode < dist.Length && !visited[minNode] && dist[minNode] != UNREACHED
    ensures minNode != -1 ==>
              forall v :: 0 <= v < dist.Length && !visited[v] && dist[v] != UNREACHED ==>
                dist[minNode] <= dist[v] && (v < minNode ==> dist[minNode] < dist[v])
  {
    var minDist := UNREACHED;
    minNode := -1;
    for v := 0 to dist.Length
      invariant minNode == -1 ==> forall k :: 0 <= k < v ==> visited[k] || dist[k] == UNREACHED
      invariant minNode != -1 ==>
                  0 <= minNode < v && !visited[minNode] && dist[minNode] != UNREACHED && minDist == dist[minNode]
      invariant minNode != -1 ==>
                  forall k :: 0 <= k < v && !visited[k] && dist[k] != UNREACHED ==>
                    minDist <= dist[k] && (k < minNode ==> minDist < dist[k])
    {
      if !visited[v] && dist[v] != UNREACHED && (minNode == -1 || dist[v] < minDist) {
        minDist := dist[v];
        minNode := v;
      }
    }
  }

  /** Relaxes every edge out of the node u just visited. */
  method Relax(net: NetworkTopology, u: int, dist: array<int>, prev: array<int>, visited: array<bool>)
    requires net.Valid() && dist.Length == net.nodeCount && prev.Length == dist.Length && visited.Length == dist.Length
    requires dist != prev && 0 <= u < dist.Length && visited[u]
    modifies dist, prev
    ensures Relaxed(net, u, visited[..], old(dist[..]), old(prev[..]), dist[..], prev[..])
  {
    for v := 0 to dist.Length
      invariant dist[u] == old(dist[u])
      invariant forall k :: 0 <= k < v ==>
        if net.graph[u, k] > 0 && !visited[k] && old(dist[u]) != UNREACHED &&
           (old(dist[k]) == UNREACHED || old(dist[u]) + net.graph[u, k] < old(dist[k]))
        then dist[k] == old(dist[u]) + net.graph[u, k] && prev[k] == u
        else dist[k] == old(dist[k]) && prev[k] == old(prev[k])
      invariant forall k :: v <= k < dist.Length ==> dist[k] == old(dist[k]) && prev[k] == old(prev[k])
    {
      if net.graph[u, v] > 0 && !visited[v] && dist[u] != UNREACHED &&
         (dist[v] == UNREACHED || dist[u] + net.graph[u, v] < dist[v]) {
        dist[v] := dist[u] + net.graph[u, v];
        prev[v] := u;
      }
    }
  }

  /** No path from source to destination costs less than bound. */
  ghost predicate CostsAtLeast(net: NetworkTopology, source: int, destination: int, bound: int)
    reads net, net.graph
    requires net.Valid()
  {
    forall q :: IsPathBetween(net, q, source, destination) ==> Cost(net, q) >= bound
  }

  /** One round of the main loop: marks the nearest unvisited node u visited
      and relaxes the edges out of it. */
  method Visit(net: NetworkTopology, source: int, destination: int,
               dist: array<int>, prev: array<int>, visited: array<bool>, u: int)
    requires net.Valid() && dist.Length == net.nodeCount && prev.Length == dist.Length && visited.Length == dist.Length
    requires dist != prev
    requires Inv(net, source, destination, dist[..], prev[..], visited[..])
    requires 0 <= u < dist.Length && !visited[u] && dist[u] >= 0 && u != destination
    requires forall y :: 0 <= y < dist.Length && !visited[y] && dist[y] >= 0 ==> dist[u] <= dist[y]
    modifies dist, prev, visited
    ensures Inv(net, source, destination, dist[..], prev[..], visited[..])
    ensures visited[..] == old(visited[..])[u := true]
    ensures NumVisited(visited[..]) == old(NumVisited(visited[..])) + 1
    ensures Relaxed(net, u, visited[..], old(dist[..]), old(prev[..]), dist[..], prev[..])
  {
    hide Inv;
    ghost var dist0, prev0, visited0 := dist[..], prev[..], visited[..];
    visited[u] := true;
    assert visited[..] == visited0[u := true];
    Relax(net, u, dist, prev, visited);
    assert visited[..] == visited0[u := true];
    RoundKeepsInv(net, source, destination, dist0, prev0, visited0, u, dist[..], prev[..]);
    NumVisitedMark(visited0, u);
  }

  /** The main loop: visits nodes in order of distance until the destination
      is the nearest unvisited node, no unvisited node is reached, or every
      round is spent. On return the invariant still holds and dist[destination]
      decides the answer: unreached means no path exists, reached means no
      path costs less. */
  method Settle(net: NetworkTopology, source: int, destination: int,
                dist: array<int>, prev: array<int>, visited: array<bool>)
    requires net.Valid() && dist.Length == net.nodeCount && prev.Length == dist.Length && visited.Length == dist.Length
    requires dist != prev
    requires Inv(net, source, destination, dist[..], prev[..], visited[..]) && NumVisited(visited[..]) == 0
    modifies dist, prev, visited
    ensures Inv(net, source, destination, dist[..], prev[..], visited[..])
    ensures dist[destination] == UNREACHED ==> !Reachable(net, source, destination)
    ensures dist[destination] != UNREACHED ==> CostsAtLeast(net, source, destination, dist[destination])
  {
    hide Triangle; hide VisitedFirst; hide PrevLinks;
    var n := dist.Length;
    var round := 0;
    while round < n
      invariant 0 <= round <= n
      invariant Inv(net, source, destination, dist[..], prev[..], visited[..])
      invariant NumVisited(visited[..]) == round
    {
      var minNode := MinUnvisited(dist, visited);
      if minNode == -1 {
        ClosedUnreachable(net, source, destination, dist[..], prev[..], visited[..]);
        return;
      }
      if minNode == destination {
        forall q | IsPathBetween(net, q, source, destination)
          ensures Cost(net, q) >= dist[destination]
        {
          SettledIsOptimal(net, source, destination, dist[..], prev[..], visited[..], q);
        }
        return;
      }
      Visit(net, source, destination, dist, prev, visited, minNode);
      round := round + 1;
    }
    NumVisitedMissing(visited[..], destination);
    assert false;
  }

  /** Counts the nodes met when following prev back from the destination to
      the source: the length of the chain. */
  method CountHops(prev: array<int>, source: int, destination: int, ghost walk: seq<int>) returns (count: int)
    requires PrevChain(prev[..], source, walk) && walk[|walk| - 1] == destination
    ensures count == |walk|
  {
    count := 1;
    var current := destination;
    while current != source
      invariant 1 <= count <= |walk| && current == walk[|walk| - count]
      decreases |walk| - count
    {
      current := prev[current];
      count := count + 1;
    }
  }

  /** Fills a route of count nodes from its end, following prev back from the
      destination: the route is the chain itself. */
  method FillRoute(prev: array<int>, source: int, destination: int, count: int, ghost walk: seq<int>)
    returns (path: seq<int>)
    requires PrevChain(prev[..], source, walk) && walk[|walk| - 1] == destination && count == |walk|
    ensures path == walk
  {
    var route := new int[count];
    var current := destination;
    var index := count - 1;
    route[index] := current;
    index := index - 1;
    while current != source
      invariant -1 <= index < count - 1 && current == walk[index + 1]
      invariant route[index + 1..] == walk[index + 1..]
      decreases index
    {
      current := prev[current];
      route[index] := current;
      index := index - 1;
    }
    path := route[..];
  }

  /** p is a path from source to destination that costs c. */
  ghost predicate PathOfCost(net: NetworkTopology, p: seq<int>, source: int, destination: int, c: int)
    reads net, net.graph
    requires net.Valid()
  {
    IsPathBetween(net, p, source, destination) && Cost(net, p) == c
  }

  /** Once the main loop has reached the destination, follows prev back from
      it, first to count the nodes and then to fill the route from its end:
      the route is a path from source to destination that costs exactly the
      recorded distance and repeats no node. */
  method TracePath(net: NetworkTopology, source: int, destination: int,
                   dist: array<int>, prev: array<int>, visited: array<bool>) returns (count: int, path: seq<int>)
    requires net.Valid() && dist.Length == net.nodeCount && prev.Length == dist.Length && visited.Length == dist.Length
    requires Inv(net, source, destination, dist[..], prev[..], visited[..]) && dist[destination] >= 0
    ensures count == |path| && IsPathBetween(net, path, source, destination)
    ensures Cost(net, path) == dist[destination]
    ensures Distinct(path) && count <= net.nodeCount
    ensures source == destination ==> path == [source]
  {
    hide Triangle; hide VisitedFirst; hide PrevLinks;
    ghost var walk := Walk(net, source, dist[..], prev[..], visited[..], destination);
    WalkLinks(net, source, dist[..], prev[..], visited[..], destination);
    WalkCost(net, source, dist[..], prev[..], visited[..], destination);
    WalkRises(net, source, dist[..], prev[..], visited[..], destination);
    assert PathOfCost(net, walk, source, destination, dist[destination]);
    ghost var bound := dist[destination];
    count := CountHops(prev, source, destination, walk);
    path := FillRoute(prev, source, destination, count, walk);
    assert PathOfCost(net, path, source, destination, bound);
    DistinctBound(path, dist.Length);
    if source == destination {
      CostSign(net, path);
    }
  }

  /** Returns -1 with no path when an endpoint is not a valid node or the
      destination is unreachable over positive-weight edges; otherwise the
      number of nodes of a cheapest path from source to destination, and
      that path, which repeats no node. */
  method Dijkstra(net: NetworkTopology, source: int, destination: int) returns (count: int, path: seq<int>)
    requires net.Valid()
    ensures count == -1 <==>
              !net.IsValidNode(source) || !net.IsValidNode(destination) || !Reachable(net, source, destination)
    ensures count == -1 ==> path == []
    ensures count != -1 ==> count == |path| && IsPathBetween(net, path, source, destination)
    ensures count != -1 ==> forall q :: IsPathBetween(net, q, source, destination) ==> Cost(net, path) <= Cost(net, q)
    ensures count != -1 ==> Distinct(path) && count <= net.nodeCount
    ensures count != -1 && source == destination ==> path == [source]
  {
    hide Triangle; hide VisitedFirst; hide PrevLinks;
    if !net.IsValidNode(source) || !net.IsValidNode(destination) {
      return -1, [];
    }
    var n := net.nodeCount;
    var dist := new int[n];
    var prev := new int[n];
    var visited := new bool[n];
    for i := 0 to n
      invariant forall k :: 0 <= k < i ==> dist[k] == UNREACHED && prev[k] == -1 && !visited[k]
    {
      dist[i] := UNREACHED;
      prev[i] := -1;
      visited[i] := false;
    }
    dist[source] := 0;
    InitialInv(net, source, destination, dist[..], prev[..], visited[..]);
    Settle(net, source, destination, dist, prev, visited);

    if dist[destination] == UNREACHED {
      return -1, [];
    }
    count, path := TracePath(net, source, destination, dist, prev, visited);
    assert CostsAtLeast(net, source, destination, dist[destination]);
  }
}
