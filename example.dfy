/** The fixed test topology and the route the shortest-path engine finds on
    it from node 0 to node 5. */
module TestRoute {
  import opened Network
  import opened Paths
  import opened ShortestPath

  /** A graph store holding the test topology. */
  ghost predicate IsTestTopology(net: NetworkTopology)
    reads net, net.graph
    requires net.Valid()
  {
    net.nodeCount == 6 && forall i, j :: 0 <= i < 6 && 0 <= j < 6 ==> net.graph[i, j] == TestWeight(i, j)
  }

  /** The distance of every node from node 0 in the test topology. */
  const TEST_DISTANCES: seq<int> := [0, 7, 9, 16, 19, 17]

  /** No edge of the test topology undercuts TEST_DISTANCES. */
  lemma TestPotential(net: NetworkTopology)
    requires net.Valid() && IsTestTopology(net)
    ensures forall u, v :: 0 <= u < 6 && 0 <= v < 6 && net.graph[u, v] > 0 ==>
      TEST_DISTANCES[v] <= TEST_DISTANCES[u] + net.graph[u, v]
  {
    forall u, v | 0 <= u < 6 && 0 <= v < 6 && net.graph[u, v] > 0
      ensures TEST_DISTANCES[v] <= TEST_DISTANCES[u] + net.graph[u, v]
    {
      assert net.graph[u, v] == TestWeight(u, v);
    }
  }

  /** The edges into 5, 3 and 1 that TEST_DISTANCES makes tight come from 3, 1
      and 0. */
  lemma TightEdge(net: NetworkTopology, u: int, v: int)
    requires net.Valid() && IsTestTopology(net)
    requires 0 <= u < 6 && 0 <= v < 6 && net.graph[u, v] > 0
    requires TEST_DISTANCES[v] == TEST_DISTANCES[u] + net.graph[u, v]
    ensures v == 5 ==> u == 3
    ensures v == 3 ==> u == 1
    ensures v == 1 ==> u == 0
  {
    assert net.graph[u, v] == TestWeight(u, v);
  }

  /** 0 -> 1 -> 3 -> 5 is a route of the test topology and costs 17. */
  lemma ExpectedRoute(net: NetworkTopology)
    requires net.Valid() && IsTestTopology(net)
    ensures IsPathBetween(net, [0, 1, 3, 5], 0, 5) && Cost(net, [0, 1, 3, 5]) == 17
  {
    assert net.graph[0, 1] == 7 && net.graph[1, 3] == 9 && net.graph[3, 5] == 1;
    assert IsPath(net, [0]) && Cost(net, [0]) == 0;
    ExtendPath(net, [0], 1);
    assert [0] + [1] == [0, 1];
    assert IsPath(net, [0, 1]) && Cost(net, [0, 1]) == 7;
    ExtendPath(net, [0, 1], 3);
    assert [0, 1] + [3] == [0, 1, 3];
    assert IsPath(net, [0, 1, 3]) && Cost(net, [0, 1, 3]) == 16;
    ExtendPath(net, [0, 1, 3], 5);
    assert [0, 1, 3] + [5] == [0, 1, 3, 5];
  }

  /** On the test topology, the only cheapest simple route from 0 to 5 is
      0 -> 1 -> 3 -> 5, at cost 17. */
  lemma TestTopologyShortestRoute(net: NetworkTopology, p: seq<int>)
    requires net.Valid() && IsTestTopology(net)
    requires IsPathBetween(net, p, 0, 5) && Distinct(p)
    requires forall q :: IsPathBetween(net, q, 0, 5) ==> Cost(net, p) <= Cost(net, q)
    ensures p == [0, 1, 3, 5] && Cost(net, p) == 17
  {
    ExpectedRoute(net);
    TestPotential(net);
    PotentialBound(net, TEST_DISTANCES, p);
    assert Cost(net, p) == 17;
    var n := |p|;
    TightEdge(net, p[n - 2], p[n - 1]);
    TightEdge(net, p[n - 3], p[n - 2]);
    TightEdge(net, p[n - 4], p[n - 3]);
    assert n == 4 by {
      assert p[n - 4] == p[0];
    }
  }

  /** Builds the test topology and routes from 0 to 5: four nodes,
      0 -> 1 -> 3 -> 5. */
  method ExampleRoute() returns (count: int, path: seq<int>)
    ensures count == 4 && path == [0, 1, 3, 5]
  {
    var net := new NetworkTopology();
    net.CreateTestTopology();
    assert IsTestTopology(net);
    ExpectedRoute(net);
    count, path := Dijkstra(net, 0, 5);
    TestTopologyShortestRoute(net, path);
  }
}
