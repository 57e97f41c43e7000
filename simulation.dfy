/** The simulator's run: build a packet, split it for the MTU, and route
    every fragment through the graph store in turn, applying the topology
    edit the operator asks for after each fragment. */
module Simulation {
  import opened Network
  import opened Paths
  import opened ShortestPath
  import opened Ipv4

  /** A topology edit as the interactive editor takes it: menu choice, both
      endpoints and a weight. */
  datatype Edit = Edit(choice: int, from: int, to: int, weight: int)

  /** The operator declined to edit after each of the first k fragments. */
  predicate NoEditsBefore(edits: seq<Option<Edit>>, k: int)
  {
    forall j :: 0 <= j < k && j < |edits| ==> edits[j].None?
  }

  /** A routed fragment: either no route (length -1, empty path) or a route
      of pathLength distinct valid nodes from source to destination. */
  predicate Routed(nodeCount: int, source: int, destination: int, f: Fragment)
  {
    || (f.pathLength == -1 && f.path == [])
    || (&& f.pathLength == |f.path| >= 1
        && f.path[0] == source && f.path[|f.path| - 1] == destination
        && Distinct(f.path) && f.pathLength <= nodeCount
        && (forall k :: 0 <= k < |f.path| ==> 0 <= f.path[k] < nodeCount))
  }

  /** The route of a fragment is a cheapest route of the current graph, and
      there is none exactly when the destination cannot be reached. */
  ghost predicate ShortestRouted(net: NetworkTopology, source: int, destination: int, f: Fragment)
    reads net, net.graph
    requires net.Valid()
  {
    && (f.pathLength == -1 <==> !Reachable(net, source, destination))
    && (f.pathLength != -1 ==>
          && IsPathBetween(net, f.path, source, destination)
          && forall q :: IsPathBetween(net, q, source, destination) ==> Cost(net, f.path) <= Cost(net, q))
  }

  /** The fragment with its route filled in, and nothing else changed. */
  predicate SameFragment(before: Fragment, after: Fragment)
  {
    after == before.(path := after.path, pathLength := after.pathLength)
  }

  /** Routes the fragments one by one with the shortest-path engine; after
      fragment i, edit i (when present) is applied to the graph. Edits beyond
      the last fragment are ignored. */
  method RouteFragments(net: NetworkTopology, source: int, destination: int,
                        fragments: seq<Fragment>, edits: seq<Option<Edit>>) returns (routed: seq<Fragment>)
    requires net.Valid() && net.IsValidNode(source) && net.IsValidNode(destination)
    modifies net.graph
    ensures |routed| == |fragments|
    ensures forall i :: 0 <= i < |routed| ==> SameFragment(fragments[i], routed[i])
    ensures forall i :: 0 <= i < |routed| ==> Routed(net.nodeCount, source, destination, routed[i])
    ensures old(net.NonNegativeWeights()) ==> net.NonNegativeWeights()
    ensures NoEditsBefore(edits, |fragments|) ==>
      unchanged(net.graph) && forall i :: 0 <= i < |routed| ==> ShortestRouted(net, source, destination, routed[i])
  {
    routed := [];
    for i := 0 to |fragments|
      invariant net.Valid() && net.nodeCount == old(net.nodeCount)
      invariant |routed| == i
      invariant forall k :: 0 <= k < i ==> SameFragment(fragments[k], routed[k])
      invariant forall k :: 0 <= k < i ==> Routed(net.nodeCount, source, destination, routed[k])
      invariant old(net.NonNegativeWeights()) ==> net.NonNegativeWeights()
      invariant NoEditsBefore(edits, i) ==>
        unchanged(net.graph) && forall k :: 0 <= k < i ==> ShortestRouted(net, source, destination, routed[k])
    {
      var count, path := Dijkstra(net, source, destination);
      var f := fragments[i].(path := path, pathLength := count);
      assert Routed(net.nodeCount, source, destination, f);
      assert ShortestRouted(net, source, destination, f);
      routed := routed + [f];
      if i < |edits| && edits[i].Some? {
        var e := edits[i].value;
        net.ApplyEdit(e.choice, e.from, e.to, e.weight);
      }
    }
  }

  /** One run of the simulator on operator input that the prompts accept:
      distinct valid nodes, an MTU of at least 28 and a payload size the
      builder keeps. Every fragment of the packet is routed; with no edits,
      each gets a cheapest route of the unchanged graph. */
  method Simulate(net: NetworkTopology, builder: PacketBuilder, source: int, destination: int,
                  mtu: int, payloadSize: int, edits: seq<Option<Edit>>) returns (packet: Packet, routed: seq<Fragment>)
    requires net.Valid() && net.IsValidNode(source) && net.IsValidNode(destination) && source != destination
    requires mtu >= IPV4_HEADER_SIZE + 8 && 1 <= payloadSize <= MAX_PAYLOAD_SIZE
    modifies net.graph, builder
    ensures builder.packetId as int == (old(builder.packetId) as int + 1) % 0x1_0000
    ensures var h := FreshHeader(old(builder.packetId), source, destination, payloadSize);
      packet.header == h.(checksum := CalculateChecksum(h))
    ensures |packet.payload| == payloadSize && ValidPacket(packet)
    ensures forall i :: 0 <= i < |packet.payload| ==> packet.payload[i] as int == i % 256
    ensures |routed| == |Fragmentation(packet, mtu)|
    ensures forall i :: 0 <= i < |routed| ==> SameFragment(Fragmentation(packet, mtu)[i], routed[i])
    ensures forall i :: 0 <= i < |routed| ==> Routed(net.nodeCount, source, destination, routed[i])
    ensures NoEditsBefore(edits, |routed|) ==>
      unchanged(net.graph) && forall i :: 0 <= i < |routed| ==> ShortestRouted(net, source, destination, routed[i])
  {
    packet := builder.CreatePacket(source, destination, payloadSize);
    var count, fragments := FragmentPacket(packet, mtu);
    routed := RouteFragments(net, source, destination, fragments, edits);
  }
}
