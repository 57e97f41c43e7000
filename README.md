# IPv4 fragmentation and routing simulator — a verified model

The simulator builds one UDP datagram. It splits the datagram into
fragments that fit a link's MTU, following the fragmentation procedure of
section 3.2 of RFC 791. Then it routes every fragment with Dijkstra's
algorithm through a small directed, weighted network. The network may be
edited between fragments.

This project models the three parts that hold the logic:

- **Packet builder and fragmenter** (`ipv4.dfy`, module `Ipv4`):
  - the packet builder is a class, because it keeps an identifier counter;
  - the payload is filled in a loop;
  - the fragmenter is a method that fills a fragment array in a loop. It is
    proved equal to the specification function `Fragmentation`, and the
    lemmas about that function state reassembly, sizes, header fields and
    offsets.
- **Graph store** (`network.dfy`, module `Network`): a class holding a
  20×20 weight matrix and the number of nodes in use. Its methods
  initialise the store, add an edge, build the test topology, and apply the
  add/remove/re-weight edits of the interactive editor.
- **Shortest-path engine**:
  - `paths.dfy`, module `Paths`: what a path and its cost are. Only edges
    of positive weight count.
  - `dijkstra.dfy`, module `ShortestPath`: the O(n²) algorithm over
    `dist`, `prev` and `visited` arrays. It is proved to find a cheapest
    path and to report −1 exactly when there is none. It walks `prev` back
    from the destination to rebuild the path.

Three further modules:

- `example.dfy`: the route on the test topology.
- `simulation.dfy`: the per-fragment routing loop of the program's main
  function.
- `labels.dfy`: how the console names a fragment's flags (see Findings).

The C code's `INT_MAX` "not reached" distance is the constant
`UNREACHED = -1` in the model. Every real distance is non-negative.

The flags/offset word is a 16-bit number.
- Decoding it uses remainder and quotient by 2^13.
- The lemmas `FlagFieldBits` and `SetMoreFragments` prove that these
  computations equal the masks, shifts and `|` of the C code.

## Model

| member | source | states |
|---|---|---|
| Network.EditedWeight | src/network.c:93-133 | Add and re-weight (choices 1 and 3) write the given weight only when both endpoints are below node_count and the weight is positive. Remove (choice 2) writes 0 when both endpoints are in range. Any other input, or any other choice, writes nothing. |
| Network.NetworkTopology.IsValidNode | src/network.c:137-139 | A valid node indexes a row and a column of the matrix. |
| Network.NetworkTopology.constructor | include/network.h:8-12 | A fresh store has a 20×20 matrix and no nodes. |
| Network.NetworkTopology.Init | src/network.c:6-20 | node_count becomes the requested count, clamped to 20 from above. Every cell of the node_count × node_count block is 0. Every other cell and the matrix itself are unchanged. |
| Network.NetworkTopology.AddConnection | src/network.c:22-30 | With both endpoints in [0, node_count), only cell [from, to] changes and it becomes the weight, unchecked. Otherwise nothing changes. node_count never changes. |
| Network.NetworkTopology.CreateTestTopology | src/network.c:32-46 | node_count is 6. The 6×6 block holds exactly the eight edges 0→1:7, 0→2:12, 1→2:2, 1→3:9, 2→4:10, 4→3:4, 3→5:1, 4→5:5, and 0 elsewhere. |
| Network.NetworkTopology.ApplyEdit | src/network.c:93-133 | Only the cell named by EditedWeight changes, to its value. node_count is untouched. Non-negative weights stay non-negative. |
| Paths.CostSign | src/dijkstra.c:59 | Over positive-weight edges a path costs at least 0, and costs 0 exactly when it has one node. |
| Paths.ExtendPath | src/dijkstra.c:62-65 | Appending an edge to a path gives a path that costs the edge's weight more. |
| Paths.PotentialBound | src/dijkstra.c:57-67 | A potential that no edge undercuts bounds every path's cost from below. A path meeting the bound uses only tight edges. |
| Paths.DistinctBound | src/dijkstra.c:84-87 | A path without a repeated node has at most node_count nodes. |
| ShortestPath.NumVisited | src/dijkstra.c:38 | The number of visited nodes never exceeds the number of nodes. |
| ShortestPath.NumVisitedNone | src/dijkstra.c:29-33 | After initialisation no node is visited. |
| ShortestPath.NumVisitedMark | src/dijkstra.c:54 | Marking an unvisited node raises the visited count by one. |
| ShortestPath.NumVisitedMissing | src/dijkstra.c:38-51 | While the destination is unvisited, fewer than n nodes are visited, so the n-round loop always ends through its break. |
| ShortestPath.RoundPointwise | src/dijkstra.c:57-67 | One relaxation pass changes a node only through the edge from the node just visited, and only to lower its distance. Visited nodes keep theirs. |
| ShortestPath.RoundTriangle | src/dijkstra.c:57-67 | After the pass, no edge out of a visited node offers a shorter distance. |
| ShortestPath.RoundVisitedFirst | src/dijkstra.c:43-54 | Nodes are visited in order of distance. |
| ShortestPath.RoundPrevLinks | src/dijkstra.c:64-65 | Every reached node's prev is a visited node, joined by an edge, whose distance plus the edge weight is the node's distance. |
| ShortestPath.InitialInv | src/dijkstra.c:29-35 | The initial state, with only the source at distance 0, satisfies the loop invariant. |
| ShortestPath.RoundKeepsInv | src/dijkstra.c:43-67 | Visiting the nearest unvisited node and relaxing its edges keeps the invariant. |
| ShortestPath.LeavingCostsAtLeastMin | src/dijkstra.c:43-51 | A path from the source either stays among visited nodes or costs at least the least unvisited distance. |
| ShortestPath.SettledIsOptimal | src/dijkstra.c:51 | When the destination is the nearest unvisited node, no path to it costs less than its distance. |
| ShortestPath.StaysVisited | src/dijkstra.c:51 | When no unvisited node is reached, every path from the source stays among visited nodes. |
| ShortestPath.ClosedUnreachable | src/dijkstra.c:51 | When no unvisited node is reached, the destination, which is never visited, is unreachable. |
| ShortestPath.Walk | src/dijkstra.c:81-87 | Following prev from a reached node ends at the source: the walk starts at the source and ends at the node. |
| ShortestPath.WalkCost | src/dijkstra.c:97-105 | The walk is a positive-weight path whose cost is the node's distance. |
| ShortestPath.WalkRises | src/dijkstra.c:84-87 | Distances strictly increase along the walk, so it repeats no node. |
| ShortestPath.WalkLinks | src/dijkstra.c:84-87 | Each node of the walk after the first has the previous one as its prev, and only the first node is the source. |
| ShortestPath.MinUnvisited | src/dijkstra.c:40-48 | Returns −1 exactly when every unvisited node is unreached. Otherwise it returns an unvisited reached node of least distance, and no lower-numbered node ties with it. |
| ShortestPath.Relax | src/dijkstra.c:57-67 | Every unvisited node reachable by an edge from u gets the smaller of its distance and dist[u] + weight, with prev set to u when it improves. |
| ShortestPath.Visit | src/dijkstra.c:53-67 | Marks u visited and relaxes its edges: when u has a distance, each unvisited node behind a positive edge from u that is unreached, or that the edge brings strictly closer, gets dist[u] plus the edge and u as predecessor. Every other entry is unchanged. The invariant is kept and the visited count rises by one. |
| ShortestPath.Settle | src/dijkstra.c:38-68 | When the main loop ends, either the destination is unreached and unreachable, or no path to it costs less than its distance. |
| ShortestPath.CountHops | src/dijkstra.c:81-87 | The count is the number of nodes on the prev chain from the source to the destination. |
| ShortestPath.FillRoute | src/dijkstra.c:97-105 | The array filled backwards from the destination is exactly that chain, source first. |
| ShortestPath.TracePath | src/dijkstra.c:79-112 | The rebuilt route is a positive-weight path from source to destination. It costs the destination's distance, has no repeated node, has at most node_count nodes, and is [source] when source = destination. |
| ShortestPath.Dijkstra | src/dijkstra.c:12-113 | Returns −1 with no path exactly when an endpoint is invalid or the destination is unreachable over positive-weight edges. Otherwise it returns count = number of nodes of a simple path from source to destination that costs no more than any other such path. The graph is not written. source = destination gives [source]. |
| TestRoute.TestPotential | src/network.c:36-43 | The distances 0, 7, 9, 16, 19, 17 from node 0 are not undercut by any edge of the test topology. |
| TestRoute.TightEdge | src/network.c:36-43 | In the test topology the only shortest-path edges into 5, 3 and 1 come from 3, 1 and 0. |
| TestRoute.ExpectedRoute | src/network.c:36-43 | 0→1→3→5 is a route of the test topology costing 17. |
| TestRoute.TestTopologyShortestRoute | src/dijkstra.c:38-105 | On the test topology, every cheapest simple route from 0 to 5 is [0, 1, 3, 5], at cost 17. |
| TestRoute.ExampleRoute | src/network.c:32-46 | Building the test topology and routing 0 to 5 returns 4 and the path [0, 1, 3, 5]. |
| Ipv4.ClampPayloadSize | src/ipv4.c:10-14 | A size in 1..65515 is kept. Any other size becomes 65515, not 1. |
| Ipv4.ToUint32 | include/ipv4.h:25-26 | An int stored in an address field keeps its value modulo 2^32, and keeps it exactly when it is in range. |
| Ipv4.FillPayload | src/ipv4.c:31-33 | The payload has the requested length and byte i holds i mod 256. |
| Ipv4.PacketBuilder.constructor | src/ipv4.c:6 | The identifier counter starts at 1000. |
| Ipv4.CalculateChecksum | src/ipv4.c:132-137 | Returns the constant 0xABCD whatever the header. |
| Ipv4.PacketBuilder.CreatePacket | src/ipv4.c:8-39 | The packet gets the counter's value as identifier, and the counter moves on by one, wrapping at 2^16. The header is 0x45, tos 0, total length size + 20, DF (0x4000), TTL 64, protocol 17, the two addresses and the stub checksum. The payload has the clamped size and the i mod 256 pattern. |
| Ipv4.CreatedPacketShape | src/ipv4.c:17-26 | Every built packet has version/IHL 0x45, tos 0, TTL 64, protocol 17, flags 0x4000, checksum 0xABCD and total length payload + 20, and is a valid packet. |
| Ipv4.MaxPerFragment | src/ipv4.c:69 | The data per fragment is a multiple of 8, at most mtu − 20 and more than mtu − 28. |
| Ipv4.SplitPiece | src/ipv4.c:71-87 | A split packet has ceil(size / max) fragments, and fragment i is piece i. |
| Ipv4.CeilBounds | src/ipv4.c:71 | The fragment count is the least count whose pieces cover the payload: (count − 1) · max < size ≤ count · max. |
| Ipv4.FlagFieldBits | src/ui.c:138-139 | `& 0x1FFF`, `(& 0xE000) >> 13`, `& 0x2000` and `& 0x4000` on the 16-bit word equal remainder and quotient by 2^13 and the two low bits of that quotient. |
| Ipv4.SetMoreFragments | src/ipv4.c:93 | Or-ing 0x2000 into an offset below 2^13 equals adding 0x2000. |
| Ipv4.DecodeFlagsAndOffset | src/ipv4.c:89-98 | The word written for a fragment decodes back to its offset in 8-byte units and to More-Fragments exactly when it is not the last, with DF clear. |
| Ipv4.FitsInOneFragment | src/ipv4.c:43-66 | A packet whose total length fits the MTU becomes exactly one fragment with the original header (DF included), the whole payload and path length 0. |
| Ipv4.FragmentSizes | src/ipv4.c:69-84 | A packet that does not fit becomes ceil(size / max) ≥ 1 fragments, with max a positive multiple of 8. Every fragment but the last carries exactly max bytes; the last carries between 1 and max. |
| Ipv4.FragmentStart | src/ipv4.c:80-84 | Fragment i carries the payload bytes from i · max up to (i + 1) · max or the payload's end. |
| Ipv4.PrefixData | src/ipv4.c:113-125 | The first k fragments, concatenated, are the first min(k · max, size) payload bytes. |
| Ipv4.Reassembly | src/ipv4.c:79-125 | The fragments' data, concatenated in order, is exactly the payload, so the sizes add up to the payload size. |
| Ipv4.FragmentHeaderAt | src/ipv4.c:86-87 | Fragment i of a split packet has total length 20 + its data ≤ mtu. It keeps identifier, TTL, protocol, version, tos and addresses, has no route yet, and carries checksum 0xABCD. |
| Ipv4.FragmentHeaders | src/ipv4.c:51-63 | Every fragment keeps those header fields and has total length 20 + its data ≤ mtu and no route yet. A split packet's fragments carry checksum 0xABCD. |
| Ipv4.FragmentOffsets | src/ipv4.c:89-98 | Fragment i's offset field, times 8, is the number of payload bytes before it, the number of 8-byte units before it fits the 13-bit field (below 8192). More-Fragments is set exactly on non-final fragments. DF is never set, and the last fragment has no flag bit. |
| Ipv4.FragmentPacket | src/ipv4.c:41-130 | The fragment array the loop fills, and its count, are exactly Fragmentation(packet, mtu). |
| FragmentLabels.LabelAsWritten | src/ui.c:138-144 | The display says "More Fragments" exactly when the DF bit is set, and "Don't Fragment" when the reserved bit is set. |
| FragmentLabels.Label | src/ui.c:138-144 | With each flag read from its own bit, "More Fragments" exactly when MF is set and "Don't Fragment" exactly when DF is set. |
| FragmentLabels.AsWrittenMislabels | src/ui.c:143-144 | As written, the first fragment of every split packet is shown as "Last Fragment". A packet sent whole with DF set is shown as "More Fragments" without "Don't Fragment". |
| FragmentLabels.AsWrittenExample | src/ui.c:138-144 | Word 0x2000 reads as last fragment and 0x4000 as more fragments as written. The corrected labels read them the other way round. |
| FragmentLabels.LabelsMatchFragments | src/ui.c:138-144 | Corrected labels say "More Fragments" exactly on non-final fragments and never "Don't Fragment" on a split packet. A packet sent whole keeps its own label. |
| Simulation.RouteFragments | src/main.c:31-54 | Every fragment keeps its header and data and gets either no route (−1, empty) or a simple route of valid nodes from source to destination. Edits keep weights non-negative. With no edits the graph is untouched and every fragment gets a cheapest route, or −1 exactly when there is none. |
| Simulation.Simulate | src/main.c:19-54 | On input that the prompts accept, the packet is the builder's: the counter's value as identifier, the counter moved on by one (wrapping at 2^16), the fixed header fields with DF, TTL 64, protocol 17 and the stub checksum, and the requested payload size with the i mod 256 pattern. There is one routed fragment per fragment of the packet, with RouteFragments' guarantees. |

## Left out

- Console I/O is not modelled: the prompts, `scanf`, `printf` diagnostics and the network display.
  - The operator's choices become parameters: the edit arguments and the per-fragment edit sequence.
  - The prompt checks of src/ui.c:88-113 become preconditions: valid, distinct endpoints, MTU of at least 28 and a payload of 1..65515.
  - `create_custom_topology` only reads a topology from the console through the same `add_connection`.
- Allocation is treated as always succeeding. This drops the `malloc` failure branches and `exit` calls of src/ipv4.c and src/dijkstra.c. `free` has no counterpart.
- Machine integers are not modelled in three places.
  - `INT_MAX` is the explicit `UNREACHED = -1` sentinel.
  - The C sum `dist + weight` can overflow for huge weights; the model uses unbounded integers.
  - `uint16_t` fields hold values that fit by construction (at most 65535).
  - The counter wrap-around and the 32-bit address conversion are modelled explicitly.
- A real header checksum is not modelled. `calculate_checksum` is a constant stub in the source, and the model keeps the constant 0xABCD.
- The fragmenter ignores DF. It splits packets whose header has DF set and clears DF in the fragments, and the model reproduces this rather than the DF semantics of RFC 791.
- Ipv4.FragmentPacket requires that an MTU smaller than the packet is at least 28. Below that, `max_per_fragment` can be 0 and src/ipv4.c:71 divides by zero. The program's prompt never allows such an MTU.
- Dijkstra determinism is covered only in part. The result is not stated as a function of the graph, so "same graph, same path" is not a lemma; only the lowest-index tie break of the minimum scan is stated (ShortestPath.MinUnvisited).
- Simulation.RouteFragments: when edits happen between fragments, it states only the shape of each route, not its optimality against the graph of that moment.
- Tests are not modelled. tests/network_test.c expects other weights for the test topology (0→1:2, 0→2:4, 1→2:1) than src/network.c:36-38 writes; the model follows src/network.c.
- The packet and network display functions of src/ui.c are not modelled, except the flag labels below.

## Findings

| source | as written | input that shows it | evidently intended | confidence | as-written member | corrected member |
|---|---|---|---|---|---|---|
| src/ui.c:142-144 | After `flags = (word & 0xE000) >> 13`, the display tests `flags & 0x4` for Don't-Fragment and `flags & 0x2` for More-Fragments. Those are the reserved bit and the DF bit. | Any split packet: its first fragment has word 0x2000 and is shown as "Last Fragment". An unsplit packet from the builder has word 0x4000 and is shown as "More Fragments" without "Don't Fragment". | More-Fragments is `flags & 0x1` and Don't-Fragment is `flags & 0x2`. | high, not executed | FragmentLabels.AsWrittenMislabels | FragmentLabels.LabelsMatchFragments |
