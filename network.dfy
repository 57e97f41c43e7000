/** The graph store: a directed graph over at most MAX_NODES nodes, kept as a
    fixed MAX_NODES x MAX_NODES weight matrix and a node count. A cell holding
    0 (or anything not positive) means "no edge". */
module Network {

  const MAX_NODES: int := 20

  /** The weights of the predefined six-node topology; every other cell is 0. */
  function TestWeight(from: int, to: int): int
  {
    match (from, to)
    case (0, 1) => 7
    case (0, 2) => 12
    case (1, 2) => 2
    case (1, 3) => 9
    case (2, 4) => 10
    case (4, 3) => 4
    case (3, 5) => 1
    case (4, 5) => 5
    case _ => 0
  }

  /** The cell an edit of the interactive topology editor writes, if any:
      choice 1 adds and choice 3 re-weights an edge (both demand a positive
      weight), choice 2 removes one by writing 0; any other choice, an endpoint
      outside [0, nodeCount) or a weight that is not positive changes nothing. */
  function EditedWeight(nodeCount: int, choice: int, from: int, to: int, weight: int): (w: Option<int>)
    ensures w.Some? ==> 0 <= from < nodeCount && 0 <= to < nodeCount && w.value >= 0
    ensures w.Some? ==> (w.value == 0 <==> choice == 2)
    ensures w.Some? && choice != 2 ==> w.value == weight
    ensures (choice == 1 || choice == 3) && 0 <= from < nodeCount && 0 <= to < nodeCount ==> (w.Some? <==> weight > 0)
    ensures choice == 2 ==> (w.Some? <==> 0 <= from < nodeCount && 0 <= to < nodeCount)
    ensures choice != 1 && choice != 2 && choice != 3 ==> w.None?
  {
    var inRange := from >= 0 && from < nodeCount && to >= 0 && to < nodeCount;
    if choice == 1 then
      if inRange && weight > 0 then Some(weight) else None
    else if choice == 2 then
      if inRange then Some(0) else None
    else if choice == 3 then
      if inRange && weight > 0 then Some(weight) else None
    else
      None
  }

  datatype Option<T> = None | Some(value: T)

  class NetworkTopology {
    var nodeCount: int
    var graph: array2<int>

    /** The matrix has its fixed size and the node count never exceeds it. */
    predicate Valid()
      reads this
    {
      graph.Length0 == MAX_NODES && graph.Length1 == MAX_NODES && nodeCount <= MAX_NODES
    }

    /** A node is valid when it indexes one of the nodeCount rows in use. */
    predicate IsValidNode(node: int)
      reads this
      ensures IsValidNode(node) && Valid() ==> 0 <= node < graph.Length0 && node < graph.Length1
    {
      node >= 0 && node < nodeCount
    }

    /** Every weight among the nodes in use is 0 ("no edge") or positive. */
    ghost predicate NonNegativeWeights()
      reads this, graph
      requires Valid()
    {
      forall i, j :: 0 <= i < nodeCount && 0 <= j < nodeCount ==> graph[i, j] >= 0
    }

    constructor ()
      ensures Valid() && fresh(graph) && nodeCount == 0
    {
      nodeCount := 0;
      graph := new int[MAX_NODES, MAX_NODES];
    }

    /** Resets to numNodes nodes (clamped to MAX_NODES) with no edge among
        them; cells outside the new nodeCount x nodeCount block keep their
        values. A negative count is stored as given and zeroes nothing. */
    method Init(numNodes: int)
      requires Valid()
      modifies this, graph
      ensures Valid() && graph == old(graph)
      ensures nodeCount == if numNodes > MAX_NODES then MAX_NODES else numNodes
      ensures forall i, j :: 0 <= i < nodeCount && 0 <= j < nodeCount ==> graph[i, j] == 0
      ensures forall i, j :: 0 <= i < MAX_NODES && 0 <= j < MAX_NODES && !(i < nodeCount && j < nodeCount) ==>
                graph[i, j] == old(graph[i, j])
    {
      var n := numNodes;
      if n > MAX_NODES {
        n := MAX_NODES;
      }
      nodeCount := n;
      var i := 0;
      while i < n
        invariant graph == old(graph) && nodeCount == n && Valid()
        invariant 0 <= i <= if n < 0 then 0 else n
        invariant forall r, c :: 0 <= r < i && 0 <= c < n ==> graph[r, c] == 0
        invariant forall r, c :: 0 <= r < MAX_NODES && 0 <= c < MAX_NODES && !(r < i && c < n) ==>
                    graph[r, c] == old(graph[r, c])
      {
        var j := 0;
        while j < n
          invariant graph == old(graph) && nodeCount == n && Valid()
          invariant 0 <= j <= n
          invariant forall r, c :: 0 <= r < i && 0 <= c < n ==> graph[r, c] == 0
          invariant forall c :: 0 <= c < j ==> graph[i, c] == 0
          invariant forall r, c :: 0 <= r < MAX_NODES && 0 <= c < MAX_NODES && !(r < i && c < n) && !(r == i && c < j) ==>
                      graph[r, c] == old(graph[r, c])
        {
          graph[i, j] := 0;
          j := j + 1;
        }
        i := i + 1;
      }
    }

    /** Sets the weight of the edge from -> to, whatever the weight is; when
        either endpoint is not a valid node nothing changes. */
    method AddConnection(from: int, to: int, weight: int)
      requires Valid()
      modifies graph
      ensures forall i, j :: 0 <= i < MAX_NODES && 0 <= j < MAX_NODES ==>
                graph[i, j] == if IsValidNode(from) && IsValidNode(to) && i == from && j == to then weight else old(graph[i, j])
    {
      if from >= nodeCount || from < 0 || to >= nodeCount || to < 0 {
        return;
      }
      graph[from, to] := weight;
    }

    /** Builds the predefined six-node topology. */
    method CreateTestTopology()
      requires Valid()
      modifies this, graph
      ensures Valid() && graph == old(graph) && nodeCount == 6
      ensures forall i, j :: 0 <= i < 6 && 0 <= j < 6 ==> graph[i, j] == TestWeight(i, j)
      ensures forall i, j :: 0 <= i < MAX_NODES && 0 <= j < MAX_NODES && !(i < 6 && j < 6) ==>
                graph[i, j] == old(graph[i, j])
    {
      Init(6);
      AddConnection(0, 1, 7);
      AddConnection(0, 2, 12);
      AddConnection(1, 2, 2);
      AddConnection(1, 3, 9);
      AddConnection(2, 4, 10);
      AddConnection(4, 3, 4);
      AddConnection(3, 5, 1);
      AddConnection(4, 5, 5);
    }

    /** One edit of the interactive topology editor, with the menu choice and
        the typed numbers passed in: only the cell from -> to may change, to
        the value EditedWeight gives, and the node count never changes. */
    method ApplyEdit(choice: int, from: int, to: int, weight: int)
      requires Valid()
      modifies graph
      ensures forall i, j :: 0 <= i < MAX_NODES && 0 <= j < MAX_NODES ==>
                graph[i, j] ==
                  match EditedWeight(nodeCount, choice, from, to, weight)
                  case Some(w) => if i == from && j == to then w else old(graph[i, j])
                  case None => old(graph[i, j])
      ensures old(NonNegativeWeights()) ==> NonNegativeWeights()
    {
      match choice {
        case 1 =>
          if from >= 0 && from < nodeCount && to >= 0 && to < nodeCount && weight > 0 {
            AddConnection(from, to, weight);
          }
        case 2 =>
          if from >= 0 && from < nodeCount && to >= 0 && to < nodeCount {
            graph[from, to] := 0;
          }
        case 3 =>
          if from >= 0 && from < nodeCount && to >= 0 && to < nodeCount && weight > 0 {
            graph[from, to] := weight;
          }
        case _ =>
      }
    }
  }
}
