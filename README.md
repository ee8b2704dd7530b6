# Java-Graph in Dafny

This project models the `graph` package of Java-Graph, a small library of
weighted graphs:

- `Node` holds a data value, a name, a list of outgoing `Edge`s and a list of
  neighbours. Two nodes are equal when their data and their names are equal.
- `Edge` has two fixed endpoints and a weight that can be changed.
- `DirectedGraph` and `UndirectedGraph` keep a list of nodes. They add nodes,
  connect and disconnect pairs of member nodes, and update a node's data or an
  edge's weight. The undirected graph does each of these on both sides.
- The default methods of `Graph` connect or disconnect one node to a whole list.
- `GraphAlgorithms` provides breadth-first search, depth-first search and
  Dijkstra's shortest distances.

The model keeps the library's shape. `Node`, `Edge` and the two graph classes
are Dafny classes whose methods change their fields in place. The lists are
`seq` fields. Every null check and every thrown `IllegalArgumentException`
becomes an `Option` argument and an `Outcome` or `Result` value that carries
the exception's message (`Errors.Message`; `Errors.Text` gives the wording).
`NegativeWeightException` becomes `Errors.NegativeWeight` with the offending
weight.

Java's `equals` on nodes is captured by `Nodes.NodeKey`, the pair
(data, name). `List.contains`, `List.remove(Object)` and `removeIf` are all
modelled through that key, so the model keeps the library's behaviour when two
distinct nodes are equal. This matters in two places:

- **Disconnecting a self-loop.** `Node.disconnect` removes every edge to the
  target but only the first equal neighbour. If a node's neighbour list holds
  two equal entries, the edges and the neighbours fall out of step.
  `Nodes.DisconnectDesyncsOnEqualNeighbors` shows this on a two-edge list.
- **Undirected self-loops.** `UndirectedGraph.connect(n, n)` adds the self-loop
  once and then fails with "Nodes are already connected". As a result
  `disconnect(n, n)` always fails after its first half, unless the neighbour
  list held `n` twice (`Undirected.UndirectedGraph.Disconnect`, the
  `node1 == node2` clauses).

The undirected graph's promise is that every connection runs both ways with
one weight. `Undirected.UndirectedGraph.Symmetric` states this over the
members: the weight of the first edge from `a` to a node equal to `b` is the
weight of the first edge from `b` to a node equal to `a`, or both are
missing. Every single-pair operation that changes lists or weights
(connect, disconnect, updateEdgeWeight) keeps the graph symmetric when its
members are pairwise unequal
(`Undirected.UndirectedGraph.UniqueMembers`). On such a graph, connect and
disconnect on two distinct members succeed exactly when the pair was not
connected (connect) or was connected (disconnect). They never stop after the
first half.

The algorithms read the heap. Their specifications are stated over a value
snapshot, `Nodes.Snapshot(U)`: a directed graph given as a `map` from each node
to the arcs of its outgoing edges. Module `Paths` defines walks, reachability,
walk weight and shortest distance over that map.

- **Bfs and Dfs** return each key at most once, and every node they return
  is reachable from the start. When no two reachable nodes are equal, they
  return every reachable node.
- **The order of Bfs and Dfs** is pinned down by `Algorithms.Order`, the run
  of the search. Each step lists the head of the work list and marks the
  not yet visited targets of its edges, in edge order. `bfs` appends them to
  its queue. `dfs` pushes them one by one, so the last one ends on top.
  `Algorithms.OrderDetermined` shows that two finished runs from the same
  start list the same nodes in the same order.
- **Bfs** also returns, as a ghost, the parent of each discovered node. The
  parents never decrease, which is the first-in-first-out order of its queue.
- **Dijkstra:**
  - It is refused with "Source node must be part of the graph" exactly when
    the source is null or not in the graph.
  - It reports a negative weight only for an arc reachable from the source.
  - When it succeeds, the map is finite exactly on the reachable nodes, and
    each finite value is the weight of a shortest walk.

## Model

| member | source | states |
|---|---|---|
| Nodes.Edge.constructor | src/main/java/graph/Edge.java:21-29 | the new edge has the given endpoints and weight |
| Nodes.Edge.Unit | src/main/java/graph/Edge.java:37-39 | the two-argument constructor gives weight 1 |
| Nodes.Edge.SetWeight | src/main/java/graph/Edge.java:45-47 | the weight becomes the argument and nothing else changes |
| Nodes.Node.constructor | src/main/java/graph/Node.java:25-34 | a node with the given data and name and empty edge and neighbour lists |
| Nodes.Node.Create | src/main/java/graph/Node.java:25-34 | fails with "Data and name cannot be null" exactly when data or name is null; otherwise a fresh node with those fields and empty lists |
| Nodes.Node.CreateDefault | src/main/java/graph/Node.java:41-43 | fails exactly when data is null; otherwise a fresh node named `DefaultName(data)` ("n" followed by the decimal digits of data) |
| Nodes.Node.SetName | src/main/java/graph/Node.java:49-55 | a null name fails with "Name cannot be null" and keeps the name; otherwise the name becomes the argument |
| Nodes.Node.SetData | src/main/java/graph/Node.java:61-67 | a null value fails with "Data cannot be null" and keeps the data; otherwise the data becomes the argument |
| Nodes.Node.Equals | src/main/java/graph/Node.java:117-122 | two nodes are equal if and only if their data and names are equal |
| Nodes.Node.HashCode | src/main/java/graph/Node.java:124-127 | the hash is a 32-bit pattern of `Objects.hash(data, name)` |
| Nodes.HashCodeConsistent | src/main/java/graph/Node.java:116-127 | equal nodes have equal hash codes |
| Nodes.Wrap | src/main/java/graph/Node.java:124-127 | the 32-bit reduction is in range and congruent to its argument |
| Nodes.StringHash | src/main/java/graph/Node.java:124-127 | the string hash is a 32-bit pattern |
| Nodes.DefaultName | src/main/java/graph/Node.java:41-43 | the default name starts with 'n' and has at least one more character |
| Nodes.Decimal | src/main/java/graph/Node.java:41-43 | the decimal text of an integer is non-empty, made of digits, and starts with '-' exactly when the integer is negative |
| Nodes.DigitsRoundTrip | src/main/java/graph/Node.java:41-43 | reading back the decimal digits gives the number, and only 0 is written with a leading zero |
| Nodes.DecimalInjective | src/main/java/graph/Node.java:41-43 | two integers have the same decimal text if and only if they are equal |
| Nodes.DefaultNameInjective | src/main/java/graph/Node.java:41-43 | two data values get the same default name if and only if they are equal |
| Nodes.Node.Connect | src/main/java/graph/Node.java:84-95 | a null target fails with "Target node cannot be null"; a target equal to a neighbour fails with "Nodes are already connected"; both leave the lists alone; otherwise exactly one fresh edge and the target are appended; the edges and the neighbours stay in step |
| Nodes.Node.Disconnect | src/main/java/graph/Node.java:103-114 | a null target or one not among the neighbours fails and changes nothing; otherwise every edge to an equal target goes and the first equal neighbour goes; the lists stay in step when the neighbours were pairwise unequal |
| Nodes.DisconnectFacts | src/main/java/graph/Node.java:112-113 | the kept edges are old edges; with pairwise unequal neighbours their targets are the neighbours minus the first equal one; the keys follow |
| Nodes.DisconnectKeepsLockstep | src/main/java/graph/Node.java:112-113 | over pairwise unequal keys, removing every equal edge and the first equal neighbour leaves matching lists |
| Nodes.DisconnectDesyncsOnEqualNeighbors | src/main/java/graph/Node.java:112-113 | with two equal neighbours, every edge is removed but one neighbour stays, so the lists no longer match |
| Nodes.ConnectThenDisconnectRestores | src/main/java/graph/Node.java:84-114 | connecting a new target and then disconnecting it gives back the original edges and neighbours |
| Nodes.ConnectKeepsDistinct | src/main/java/graph/Node.java:89-94 | appending a node not yet contained keeps the neighbours pairwise unequal |
| Nodes.DisconnectKeepsDistinct | src/main/java/graph/Node.java:113 | removing the first equal neighbour keeps the neighbours pairwise unequal |
| Nodes.RemoveFirstGone | src/main/java/graph/Node.java:113 | with pairwise unequal neighbours, the removed node is no longer contained |
| Nodes.ContainsKey | src/main/java/graph/Node.java:89 | `contains` holds if and only if the node's key is among the list's keys |
| Nodes.FirstIndex | src/main/java/graph/Node.java:113 | the first position of a key, or None exactly when the key is absent |
| Nodes.DropFirst | src/main/java/graph/Node.java:113 | `remove(Object)` shortens the list by one when the key is present and changes nothing otherwise |
| Nodes.RemoveFirst | src/main/java/graph/Node.java:113 | the same on the node list, through node equality |
| Nodes.Without | src/main/java/graph/Node.java:112 | `removeIf` never lengthens the list |
| Nodes.WithoutExactly | src/main/java/graph/Node.java:112 | `removeIf` keeps exactly the entries whose key differs from the removed one |
| Nodes.EdgesNotTo | src/main/java/graph/Node.java:112 | the edges left by `removeIf` are no more than before |
| Nodes.FirstEdgeTo | src/main/java/graph/DirectedGraph.java:70-75 | the first edge whose target equals the node; None exactly when no edge's target does |
| Nodes.SetFirstWeight | src/main/java/graph/DirectedGraph.java:70-75 | the first matching edge gets the weight and no other edge of the node changes |
| Nodes.Validate | src/main/java/graph/DirectedGraph.java:87-95 | no message exactly when both nodes are non-null members; otherwise "Nodes cannot be null" or "Both nodes must be part of the graph" |
| Nodes.KeepThenWithout | src/main/java/graph/Graph.java:100-107 | one more `removeIf` after the earlier ones equals removing all the keys so far |
| Nodes.KeepNone | src/main/java/graph/Graph.java:100-107 | before any step of the batch disconnect, nothing has been removed |
| Nodes.KeepKeys | src/main/java/graph/Graph.java:100-107 | the keys of the edges left after the batch steps are the old keys with the same entries kept |
| Nodes.DropEachKeys | src/main/java/graph/Graph.java:100-107 | the keys of the neighbours left after the batch steps are what the steps compute on the keys |
| Nodes.WellFormedAppend | src/main/java/graph/DirectedGraph.java:29-30 | adding a node with empty lists keeps every node's lists in step |
| Nodes.Snapshot | src/main/java/graph/GraphAlgorithms.java:40-41 | the snapshot has exactly the given nodes, each mapped to the arcs of its edges |
| Nodes.SnapshotUnchanged | src/main/java/graph/GraphAlgorithms.java:27-83 | a search that changes no node and no edge leaves the snapshot as it was |
| Directed.DirectedGraph.constructor | src/main/java/graph/DirectedGraph.java:14-16 | an empty, well-formed graph |
| Directed.DirectedGraph.GetNodes | src/main/java/graph/DirectedGraph.java:19-21 | the nodes, in order |
| Directed.DirectedGraph.AddNode | src/main/java/graph/DirectedGraph.java:24-32 | null data fails with "Node data cannot be null" and adds nothing; otherwise a fresh node with the default name is appended; well-formedness is kept |
| Directed.DirectedGraph.AddNodeNamed | src/main/java/graph/DirectedGraph.java:35-39 | fails with the node constructor's message exactly when data or name is null; otherwise a fresh node is appended |
| Directed.DirectedGraph.Connect | src/main/java/graph/DirectedGraph.java:42-45 | succeeds exactly when the validation passes and the target is not a neighbour; then one edge of the given weight is appended; a failure carries the first refusal's message and leaves the lists alone; well-formedness is kept |
| Directed.DirectedGraph.ConnectUnit | src/main/java/graph/Graph.java:47-49 | the same with weight 1 |
| Directed.DirectedGraph.Disconnect | src/main/java/graph/DirectedGraph.java:48-51 | succeeds exactly when the validation passes and the target is a neighbour; then the target's edges and first neighbour entry go; a failure changes nothing |
| Directed.DirectedGraph.UpdateNodeData | src/main/java/graph/DirectedGraph.java:54-64 | null node or data fails with "Node and new data cannot be null", a non-member with "Node must be part of the graph"; otherwise the data is replaced |
| Directed.DirectedGraph.UpdateEdgeWeight | src/main/java/graph/DirectedGraph.java:67-78 | validation failures first, then "Edge does not exist" exactly when no edge leads to the target; otherwise the first such edge gets the weight and no other edge changes |
| Directed.DirectedGraph.OwnListsKeepValid | src/main/java/graph/DirectedGraph.java:42-51 | changing one member's lists in step, toward members only, keeps the graph well-formed |
| Directed.DirectedGraph.ConnectAll | src/main/java/graph/Graph.java:59-66 | the up-front check fails with "Invalid nodes or weights" and changes nothing; otherwise the targets are connected in order: every applied step passed validation and named a target not yet listed after the steps before it, the edges gained are the ones made for those steps with their weights, the batch passes exactly when every step was applied, and a failure carries the refusal of the first step not applied |
| Directed.DirectedGraph.ConnectAllUnit | src/main/java/graph/Graph.java:75-82 | the same with weight 1 and "Invalid nodes" |
| Directed.DirectedGraph.DisconnectNext | src/main/java/graph/Graph.java:104-105 | one step of the batch disconnect passes exactly when both nodes are members and the target's key is still among the neighbours' keys; it then extends the removed keys by the target's key, and a failure carries the target's refusal and changes nothing |
| Directed.DirectedGraph.ConnectNext | src/main/java/graph/Graph.java:64 | one step of the batch connect passes exactly when it is admitted (both members, target not yet listed); it then appends one fresh edge with the weight, and a failure carries the refusal and changes nothing |
| Directed.DirectedGraph.DisconnectAll | src/main/java/graph/Graph.java:100-107 | "Invalid nodes" up front and no change; otherwise the targets are disconnected in order: every applied step had member nodes and a target whose key was still a neighbour's key after the steps before it, the lists are the old lists with those keys removed one by one, the batch passes exactly when every step was applied, and a failure carries the refusal of the first step not applied, which named a non-member or a target whose key was no longer a neighbour's key |
| Directed.DirectedGraph.DisconnectAt | src/main/java/graph/Graph.java:104-105 | step `i` after the earlier removals: a pass removes the target's key from from's lists and adds one step that had members and a still-listed target key; a failure changes nothing, carries the target's refusal, and its nodes or key did not qualify |
| Directed.DirectedGraph.UnhookStep | src/main/java/graph/Graph.java:104-105 | one more step on members whose target key is still listed extends the record of applied steps |
| Undirected.UndirectedGraph.constructor | src/main/java/graph/UndirectedGraph.java:14-16 | an empty graph: well-formed, symmetric, with no two equal members |
| Undirected.UndirectedGraph.GetNodes | src/main/java/graph/UndirectedGraph.java:19-21 | the nodes, in order |
| Undirected.UndirectedGraph.AddNode | src/main/java/graph/UndirectedGraph.java:24-28 | null data fails with the node constructor's message "Data and name cannot be null"; otherwise a fresh default-named node is appended; a symmetric graph with unequal members stays so when the new node equals no member |
| Undirected.UndirectedGraph.AddNodeNamed | src/main/java/graph/UndirectedGraph.java:31-39 | null data fails with "Node data cannot be null", a null name with the node constructor's message; otherwise a fresh node is appended; a symmetric graph with unequal members stays so when the new node equals no member |
| Undirected.UndirectedGraph.Connect | src/main/java/graph/UndirectedGraph.java:42-46 | validation failures and an existing connection change nothing; otherwise node1 gains the edge; a self-connection then fails as already connected; for two nodes node2 gains the back edge unless it already had node1, in which case the call fails after the first half; on a symmetric graph with unequal members the graph stays symmetric, and for two distinct members the call succeeds exactly when they were not connected |
| Undirected.UndirectedGraph.ConnectUnit | src/main/java/graph/Graph.java:47-49 | the same with weight 1, including the symmetry clauses |
| Undirected.UndirectedGraph.Disconnect | src/main/java/graph/UndirectedGraph.java:49-53 | validation failures and a missing connection change nothing; for two nodes node1 loses its edges to node2 and node2 loses its edges to node1, or fails after the first half; a self-disconnection succeeds only if the neighbours held the node twice, and always fails when they were pairwise unequal; on a symmetric graph with unequal members the graph stays symmetric, and for two distinct members the call succeeds exactly when they were connected |
| Undirected.UndirectedGraph.DisconnectPair | src/main/java/graph/UndirectedGraph.java:51-52 | the two halves for distinct nodes, as above |
| Undirected.UndirectedGraph.DisconnectSelf | src/main/java/graph/UndirectedGraph.java:51-52 | the two halves on the same node: the second succeeds exactly when an equal neighbour remains, and then both removals have happened |
| Undirected.UndirectedGraph.DisconnectSide | src/main/java/graph/Node.java:103-114 | one node's disconnect, with "Nodes are not connected" exactly when the target is not a neighbour |
| Undirected.UndirectedGraph.ConnectPair | src/main/java/graph/UndirectedGraph.java:44-45 | the two halves of connect on members: a target already listed fails and changes nothing; otherwise node1 gains one edge; for a self-connection the second half fails as already connected; for two nodes node2 gains the back edge exactly when it did not list node1 |
| Undirected.UndirectedGraph.UpdateNodeData | src/main/java/graph/UndirectedGraph.java:56-66 | as in the directed graph |
| Undirected.UndirectedGraph.UpdateEdgeWeight | src/main/java/graph/UndirectedGraph.java:69-91 | validation failures first; "Edge does not exist" exactly when node1 has no edge to node2, and then no weight changes; otherwise node1's first such edge and node2's first edge back, if any, get the weight and nothing else changes; on a symmetric graph with unequal members the back edge always exists and the graph stays symmetric |
| Undirected.SetBothWeights | src/main/java/graph/UndirectedGraph.java:72-90 | the two loops: the first matching edge on each side gets the weight, the second loop runs only when the first found one, and every other edge keeps its weight |
| Undirected.UndirectedGraph.SetWeights | src/main/java/graph/UndirectedGraph.java:72-90 | the same two loops on the graph: on a symmetric graph with unequal members, a found edge always has an edge back, and the graph stays symmetric |
| Undirected.UndirectedGraph.OwnListsKeepValid | src/main/java/graph/UndirectedGraph.java:42-53 | changing some members' lists in step, toward members only, keeps the graph well-formed |
| Undirected.UndirectedGraph.ConnectRefusal | src/main/java/graph/UndirectedGraph.java:42-46 | a refused connect reports a validation message or "Nodes are already connected" |
| Undirected.UndirectedGraph.ConnectNext | src/main/java/graph/Graph.java:64 | one step of the batch connect: from gains exactly one fresh edge to the target exactly when the first half is admitted (members, target not yet listed), and the step passes exactly when, besides, the target is another node that did not list from; a failure carries the target's refusal |
| Undirected.UndirectedGraph.ConnectAll | src/main/java/graph/Graph.java:59-66 | "Invalid nodes or weights" up front, changing nothing; otherwise the steps run in order: every applied step had its first half admitted after the steps before it and named another node that did not list from; from's edges grow by the edges made for those steps, with their weights; the batch passes exactly when every step was applied; the first step not applied carries its refusal, is not such a step, and left its first half exactly when that half was admitted |
| Undirected.UndirectedGraph.ConnectAllUnit | src/main/java/graph/Graph.java:75-82 | the same with weight 1 and "Invalid nodes" |
| Undirected.UndirectedGraph.ConnectEach | src/main/java/graph/Graph.java:63-65 | the loop of both batch connects, with the contract of the weighted batch for a given target and weight list |
| Undirected.UndirectedGraph.StepJudged | src/main/java/graph/Graph.java:63-65 | the lists the earlier steps changed do not alter whether a step is admitted, or whether its target lists from, against the state before the batch |
| Undirected.UndirectedGraph.DisconnectRefusal | src/main/java/graph/UndirectedGraph.java:49-53 | a refused disconnect reports a validation message or "Nodes are not connected" |
| Undirected.UndirectedGraph.DisconnectStep | src/main/java/graph/Graph.java:105 | one undirected disconnect seen from `from`: nothing is removed exactly when the first half is refused, and the step then fails; otherwise the target's entries are removed once, or twice for a self-loop that passes; a self-loop passes exactly when an equal neighbour is left after the first removal, and a step to another node passes exactly when that node listed from |
| Undirected.UndirectedGraph.DisconnectNext | src/main/java/graph/Graph.java:104-105 | one step leaves the removed keys alone exactly when its first half is refused, and otherwise extends them by the target's key, twice for a successful self-disconnection; a pass removed something; a failure carries the target's refusal |
| Undirected.UndirectedGraph.KeysFacts | src/main/java/graph/Graph.java:100-107 | the keys of the kept lists are computed from the entry keys |
| Undirected.UndirectedGraph.DisconnectAll | src/main/java/graph/Graph.java:100-107 | "Invalid nodes" up front, changing nothing; otherwise the targets are disconnected in order: every applied step named a non-null target whose key, with from's, was a member key and still a neighbour key after the steps before it, a self-loop found itself again, and a target no earlier step named listed from; from's lists are the old lists with the removed keys taken out in order; the batch passes exactly when every step was applied, and the refused step is recorded with its message and what its first half removed |
| Undirected.UndirectedGraph.DisconnectAt | src/main/java/graph/Graph.java:104-105 | one step of the batch disconnect after the earlier removals: a pass adds one applied step, a failure records the refusal, and later targets no step named still list from exactly as before |
| Undirected.UndirectedGraph.StepOutcome | src/main/java/graph/Graph.java:104-105 | what one two-sided disconnect reports about its halves makes the applied steps grow by one, or records the refused step |
| Undirected.UndirectedGraph.Linked | src/main/java/graph/Node.java:89-94 | in a valid graph a member lists `b` among its neighbours exactly when it has an edge to a node equal to `b` |
| Undirected.UndirectedGraph.Mirrored | src/main/java/graph/UndirectedGraph.java:42-53 | in a valid symmetric graph `a` lists `b` exactly when `b` lists `a` |
| Undirected.UndirectedGraph.BackEdge | src/main/java/graph/UndirectedGraph.java:85-90 | in a valid symmetric graph with unequal members, an edge from `a` to `b` has an edge back from `b` to `a` |
| Undirected.UndirectedGraph.SymmetryKept | src/main/java/graph/UndirectedGraph.java:42-91 | a change that keeps the members and their keys and every weight except the two between one pair, which become equal, keeps the graph symmetric |
| Undirected.UndirectedGraph.ListsKeepSymmetric | src/main/java/graph/UndirectedGraph.java:42-53 | a refused step that changes no list, no weight and no key keeps the graph symmetric |
| Undirected.UndirectedGraph.AddKeepsSymmetric | src/main/java/graph/UndirectedGraph.java:24-39 | appending a node without edges that equals no member keeps the graph symmetric and its members unequal |
| Undirected.UndirectedGraph.AppendKeepsSymmetric | src/main/java/graph/UndirectedGraph.java:42-46 | one edge of one weight appended each way between two unconnected members keeps the graph symmetric |
| Undirected.UndirectedGraph.RemoveKeepsSymmetric | src/main/java/graph/UndirectedGraph.java:49-53 | removing the edges to each other from two connected members, or from one member to itself once or twice, keeps the graph symmetric |
| Undirected.UndirectedGraph.RemovedViews | src/main/java/graph/UndirectedGraph.java:49-53 | after a two-sided disconnect between members, each of the two has no weight toward the other and keeps every other weight, and every other member keeps all its weights |
| Undirected.UndirectedGraph.WeightsKept | src/main/java/graph/UndirectedGraph.java:49-53 | members whose edge lists, edge weights and keys did not change keep their weight toward every key |
| Undirected.UndirectedGraph.WeightsSetKeepSymmetric | src/main/java/graph/UndirectedGraph.java:72-90 | the two loops of updateEdgeWeight keep the graph symmetric, and the first finds an edge only when the second does |
| Undirected.UndirectedGraph.ReweightKeepsSymmetric | src/main/java/graph/UndirectedGraph.java:75-87 | giving the first edge each way between two members one new weight keeps the graph symmetric |
| Undirected.RemovalWeights | src/main/java/graph/Node.java:112 | `removeIf` on the edges to one node, once or twice, removes that key's weight and keeps every other key's weight |
| Undirected.WeightInAppend | src/main/java/graph/Node.java:91-92 | appending an edge adds a weight only for a key that had none |
| Algorithms.Bfs | src/main/java/graph/GraphAlgorithms.java:27-51 | the result is the node list of the first-in-first-out run from the start whose queue ran empty: each step lists the queue's head and appends its not yet visited targets in edge order; it starts with the start node, holds no two equal nodes, and holds only reachable nodes; with unique keys it holds every reachable node; the ghost parent indices are non-decreasing |
| Algorithms.EnqueueNeighbours | src/main/java/graph/GraphAlgorithms.java:40-47 | the queue grows by exactly the targets the inner loop takes (`Fresh`: those not yet visited, in edge order, each key once), the visited set becomes `Fresh`'s, every target of the current node ends up visited, and each new entry has the current node as parent |
| Algorithms.Enqueue | src/main/java/graph/GraphAlgorithms.java:43-46 | appending an unseen target keeps the traversal invariant and the queue order |
| Algorithms.FifoStep | src/main/java/graph/GraphAlgorithms.java:45 | a node discovered by the latest expanded node keeps the parents non-decreasing |
| Algorithms.Dfs | src/main/java/graph/GraphAlgorithms.java:59-83 | the result is the node list of the last-in-first-out run from the start whose stack ran empty: each step lists the popped node and pushes its not yet visited targets in edge order, so the last one is on top; it starts with the start node, holds no two equal nodes, holds only reachable nodes, and with unique keys holds every reachable node |
| Algorithms.PushNeighbours | src/main/java/graph/GraphAlgorithms.java:72-79 | the new stack is the targets the inner loop takes (`Fresh`), reversed so the last pushed is on top, followed by the old stack; the visited set becomes `Fresh`'s and every target of the current node ends up visited |
| Algorithms.FreshFacts | src/main/java/graph/GraphAlgorithms.java:40-47 | the targets taken are pairwise unequal targets whose keys were not visited; afterwards every target's key is visited, and the visited set grew by exactly the keys taken |
| Algorithms.FreshAdvance | src/main/java/graph/GraphAlgorithms.java:43-46 | one more edge of the queue loop: an unseen target is appended and marked, a seen one changes nothing |
| Algorithms.PushAdvance | src/main/java/graph/GraphAlgorithms.java:75-78 | one more edge of the stack loop: an unseen target is pushed on top and marked, a seen one changes nothing |
| Algorithms.Reversed | src/main/java/graph/GraphAlgorithms.java:77 | the reversal has the same length, its entries in the opposite order |
| Algorithms.OrderStep | src/main/java/graph/GraphAlgorithms.java:36-48 | listing the head of the work list and replacing the work list as the inner loop does extends a run by one step |
| Algorithms.OrderAgrees | src/main/java/graph/GraphAlgorithms.java:36-48 | two runs from the same start agree on their first steps: same work lists, same visited sets, same nodes listed |
| Algorithms.OrderDetermined | src/main/java/graph/GraphAlgorithms.java:36-48 | two finished runs from the same start list the same nodes in the same order |
| Algorithms.Exhausted | src/main/java/graph/GraphAlgorithms.java:36-48 | when the work list runs empty, every target of a listed node is listed, and with unique keys every reachable node is listed |
| Algorithms.DiscoveredReachable | src/main/java/graph/GraphAlgorithms.java:40-47 | every node discovered through a parent chain is reachable from the first |
| Algorithms.VisitedHoldsReachable | src/main/java/graph/GraphAlgorithms.java:36-48 | once every returned node has all its targets visited, every reachable node has been returned |
| Algorithms.Discover | src/main/java/graph/GraphAlgorithms.java:43-46 | marking an unseen target visited and adding it keeps the traversal invariant |
| Algorithms.UnequalKeys | src/main/java/graph/GraphAlgorithms.java:31 | the result holds no two equal nodes if and only if its keys are distinct |
| Algorithms.UnequalCount | src/main/java/graph/GraphAlgorithms.java:31 | a list of pairwise unequal nodes has as many keys as entries |
| Algorithms.VisitedKeys | src/main/java/graph/GraphAlgorithms.java:31-34 | a visited set as large as the result and holding its keys is exactly its key set |
| Algorithms.OwnerOf | src/main/java/graph/GraphAlgorithms.java:31 | with unique keys there is a map from each key back to its node |
| Algorithms.OwnedUnique | src/main/java/graph/GraphAlgorithms.java:31 | such a map implies unique keys |
| Algorithms.MinIndex | src/main/java/graph/GraphAlgorithms.java:105-111 | `poll` takes an entry of least distance, the first one among equals |
| Algorithms.InitDistances | src/main/java/graph/GraphAlgorithms.java:98-101 | every graph node starts at infinity, and the map has exactly their keys |
| Algorithms.Dijkstra | src/main/java/graph/GraphAlgorithms.java:93-136 | fails with "Source node must be part of the graph" exactly when the source is null or not a member; a success has one entry per node key; a negative weight is reported only for an arc reachable from the source; with unique keys it succeeds exactly when no reachable arc is negative, and then each entry is finite exactly for reachable nodes and equals their shortest distance |
| Algorithms.Run | src/main/java/graph/GraphAlgorithms.java:98-135 | the algorithm after the membership check, with the same guarantees |
| Algorithms.Start | src/main/java/graph/GraphAlgorithms.java:103-108 | the initial map and queue satisfy the loop invariant |
| Algorithms.Search | src/main/java/graph/GraphAlgorithms.java:110-133 | the loop ends with a reachable negative arc or, with unique keys, with the shortest distances |
| Algorithms.Poll | src/main/java/graph/GraphAlgorithms.java:111-132 | one iteration keeps the loop invariant and either settles a new node or shrinks the queue |
| Algorithms.Expand | src/main/java/graph/GraphAlgorithms.java:117-132 | settling a node that was not visited keeps the invariant and grows the visited set by one |
| Algorithms.Settling | src/main/java/graph/GraphAlgorithms.java:111-117 | the polled node joins the settled set with the least distance as the new bound |
| Algorithms.Relax | src/main/java/graph/GraphAlgorithms.java:119-132 | the first negative weight in edge order is reported; otherwise every edge is relaxed and the invariant kept |
| Algorithms.RelaxEdge | src/main/java/graph/GraphAlgorithms.java:125-131 | after one edge, the target's distance is at most the node's distance plus the weight, no distance grows, and the invariant is kept |
| Algorithms.OfferedStep | src/main/java/graph/GraphAlgorithms.java:125-131 | relaxing the next edge extends the set of relaxed edges |
| Algorithms.RelaxedAll | src/main/java/graph/GraphAlgorithms.java:119-132 | after all edges, every arc out of a settled node respects its target's distance |
| Algorithms.RelaxWitness | src/main/java/graph/GraphAlgorithms.java:128-130 | every improved distance is the weight of a walk from the source, and the improved node is on the queue |
| Algorithms.RelaxMonotone | src/main/java/graph/GraphAlgorithms.java:128-130 | an improvement never goes below the last settled distance and leaves settled nodes alone |
| Algorithms.RelaxedLower | src/main/java/graph/GraphAlgorithms.java:128-130 | lowering an unsettled distance keeps the settled arcs relaxed |
| Algorithms.RelaxQueue | src/main/java/graph/GraphAlgorithms.java:130 | a pushed node is reached by an edge from a discovered node |
| Algorithms.OptimalKept | src/main/java/graph/GraphAlgorithms.java:128-130 | settled distances that do not change stay optimal |
| Algorithms.Settle | src/main/java/graph/GraphAlgorithms.java:111-117 | the polled unvisited node is new to the settled set and no queued distance is below it |
| Algorithms.SettleCurrent | src/main/java/graph/GraphAlgorithms.java:111-117 | with no reachable negative arc, the least queued distance is a lower bound on every walk to that node |
| Algorithms.SettleOptimal | src/main/java/graph/GraphAlgorithms.java:111-117 | settling the least node keeps every settled distance optimal |
| Algorithms.FrontierPop | src/main/java/graph/GraphAlgorithms.java:111 | removing the polled node from the queue and settling it keeps the frontier invariant |
| Algorithms.FrontierSkip | src/main/java/graph/GraphAlgorithms.java:113-115 | dropping a node that was already settled keeps the frontier invariant |
| Algorithms.NegativeFound | src/main/java/graph/GraphAlgorithms.java:120-123 | a negative edge met by the loop lies on an arc reachable from the source |
| Algorithms.Finished | src/main/java/graph/GraphAlgorithms.java:110-135 | when the queue is empty, the map holds exactly the shortest distances |
| Algorithms.Initially | src/main/java/graph/GraphAlgorithms.java:103-108 | the source at 0 on the queue satisfies the witness and frontier invariants |
| Paths.EmptyWalk | src/main/java/graph/GraphAlgorithms.java:103 | the source is reachable from itself by a walk of weight 0 |
| Paths.ReachableStep | src/main/java/graph/GraphAlgorithms.java:40-46 | following an edge from a reachable node reaches its target |
| Paths.WitnessStep | src/main/java/graph/GraphAlgorithms.java:126-129 | a walk of weight d, extended by an edge of weight w, gives a walk of weight d + w |
| Paths.SourceBound | src/main/java/graph/GraphAlgorithms.java:103 | with no reachable negative arc, 0 is a lower bound on the source's distance |
| Paths.SettleNext | src/main/java/graph/GraphAlgorithms.java:111-117 | the least distance outside the settled set is a lower bound on every walk to that node |
| Paths.CrossingWeight | src/main/java/graph/GraphAlgorithms.java:120-126 | with no reachable negative arc, a walk weighs at least its prefix plus the next arc |
| Paths.ExitArc | src/main/java/graph/GraphAlgorithms.java:111-117 | a walk leaving a set has an arc from inside to outside |
| Paths.ClosedHoldsReachable | src/main/java/graph/GraphAlgorithms.java:36-48 | a set closed under the arcs holds everything reachable from its members |
| Errors.Text | src/main/java/graph/Node.java:27 | every exception message is non-empty text |

## Left out

- Generics: the node data type `T` is fixed to `int`. Java's `double` weights
  are integers, and `Double.POSITIVE_INFINITY` is `None` in the distance map.
  Floating-point rounding is not modelled.
- The exception message of `NegativeWeightException` (the weight followed by a
  link) is reduced to the weight. `NegativeWeightException.java` and
  `Main.java` (a demo) are not part of this model.
- Nodes.Edge.constructor: the check "fromNode and toNode cannot be null" is
  carried by the non-null parameter types. Every caller in the package passes
  the non-null node itself.
- `getEdges`, `getNeighbors`, `getData`, `getName`, `getFromNode`, `getToNode`
  and `getWeight` are field reads.
- Algorithms.Bfs, Algorithms.Dfs: a null start node, which makes Java's
  `ArrayDeque` throw a null pointer exception, is excluded by the non-null
  parameter type. The ghost set `U` they require always exists: the nodes
  reachable from the start are one.
- Algorithms.Dijkstra: it requires that the graph's nodes are closed under
  edge targets, compared by object identity. Java needs less. It throws a
  null pointer exception (GraphAlgorithms.java line 128) only when an
  expanded node has an edge to a node equal to no member, since
  `distances.get` then returns null. That exception is not modelled.
- Algorithms.Bfs, Algorithms.Dfs: the completeness clause (every reachable node is returned)
  holds only when no two reachable nodes are equal. With equal nodes the
  visited set hides one of them, as Java's `HashSet` does. The order is
  stated as the exact queue discipline (`Algorithms.Order`); the fact that
  the hop distances of the result never decrease is not derived from it.
- Directed.DirectedGraph.Connect: it keeps the graph well-formed when the
  target is a member by object identity. Java's membership check uses
  `equals`, so an equal non-member passes it. The model follows Java's check
  and states well-formedness only for identical members.
- Directed.DirectedGraph.DisconnectAll: the list of targets is a value
  `seq`. Java iterates the caller's live list. When that list is one the
  loop changes, as in `disconnect(a, a.getNeighbors())`, Java removes only
  the first target or throws `ConcurrentModificationException`. That aliasing
  is not modelled.
- Undirected.UndirectedGraph.DisconnectAll: the same live-list aliasing is
  not modelled.
- Directed.DirectedGraph.ConnectAll: the weights are a `seq<int>`. A null
  entry in Java's `List<Double>` throws a null pointer exception when it is
  unboxed (Graph.java line 64); that is not modelled.
- Undirected.UndirectedGraph.ConnectAll: the same null-weight exception is
  not modelled.
- Undirected.UndirectedGraph.Symmetric: symmetry is stated and kept only
  over pairwise unequal members (`UniqueMembers`). Java allows two equal
  nodes in one graph. Then `equals`-based lookups cannot tell them apart, and
  the first edge to either one stands for both.
- Undirected.UndirectedGraph.UpdateNodeData: it does not state that the
  graph stays symmetric. A new data value changes the node's key, and with
  it which edges count as edges to that node.
- Algorithms.Dijkstra: the shortest-distance result is proved only when no two
  nodes of the graph are equal. With equal nodes, Java's `HashMap` merges
  their entries and the model states only the keys and the negative-weight
  report.
- Algorithms.MinIndex: Java's `PriorityQueue` compares through the live
  distance map, so lowering a distance of a queued node can break its heap
  order. The model polls an entry of least current distance, the first among
  equals. It does not model a heap that is out of order, or the heap's own
  tie-breaking.
- Directed.DirectedGraph.ConnectAll, Directed.DirectedGraph.ConnectAllUnit and
  Directed.DirectedGraph.DisconnectAll do not state that the graph stays
  well-formed. They state which steps were applied, why the first other one
  was refused, and the new lists of `from` that those steps leave.
  Carrying well-formedness through every step of the loop made these proofs
  too expensive for the verifier; the single-pair connect and disconnect state it.
- Undirected.UndirectedGraph.ConnectAll, Undirected.UndirectedGraph.ConnectAllUnit
  and Undirected.UndirectedGraph.DisconnectAll state which steps were applied,
  why the first other one was refused, and the new lists of `from`. They do
  not state the back edges that each step adds to or removes from the
  targets, nor that the graph stays symmetric: tracking every target's lists
  and the symmetry through the loop made these proofs too expensive for the
  verifier. The single-pair connect and disconnect state both.
- Undirected.UndirectedGraph.DisconnectAll: for a refused step whose target
  an earlier step already named (possible only once a key change made two
  of `from`'s neighbours equal), whether its second half would have passed
  is left open; for that step the contract states only what its first half
  removed.
- Nodes.Node.HashCode: the string hash is Java's `String.hashCode` over the
  UTF-16 code units. The model uses the character codes of `seq<char>`.
