# A* route planner — Dafny model

This project models the search core of `RoutePlanner` in
`src/route_planner.cpp`: the A* search that finds a route between two nodes of
an OpenStreetMap road model. It covers how a node is scored (`CalculateHValue`),
the comparator used to sort the open list (`Compare`), how the current node is
expanded (`AddNeighbors`), how the cheapest open node is taken (`NextNode`), how
the path is read back through parent links and measured (`ConstructFinalPath`),
and the driver loop (`AStarSearch`).

The model has three modules.

- `RouteModel` (`route_model.dfy`) holds the part of the road model the
  planner touches. A node is identified by its index in the model's node
  vector. `Node` holds a node's search fields: `visited`, `parent`, `g` and `h`.
  `Graph` is the read-only part:
  - the neighbour list `FindNeighbors` yields for each node;
  - the node-to-node `distance` as a function value;
  - the map's `MetricScale`.
- `PlannerSpec` (`planner_spec.dfy`) holds value-level definitions and
  lemmas:
  - `Expand`, the state after one expansion, folded over the neighbour list in
    order;
  - `Undiscovered`, the neighbours that get pushed;
  - the parent tree, with a ghost `rank` that decreases along parent links,
    whose every link is an edge of the graph;
  - `Chain`, the path from the start node to a node along parent links, with
    its length (`ChainDist`, `PathCost`);
  - a ghost log of every push to and pop from the open list;
  - the loop invariant that keeps the open list non-empty while the end node
    is reachable.
- `RoutePlanner` (`route_planner.dfy`) holds the class `Planner`, which
  updates the nodes in place:
  - the node vector is an `array<Node>`;
  - `open_list`, `distance` and `m_Model.path` are fields;
  - each source method is a method with a `while` loop where the source has
    one;
  - every method is proved against the `PlannerSpec` definitions.

Where the loop of `AStarSearch` is concerned, the model splits the C++
function into three methods:

- `Search` covers lines 100-110: seeding the open list and running the loop.
- `Step` is one round of the loop: `AddNeighbors`, then `NextNode`.
- `AStarSearch` calls `Search`, then `ConstructFinalPath`.

The statements and their order are those of the source.

## Model

| member | source | states |
|---|---|---|
| PlannerSpec.CalculateHValue | src/route_planner.cpp:20-22 | The h value of a node is its distance to the end node. It is a pure function of the two nodes, and it is never negative when distances are non-negative. |
| PlannerSpec.Compare | src/route_planner.cpp:48-50 | `a` goes before `b` when its g + h is larger, so the cheapest node ends up at the back. Two nodes with equal g + h are never ordered against each other. |
| PlannerSpec.CompareIsStrictWeakOrder | src/route_planner.cpp:48-50 | `Compare` (larger g + h goes first) is irreflexive, asymmetric and transitive, and incomparability is transitive. That makes it a valid comparator for `std::sort`. |
| PlannerSpec.ExpandEffect | src/route_planner.cpp:31-43 | Expanding `c` appends exactly the previously unvisited neighbours to the open list, each once, in neighbour order. Each of them becomes visited, gets parent `c` and gets h = distance to the end node. Its g is `c`'s g plus the edge length. Every other node keeps all of its fields. |
| PlannerSpec.ExpandVisits | src/route_planner.cpp:32-41 | After an expansion, a node is visited exactly when it was visited before or is a neighbour of `c`. So `visited` never goes back to false. |
| PlannerSpec.UndiscoveredCount | src/route_planner.cpp:32-39 | The open list grows by exactly the number of distinct neighbours that were unvisited beforehand. |
| PlannerSpec.UndiscoveredSpec | src/route_planner.cpp:32-39 | The pushed neighbours are distinct. A node is pushed exactly when it is a neighbour and was unvisited. |
| PlannerSpec.ExpandKeepsTree | src/route_planner.cpp:32-41 | Expanding a visited node keeps two facts. Every visited node other than the start has a visited parent of smaller rank, so the parent links form a tree rooted at the start. Each such node's g and h were scored from its parent. |
| PlannerSpec.ExpandKeepsEdges | src/route_planner.cpp:31-34 | Expanding `c` over its own neighbour list keeps every parent link an edge of the graph. A node gets `c` as parent only when it is one of `c`'s neighbours. |
| PlannerSpec.ExpandKeepsLog | src/route_planner.cpp:32-41 | An expansion keeps three facts: visited means pushed at least once, no node is pushed twice, and the open list is what was pushed minus what was popped. |
| PlannerSpec.PopKeepsLog | src/route_planner.cpp:57-59 | Taking one entry off the open list keeps that log. The entry taken is a visited node, and the open list loses exactly that entry as a multiset. |
| PlannerSpec.LogBound | src/route_planner.cpp:100-110 | Pushes are distinct nodes, so there are at most as many pushes as nodes. Every pop matches an earlier push. |
| PlannerSpec.SeedSearch | src/route_planner.cpp:100-102 | On a fresh model nothing has been pushed. Pushing the start node and marking it visited sets up the log, the parent tree and the loop invariant, with the start node current. |
| PlannerSpec.ExpandCovers | src/route_planner.cpp:107 | Before an expansion, every visited node is open, current or has all its neighbours visited. After the expansion, every visited node is open or has all its neighbours visited. |
| PlannerSpec.FrontierNonEmpty | src/route_planner.cpp:105-109 | Suppose the start is visited, the end node is reachable, every visited node is open or has all its neighbours visited, and the end node is open once visited. Then the open list is not empty. |
| PlannerSpec.ExpandStep | src/route_planner.cpp:105-107 | When the current node is not the end node and the end node is reachable, the expansion leaves a non-empty open list. That open list covers every visited node, including the end node once it is visited. |
| PlannerSpec.PopStep | src/route_planner.cpp:109 | Making the node taken off the open list the current node restores the loop invariant. |
| PlannerSpec.ChainShape | src/route_planner.cpp:74-88 | The path to a visited node `n` starts at the start node and ends at `n`. It repeats no node, and each node in it is the parent of the next. |
| PlannerSpec.ChainIsWalk | src/route_planner.cpp:74-88 | When every parent link is an edge, the path read back through parent links is a walk along neighbour links from the start node to `n`. |
| PlannerSpec.ChainLength | src/route_planner.cpp:74-83 | Following parent links reaches the start node in at most as many steps as there are nodes. |
| PlannerSpec.ChainCost | src/route_planner.cpp:79-81 | The node-to-parent distances summed along the chain equal the length of the returned path, taken pair by pair. |
| PlannerSpec.ChainDistIsG | src/route_planner.cpp:35 | With symmetric distances, the length of the path to `n` is `n`'s g value minus the start node's g value. |
| PlannerSpec.Reverse | src/route_planner.cpp:88 | `std::reverse`: same length, and element `i` is element `len - 1 - i` of the input. |
| PlannerSpec.ReverseSnoc | src/route_planner.cpp:75 | Reversing a vector with one more element pushed at the back puts that element first. |
| RoutePlanner.LowestIndex | src/route_planner.cpp:54-57 | Returns a position in the open list whose node no other open node comes after under `Compare`, i.e. a smallest g + h. |
| RoutePlanner.Planner.constructor | src/route_planner.cpp:4-14 | Stores the given start and end nodes on a fresh model, with an empty open list. The ghost log and the parent tree are established. |
| RoutePlanner.Planner.AddNeighbors | src/route_planner.cpp:26-44 | The new nodes and open list are exactly `Expand` of the old ones over the current node's neighbours. The open list grows by the previously unvisited neighbours. The log and the invariant `Valid` are kept. |
| RoutePlanner.Planner.NextNode | src/route_planner.cpp:53-62 | Requires a non-empty open list. Returns an open, visited node whose g + h is at most that of every open node. The open list afterwards is the old one as a multiset minus that node, and the pop is logged. |
| RoutePlanner.Planner.ConstructFinalPath | src/route_planner.cpp:69-93 | Returns the start-to-`current` path along parent links. `distance` is that path's length times `MetricScale()`. |
| RoutePlanner.Planner.Step | src/route_planner.cpp:105-110 | One round of the loop. The nodes become `Expand` of the old ones over the current node's neighbours. The next node is an entry of that expanded open list whose g + h is at most every entry's. The open list is the expanded one minus that node, as a multiset. The pushes and the pop are logged, and the invariant and the parent tree are kept. |
| RoutePlanner.Planner.Search | src/route_planner.cpp:98-110 | Seeds the open list with the start node and loops until the end node is current. When start and end differ, the loop stops because the end node was the last node taken off the open list (`LastTaken`), not merely because it was discovered. When they coincide, nothing is taken. Each round takes exactly one node (`Step`), and at most as many nodes are taken as there are nodes. The end node is visited and the parent tree is intact. |
| RoutePlanner.Planner.AStarSearch | src/route_planner.cpp:97-115 | `m_Model.path` is the start-to-end path along parent links. It is a walk along neighbour links that starts at the start node and ends at the end node, and `distance` is its length in metres. When start and end coincide, the path is that one node, the distance is 0 and no node is taken off the open list. Otherwise the end node was the last node taken off the open list. At most as many nodes are taken as there are nodes. |

## Left out

- The constructor's coordinate scaling and `FindClosestNode` (src/route_planner.cpp:4-13): the float arithmetic and the nearest-node lookup live in the road model, which is not part of this model. The start and end nodes are passed in as indices.
- `Node::distance`, `Node::FindNeighbors` and `RouteModel::MetricScale` are not part of this model. They are parameters: a distance function assumed non-negative, a fixed neighbour list per node, and a real scale factor. The lazy filling of the neighbour vector by `FindNeighbors` is not modelled.
- Floating point: g, h, distances and the scale are `real`, with no rounding.
- RoutePlanner.Planner.NextNode: `std::sort` is not stable, so the order it leaves the rest of the open list in is not modelled. Only the node taken and the multiset of the rest are specified. In the model the node is found by a linear scan for a smallest g + h and removed from its position.
- RoutePlanner.Planner.ConstructFinalPath and RoutePlanner.Planner.AStarSearch: the path is a sequence of node indices. The source copies `Node` values into the vector.
- RoutePlanner.Planner.AStarSearch: requires the end node to be reachable from the start node. Otherwise the source calls `NextNode` on an empty open list, which is undefined behaviour. It also requires a fresh model, with no node visited and an empty open list.
- RoutePlanner.Planner.constructor: requires that no node is visited yet, as on a freshly loaded model. The source does not check this.
- PlannerSpec.ExpandEffect: the g value of a discovered node is stated only when the expanded node is not itself among the discovered ones. The search always expands a visited node, so this case never arises there.
- Shortest-path optimality is not claimed. Nodes are fixed at discovery and never relaxed, so the source does not promise a shortest path.
- How `m_Model.path` is rendered is outside this model.
