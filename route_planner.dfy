/**
 * The RoutePlanner object of route_planner.cpp: it works on the model's node
 * array in place (visited flags, parent links, g and h values), keeps the
 * open list, and writes the distance and the path of the route it finds.
 */
module RoutePlanner {
  import opened RouteModel
  import opened PlannerSpec

  /**
   * The part of NextNode's sort that decides its result: the position of a
   * node of the open list that no other node of the list comes after under
   * Compare, i.e. one with the smallest g + h.
   */
  method LowestIndex(open: seq<nat>, ns: seq<Node>) returns (k: nat)
    requires open != [] && forall i :: 0 <= i < |open| ==> open[i] < |ns|
    ensures k < |open|
    ensures forall j :: 0 <= j < |open| ==> !Compare(ns[open[k]], ns[open[j]])
  {
    k := 0;
    var i := 1;
    while i < |open|
      invariant 1 <= i <= |open| && k < i
      invariant forall j :: 0 <= j < i ==> !Compare(ns[open[k]], ns[open[j]])
    {
      if Compare(ns[open[k]], ns[open[i]]) {
        k := i;
      }
      i := i + 1;
    }
  }

  class Planner {
    /** The read-only part of the model. */
    const graph: Graph
    /** The model's nodes; the search writes their search fields. */
    const nodes: array<Node>
    const startNode: nat
    const endNode: nat

    var openList: seq<nat>
    /** The length of the last path built, in metres. */
    var distance: real
    /** `m_Model.path`: the route handed back to the model. */
    var path: seq<nat>

    /** Parent links go to nodes of smaller rank. */
    ghost var rank: seq<nat>
    /** Every node ever pushed onto the open list, in order. */
    ghost var inserted: seq<nat>
    /** Every node ever taken off the open list, in order. */
    ghost var popped: seq<nat>

    /**
     * A node is visited exactly when it has been pushed onto the open list,
     * no node is pushed twice, and the open list holds what was pushed and
     * not yet taken off.
     */
    ghost predicate Valid()
      reads this`openList, this`rank, this`inserted, this`popped, nodes
    {
      graph.Valid() && nodes.Length == graph.Size() &&
      startNode < nodes.Length && endNode < nodes.Length && |rank| == nodes.Length &&
      OpenLog(nodes[..], openList, inserted, popped)
    }

    /**
     * The parent links form a tree rooted at the start node, every parent
     * link is an edge of the graph, and every node was scored from its parent.
     */
    ghost predicate Tree()
      reads this`rank, nodes
    {
      ParentLinks(nodes[..], startNode, rank) && ParentEdges(graph, nodes[..], startNode) &&
      Scored(graph, endNode, startNode, nodes[..])
    }

    /** The planner for a freshly loaded model, with the start and end nodes already looked up. */
    constructor (graph: Graph, nodes: array<Node>, startNode: nat, endNode: nat)
      requires graph.Valid() && nodes.Length == graph.Size()
      requires startNode < nodes.Length && endNode < nodes.Length
      requires forall n :: 0 <= n < nodes.Length ==> !nodes[n].visited
      ensures Valid() && Tree()
      ensures this.graph == graph && this.nodes == nodes
      ensures this.startNode == startNode && this.endNode == endNode
      ensures openList == [] && path == [] && distance == 0.0
    {
      this.graph := graph;
      this.nodes := nodes;
      this.startNode := startNode;
      this.endNode := endNode;
      openList := [];
      distance := 0.0;
      path := [];
      rank := seq(nodes.Length, _ => 0);
      inserted := [];
      popped := [];
    }

    /**
     * AddNeighbors: every neighbour of `current` that is not yet visited gets
     * `current` as parent, its g and h values, is appended to the open list
     * and is marked visited; visited neighbours are left alone.
     */
    method AddNeighbors(current: nat)
      requires Valid() && current < nodes.Length
      modifies this`openList, this`rank, this`inserted, nodes
      ensures Valid()
      ensures nodes[..] == Expand(graph, endNode, current, graph.neighbors[current], old(nodes[..]), old(openList)).nodes
      ensures openList == Expand(graph, endNode, current, graph.neighbors[current], old(nodes[..]), old(openList)).open
      ensures openList == old(openList) + Undiscovered(old(nodes[..]), graph.neighbors[current])
      ensures inserted == old(inserted) + Undiscovered(old(nodes[..]), graph.neighbors[current])
      ensures rank == Rerank(old(nodes[..]), old(rank), current)
    {
      var neighbors := graph.neighbors[current];
      ghost var ns0 := nodes[..];
      ghost var open0 := openList;
      ghost var inserted0 := inserted;
      var i := 0;
      while i < |neighbors|
        invariant 0 <= i <= |neighbors|
        invariant nodes[..] == Expand(graph, endNode, current, neighbors[..i], ns0, open0).nodes
        invariant openList == Expand(graph, endNode, current, neighbors[..i], ns0, open0).open
        modifies nodes, this`openList
      {
        var neighbor := neighbors[i];
        assert neighbors[..i + 1][..i] == neighbors[..i];
        if !nodes[neighbor].visited {
          var g := nodes[current].g + graph.dist(current, neighbor);
          var h := CalculateHValue(graph, endNode, neighbor);
          nodes[neighbor] := nodes[neighbor].(parent := Some(current), g := g, h := h);
          openList := openList + [neighbor];
          nodes[neighbor] := nodes[neighbor].(visited := true);
        }
        i := i + 1;
      }
      assert neighbors[..i] == neighbors;
      ghost var r := Expand(graph, endNode, current, neighbors, ns0, open0);
      assert nodes[..] == r.nodes && openList == r.open;
      inserted := inserted + Undiscovered(ns0, neighbors);
      rank := Rerank(ns0, rank, current);
      ExpandKeepsLog(graph, endNode, current, neighbors, ns0, open0, inserted0, popped);
    }

    /**
     * NextNode: takes a node with the smallest g + h off the open list and
     * returns it; the rest of the open list stays.
     */
    method NextNode() returns (lowest: nat)
      requires Valid() && openList != []
      modifies this`openList, this`popped
      ensures Valid()
      ensures lowest in old(openList) && lowest < nodes.Length && nodes[lowest].visited
      ensures forall j :: 0 <= j < |old(openList)| ==> !Compare(nodes[lowest], nodes[old(openList)[j]])
      ensures multiset(openList) == multiset(old(openList)) - multiset{lowest}
      ensures popped == old(popped) + [lowest]
    {
      var k := LowestIndex(openList, nodes[..]);
      lowest := openList[k];
      PopKeepsLog(nodes[..], openList, inserted, popped, k);
      openList := openList[..k] + openList[k + 1..];
      popped := popped + [lowest];
    }

    /**
     * ConstructFinalPath: follows the parent links from `current` back to
     * the start node, summing the node-to-parent distances, scales the sum to
     * metres and returns the nodes in start-to-`current` order.
     */
    method ConstructFinalPath(current: nat) returns (pathFound: seq<nat>)
      requires ParentLinks(nodes[..], startNode, rank) && current < nodes.Length && nodes[current].visited
      modifies this`distance
      ensures pathFound == Chain(nodes[..], startNode, rank, current)
      ensures distance == graph.Metres(PathCost(graph, pathFound))
    {
      ghost var ns := nodes[..];
      distance := 0.0;
      pathFound := [];
      var node: nat := current;
      while true
        invariant node < |ns| && ns[node].visited
        invariant Chain(ns, startNode, rank, current) == Chain(ns, startNode, rank, node) + Reverse(pathFound)
        invariant distance + ChainDist(graph, ns, startNode, rank, node) == ChainDist(graph, ns, startNode, rank, current)
        decreases rank[node]
      {
        ReverseSnoc(pathFound, node);
        pathFound := pathFound + [node];
        if node == startNode {
          break;
        }
        var parent: nat := nodes[node].parent.value;
        assert nodes[node] == ns[node];
        assert Chain(ns, startNode, rank, node) == Chain(ns, startNode, rank, parent) + [node];
        distance := distance + graph.dist(node, parent);
        node := parent;
      }
      ChainCost(graph, ns, startNode, rank, current);
      distance := graph.Metres(distance);
      pathFound := Reverse(pathFound);
      assert nodes[..] == ns;
    }

    /** The search loop of AStarSearch, up to reaching the end node. */
    method Search()
      requires Valid() && openList == []
      requires forall n :: 0 <= n < nodes.Length ==> !nodes[n].visited
      requires graph.Reachable(startNode, endNode)
      modifies this`openList, this`rank, this`inserted, this`popped, nodes
      ensures Valid() && Tree()
      ensures nodes[endNode].visited
      ensures |popped| <= nodes.Length
      ensures LastTaken(popped, startNode, endNode)
      ensures startNode == endNode ==> popped == []
    {
      ghost var ns0 := nodes[..];
      SeedSearch(graph, endNode, startNode, ns0, inserted, popped, rank);
      openList := openList + [startNode];
      inserted := inserted + [startNode];
      var current: nat := startNode;
      nodes[current] := nodes[current].(visited := true);
      assert nodes[..] == ns0[startNode := ns0[startNode].(visited := true)];
      while current != endNode
        invariant Valid() && Tree()
        invariant SearchInv(graph, endNode, startNode, nodes[..], openList, current)
        invariant |popped| <= nodes.Length
        invariant LastTaken(popped, startNode, current)
        invariant startNode == endNode ==> popped == []
        decreases nodes.Length - |popped|
      {
        current := Step(current);
        LogBound(nodes[..], openList, inserted, popped);
      }
    }

    /** One round of AStarSearch's loop: expands `current`, then takes the next node off the open list. */
    method Step(current: nat) returns (next: nat)
      requires Valid() && Tree() && current != endNode && graph.Reachable(startNode, endNode)
      requires SearchInv(graph, endNode, startNode, nodes[..], openList, current)
      modifies this`openList, this`rank, this`inserted, this`popped, nodes
      ensures Valid() && Tree()
      ensures SearchInv(graph, endNode, startNode, nodes[..], openList, next)
      ensures var r := Expand(graph, endNode, current, graph.neighbors[current], old(nodes[..]), old(openList));
        nodes[..] == r.nodes && next in r.open &&
        (forall j :: 0 <= j < |r.open| ==> r.open[j] < nodes.Length) &&
        (forall j :: 0 <= j < |r.open| ==> !Compare(nodes[next], nodes[r.open[j]])) &&
        multiset(openList) == multiset(r.open) - multiset{next}
      ensures inserted == old(inserted) + Undiscovered(old(nodes[..]), graph.neighbors[current])
      ensures popped == old(popped) + [next]
    {
      ghost var r := Expand(graph, endNode, current, graph.neighbors[current], nodes[..], openList);
      ExpandStep(graph, endNode, startNode, current, nodes[..], openList);
      ExpandKeepsTree(graph, endNode, startNode, current, graph.neighbors[current], nodes[..], openList, rank);
      ExpandKeepsEdges(graph, endNode, startNode, current, nodes[..], openList);
      AddNeighbors(current);
      assert nodes[..] == r.nodes && openList == r.open;
      next := NextNode();
      assert nodes[..] == r.nodes;
      PopStep(graph, endNode, startNode, r.nodes, r.open, openList, next);
    }

    /**
     * AStarSearch: seeds the open list with the start node, then expands the
     * current node and moves to the cheapest open node until the end node is
     * reached, and stores the path to it. The open list can only run dry when
     * the end node is unreachable, so reachability is required.
     */
    method AStarSearch()
      requires Valid() && openList == []
      requires forall n :: 0 <= n < nodes.Length ==> !nodes[n].visited
      requires graph.Reachable(startNode, endNode)
      modifies this, nodes
      ensures Valid() && Tree()
      ensures nodes[endNode].visited
      ensures path == Chain(nodes[..], startNode, rank, endNode)
      ensures graph.IsWalk(path) && path[0] == startNode && path[|path| - 1] == endNode
      ensures distance == graph.Metres(PathCost(graph, path))
      ensures |popped| <= nodes.Length
      ensures startNode == endNode ==> path == [startNode] && distance == 0.0
      ensures LastTaken(popped, startNode, endNode)
      ensures startNode == endNode ==> popped == []
    {
      Search();
      ghost var taken := popped;
      path := ConstructFinalPath(endNode);
      assert popped == taken;
      ChainIsWalk(graph, nodes[..], startNode, rank, endNode);
    }
  }
}
