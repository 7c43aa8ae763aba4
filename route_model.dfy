/**
 * The part of the road-network model that the planner reads and writes.
 *
 * Nodes are identified by their index in the model's node vector. The
 * coordinates of a node only matter through the distance function, so the
 * read-only graph is the neighbour lists, the distance between two nodes and
 * the metric scale of the map; the mutable part of a node is its search
 * fields (visited, parent, g, h).
 */
module RouteModel {

  datatype Option<T> = None | Some(value: T)

  /** The search fields of one node: `visited`, `parent`, `g_value`, `h_value`. */
  datatype Node = Node(visited: bool, parent: Option<nat>, g: real, h: real)

  /**
   * The read-only graph: `neighbors[n]` is what `FindNeighbors` yields for
   * node `n`, `dist(a, b)` is `a.distance(b)`, `metricScale` is
   * `MetricScale()`.
   */
  datatype Graph = Graph(neighbors: seq<seq<nat>>, dist: (nat, nat) -> real, metricScale: real)
  {
    function Size(): nat { |neighbors| }

    /** Every neighbour is a node of the graph and every distance is non-negative. */
    ghost predicate Valid() {
      (forall n, i :: 0 <= n < |neighbors| && 0 <= i < |neighbors[n]| ==> neighbors[n][i] < |neighbors|) &&
      (forall a: nat, b: nat :: dist(a, b) >= 0.0)
    }

    /** A length in map units converted to metres. */
    function Metres(d: real): real {
      d * metricScale
    }

    /** Distances do not depend on the direction of travel. */
    ghost predicate Symmetric() {
      forall a: nat, b: nat :: dist(a, b) == dist(b, a)
    }

    /** `w` is a walk along neighbour links. */
    ghost predicate IsWalk(w: seq<nat>) {
      |w| > 0 &&
      (forall i :: 0 <= i < |w| ==> w[i] < |neighbors|) &&
      (forall i :: 0 <= i < |w| - 1 ==> w[i + 1] in neighbors[w[i]])
    }

    ghost predicate Reachable(a: nat, b: nat) {
      exists w :: IsWalk(w) && w[0] == a && w[|w| - 1] == b
    }
  }

  predicate Distinct(s: seq<nat>) {
    forall i, j :: 0 <= i < j < |s| ==> s[i] != s[j]
  }
}
