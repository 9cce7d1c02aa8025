/**
 * The strategy table of js/graphAlgo.js: the four search strategies, the
 * data each one records for a node (`initData` for the source, `heuristic`
 * for a child reached from its parent), and the `algos` name lookup.
 *
 * A strategy's data is a JavaScript object with an optional `g` and an
 * optional `cost`; a missing field is `None`. Arithmetic on a missing field
 * gives NaN in the source, which compares false both ways, so it stays
 * `None` here and `Less` is false on it. Distances are the abstract `dist`
 * parameter (the source's floating-point `distanceTo`).
 */
module Strategies {
  import opened Optional
  import opened VisualGraph

  datatype Strategy = BreadthFirst | DepthFirst | AStar | Greedy

  /** The heuristic data of one node: `{cost}`, `{g}` or `{g, cost}`. */
  datatype HData = HData(g: Option<real>, cost: Option<real>)

  /** `undefined + x` is NaN, which behaves like a missing value in every comparison. */
  function Plus(a: Option<real>, b: real): Option<real> {
    if a.Some? then Some(a.value + b) else None
  }

  /** `initData`: `{cost: 0}` for BFS and DFS, `{g: 0}` for A*, undefined for greedy. */
  function InitData(s: Strategy): (r: Option<HData>)
    ensures r.Some? <==> s != Greedy
    ensures r.Some? ==> (r.value.g.Some? <==> s == AStar) && (r.value.cost.Some? <==> s != AStar)
    ensures r.Some? && r.value.g.Some? ==> r.value.g.value == 0.0
    ensures r.Some? && r.value.cost.Some? ==> r.value.cost.value == 0.0
  {
    match s
    case BreadthFirst => Some(HData(None, Some(0.0)))
    case DepthFirst => Some(HData(None, Some(0.0)))
    case AStar => Some(HData(Some(0.0), None))
    case Greedy => None
  }

  /**
   * `heuristic(parentData, node, parent, target)`. Every strategy but greedy
   * reads a field of `parentData`, which the source requires to be an object.
   */
  function Heuristic(s: Strategy, parentData: Option<HData>, node: Node, parent: Node, target: Node,
                     dist: (Node, Node) -> real): (r: HData)
    requires s != Greedy ==> parentData.Some?
    // BFS and DFS keep only a cost, one more or one less than the parent's (NaN stays NaN)
    ensures s == BreadthFirst || s == DepthFirst ==>
      r.g.None? && (r.cost.Some? <==> parentData.value.cost.Some?)
    ensures s == BreadthFirst && r.cost.Some? ==> r.cost.value == parentData.value.cost.value + 1.0
    ensures s == DepthFirst && r.cost.Some? ==> r.cost.value == parentData.value.cost.value - 1.0
    // A*: g grows by the edge's length and the cost is f = g + h
    ensures s == AStar ==>
      && (r.g.Some? <==> parentData.value.g.Some?)
      && (r.g.Some? ==> r.g.value == parentData.value.g.value + dist(parent, node))
      && r.cost == Plus(r.g, dist(node, target))
    // greedy: the cost is h alone, whatever the parent
    ensures s == Greedy ==> r == HData(None, Some(dist(node, target)))
  {
    match s
    case BreadthFirst => HData(None, Plus(parentData.value.cost, 1.0))
    case DepthFirst => HData(None, Plus(parentData.value.cost, -1.0))
    case AStar =>
      var g := Plus(parentData.value.g, dist(parent, node));
      HData(g, Plus(g, dist(node, target)))
    case Greedy => HData(None, Some(dist(node, target)))
  }

  /** The comparison `tentativeData.cost < known.cost`, false when either cost is missing. */
  predicate Less(a: HData, b: HData) {
    a.cost.Some? && b.cost.Some? && a.cost.value < b.cost.value
  }

  /** Sum of the distances along a path, accumulated from the source as A* does. */
  function PathCost(dist: (Node, Node) -> real, p: seq<Node>): real {
    if |p| <= 1 then 0.0 else PathCost(dist, p[..|p| - 1]) + dist(p[|p| - 2], p[|p| - 1])
  }

  /**
   * The data a strategy records for a node reached along path `p` from the
   * source: the reference definition `Heuristic` is proved to follow.
   */
  function ExpectedData(s: Strategy, p: seq<Node>, target: Node, dist: (Node, Node) -> real): Option<HData>
    requires |p| >= 1
  {
    var depth := (|p| - 1) as real;
    match s
    case BreadthFirst => Some(HData(None, Some(depth)))
    case DepthFirst => Some(HData(None, Some(-depth)))
    case AStar =>
      if |p| == 1 then Some(HData(Some(0.0), None))
      else Some(HData(Some(PathCost(dist, p)), Some(PathCost(dist, p) + dist(p[|p| - 1], target))))
    case Greedy =>
      if |p| == 1 then None else Some(HData(None, Some(dist(p[|p| - 1], target))))
  }

  /** The source's data is `initData`. */
  lemma InitDataExpected(s: Strategy, source: Node, target: Node, dist: (Node, Node) -> real)
    ensures ExpectedData(s, [source], target, dist) == InitData(s)
  {
  }

  /**
   * Extending a path by one edge: the heuristic applied to the parent's
   * recorded data gives the child's data for the longer path. BFS counts
   * edges, DFS counts them negatively, A* adds the edge length to `g` and the
   * remaining distance to the cost, greedy uses the remaining distance alone.
   */
  lemma HeuristicExtends(s: Strategy, p: seq<Node>, child: Node, target: Node, dist: (Node, Node) -> real)
    requires |p| >= 1
    ensures s != Greedy ==> ExpectedData(s, p, target, dist).Some?
    ensures Some(Heuristic(s, ExpectedData(s, p, target, dist), child, p[|p| - 1], target, dist))
         == ExpectedData(s, p + [child], target, dist)
  {
    var q := p + [child];
    assert q[..|q| - 1] == p;
    assert q[|q| - 2] == p[|p| - 1];
  }

  /** Every node other than the source (paths of two or more nodes) has a cost. */
  lemma ExpectedDataHasCost(s: Strategy, p: seq<Node>, target: Node, dist: (Node, Node) -> real)
    requires |p| >= 2
    ensures ExpectedData(s, p, target, dist).Some?
    ensures ExpectedData(s, p, target, dist).value.cost.Some?
  {
  }

  /** The key of each strategy in `algos`, as the algorithm selector names it. */
  function Name(s: Strategy): string {
    match s
    case BreadthFirst => "bfs"
    case DepthFirst => "dfs"
    case AStar => "aStar"
    case Greedy => "greedy"
  }

  /** `algos[name]`: undefined for a name the table does not hold. */
  function Algos(name: string): (r: Option<Strategy>)
    ensures r.Some? ==> Name(r.value) == name
  {
    if name == "bfs" then Some(BreadthFirst)
    else if name == "dfs" then Some(DepthFirst)
    else if name == "aStar" then Some(AStar)
    else if name == "greedy" then Some(Greedy)
    else None
  }

  /** Every strategy is found under its own name. */
  lemma AlgosName(s: Strategy)
    ensures Algos(Name(s)) == Some(s)
  {
  }
}
