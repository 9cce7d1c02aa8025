/**
 * The graph model of js/visualGraph.js without its rendering: nodes and
 * edges compared by identity, the edge-sequence queries of `Graph`, the
 * editing operations that change the node and edge sequences in place, and
 * the object form that `VisualGraph.toString` and `VisualGraph.fromObject`
 * exchange (the JSON text layer around it is not modelled).
 */
module VisualGraph {
  import opened Optional
  import opened Sequences

  /** `NODE_TYPES`: the category codes a node carries. */
  const DEFAULT: int := 0
  const SOURCE: int := 1
  const TARGET: int := 2

  /** A node: an identity with a position and a category code. */
  class Node {
    const x: real
    const y: real
    const kind: int

    constructor (x: real, y: real, kind: int)
      ensures this.x == x && this.y == y && this.kind == kind
    {
      this.x := x;
      this.y := y;
      this.kind := kind;
    }
  }

  /** A directed edge between two nodes; edges too are compared by identity. */
  class Edge {
    const from: Node
    const to: Node

    constructor (from: Node, to: Node)
      ensures this.from == from && this.to == to
    {
      this.from := from;
      this.to := to;
    }
  }

  // The predicates the source passes to `filter`, named so that every use is the same term.

  function FromIs(n: Node): Edge -> bool { (e: Edge) => e.from == n }
  function ToIs(n: Node): Edge -> bool { (e: Edge) => e.to == n }
  function Touches(n: Node): Edge -> bool { (e: Edge) => e.from == n || e.to == n }
  function Avoids(n: Node): Edge -> bool { (e: Edge) => !(e.from == n || e.to == n) }
  function Joins(a: Node, b: Node): Edge -> bool { (e: Edge) => e.from == a && e.to == b }
  function IsNot(edge: Edge?): Edge -> bool { (e: Edge) => e != edge }
  function NotAmong(es: seq<Edge>): Edge -> bool { (e: Edge) => e !in es }
  function KindIs(t: int): Node -> bool { (n: Node) => n.kind == t }
  function NodeIsNot(node: Node): Node -> bool { (n: Node) => n != node }

  /** `edgesFrom`: exactly the edges leaving `n`. */
  function EdgesFrom(edges: seq<Edge>, n: Node): (r: seq<Edge>)
    ensures forall i :: 0 <= i < |r| ==> r[i] in edges && r[i].from == n
    ensures forall j :: 0 <= j < |edges| && edges[j].from == n ==> edges[j] in r
  {
    assert forall j :: 0 <= j < |edges| ==> FromIs(n)(edges[j]) == (edges[j].from == n);
    Filter(edges, FromIs(n))
  }

  /** `edgesTo`: exactly the edges entering `n`. */
  function EdgesTo(edges: seq<Edge>, n: Node): (r: seq<Edge>)
    ensures forall i :: 0 <= i < |r| ==> r[i] in edges && r[i].to == n
    ensures forall j :: 0 <= j < |edges| && edges[j].to == n ==> edges[j] in r
  {
    assert forall j :: 0 <= j < |edges| ==> ToIs(n)(edges[j]) == (edges[j].to == n);
    Filter(edges, ToIs(n))
  }

  /** `edgesIncluding`: exactly the edges with `n` at either end. */
  function EdgesIncluding(edges: seq<Edge>, n: Node): (r: seq<Edge>)
    ensures forall i :: 0 <= i < |r| ==> r[i] in edges && (r[i].from == n || r[i].to == n)
    ensures forall j :: 0 <= j < |edges| && (edges[j].from == n || edges[j].to == n) ==> edges[j] in r
  {
    assert forall j :: 0 <= j < |edges| ==> Touches(n)(edges[j]) == (edges[j].from == n || edges[j].to == n);
    Filter(edges, Touches(n))
  }

  function Heads(es: seq<Edge>): seq<Node> { seq(|es|, i requires 0 <= i < |es| => es[i].to) }
  function Tails(es: seq<Edge>): seq<Node> { seq(|es|, i requires 0 <= i < |es| => es[i].from) }

  /** Some edge of `edges` leads from `a` to `b`. */
  ghost predicate HasEdge(edges: seq<Edge>, a: Node, b: Node) {
    exists j :: 0 <= j < |edges| && edges[j].from == a && edges[j].to == b
  }

  /** `childrenOf`: the `to` end of every edge leaving `n`. */
  function ChildrenOf(edges: seq<Edge>, n: Node): (r: seq<Node>)
    ensures forall i :: 0 <= i < |r| ==>
      HasEdge(edges, n, r[i])
    ensures forall j :: 0 <= j < |edges| && edges[j].from == n ==> edges[j].to in r
  {
    EndsOfFiltered(edges, n, true);
    Heads(EdgesFrom(edges, n))
  }

  /** `parentsOf`: the `from` end of every edge entering `n`. */
  function ParentsOf(edges: seq<Edge>, n: Node): (r: seq<Node>)
    ensures forall i :: 0 <= i < |r| ==>
      HasEdge(edges, r[i], n)
    ensures forall j :: 0 <= j < |edges| && edges[j].to == n ==> edges[j].from in r
  {
    EndsOfFiltered(edges, n, false);
    Tails(EdgesTo(edges, n))
  }

  lemma EndsOfFiltered(edges: seq<Edge>, n: Node, out: bool)
    ensures out ==> var r := Heads(EdgesFrom(edges, n));
      && (forall i :: 0 <= i < |r| ==>
            HasEdge(edges, n, r[i]))
      && (forall j :: 0 <= j < |edges| && edges[j].from == n ==> edges[j].to in r)
    ensures !out ==> var r := Tails(EdgesTo(edges, n));
      && (forall i :: 0 <= i < |r| ==>
            HasEdge(edges, r[i], n))
      && (forall j :: 0 <= j < |edges| && edges[j].to == n ==> edges[j].from in r)
  {
    if out {
      var es := EdgesFrom(edges, n);
      var r := Heads(es);
      forall i | 0 <= i < |r|
        ensures HasEdge(edges, n, r[i])
      {
        assert FromIs(n)(es[i]);
        var j :| 0 <= j < |edges| && edges[j] == es[i];
        assert edges[j].from == n && edges[j].to == r[i];
      }
      forall j | 0 <= j < |edges| && edges[j].from == n ensures edges[j].to in r {
        assert FromIs(n)(edges[j]);
        var i :| 0 <= i < |es| && es[i] == edges[j];
        assert r[i] == edges[j].to;
      }
    } else {
      var es := EdgesTo(edges, n);
      var r := Tails(es);
      forall i | 0 <= i < |r|
        ensures HasEdge(edges, r[i], n)
      {
        assert ToIs(n)(es[i]);
        var j :| 0 <= j < |edges| && edges[j] == es[i];
        assert edges[j].to == n && edges[j].from == r[i];
      }
      forall j | 0 <= j < |edges| && edges[j].to == n ensures edges[j].from in r {
        assert ToIs(n)(edges[j]);
        var i :| 0 <= i < |es| && es[i] == edges[j];
        assert r[i] == edges[j].from;
      }
    }
  }

  /** `nodesOfType`: exactly the nodes of category `t`. */
  function NodesOfType(nodes: seq<Node>, t: int): (r: seq<Node>)
    ensures forall i :: 0 <= i < |r| ==> r[i] in nodes && r[i].kind == t
    ensures forall i :: 0 <= i < |nodes| && nodes[i].kind == t ==> nodes[i] in r
  {
    assert forall i :: 0 <= i < |nodes| ==> KindIs(t)(nodes[i]) == (nodes[i].kind == t);
    Filter(nodes, KindIs(t))
  }

  /** `edgeConnecting`: the first edge from `a` to `b`, or undefined. */
  function EdgeConnecting(edges: seq<Edge>, a: Node, b: Node): (r: Option<Edge>)
    ensures r.Some? ==> r.value in edges && r.value.from == a && r.value.to == b
    ensures r.None? <==> forall j :: 0 <= j < |edges| ==> !(edges[j].from == a && edges[j].to == b)
  {
    var matching := Filter(edges, Joins(a, b));
    assert forall j :: 0 <= j < |edges| && edges[j].from == a && edges[j].to == b ==> edges[j] in matching by {
      assert forall j :: 0 <= j < |edges| ==> Joins(a, b)(edges[j]) == (edges[j].from == a && edges[j].to == b);
    }
    if |matching| > 0 then Some(matching[0]) else None
  }

  /** `removeEdge`: drop the given edge object; `undefined` (here `null`) matches none. */
  function Without(edges: seq<Edge>, edge: Edge?): (r: seq<Edge>)
    ensures forall i :: 0 <= i < |r| ==> r[i] in edges && r[i] != edge
    ensures forall j :: 0 <= j < |edges| && edges[j] != edge ==> edges[j] in r
  {
    assert forall j :: 0 <= j < |edges| ==> IsNot(edge)(edges[j]) == (edges[j] != edge);
    Filter(edges, IsNot(edge))
  }

  /** The undefined `edgeConnecting` result becomes the null edge. */
  function OrNull(e: Option<Edge>): Edge? {
    if e.Some? then e.value else null
  }

  ghost predicate UniquePairs(edges: seq<Edge>) {
    forall i, j :: 0 <= i < j < |edges| ==> !(edges[i].from == edges[j].from && edges[i].to == edges[j].to)
  }

  ghost predicate EndpointsIn(edges: seq<Edge>, nodes: seq<Node>) {
    forall i :: 0 <= i < |edges| ==> edges[i].from in nodes && edges[i].to in nodes
  }

  /** What every editing operation keeps: no node twice, edges between members, one edge per ordered pair. */
  ghost predicate WellFormed(nodes: seq<Node>, edges: seq<Edge>) {
    Distinct(nodes) && EndpointsIn(edges, nodes) && UniquePairs(edges)
  }

  /** Children are listed in edge order: appending an edge appends at most its `to`. */
  lemma ChildrenOfAppend(edges: seq<Edge>, e: Edge, n: Node)
    ensures ChildrenOf(edges + [e], n) == ChildrenOf(edges, n) + (if e.from == n then [e.to] else [])
  {
    FilterAppend(edges, [e], FromIs(n));
    FilterSingleton(e, FromIs(n));
  }

  /** Parents are listed in edge order: appending an edge appends at most its `from`. */
  lemma ParentsOfAppend(edges: seq<Edge>, e: Edge, n: Node)
    ensures ParentsOf(edges + [e], n) == ParentsOf(edges, n) + (if e.to == n then [e.from] else [])
  {
    FilterAppend(edges, [e], ToIs(n));
    FilterSingleton(e, ToIs(n));
  }

  /** The edge found is the first match: a later edge never displaces an earlier one. */
  lemma EdgeConnectingAppend(edges: seq<Edge>, e: Edge, a: Node, b: Node)
    ensures EdgeConnecting(edges + [e], a, b) ==
      if EdgeConnecting(edges, a, b).Some? then EdgeConnecting(edges, a, b)
      else if e.from == a && e.to == b then Some(e) else None
  {
    FilterAppend(edges, [e], Joins(a, b));
    FilterSingleton(e, Joins(a, b));
  }

  /** Removing `null` (the `removeEdge(undefined)` of a failed disconnect) changes nothing. */
  lemma WithoutNull(edges: seq<Edge>)
    ensures Without(edges, null) == edges
  {
    FilterKeepsAll(edges, IsNot(null));
  }

  /** Removing an edge that is not there changes nothing. */
  lemma WithoutAbsent(edges: seq<Edge>, edge: Edge)
    requires edge !in edges
    ensures Without(edges, edge) == edges
  {
    FilterKeepsAll(edges, IsNot(edge));
  }

  lemma {:induction false} FilterUniquePairs(edges: seq<Edge>, p: Edge -> bool)
    requires UniquePairs(edges)
    ensures UniquePairs(Filter(edges, p))
  {
    if edges != [] {
      var rest := edges[1..];
      assert UniquePairs(rest);
      FilterUniquePairs(rest, p);
      var t := Filter(rest, p);
      if p(edges[0]) {
        forall j | 0 <= j < |t| ensures !(t[j].from == edges[0].from && t[j].to == edges[0].to) {
          var k :| 0 <= k < |rest| && rest[k] == t[j];
          assert edges[k + 1] == t[j];
        }
        UniquePairsCons(edges[0], t);
      }
    }
  }

  lemma UniquePairsCons(e: Edge, t: seq<Edge>)
    requires UniquePairs(t)
    requires forall j :: 0 <= j < |t| ==> !(t[j].from == e.from && t[j].to == e.to)
    ensures UniquePairs([e] + t)
  {
    var r := [e] + t;
    forall i, j | 0 <= i < j < |r| ensures !(r[i].from == r[j].from && r[i].to == r[j].to) {
      assert r[j] == t[j - 1];
      if i > 0 {
        assert r[i] == t[i - 1];
      }
    }
  }

  /** Connecting appends an edge only for a pair not yet joined, so pairs stay unique. */
  lemma ConnectKeepsUnique(edges: seq<Edge>, e: Edge)
    requires UniquePairs(edges)
    requires EdgeConnecting(edges, e.from, e.to).None?
    ensures UniquePairs(edges + [e])
  {
    var r := edges + [e];
    forall i, j | 0 <= i < j < |r| ensures !(r[i].from == r[j].from && r[i].to == r[j].to) {
      if j == |edges| {
        assert r[i] == edges[i];
      } else {
        assert r[i] == edges[i] && r[j] == edges[j];
      }
    }
  }

  /**
   * Two toggles from a state without an a->b edge: the first appends a new
   * edge, the second finds exactly that edge and removes it, restoring the
   * edge sequence.
   */
  lemma ToggleTwiceRestores(edges: seq<Edge>, e: Edge, a: Node, b: Node)
    requires EdgeConnecting(edges, a, b).None?
    requires e.from == a && e.to == b && e !in edges
    ensures EdgeConnecting(edges + [e], a, b) == Some(e)
    ensures Without(edges + [e], e) == edges
  {
    EdgeConnectingAppend(edges, e, a, b);
    FilterAppend(edges, [e], IsNot(e));
    FilterSingleton(e, IsNot(e));
    WithoutAbsent(edges, e);
  }

  /** Removing the incident edges one at a time leaves exactly the edges avoiding the node. */
  lemma RemovingIncident(edges: seq<Edge>, n: Node)
    ensures Filter(edges, NotAmong(EdgesIncluding(edges, n))) == Filter(edges, Avoids(n))
  {
    var incident := EdgesIncluding(edges, n);
    forall e | e in edges ensures NotAmong(incident)(e) == Avoids(n)(e) {
      var j :| 0 <= j < |edges| && edges[j] == e;
      if Touches(n)(e) {
        assert edges[j] in incident;
      } else {
        assert e !in incident;
      }
    }
    FilterExt(edges, NotAmong(incident), Avoids(n));
  }

  /** One more pass of the `removeNode` loop removes one more incident edge. */
  lemma RemovingOneMore(original: seq<Edge>, incident: seq<Edge>, i: int)
    requires 0 <= i < |incident|
    ensures Without(Filter(original, NotAmong(incident[..i])), incident[i])
         == Filter(original, NotAmong(incident[..i + 1]))
  {
    assert incident[..i + 1] == incident[..i] + [incident[i]];
    FilterFilter(original, NotAmong(incident[..i]), IsNot(incident[i]), NotAmong(incident[..i + 1]));
  }

  /** What `removeNode` leaves is still well formed. */
  lemma RemoveNodeKeepsWellFormed(nodes: seq<Node>, edges: seq<Edge>, n: Node)
    requires WellFormed(nodes, edges)
    ensures WellFormed(Filter(nodes, NodeIsNot(n)), Filter(edges, Avoids(n)))
  {
    var ns := Filter(nodes, NodeIsNot(n));
    var es := Filter(edges, Avoids(n));
    FilterDistinct(nodes, NodeIsNot(n));
    FilterUniquePairs(edges, Avoids(n));
    forall i | 0 <= i < |es| ensures es[i].from in ns && es[i].to in ns {
      var e := es[i];
      var j :| 0 <= j < |edges| && edges[j] == e;
      var a :| 0 <= a < |nodes| && nodes[a] == e.from;
      var b :| 0 <= b < |nodes| && nodes[b] == e.to;
      assert NodeIsNot(n)(nodes[a]) && NodeIsNot(n)(nodes[b]);
    }
  }

  /** The serialised form of a node: its position and category code. */
  datatype NodeRecord = NodeRecord(x: real, y: real, kind: int)

  /** The serialised form of an edge: the positions of its ends in the node list. */
  datatype EdgeRecord = EdgeRecord(fromIndex: int, toIndex: int)

  /** The object that `toString` hands to `JSON.stringify` and `fromObject` reads back. */
  datatype GraphObject = GraphObject(nodes: seq<NodeRecord>, edges: seq<EdgeRecord>)

  /** One record per node, in node order, holding its position and category. */
  function NodeRecords(nodes: seq<Node>): (r: seq<NodeRecord>)
    ensures |r| == |nodes|
    ensures forall i :: 0 <= i < |r| ==>
      r[i].x == nodes[i].x && r[i].y == nodes[i].y && r[i].kind == nodes[i].kind
  {
    seq(|nodes|, i requires 0 <= i < |nodes| => NodeRecord(nodes[i].x, nodes[i].y, nodes[i].kind))
  }

  /** `k` is the position of the first occurrence of `x` in `nodes`. */
  ghost predicate FirstIndex(nodes: seq<Node>, x: Node, k: int) {
    0 <= k < |nodes| && nodes[k] == x && x !in nodes[..k]
  }

  /**
   * One record per edge, in edge order: an end that is a node is named by
   * the index of its first occurrence, an end that is not by -1.
   */
  function EdgeRecords(nodes: seq<Node>, edges: seq<Edge>): (r: seq<EdgeRecord>)
    ensures |r| == |edges|
    ensures forall i :: 0 <= i < |r| ==>
      && (edges[i].from in nodes ==> FirstIndex(nodes, edges[i].from, r[i].fromIndex))
      && (edges[i].to in nodes ==> FirstIndex(nodes, edges[i].to, r[i].toIndex))
      && (edges[i].from !in nodes ==> r[i].fromIndex == -1)
      && (edges[i].to !in nodes ==> r[i].toIndex == -1)
  {
    seq(|edges|, i requires 0 <= i < |edges| =>
      EdgeRecord(IndexOf(nodes, edges[i].from), IndexOf(nodes, edges[i].to)))
  }

  ghost predicate InRange(records: seq<EdgeRecord>, n: int) {
    forall i :: 0 <= i < |records| ==>
      0 <= records[i].fromIndex < n && 0 <= records[i].toIndex < n
  }

  /**
   * The edge records of a well-formed graph all point into the node list and
   * name every ordered pair at most once.
   */
  lemma EdgeRecordsOfWellFormed(nodes: seq<Node>, edges: seq<Edge>)
    requires WellFormed(nodes, edges)
    ensures InRange(EdgeRecords(nodes, edges), |nodes|)
    ensures Distinct(EdgeRecords(nodes, edges))
  {
    var rs := EdgeRecords(nodes, edges);
    forall i, j | 0 <= i < j < |rs| ensures rs[i] != rs[j] {
    }
  }

  /**
   * Round trip of the edge list: what `fromObject` keeps of the records
   * (the first record of every pair) is the whole record list of a
   * well-formed graph, in the same order.
   */
  lemma EdgeRecordsRoundTrip(nodes: seq<Node>, edges: seq<Edge>)
    requires WellFormed(nodes, edges)
    ensures InRange(EdgeRecords(nodes, edges), |nodes|)
    ensures Dedup(EdgeRecords(nodes, edges)) == EdgeRecords(nodes, edges)
  {
    EdgeRecordsOfWellFormed(nodes, edges);
    DedupDistinct(EdgeRecords(nodes, edges));
  }

  /** Over distinct member nodes, a record names an existing edge exactly when the pair is joined. */
  lemma RecordNamesEdge(nodes: seq<Node>, edges: seq<Edge>, fi: int, ti: int)
    requires Distinct(nodes) && EndpointsIn(edges, nodes)
    requires 0 <= fi < |nodes| && 0 <= ti < |nodes|
    ensures EdgeRecord(fi, ti) in EdgeRecords(nodes, edges)
        <==> EdgeConnecting(edges, nodes[fi], nodes[ti]).Some?
  {
    var rs := EdgeRecords(nodes, edges);
    IndexOfDistinct(nodes, fi);
    IndexOfDistinct(nodes, ti);
    if EdgeRecord(fi, ti) in rs {
      var j :| 0 <= j < |rs| && rs[j] == EdgeRecord(fi, ti);
      assert nodes[IndexOf(nodes, edges[j].from)] == edges[j].from;
      assert nodes[IndexOf(nodes, edges[j].to)] == edges[j].to;
    }
    if EdgeConnecting(edges, nodes[fi], nodes[ti]).Some? {
      var j :| 0 <= j < |edges| && edges[j].from == nodes[fi] && edges[j].to == nodes[ti];
      assert rs[j] == EdgeRecord(fi, ti);
    }
  }

  /**
   * One `connectNodes` of `fromObject`: the edge records grow by the record
   * exactly when its pair was not yet joined, which is `Dedup` one record on.
   */
  lemma ConnectRecord(ns: seq<Node>, before: seq<Edge>, after: seq<Edge>, records: seq<EdgeRecord>, i: int)
    requires Distinct(ns) && EndpointsIn(before, ns)
    requires 0 <= i < |records|
    requires 0 <= records[i].fromIndex < |ns| && 0 <= records[i].toIndex < |ns|
    requires InRange(records[..i], |ns|)
    requires EdgeRecords(ns, before) == Dedup(records[..i])
    requires EdgeConnecting(before, ns[records[i].fromIndex], ns[records[i].toIndex]).Some? ==> after == before
    requires EdgeConnecting(before, ns[records[i].fromIndex], ns[records[i].toIndex]).None? ==>
      |after| == |before| + 1 && after == before + [after[|before|]]
      && after[|before|].from == ns[records[i].fromIndex] && after[|before|].to == ns[records[i].toIndex]
    ensures InRange(records[..i + 1], |ns|)
    ensures EdgeRecords(ns, after) == Dedup(records[..i + 1])
  {
    var rec := records[i];
    InRangeSnoc(records, i, |ns|);
    if EdgeConnecting(before, ns[rec.fromIndex], ns[rec.toIndex]).None? {
      ConnectNewRecord(ns, before, after[|before|], records, i);
    } else {
      ConnectKnownRecord(ns, before, records, i);
    }
  }

  /** A record whose pair is already joined adds no edge, and `Dedup` drops it too. */
  lemma ConnectKnownRecord(ns: seq<Node>, before: seq<Edge>, records: seq<EdgeRecord>, i: int)
    requires Distinct(ns) && EndpointsIn(before, ns)
    requires 0 <= i < |records|
    requires 0 <= records[i].fromIndex < |ns| && 0 <= records[i].toIndex < |ns|
    requires EdgeRecords(ns, before) == Dedup(records[..i])
    requires EdgeConnecting(before, ns[records[i].fromIndex], ns[records[i].toIndex]).Some?
    ensures EdgeRecords(ns, before) == Dedup(records[..i + 1])
  {
    RecordNamesEdge(ns, before, records[i].fromIndex, records[i].toIndex);
    DedupPrefix(records, i);
  }

  /** A record whose pair is not yet joined adds its edge, and `Dedup` keeps it. */
  lemma ConnectNewRecord(ns: seq<Node>, before: seq<Edge>, e: Edge, records: seq<EdgeRecord>, i: int)
    requires Distinct(ns) && EndpointsIn(before, ns)
    requires 0 <= i < |records|
    requires 0 <= records[i].fromIndex < |ns| && 0 <= records[i].toIndex < |ns|
    requires EdgeRecords(ns, before) == Dedup(records[..i])
    requires EdgeConnecting(before, ns[records[i].fromIndex], ns[records[i].toIndex]).None?
    requires e.from == ns[records[i].fromIndex] && e.to == ns[records[i].toIndex]
    ensures EdgeRecords(ns, before + [e]) == Dedup(records[..i + 1])
  {
    RecordNamesEdge(ns, before, records[i].fromIndex, records[i].toIndex);
    DedupPrefix(records, i);
    NewEdgeRecord(ns, before, e, records[i]);
  }

  lemma InRangeSnoc(records: seq<EdgeRecord>, i: int, n: int)
    requires 0 <= i < |records| && InRange(records[..i], n)
    requires 0 <= records[i].fromIndex < n && 0 <= records[i].toIndex < n
    ensures InRange(records[..i + 1], n)
  {
    var r := records[..i + 1];
    forall j | 0 <= j < |r| ensures 0 <= r[j].fromIndex < n && 0 <= r[j].toIndex < n {
      if j < i {
        assert r[j] == records[..i][j];
      }
    }
  }

  lemma NewEdgeRecord(ns: seq<Node>, edges: seq<Edge>, e: Edge, rec: EdgeRecord)
    requires Distinct(ns)
    requires 0 <= rec.fromIndex < |ns| && 0 <= rec.toIndex < |ns|
    requires e.from == ns[rec.fromIndex] && e.to == ns[rec.toIndex]
    ensures EdgeRecords(ns, edges + [e]) == EdgeRecords(ns, edges) + [rec]
  {
    IndexOfDistinct(ns, rec.fromIndex);
    IndexOfDistinct(ns, rec.toIndex);
    EdgeRecordsSnoc(ns, edges, e);
  }

  lemma EdgeRecordsSnoc(ns: seq<Node>, edges: seq<Edge>, e: Edge)
    ensures EdgeRecords(ns, edges + [e])
         == EdgeRecords(ns, edges) + [EdgeRecord(IndexOf(ns, e.from), IndexOf(ns, e.to))]
  {
  }

  /**
   * The graph of js/visualGraph.js: an insertion-ordered node sequence and an
   * insertion-ordered edge sequence, both reassigned by the editing methods.
   */
  class Graph {
    var nodes: seq<Node>
    var edges: seq<Edge>

    ghost predicate Valid()
      reads this
    {
      WellFormed(nodes, edges)
    }

    constructor ()
      ensures nodes == [] && edges == [] && Valid()
    {
      nodes := [];
      edges := [];
    }

    /** `addNode`: push the node. */
    method AddNode(node: Node)
      modifies this
      ensures nodes == old(nodes) + [node] && edges == old(edges)
      ensures old(Valid()) && node !in old(nodes) ==> Valid()
    {
      nodes := nodes + [node];
      assert forall i :: 0 <= i < |old(nodes)| ==> nodes[i] == old(nodes)[i];
    }

    /** `addEdge`: push the edge. */
    method AddEdge(edge: Edge)
      modifies this
      ensures edges == old(edges) + [edge] && nodes == old(nodes)
    {
      edges := edges + [edge];
    }

    /** `removeEdge`: keep every edge that is not this very object. */
    method RemoveEdge(edge: Edge?)
      modifies this
      ensures edges == Without(old(edges), edge) && nodes == old(nodes)
    {
      edges := Filter(edges, IsNot(edge));
    }

    /** `removeNode`: drop the node, then remove each edge incident to it. */
    method RemoveNode(node: Node)
      modifies this
      ensures nodes == Filter(old(nodes), NodeIsNot(node))
      ensures edges == Filter(old(edges), Avoids(node))
      ensures forall i :: 0 <= i < |edges| ==> edges[i].from != node && edges[i].to != node
      ensures old(Valid()) ==> Valid()
    {
      nodes := Filter(nodes, NodeIsNot(node));
      var incident := EdgesIncluding(edges, node);
      ghost var original := edges;
      assert Filter(original, NotAmong(incident[..0])) == original by {
        FilterKeepsAll(original, NotAmong(incident[..0]));
      }
      for i := 0 to |incident|
        invariant nodes == Filter(old(nodes), NodeIsNot(node))
        invariant edges == Filter(original, NotAmong(incident[..i]))
      {
        RemoveEdge(incident[i]);
        RemovingOneMore(original, incident, i);
      }
      assert incident[..|incident|] == incident;
      RemovingIncident(original, node);
      if old(Valid()) {
        RemoveNodeKeepsWellFormed(old(nodes), original, node);
      }
    }

    /** `connectNodes`: append a new edge only when no `from`->`to` edge exists. */
    method ConnectNodes(from: Node, to: Node)
      modifies this
      ensures nodes == old(nodes)
      ensures old(EdgeConnecting(edges, from, to)).Some? ==> edges == old(edges)
      ensures old(EdgeConnecting(edges, from, to)).None? ==>
        && |edges| == |old(edges)| + 1
        && edges == old(edges) + [edges[|old(edges)|]]
        && fresh(edges[|old(edges)|])
        && edges[|old(edges)|].from == from && edges[|old(edges)|].to == to
      ensures UniquePairs(old(edges)) ==> UniquePairs(edges)
      ensures old(Valid()) && from in nodes && to in nodes ==> Valid()
    {
      if EdgeConnecting(edges, from, to).None? {
        var e := new Edge(from, to);
        if UniquePairs(edges) {
          ConnectKeepsUnique(edges, e);
        }
        AddEdge(e);
      }
    }

    /** `disconnectNodes`: remove whatever `edgeConnecting` finds, possibly nothing. */
    method DisconnectNodes(from: Node, to: Node)
      modifies this
      ensures nodes == old(nodes)
      ensures edges == Without(old(edges), OrNull(old(EdgeConnecting(edges, from, to))))
      ensures old(UniquePairs(edges)) ==> EdgeConnecting(edges, from, to).None?
      ensures old(EdgeConnecting(edges, from, to)).None? ==> edges == old(edges)
      ensures old(Valid()) ==> Valid()
    {
      ghost var before := edges;
      var found := EdgeConnecting(edges, from, to);
      RemoveEdge(OrNull(found));
      if found.None? {
        WithoutNull(before);
      } else if old(UniquePairs(edges)) {
        forall j | 0 <= j < |edges| ensures !(edges[j].from == from && edges[j].to == to) {
          var k :| 0 <= k < |before| && before[k] == edges[j];
          var m :| 0 <= m < |before| && before[m] == found.value;
        }
      }
      if old(Valid()) {
        FilterUniquePairs(before, IsNot(OrNull(found)));
      }
    }

    /** `toggleNodeConnection`: disconnect when an edge exists, connect otherwise. */
    method ToggleNodeConnection(from: Node, to: Node)
      modifies this
      ensures nodes == old(nodes)
      ensures old(EdgeConnecting(edges, from, to)).Some? ==>
        edges == Without(old(edges), old(EdgeConnecting(edges, from, to)).value)
      ensures old(EdgeConnecting(edges, from, to)).None? ==>
        && |edges| == |old(edges)| + 1
        && edges == old(edges) + [edges[|old(edges)|]]
        && fresh(edges[|old(edges)|])
        && EdgeConnecting(edges, from, to) == Some(edges[|old(edges)|])
      ensures old(UniquePairs(edges)) ==>
        (EdgeConnecting(edges, from, to).Some? <==> old(EdgeConnecting(edges, from, to)).None?)
      ensures old(Valid()) && from in nodes && to in nodes ==> Valid()
    {
      if EdgeConnecting(edges, from, to).Some? {
        DisconnectNodes(from, to);
      } else {
        ConnectNodes(from, to);
        ToggleTwiceRestores(old(edges), edges[|old(edges)|], from, to);
      }
    }

    /** `toString` without the JSON text: node records, then edge records by node position. */
    method ToObject() returns (obj: GraphObject)
      ensures obj == GraphObject(NodeRecords(nodes), EdgeRecords(nodes, edges))
    {
      var objNodes: seq<NodeRecord> := [];
      for i := 0 to |nodes|
        invariant objNodes == NodeRecords(nodes[..i])
      {
        var n := nodes[i];
        objNodes := objNodes + [NodeRecord(n.x, n.y, n.kind)];
      }
      var objEdges: seq<EdgeRecord> := [];
      for i := 0 to |edges|
        invariant objEdges == EdgeRecords(nodes, edges[..i])
      {
        var e := edges[i];
        objEdges := objEdges + [EdgeRecord(IndexOf(nodes, e.from), IndexOf(nodes, e.to))];
      }
      assert nodes[..|nodes|] == nodes && edges[..|edges|] == edges;
      obj := GraphObject(objNodes, objEdges);
    }

    /**
     * `fromObject`: a fresh node per record, then `connectNodes` per edge
     * record, so a repeated pair is dropped. An index outside the node list
     * makes the source throw (the new edge's end is undefined), and the
     * caller keeps no graph: the result is then None.
     */
    static method FromObject(obj: GraphObject) returns (r: Option<Graph>)
      ensures r.None? <==> !InRange(obj.edges, |obj.nodes|)
      ensures r.Some? ==> fresh(r.value) && r.value.Valid()
      ensures r.Some? ==> forall i :: 0 <= i < |r.value.nodes| ==> fresh(r.value.nodes[i])
      ensures r.Some? ==> NodeRecords(r.value.nodes) == obj.nodes
      ensures r.Some? ==> EdgeRecords(r.value.nodes, r.value.edges) == Dedup(obj.edges)
    {
      var g := new Graph();
      g.AddNodeRecords(obj.nodes);
      var ok := g.ConnectEdgeRecords(obj.edges);
      r := if ok then Some(g) else None;
    }

    /** The first loop of `fromObject`: one new node per record, in order. */
    method AddNodeRecords(records: seq<NodeRecord>)
      requires nodes == [] && edges == []
      modifies this
      ensures Valid() && edges == []
      ensures NodeRecords(nodes) == records
      ensures forall i :: 0 <= i < |nodes| ==> fresh(nodes[i])
    {
      for i := 0 to |records|
        invariant Valid() && edges == []
        invariant |nodes| == i
        invariant forall j :: 0 <= j < i ==> fresh(nodes[j])
        invariant NodeRecords(nodes) == records[..i]
      {
        var rec := records[i];
        var n := new Node(rec.x, rec.y, rec.kind);
        AddNode(n);
      }
      assert records[..|records|] == records;
    }

    /**
     * The second loop of `fromObject`: `connectNodes` between the nodes at
     * the two indices of each record; false where an index is out of range.
     */
    method ConnectEdgeRecords(records: seq<EdgeRecord>) returns (ok: bool)
      requires Valid() && edges == []
      modifies this
      ensures nodes == old(nodes)
      ensures ok <==> InRange(records, |nodes|)
      ensures ok ==> Valid() && EdgeRecords(nodes, edges) == Dedup(records)
    {
      for i := 0 to |records|
        invariant Valid() && nodes == old(nodes)
        invariant InRange(records[..i], |nodes|)
        invariant EdgeRecords(nodes, edges) == Dedup(records[..i])
      {
        var rec := records[i];
        if !(0 <= rec.fromIndex < |nodes| && 0 <= rec.toIndex < |nodes|) {
          assert records[i] == rec;
          return false;
        }
        ghost var before := edges;
        ConnectNodes(nodes[rec.fromIndex], nodes[rec.toIndex]);
        ConnectRecord(nodes, before, edges, records, i);
      }
      assert records[..|records|] == records;
      ok := true;
    }
  }

  /**
   * Saving and reloading a well-formed graph gives back the same node
   * records and the same edge records, in the same order.
   */
  method Reload(g: Graph) returns (h: Graph)
    requires g.Valid()
    ensures fresh(h) && h.Valid()
    ensures NodeRecords(h.nodes) == NodeRecords(g.nodes)
    ensures EdgeRecords(h.nodes, h.edges) == EdgeRecords(g.nodes, g.edges)
  {
    var obj := g.ToObject();
    EdgeRecordsRoundTrip(g.nodes, g.edges);
    assert |obj.nodes| == |g.nodes|;
    var r := Graph.FromObject(obj);
    h := r.value;
  }

  /** Toggling the same pair twice, starting without that edge, restores the edge sequence. */
  method ToggleTwice(g: Graph, a: Node, b: Node)
    requires EdgeConnecting(g.edges, a, b).None?
    modifies g
    ensures g.nodes == old(g.nodes) && g.edges == old(g.edges)
  {
    g.ToggleNodeConnection(a, b);
    ToggleTwiceRestores(old(g.edges), g.edges[|old(g.edges)|], a, b);
    g.ToggleNodeConnection(a, b);
  }
}
