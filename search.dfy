/**
 * The search run that `visualize` sets up and `stepAlgo` advances in
 * js/graphAlgo.js, as functions on a value: the open list, the closed list,
 * the `paths` and `heuristicData` stores, the current node and how the run
 * stands. `Step` is the meaning of one `stepAlgo` call; the class `Run`
 * (module GraphAlgo) performs it in place and is proved to follow it.
 */
module Search {
  import opened Optional
  import opened Sequences
  import opened FakeHashtables
  import opened VisualGraph
  import opened Strategies

  /** Still stepping; stopped on the target with its path; stopped with an empty open list. */
  datatype Phase = Running | Solved(path: seq<Node>) | Exhausted

  /** What stays fixed during a run: the edges (editing is locked), the strategy and the two ends. */
  datatype Setup = Setup(edges: seq<Edge>, strategy: Strategy, source: Node, target: Node,
                         dist: (Node, Node) -> real)

  datatype State = State(
    open: seq<Node>,
    closed: seq<Node>,
    paths: Table<Node, seq<Node>>,
    data: Table<Node, Option<HData>>,
    curNode: Node?,
    phase: Phase)

  /** `heuristicData.get(n)`: undefined both for an absent key and for a stored undefined. */
  function DataOf(data: Table<Node, Option<HData>>, n: Node): (r: Option<HData>)
    ensures data.Get(n).Some? ==> r == data.Get(n).value
    ensures data.Get(n).None? ==> r.None?
  {
    match data.Get(n)
    case Some(d) => d
    case None => None
  }

  /** `heuristicData.get(n).cost`, missing when there is no data. */
  function CostOf(data: Table<Node, Option<HData>>, n: Node): Option<real> {
    var d := DataOf(data, n);
    if d.Some? then d.value.cost else None
  }

  /**
   * The sort key of the comparator `get(n1).cost - get(n2).cost`. A missing
   * cost is read as 0; `OpenCostsKnown` shows that a cost is missing only
   * while the source is alone in the open list, where no comparison happens.
   */
  function CostKey(data: Table<Node, Option<HData>>): (r: Node -> real)
    ensures forall n | n in data.keys :: CostOf(data, n).Some? ==> r(n) == CostOf(data, n).value
    ensures forall n | n in data.keys :: CostOf(data, n).None? ==> r(n) == 0.0
  {
    (n: Node) => var c := CostOf(data, n); if c.Some? then c.value else 0.0
  }

  /** The state `visualize` builds before the first frame. */
  function Init(su: Setup): (st: State)
    ensures st.open == [su.source] && st.closed == [] && st.curNode == null && st.phase == Running
    ensures st.paths.keys == [su.source] && st.data.keys == [su.source]
    ensures st.paths.Valid() && st.data.Valid()
    ensures st.paths.Get(su.source) == Some([su.source])
    ensures st.data.Get(su.source) == Some(InitData(su.strategy))
  {
    var empty := Table([], []);
    State([su.source], [], empty.Put(su.source, [su.source]),
          Table([], []).Put(su.source, InitData(su.strategy)), null, Running)
  }

  /** A path of the graph from `source` to `k`, edge by edge. */
  ghost predicate IsPath(edges: seq<Edge>, source: Node, p: seq<Node>, k: Node) {
    && |p| >= 1
    && p[0] == source
    && p[|p| - 1] == k
    && forall j :: 0 <= j < |p| - 1 ==> HasEdge(edges, p[j], p[j + 1])
  }

  /**
   * The two stores hold the same keys in the same order; each key's path is
   * a path of the graph from the source to it, and its data is what the
   * strategy assigns to that path.
   */
  ghost predicate Records(su: Setup, paths: Table<Node, seq<Node>>, data: Table<Node, Option<HData>>) {
    && paths.Valid() && data.Valid()
    && paths.keys == data.keys
    && forall i :: 0 <= i < |paths.keys| ==>
         && IsPath(su.edges, su.source, paths.values[i], paths.keys[i])
         && data.values[i] == ExpectedData(su.strategy, paths.values[i], su.target, su.dist)
  }

  /** A path from the source to a node of category TARGET. */
  ghost predicate SolvesRun(su: Setup, p: seq<Node>) {
    |p| >= 1 && IsPath(su.edges, su.source, p, p[|p| - 1]) && p[|p| - 1].kind == TARGET
  }

  /** What every state of a run satisfies. */
  ghost predicate Inv(su: Setup, st: State) {
    && Records(su, st.paths, st.data)
    && (forall i :: 0 <= i < |st.open| ==> st.open[i] in st.paths.keys)
    && (forall i :: 0 <= i < |st.closed| ==> st.closed[i] in st.paths.keys)
    && (st.closed == [] ==> st.open == [su.source] && st.curNode == null && st.phase == Running)
    && (st.closed != [] ==> su.source in st.closed && su.source !in st.open)
    && (st.curNode != null ==> st.curNode in st.closed)
    && (st.phase.Running? ==> st.open != [])
    && (st.phase.Solved? ==> SolvesRun(su, st.phase.path))
  }

  /** What the loop over the children needs: usable stores and a closed current node with a path. */
  ghost predicate Ready(su: Setup, cur: Node, st: State) {
    && st.paths.Valid() && st.data.Valid()
    && cur in st.closed && st.paths.Get(cur).Some?
    && (su.strategy != Greedy ==> DataOf(st.data, cur).Some?)
  }

  /**
   * One child of the loop in `stepAlgo`: skipped when closed; otherwise its
   * tentative data is computed from the current node's, and the child is
   * pushed to open with the extended path and the new data when it has no
   * data yet or the new cost is strictly lower.
   */
  function RelaxChild(su: Setup, cur: Node, st: State, child: Node): (r: State)
    requires Ready(su, cur, st)
    ensures Ready(su, cur, r)
    ensures r.closed == st.closed && r.curNode == st.curNode && r.phase == st.phase
    ensures r.paths.Get(cur) == st.paths.Get(cur) && r.data.Get(cur) == st.data.Get(cur)
    ensures r.open == st.open || (r.open == st.open + [child] && child !in st.closed)
    ensures st.paths.keys <= r.paths.keys
    ensures r.open != st.open ==> child in r.paths.keys
    ensures child in st.closed ==> r == st
    ensures var t := Heuristic(su.strategy, DataOf(st.data, cur), child, cur, su.target, su.dist);
      var k := DataOf(st.data, child);
      && (child !in st.closed && (k.None? || Less(t, k.value)) ==>
            && r.open == st.open + [child]
            && r.paths.Get(child) == Some(st.paths.Get(cur).value + [child])
            && r.data.Get(child) == Some(Some(t))
            && r.paths == st.paths.Put(child, st.paths.Get(cur).value + [child])
            && r.data == st.data.Put(child, Some(t)))
      && (!(k.None? || Less(t, k.value)) ==> r == st)
  {
    if child in st.closed then st
    else
      var tentative := Heuristic(su.strategy, DataOf(st.data, cur), child, cur, su.target, su.dist);
      var known := DataOf(st.data, child);
      if known.None? || Less(tentative, known.value) then
        PutKeepsOthers(st.paths, child, st.paths.Get(cur).value + [child], cur);
        PutKeepsOthers(st.data, child, Some(tentative), cur);
        st.(open := st.open + [child],
            paths := st.paths.Put(child, st.paths.Get(cur).value + [child]),
            data := st.data.Put(child, Some(tentative)))
      else st
  }

  /** The whole loop over `childrenOf(curNode)`, in edge order. */
  function Relax(su: Setup, cur: Node, st: State, children: seq<Node>): (r: State)
    requires Ready(su, cur, st)
    ensures Ready(su, cur, r)
    ensures r.closed == st.closed && r.curNode == st.curNode && r.phase == st.phase
    ensures r.paths.Get(cur) == st.paths.Get(cur) && r.data.Get(cur) == st.data.Get(cur)
    decreases |children|
  {
    if children == [] then st
    else Relax(su, cur, RelaxChild(su, cur, st, children[0]), children[1..])
  }

  /** The loop only appends to open: what was there stays, in order. */
  lemma {:induction false} RelaxKeepsOpen(su: Setup, cur: Node, st: State, children: seq<Node>)
    requires Ready(su, cur, st)
    ensures var r := Relax(su, cur, st, children);
      |st.open| <= |r.open| && r.open[..|st.open|] == st.open
    decreases |children|
  {
    if children != [] {
      var next := RelaxChild(su, cur, st, children[0]);
      RelaxKeepsOpen(su, cur, next, children[1..]);
      var r := Relax(su, cur, next, children[1..]);
      assert Relax(su, cur, st, children) == r;
      assert r.open[..|st.open|] == r.open[..|next.open|][..|st.open|];
    }
  }

  /** The loop drops no key of the stores: the old keys are a prefix of the new. */
  lemma {:induction false} RelaxKeepsKeys(su: Setup, cur: Node, st: State, children: seq<Node>)
    requires Ready(su, cur, st)
    ensures st.paths.keys <= Relax(su, cur, st, children).paths.keys
    decreases |children|
  {
    if children != [] {
      var next := RelaxChild(su, cur, st, children[0]);
      RelaxKeepsKeys(su, cur, next, children[1..]);
      var r := Relax(su, cur, next, children[1..]);
      assert Relax(su, cur, st, children) == r;
      assert st.paths.keys == next.paths.keys[..|st.paths.keys|];
      assert next.paths.keys == r.paths.keys[..|next.paths.keys|];
    }
  }

  /**
   * What the loop appends to open are children that are not closed, each
   * with a recorded path.
   */
  lemma {:induction false} RelaxPushes(su: Setup, cur: Node, st: State, children: seq<Node>)
    requires Ready(su, cur, st)
    ensures var r := Relax(su, cur, st, children);
      forall i :: |st.open| <= i < |r.open| ==>
        r.open[i] in children && r.open[i] !in st.closed && r.open[i] in r.paths.keys
    decreases |children|
  {
    if children != [] {
      var next := RelaxChild(su, cur, st, children[0]);
      RelaxPushes(su, cur, next, children[1..]);
      RelaxKeepsOpen(su, cur, next, children[1..]);
      RelaxKeepsKeys(su, cur, next, children[1..]);
      var r := Relax(su, cur, next, children[1..]);
      assert Relax(su, cur, st, children) == r;
      forall i | |st.open| <= i < |r.open|
        ensures r.open[i] in children && r.open[i] !in st.closed && r.open[i] in r.paths.keys
      {
        if i < |next.open| {
          assert r.open[i] == next.open[i] == children[0];
          assert children[0] in next.paths.keys;
        } else {
          assert r.open[i] in children[1..];
        }
      }
    }
  }

  /**
   * One `stepAlgo`: sort open by cost (stably), move its head to closed and
   * make it current; stop with its path when it is a target; otherwise relax
   * its children and stop when open is left empty.
   *
   * Popping a target ends the run with that node's recorded path and
   * appends nothing to open; otherwise the run ends exactly when open is
   * left empty.
   */
  function Step(su: Setup, st: State): (r: State)
    requires CanStep(su, st)
    ensures r.curNode != null && r.curNode in st.open && r.closed == st.closed + [r.curNode]
    ensures r.curNode.kind == TARGET ==>
      && r.phase.Solved? && st.paths.Get(r.curNode) == Some(r.phase.path) && |r.open| == |st.open| - 1
      && r.paths == st.paths && r.data == st.data
    ensures r.curNode.kind != TARGET ==> !r.phase.Solved? && (r.phase == Exhausted <==> r.open == [])
  {
    var sorted := SortBy(st.open, CostKey(st.data));
    HeadRecorded(su, st);
    var cur := sorted[0];
    assert cur in multiset(sorted);
    var popped := st.(open := sorted[1..], closed := st.closed + [cur], curNode := cur);
    if cur.kind == TARGET then
      popped.(phase := Solved(st.paths.Get(cur).value))
    else
      var relaxed := Relax(su, cur, popped, ChildrenOf(su.edges, cur));
      relaxed.(phase := if relaxed.open == [] then Exhausted else Running)
  }

  /**
   * A step pops the earliest node of least cost: it becomes current and is
   * appended to closed, and open loses exactly that one entry before any
   * child is appended.
   */
  lemma StepPops(su: Setup, st: State, i: int)
    requires CanStep(su, st) && IsFirstMin(st.open, CostKey(st.data), i)
    ensures var r := Step(su, st);
      && r.curNode == st.open[i] && r.closed == st.closed + [st.open[i]]
      && |st.open| - 1 <= |r.open|
      && multiset(r.open[..|st.open| - 1]) + multiset{st.open[i]} == multiset(st.open)
  {
    var sorted := SortBy(st.open, CostKey(st.data));
    SortByHead(st.open, CostKey(st.data), i);
    StepKeepsSorted(su, st);
    assert sorted == [sorted[0]] + sorted[1..];
    assert multiset(sorted) == multiset{sorted[0]} + multiset(sorted[1..]);
  }

  /** A step closes the head of the sorted open list and keeps the rest of it as the front of open. */
  lemma StepKeepsSorted(su: Setup, st: State)
    requires CanStep(su, st)
    ensures var sorted := SortBy(st.open, CostKey(st.data)); var r := Step(su, st);
      && |sorted| == |st.open| > 0
      && r.curNode == sorted[0] && r.closed == st.closed + [sorted[0]]
      && |st.open| - 1 <= |r.open| && r.open[..|st.open| - 1] == sorted[1..]
  {
    var sorted := SortBy(st.open, CostKey(st.data));
    HeadRecorded(su, st);
    var cur := sorted[0];
    var popped := st.(open := sorted[1..], closed := st.closed + [cur], curNode := cur);
    if cur.kind != TARGET {
      RelaxKeepsOpen(su, cur, popped, ChildrenOf(su.edges, cur));
    }
  }

  // ----- Properties of the stores -----

  /**
   * What `stepAlgo` needs: a non-empty open list (it shifts one node and
   * uses it) whose nodes all have a path, and data where the strategy reads it.
   */
  ghost predicate CanStep(su: Setup, st: State) {
    && st.paths.Valid() && st.data.Valid() && st.open != []
    && forall i :: 0 <= i < |st.open| ==>
         st.paths.Get(st.open[i]).Some? && (su.strategy != Greedy ==> DataOf(st.data, st.open[i]).Some?)
  }

  /** A running state satisfying the invariant can step. */
  lemma InvCanStep(su: Setup, st: State)
    requires Inv(su, st) && st.phase.Running?
    ensures CanStep(su, st)
  {
    forall i | 0 <= i < |st.open|
      ensures st.paths.Get(st.open[i]).Some? && (su.strategy != Greedy ==> DataOf(st.data, st.open[i]).Some?)
    {
      NonGreedyHasData(su, st.paths, st.data, st.open[i]);
    }
  }

  /** The node a step pops has a path, and data whenever the strategy reads it. */
  lemma HeadRecorded(su: Setup, st: State)
    requires CanStep(su, st)
    ensures var sorted := SortBy(st.open, CostKey(st.data));
      && |sorted| == |st.open| > 0
      && st.paths.Get(sorted[0]).Some?
      && (su.strategy != Greedy ==> DataOf(st.data, sorted[0]).Some?)
  {
    var sorted := SortBy(st.open, CostKey(st.data));
    assert sorted[0] in multiset(st.open);
  }

  /** A key's entry in both stores, read through `get`. */
  lemma RecordOf(su: Setup, paths: Table<Node, seq<Node>>, data: Table<Node, Option<HData>>, k: Node)
    requires Records(su, paths, data) && k in paths.keys
    ensures paths.Get(k).Some? && IsPath(su.edges, su.source, paths.Get(k).value, k)
    ensures DataOf(data, k) == ExpectedData(su.strategy, paths.Get(k).value, su.target, su.dist)
  {
    var i := IndexOf(paths.keys, k);
    assert paths.Get(k) == Some(paths.values[i]);
    assert data.Get(k) == Some(data.values[i]);
  }

  /** Every recorded node but greedy's source has data, so the heuristic can read its parent's. */
  lemma NonGreedyHasData(su: Setup, paths: Table<Node, seq<Node>>, data: Table<Node, Option<HData>>, k: Node)
    requires Records(su, paths, data) && k in paths.keys
    ensures su.strategy != Greedy ==> DataOf(data, k).Some?
  {
    RecordOf(su, paths, data, k);
  }

  /** `put` of the same key on both stores: the key's entry is replaced, every other entry is kept. */
  lemma PutBoth(su: Setup, paths: Table<Node, seq<Node>>, data: Table<Node, Option<HData>>,
                child: Node, p: seq<Node>, d: Option<HData>)
    requires Records(su, paths, data)
    requires IsPath(su.edges, su.source, p, child)
    requires d == ExpectedData(su.strategy, p, su.target, su.dist)
    ensures Records(su, paths.Put(child, p), data.Put(child, d))
  {
    var ps, ds := paths.Put(child, p), data.Put(child, d);
    forall i | 0 <= i < |ps.keys|
      ensures IsPath(su.edges, su.source, ps.values[i], ps.keys[i])
      ensures ds.values[i] == ExpectedData(su.strategy, ps.values[i], su.target, su.dist)
    {
      if ps.keys[i] == child {
        IndexOfDistinct(ps.keys, i);
        assert ps.Get(child) == Some(ps.values[i]);
        assert ds.Get(child) == Some(ds.values[i]);
      } else {
        assert i < |paths.keys| && paths.keys[i] == ps.keys[i];
        assert paths.Get(ps.keys[i]) == Some(paths.values[i]);
        assert data.Get(ps.keys[i]) == Some(data.values[i]);
        PutKeepsOthers(paths, child, p, ps.keys[i]);
        PutKeepsOthers(data, child, d, ps.keys[i]);
        assert ps.Get(ps.keys[i]) == Some(ps.values[i]);
        assert ds.Get(ps.keys[i]) == Some(ds.values[i]);
      }
    }
  }

  /** One child keeps the stores consistent: the new path runs over the edge cur->child. */
  lemma RelaxChildRecords(su: Setup, cur: Node, st: State, child: Node)
    requires Records(su, st.paths, st.data)
    requires cur in st.closed && st.paths.Get(cur).Some?
    requires su.strategy != Greedy ==> DataOf(st.data, cur).Some?
    requires HasEdge(su.edges, cur, child)
    ensures var r := RelaxChild(su, cur, st, child); Records(su, r.paths, r.data)
  {
    RecordOf(su, st.paths, st.data, cur);
    var p := st.paths.Get(cur).value;
    if child !in st.closed {
      var tentative := Heuristic(su.strategy, DataOf(st.data, cur), child, cur, su.target, su.dist);
      var known := DataOf(st.data, child);
      if known.None? || Less(tentative, known.value) {
        HeuristicExtends(su.strategy, p, child, su.target, su.dist);
        var q := p + [child];
        assert IsPath(su.edges, su.source, q, child) by {
          forall j | 0 <= j < |q| - 1 ensures HasEdge(su.edges, q[j], q[j + 1]) {
            if j < |p| - 1 {
              assert q[j] == p[j] && q[j + 1] == p[j + 1];
            }
          }
        }
        PutBoth(su, st.paths, st.data, child, q, Some(tentative));
      }
    }
  }

  /** The whole loop keeps the stores consistent, every child being joined to cur by an edge. */
  lemma {:induction false} RelaxRecords(su: Setup, cur: Node, st: State, children: seq<Node>)
    requires Records(su, st.paths, st.data)
    requires cur in st.closed && st.paths.Get(cur).Some?
    requires su.strategy != Greedy ==> DataOf(st.data, cur).Some?
    requires forall i :: 0 <= i < |children| ==> HasEdge(su.edges, cur, children[i])
    ensures var r := Relax(su, cur, st, children); Records(su, r.paths, r.data)
    decreases |children|
  {
    if children != [] {
      RelaxChildRecords(su, cur, st, children[0]);
      var next := RelaxChild(su, cur, st, children[0]);
      RelaxRecords(su, cur, next, children[1..]);
    }
  }

  /** The first state satisfies the invariant. */
  lemma InitInv(su: Setup)
    ensures Inv(su, Init(su))
  {
    var st := Init(su);
    assert st.paths.keys == [su.source] && st.paths.values == [[su.source]];
    InitDataExpected(su.strategy, su.source, su.target, su.dist);
  }

  lemma PrefixMembers<T>(a: seq<T>, b: seq<T>)
    requires a <= b
    ensures forall x :: x in a ==> x in b
  {
    forall x | x in a ensures x in b {
      var i :| 0 <= i < |a| && a[i] == x;
      assert b[i] == x;
    }
  }

  /** What a step pops: its head is recorded, and what is left of open is recorded and is not the source. */
  lemma PoppedRecorded(su: Setup, st: State)
    requires Inv(su, st) && st.phase.Running?
    ensures var sorted := SortBy(st.open, CostKey(st.data));
      && |sorted| == |st.open| > 0
      && sorted[0] in st.paths.keys
      && (st.closed == [] ==> sorted[0] == su.source)
      && forall i :: 1 <= i < |sorted| ==> sorted[i] in st.paths.keys && sorted[i] != su.source
  {
    var sorted := SortBy(st.open, CostKey(st.data));
    assert sorted[0] in multiset(st.open);
    assert st.closed == [] ==> |sorted| == 1;
    forall i | 1 <= i < |sorted| ensures sorted[i] in st.paths.keys && sorted[i] != su.source {
      assert sorted[i] in multiset(st.open);
    }
  }

  /** Every step keeps the invariant. */
  lemma StepInv(su: Setup, st: State)
    requires Inv(su, st) && st.phase.Running?
    ensures CanStep(su, st) && Inv(su, Step(su, st))
  {
    InvCanStep(su, st);
    HeadRecorded(su, st);
    if SortBy(st.open, CostKey(st.data))[0].kind == TARGET {
      StepSolvedInv(su, st);
    } else {
      StepRelaxedInv(su, st);
    }
  }

  /** A step that pops the target keeps the invariant: the run is solved by that node's path. */
  lemma StepSolvedInv(su: Setup, st: State)
    requires Inv(su, st) && st.phase.Running? && CanStep(su, st)
    requires SortBy(st.open, CostKey(st.data))[0].kind == TARGET
    ensures Inv(su, Step(su, st))
  {
    PoppedRecorded(su, st);
    var sorted := SortBy(st.open, CostKey(st.data));
    var cur := sorted[0];
    RecordOf(su, st.paths, st.data, cur);
    var popped := st.(open := sorted[1..], closed := st.closed + [cur], curNode := cur);
    forall i | 0 <= i < |popped.open| ensures popped.open[i] in popped.paths.keys && popped.open[i] != su.source {
      assert popped.open[i] == sorted[i + 1];
    }
    forall i | 0 <= i < |popped.closed| ensures popped.closed[i] in popped.paths.keys {
      if i < |st.closed| {
        assert popped.closed[i] == st.closed[i];
      }
    }
    assert Step(su, st) == popped.(phase := Solved(st.paths.Get(cur).value));
  }

  /** A step that expands its node keeps the invariant. */
  lemma StepRelaxedInv(su: Setup, st: State)
    requires Inv(su, st) && st.phase.Running? && CanStep(su, st)
    requires SortBy(st.open, CostKey(st.data))[0].kind != TARGET
    ensures Inv(su, Step(su, st))
  {
    PoppedState(su, st);
    var sorted := SortBy(st.open, CostKey(st.data));
    var cur := sorted[0];
    var popped := st.(open := sorted[1..], closed := st.closed + [cur], curNode := cur);
    RelaxedInv(su, cur, popped);
    var relaxed := Relax(su, cur, popped, ChildrenOf(su.edges, cur));
    assert Step(su, st) == relaxed.(phase := if relaxed.open == [] then Exhausted else Running);
  }

  /** The state right after the pop meets what `RelaxedInv` asks of it. */
  lemma PoppedState(su: Setup, st: State)
    requires Inv(su, st) && st.phase.Running?
    ensures var sorted := SortBy(st.open, CostKey(st.data));
      |sorted| > 0 &&
      var cur := sorted[0];
      var popped := st.(open := sorted[1..], closed := st.closed + [cur], curNode := cur);
      && Records(su, popped.paths, popped.data) && Ready(su, cur, popped)
      && cur in popped.paths.keys && popped.curNode == cur && su.source in popped.closed
      && (forall i :: 0 <= i < |popped.closed| ==> popped.closed[i] in popped.paths.keys)
      && (forall i :: 0 <= i < |popped.open| ==> popped.open[i] in popped.paths.keys && popped.open[i] != su.source)
  {
    PoppedRecorded(su, st);
    var sorted := SortBy(st.open, CostKey(st.data));
    var cur := sorted[0];
    var popped := st.(open := sorted[1..], closed := st.closed + [cur], curNode := cur);
    forall i | 0 <= i < |popped.open| ensures popped.open[i] in popped.paths.keys && popped.open[i] != su.source {
      assert popped.open[i] == sorted[i + 1];
    }
    forall i | 0 <= i < |popped.closed| ensures popped.closed[i] in popped.paths.keys {
      if i < |st.closed| {
        assert popped.closed[i] == st.closed[i];
      }
    }
    RecordOf(su, st.paths, st.data, cur);
    NonGreedyHasData(su, st.paths, st.data, cur);
  }

  /** Relaxing the children of a node just closed keeps the invariant, whatever the phase it leads to. */
  lemma RelaxedInv(su: Setup, cur: Node, popped: State)
    requires Records(su, popped.paths, popped.data) && Ready(su, cur, popped)
    requires cur in popped.paths.keys && popped.curNode == cur
    requires su.source in popped.closed
    requires forall i :: 0 <= i < |popped.closed| ==> popped.closed[i] in popped.paths.keys
    requires forall i :: 0 <= i < |popped.open| ==> popped.open[i] in popped.paths.keys && popped.open[i] != su.source
    ensures var relaxed := Relax(su, cur, popped, ChildrenOf(su.edges, cur));
      Inv(su, relaxed.(phase := if relaxed.open == [] then Exhausted else Running))
  {
    var children := ChildrenOf(su.edges, cur);
    RelaxRecords(su, cur, popped, children);
    RelaxedOpen(su, cur, popped);
    RelaxedClosed(su, cur, popped);
  }

  /** After the loop every open node has a path and none is the source. */
  lemma RelaxedOpen(su: Setup, cur: Node, popped: State)
    requires Ready(su, cur, popped) && su.source in popped.closed
    requires forall i :: 0 <= i < |popped.open| ==> popped.open[i] in popped.paths.keys && popped.open[i] != su.source
    ensures var relaxed := Relax(su, cur, popped, ChildrenOf(su.edges, cur));
      forall i :: 0 <= i < |relaxed.open| ==> relaxed.open[i] in relaxed.paths.keys && relaxed.open[i] != su.source
  {
    var children := ChildrenOf(su.edges, cur);
    RelaxKeepsOpen(su, cur, popped, children);
    RelaxKeepsKeys(su, cur, popped, children);
    RelaxPushes(su, cur, popped, children);
    var relaxed := Relax(su, cur, popped, children);
    PrefixMembers(popped.paths.keys, relaxed.paths.keys);
    forall i | 0 <= i < |relaxed.open|
      ensures relaxed.open[i] in relaxed.paths.keys && relaxed.open[i] != su.source
    {
      if i < |popped.open| {
        assert relaxed.open[i] == popped.open[i];
      }
    }
  }

  /** After the loop every closed node still has a path. */
  lemma RelaxedClosed(su: Setup, cur: Node, popped: State)
    requires Ready(su, cur, popped)
    requires forall i :: 0 <= i < |popped.closed| ==> popped.closed[i] in popped.paths.keys
    ensures var relaxed := Relax(su, cur, popped, ChildrenOf(su.edges, cur));
      forall i :: 0 <= i < |relaxed.closed| ==> relaxed.closed[i] in relaxed.paths.keys
  {
    var children := ChildrenOf(su.edges, cur);
    RelaxKeepsKeys(su, cur, popped, children);
    PrefixMembers(popped.paths.keys, Relax(su, cur, popped, children).paths.keys);
  }

  // ----- Costs -----

  /**
   * One child never raises a recorded cost: a node that had a cost still has
   * one, no larger. Data is replaced only when the node had none or the new
   * cost is strictly lower.
   */
  lemma RelaxChildLowers(su: Setup, cur: Node, st: State, child: Node, n: Node)
    requires Ready(su, cur, st)
    ensures var r := RelaxChild(su, cur, st, child);
      CostOf(st.data, n).Some? ==> CostOf(r.data, n).Some? && CostOf(r.data, n).value <= CostOf(st.data, n).value
  {
    if child !in st.closed {
      var tentative := Heuristic(su.strategy, DataOf(st.data, cur), child, cur, su.target, su.dist);
      var known := DataOf(st.data, child);
      if known.None? || Less(tentative, known.value) {
        var data := st.data.Put(child, Some(tentative));
        assert RelaxChild(su, cur, st, child).data == data;
        if n != child {
          PutKeepsOthers(st.data, child, Some(tentative), n);
          assert DataOf(data, n) == DataOf(st.data, n);
        } else {
          assert DataOf(data, n) == Some(tentative);
        }
      }
    }
  }

  /** The whole loop over the children never raises a recorded cost. */
  lemma {:induction false} RelaxLowers(su: Setup, cur: Node, st: State, children: seq<Node>, n: Node)
    requires Ready(su, cur, st)
    ensures var r := Relax(su, cur, st, children);
      CostOf(st.data, n).Some? ==> CostOf(r.data, n).Some? && CostOf(r.data, n).value <= CostOf(st.data, n).value
    decreases |children|
  {
    if children != [] {
      var next := RelaxChild(su, cur, st, children[0]);
      RelaxChildLowers(su, cur, st, children[0], n);
      RelaxLowers(su, cur, next, children[1..], n);
      assert Relax(su, cur, st, children) == Relax(su, cur, next, children[1..]);
    }
  }

  /**
   * Once the source is closed every node in open has a cost, so the
   * comparator never meets a missing one: only the source, alone in open
   * before the first step, can lack a cost.
   */
  lemma OpenCostsKnown(su: Setup, st: State)
    requires Inv(su, st) && st.closed != []
    ensures forall i :: 0 <= i < |st.open| ==> CostOf(st.data, st.open[i]).Some?
  {
    forall i | 0 <= i < |st.open| ensures CostOf(st.data, st.open[i]).Some? {
      var k := st.open[i];
      RecordOf(su, st.paths, st.data, k);
      var p := st.paths.Get(k).value;
      assert p[0] == su.source && p[|p| - 1] == k && k != su.source;
      ExpectedDataHasCost(su.strategy, p, su.target, su.dist);
    }
  }

  /** Under BFS the cost recorded for a node is the number of edges of its recorded path. */
  lemma BreadthFirstDepth(su: Setup, st: State, k: Node)
    requires Inv(su, st) && su.strategy == BreadthFirst && k in st.paths.keys
    ensures st.paths.Get(k).Some?
    ensures CostOf(st.data, k) == Some((|st.paths.Get(k).value| - 1) as real)
  {
    RecordOf(su, st.paths, st.data, k);
  }
}
