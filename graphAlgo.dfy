/**
 * The search run of js/graphAlgo.js as objects updated in place: `Run`
 * holds the open and closed lists, the two `FakeHashtable` stores and the
 * current node, and `Step` is `stepAlgo`; `Visualizer` holds the pending
 * frame (`algoTimeout`) and is the Visualize/Reset button. Each method is
 * proved to follow the functions of module Search.
 */
module GraphAlgo {
  import opened Optional
  import opened Sequences
  import opened FakeHashtables
  import opened VisualGraph
  import opened Strategies
  import opened Search

  /** The state after the first frame, which `visualize` runs at once. */
  function FirstFrame(su: Setup): (r: State)
    ensures Inv(su, r)
    ensures r.closed == [su.source] && r.curNode == su.source
  {
    InitInv(su);
    StepInv(su, Init(su));
    PoppedRecorded(su, Init(su));
    Step(su, Init(su))
  }

  class Run {
    const edges: seq<Edge>
    const strategy: Strategy
    const source: Node
    const target: Node
    const dist: (Node, Node) -> real
    const paths: FakeHashtable<Node, seq<Node>>
    const heuristicData: FakeHashtable<Node, Option<HData>>
    var openList: seq<Node>
    var closedList: seq<Node>
    var curNode: Node?
    var phase: Phase

    function Config(): Setup {
      Setup(edges, strategy, source, target, dist)
    }

    function Snapshot(): Search.State
      reads this, paths, heuristicData
    {
      Search.State(openList, closedList, paths.Content(), heuristicData.Content(), curNode, phase)
    }

    ghost predicate Valid()
      reads this, paths, heuristicData
    {
      (paths as object) != (heuristicData as object) && Inv(Config(), Snapshot())
    }

    /** The set-up part of `visualize`: open = [source], empty closed list, the source's path and `initData`. */
    constructor (edges: seq<Edge>, strategy: Strategy, source: Node, target: Node, dist: (Node, Node) -> real)
      ensures Config() == Setup(edges, strategy, source, target, dist)
      ensures fresh(paths) && fresh(heuristicData)
      ensures Valid() && Snapshot() == Init(Config())
    {
      this.edges := edges;
      this.strategy := strategy;
      this.source := source;
      this.target := target;
      this.dist := dist;
      openList := [source];
      closedList := [];
      curNode := null;
      phase := Running;
      paths := new FakeHashtable();
      heuristicData := new FakeHashtable();
      new;
      paths.Put(source, [source]);
      heuristicData.Put(source, InitData(strategy));
      assert Snapshot() == Init(Config());
      InitInv(Config());
    }

    /** One pass of the loop over the current node's children in `stepAlgo`. */
    method ExpandChild(cur: Node, child: Node)
      requires (paths as object) != (heuristicData as object) && Ready(Config(), cur, Snapshot())
      modifies this, paths, heuristicData
      ensures Snapshot() == RelaxChild(Config(), cur, old(Snapshot()), child)
    {
      if child in closedList {
        return;
      }
      var tentative := Heuristic(strategy, DataOf(heuristicData.Content(), cur), child, cur, target, dist);
      var known := DataOf(heuristicData.Content(), child);
      if known.None? || Less(tentative, known.value) {
        openList := openList + [child];
        var newPath := paths.Get(cur).value + [child];
        paths.Put(child, newPath);
        heuristicData.Put(child, Some(tentative));
      }
    }

    /** The head of `stepAlgo`: sort the open list by cost, move its first node to the closed list. */
    method Pop() returns (cur: Node)
      requires CanStep(Config(), Snapshot())
      modifies this
      ensures var sorted := SortBy(old(openList), CostKey(heuristicData.Content()));
        && |sorted| > 0 && cur == sorted[0] && openList == sorted[1..]
        && closedList == old(closedList) + [cur] && curNode == cur && phase == old(phase)
      ensures paths.Get(cur).Some? && (strategy != Greedy ==> DataOf(heuristicData.Content(), cur).Some?)
    {
      HeadRecorded(Config(), Snapshot());
      openList := SortBy(openList, CostKey(heuristicData.Content()));
      cur := openList[0];
      openList := openList[1..];
      closedList := closedList + [cur];
      curNode := cur;
    }

    /** The loop of `stepAlgo` over the current node's children, in edge order. */
    method ExpandAll(cur: Node, children: seq<Node>)
      requires (paths as object) != (heuristicData as object) && Ready(Config(), cur, Snapshot())
      modifies this, paths, heuristicData
      ensures Snapshot() == Relax(Config(), cur, old(Snapshot()), children)
    {
      ghost var start := Snapshot();
      assert children[0..] == children;
      for i := 0 to |children|
        invariant Ready(Config(), cur, Snapshot())
        invariant Relax(Config(), cur, Snapshot(), children[i..]) == Relax(Config(), cur, start, children)
      {
        assert children[i..][1..] == children[i + 1..];
        ExpandChild(cur, children[i]);
      }
    }

    /** `stepAlgo`, without the colouring. */
    method Step()
      requires (paths as object) != (heuristicData as object) && CanStep(Config(), Snapshot()) && phase.Running?
      modifies this, paths, heuristicData
      ensures Snapshot() == Search.Step(Config(), old(Snapshot()))
    {
      ghost var st := Snapshot();
      var cur := Pop();
      ghost var popped := Snapshot();
      if cur.kind == TARGET {
        phase := Solved(paths.Get(cur).value);
        assert Snapshot() == Search.Step(Config(), st);
        return;
      }
      var children := ChildrenOf(edges, cur);
      ExpandAll(cur, children);
      if openList == [] {
        phase := Exhausted;
      }
    }
  }

  /** What a click on the Visualize/Reset button did. */
  datatype Outcome =
    | Cancelled
    | NeedOneSource(sources: nat)
    | NeedOneTarget(targets: nat)
    | UnknownAlgorithm
    | Started

  /** The button and the frame timer: `algoTimeout` is the run whose frames are scheduled, if any. */
  class Visualizer {
    var algoTimeout: Run?

    ghost function Footprint(): set<object>
      reads this
    {
      if algoTimeout == null then {} else {algoTimeout, algoTimeout.paths, algoTimeout.heuristicData}
    }

    ghost predicate Valid()
      reads this, Footprint()
    {
      algoTimeout != null ==> algoTimeout.Valid()
    }

    constructor ()
      ensures Valid() && algoTimeout == null
    {
      algoTimeout := null;
    }

    /** `cancelVisualize`: the pending frame is cleared and the run dropped. */
    method CancelVisualize()
      modifies this
      ensures Valid() && algoTimeout == null
    {
      algoTimeout := null;
    }

    /**
     * `visualize`: with a run in place, reset it. Otherwise start a run only
     * when the graph has exactly one source and exactly one target (checked
     * in that order) and the selected name is in `algos`, and run its first
     * frame at once.
     */
    method Visualize(graph: Graph, algoName: string, dist: (Node, Node) -> real) returns (outcome: Outcome)
      requires Valid()
      modifies this
      ensures Valid()
      ensures old(algoTimeout) != null ==> outcome == Cancelled && algoTimeout == null
      ensures old(algoTimeout) == null ==>
        var sources := NodesOfType(graph.nodes, SOURCE);
        var targets := NodesOfType(graph.nodes, TARGET);
        && (|sources| != 1 ==> outcome == NeedOneSource(|sources|))
        && (|sources| == 1 && |targets| != 1 ==> outcome == NeedOneTarget(|targets|))
        && (|sources| == 1 && |targets| == 1 && Algos(algoName).None? ==> outcome == UnknownAlgorithm)
        && (outcome == Started <==> |sources| == 1 && |targets| == 1 && Algos(algoName).Some?)
        && (outcome != Started ==> algoTimeout == null)
        && (outcome == Started ==>
              && algoTimeout != null && fresh(algoTimeout)
              && algoTimeout.Config() == Setup(graph.edges, Algos(algoName).value, sources[0], targets[0], dist)
              && algoTimeout.Snapshot() == FirstFrame(algoTimeout.Config()))
    {
      if algoTimeout != null {
        CancelVisualize();
        return Cancelled;
      }
      var sources := NodesOfType(graph.nodes, SOURCE);
      var targets := NodesOfType(graph.nodes, TARGET);
      if |sources| != 1 {
        return NeedOneSource(|sources|);
      }
      if |targets| != 1 {
        return NeedOneTarget(|targets|);
      }
      var algo := Algos(algoName);
      if algo.None? {
        return UnknownAlgorithm;
      }
      var run := new Run(graph.edges, algo.value, sources[0], targets[0], dist);
      StepInv(run.Config(), run.Snapshot());
      run.Step();
      algoTimeout := run;
      outcome := Started;
    }

    /** One timer frame (`eachFrame`): step the scheduled run while it is still running. */
    method Tick()
      requires Valid()
      modifies Footprint()
      ensures Valid() && algoTimeout == old(algoTimeout)
      ensures algoTimeout != null && old(algoTimeout.phase).Running? ==>
        algoTimeout.Snapshot() == Search.Step(algoTimeout.Config(), old(algoTimeout.Snapshot()))
      ensures algoTimeout != null && !old(algoTimeout.phase).Running? ==>
        algoTimeout.Snapshot() == old(algoTimeout.Snapshot())
    {
      if algoTimeout != null && algoTimeout.phase.Running? {
        StepInv(algoTimeout.Config(), algoTimeout.Snapshot());
        algoTimeout.Step();
      }
    }
  }
}
