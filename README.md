# Graph search visualiser: a verified model of its core

The application lets a user draw a directed graph, mark one node as the
source and one as the target, and watch a search strategy find a path
between them frame by frame. This project models three parts of it in Dafny
and proves properties of them.

- **The graph model** (`js/visualGraph.js`):
  - Nodes and edges are compared by identity.
  - The queries are `childrenOf`, `parentsOf`, `nodesOfType`, `edgesFrom`,
    `edgesTo`, `edgesIncluding` and `edgeConnecting`.
  - The editing operations are `addNode`, `addEdge`, `removeEdge`,
    `removeNode`, `connectNodes`, `disconnectNodes` and
    `toggleNodeConnection`.
  - The object form that `toString` writes and `fromObject` reads back.
- **The identity-keyed store** `FakeHashtable` (`app/js/fakeHashtable.js`).
- **The search engine** (`js/graphAlgo.js`):
  - The strategy table: BFS, DFS, A* and greedy, each with its heuristic and
    initial data.
  - The checks and set-up of `visualize`.
  - `stepAlgo`: stable sort of the open list by cost, pop to the closed list,
    stop on the target, otherwise relax the children.
  - The Visualize/Reset toggle with `cancelVisualize`.

## Files

- `optional.dfy`: the `Option` type (`undefined` is `None`).
- `sequences.dfy`: the array built-ins the code relies on, proved once:
  - `filter`, with order preservation.
  - `indexOf`, which gives −1 when the element is absent.
  - The stable `sort` with a numeric comparator, as an insertion sort. It is
    proved sorted, a permutation, stable, and to put the earliest minimal
    element first.
  - First-occurrence de-duplication.
- `fakeHashtable.dfy`: `Table` is the store's contents as a value and carries
  the meaning of each operation. The class `FakeHashtable` keeps `keys` and
  `values` as sequence fields that its methods reassign, and is proved to
  follow `Table`.
- `visualGraph.dfy`:
  - `Node` and `Edge` classes.
  - The queries as functions over the edge sequence.
  - The class `Graph`, whose methods reassign its `nodes` and `edges`
    sequences.
  - `ToObject`/`FromObject` over the object form.
- `strategies.dfy`: the strategy table.
  - `ExpectedData` defines, independently of the heuristics, the data each
    strategy records for a node reached along a given path.
  - `HeuristicExtends` proves that the heuristics compute it edge by edge.
- `search.dfy`: one run as a value.
  - `Init` is the state `visualize` builds; `Step` is one `stepAlgo` call.
  - `Inv` is what every state of a run satisfies:
    - every recorded path is a path of the graph from the source to its key;
    - every recorded datum is `ExpectedData` of that path;
    - open and closed nodes are recorded;
    - a solved run carries a source-to-target path.
  - `StepInv` proves that `Step` keeps `Inv`.
- `graphAlgo.dfy`:
  - `Run` holds the open and closed lists, the two stores and the current
    node as fields. `Run.Step` performs `stepAlgo` in place and is proved
    equal to `Search.Step`.
  - `Visualizer` holds the pending frame (`algoTimeout`) and models the
    button and the timer tick.

## Model

| member | source | states |
|---|---|---|
| FakeHashtables.Table.Get | app/js/fakeHashtable.js:8-10 | On a valid store: a value exactly when the key is present, namely the value at the key's position; None (undefined) for an absent key |
| FakeHashtables.Table.ContainsKey | app/js/fakeHashtable.js:28-30 | True exactly when the key occurs in `keys` |
| FakeHashtables.Table.Entries | app/js/fakeHashtable.js:13-15 | One pair per key, in key insertion order; each pair holds that key's value |
| FakeHashtables.Table.Put | app/js/fakeHashtable.js:17-26 | Keeps the store valid (same lengths, no key twice). Afterwards `get(key)` is the new value. A present key is overwritten in place, with `keys` and the length unchanged; a new key is appended to both arrays |
| FakeHashtables.Table.SoftPut | app/js/fakeHashtable.js:32-34 | A present key leaves the store unchanged; an absent key gives exactly what `put` gives (appended at the end), so `get(key)` becomes the value; validity is kept |
| FakeHashtables.PutKeepsOthers | app/js/fakeHashtable.js:17-26 | `put` leaves every other key's value unchanged |
| FakeHashtables.SoftPutKeepsOthers | app/js/fakeHashtable.js:32-34 | `softPut` leaves every other key's value unchanged |
| FakeHashtables.PutMapping | app/js/fakeHashtable.js:17-26 | As a key-to-value map, `put` is map update at the key |
| FakeHashtables.GetMapping | app/js/fakeHashtable.js:8-10 | `get` is lookup in the key-to-value map the two arrays encode |
| FakeHashtables.FakeHashtable.constructor | app/js/fakeHashtable.js:3-6 | A new store is empty and valid |
| FakeHashtables.FakeHashtable.Put | app/js/fakeHashtable.js:17-26 | The two sequence fields, reassigned, hold exactly `Table.Put` of the old contents; validity is kept |
| FakeHashtables.FakeHashtable.SoftPut | app/js/fakeHashtable.js:32-34 | The two sequence fields hold exactly `Table.SoftPut` of the old contents; validity is kept |
| Sequences.IndexOf | app/js/fakeHashtable.js:9 | −1 exactly when the element is absent; otherwise its first position |
| Sequences.Filter | js/visualGraph.js:186 | The result holds only elements of the input that satisfy the predicate, and every such element |
| Sequences.FilterAppend | js/visualGraph.js:139 | Filtering distributes over concatenation, so relative order is kept |
| Sequences.SortBy | js/graphAlgo.js:148 | The sorted open list is a permutation of the old one and is ordered by cost |
| Sequences.SortByStable | js/graphAlgo.js:148 | The sort is stable: among nodes of equal cost, the original order is kept |
| Sequences.SortByHead | js/graphAlgo.js:148-149 | The head after sorting is the earliest element of minimal cost |
| Sequences.Dedup | js/visualGraph.js:239-241 | No duplicates, and exactly the elements of the input |
| Sequences.DedupSnoc | js/visualGraph.js:239-241 | Elements are kept in first-occurrence order: a new last element is appended exactly when it has not been seen |
| Sequences.DedupDistinct | js/visualGraph.js:239-241 | De-duplicating a duplicate-free list changes nothing |
| VisualGraph.ChildrenOf | js/visualGraph.js:138-141 | Every child is joined to the node by an edge, and the `to` of every edge leaving the node is a child |
| VisualGraph.ChildrenOfAppend | js/visualGraph.js:138-141 | Children are listed in edge order: a new edge adds at most its `to`, at the end |
| VisualGraph.ParentsOf | js/visualGraph.js:144-147 | Every parent has an edge into the node, and the `from` of every edge entering the node is a parent |
| VisualGraph.ParentsOfAppend | js/visualGraph.js:144-147 | Parents are listed in edge order |
| VisualGraph.NodesOfType | js/visualGraph.js:149-151 | Exactly the member nodes of the given category |
| VisualGraph.EdgesFrom | js/visualGraph.js:193-195 | Exactly the edges leaving the node |
| VisualGraph.EdgesTo | js/visualGraph.js:197-199 | Exactly the edges entering the node |
| VisualGraph.EdgesIncluding | js/visualGraph.js:189-191 | Exactly the edges with the node at either end |
| VisualGraph.EdgeConnecting | js/visualGraph.js:202-205 | A found edge is a member joining `from` to `to`; None (undefined) exactly when no edge joins them |
| VisualGraph.EdgeConnectingAppend | js/visualGraph.js:202-205 | The result is the first matching edge in edge order |
| VisualGraph.Without | js/visualGraph.js:185-187 | Exactly the edges other than the given object |
| VisualGraph.WithoutNull | js/visualGraph.js:177-179 | `removeEdge(undefined)` leaves the edges unchanged |
| VisualGraph.Graph.constructor | js/visualGraph.js:128-131 | A new graph is empty and well formed |
| VisualGraph.Graph.AddNode | js/visualGraph.js:133-135 | The node is appended and edges are unchanged; adding a new node keeps the graph well formed |
| VisualGraph.Graph.AddEdge | js/visualGraph.js:181-183 | The edge is appended and nodes are unchanged |
| VisualGraph.Graph.RemoveEdge | js/visualGraph.js:185-187 | The edges become `Without` the given edge; nodes are unchanged |
| VisualGraph.Graph.RemoveNode | js/visualGraph.js:154-159 | The node is removed and so is every incident edge. The rest keep their order, no remaining edge touches the node, and well-formedness is kept |
| VisualGraph.RemovingIncident | js/visualGraph.js:154-159 | Removing the incident edges one by one leaves exactly the edges that avoid the node |
| VisualGraph.RemoveNodeKeepsWellFormed | js/visualGraph.js:154-159 | Distinct nodes, edges between members and one edge per ordered pair survive `removeNode` |
| VisualGraph.Graph.ConnectNodes | js/visualGraph.js:171-175 | A new edge is appended exactly when the pair was not yet joined; otherwise nothing changes. At most one edge per ordered pair is kept |
| VisualGraph.ConnectKeepsUnique | js/visualGraph.js:171-175 | Appending an edge for an unjoined pair keeps the pairs unique |
| VisualGraph.Graph.DisconnectNodes | js/visualGraph.js:177-179 | The edge `edgeConnecting` found is removed, and nothing when there is none. With unique pairs, the pair is then unjoined |
| VisualGraph.Graph.ToggleNodeConnection | js/visualGraph.js:163-169 | A joined pair loses its edge; an unjoined pair gains one new edge at the end; nodes and all other edges are unchanged. With one edge per ordered pair, whether the pair is joined flips |
| VisualGraph.ToggleTwiceRestores | js/visualGraph.js:163-179 | From an unjoined pair, the second toggle finds the edge the first one added and removing it restores the edges |
| VisualGraph.ToggleTwice | js/visualGraph.js:163-169 | Two toggles from an unjoined pair restore the nodes and the edge sequence exactly |
| VisualGraph.Graph.ToObject | js/visualGraph.js:245-267 | Node records (position, category) in node order; edge records are the positions of each edge's ends, in edge order |
| VisualGraph.Graph.FromObject | js/visualGraph.js:230-243 | None exactly when an edge index lies outside the node list. Otherwise a fresh, well-formed graph with the given node records, and edge records equal to the input's with repeated pairs dropped |
| VisualGraph.Graph.AddNodeRecords | js/visualGraph.js:233-237 | One fresh node per record, in order |
| VisualGraph.Graph.ConnectEdgeRecords | js/visualGraph.js:239-241 | Succeeds exactly when every index is in range, and then holds the de-duplicated edge records |
| VisualGraph.NodeRecords | js/visualGraph.js:248-254 | One record per node, in node order, with its position and category |
| VisualGraph.EdgeRecords | js/visualGraph.js:256-261 | One record per edge, in edge order. Each end that is a node is named by the index of its first occurrence (as `indexOf` gives it); an end that is not a node gives −1 |
| VisualGraph.EdgeRecordsOfWellFormed | js/visualGraph.js:255-261 | A well-formed graph's edge records are in range and distinct |
| VisualGraph.EdgeRecordsRoundTrip | js/visualGraph.js:230-267 | Reading back a well-formed graph's edge records keeps all of them, in order |
| VisualGraph.RecordNamesEdge | js/visualGraph.js:239-241 | An index pair is among the edge records exactly when its nodes are joined |
| VisualGraph.ConnectRecord | js/visualGraph.js:239-241 | Each `connectNodes` of `fromObject` extends the edge records as de-duplication does |
| VisualGraph.Reload | js/visualGraph.js:230-267 | Reloading a well-formed graph from its object gives a fresh well-formed graph with the same node records and the same edge records |
| Strategies.Algos | js/graphAlgo.js:59-64 | A found strategy is the one whose name was looked up |
| Strategies.AlgosName | js/graphAlgo.js:59-64 | Every strategy is found under its own name |
| Strategies.InitData | js/graphAlgo.js:33-57 | Initial data exists exactly for the strategies whose heuristic reads the parent's data (all but greedy). BFS and DFS start at cost 0. A* starts at g 0 with no cost |
| Strategies.Heuristic | js/graphAlgo.js:33-57 | BFS gives the parent's cost plus one, DFS minus one, and a missing cost stays missing (NaN). A* adds the edge's length to g and sets the cost to g + h. Greedy sets the cost to h alone, whatever the parent |
| Strategies.InitDataExpected | js/graphAlgo.js:33-57 | Each strategy's `initData` is its data for the one-node path |
| Strategies.HeuristicExtends | js/graphAlgo.js:33-57 | The heuristic applied to a parent's data for path p gives the data for p plus the child. BFS counts edges, DFS counts them negatively, A* sums edge lengths into `g` and adds the remaining distance, greedy uses the remaining distance. Every strategy but greedy finds parent data to read |
| Strategies.ExpectedDataHasCost | js/graphAlgo.js:33-57 | Every node other than the source has a cost under every strategy |
| Search.DataOf | js/graphAlgo.js:176-179 | `heuristicData.get(n)`: the stored value for a recorded node; undefined (None) for an unrecorded one |
| Search.CostKey | js/graphAlgo.js:148 | The sort key of every recorded node is its cost, and 0 when its data has no cost |
| Search.Init | js/graphAlgo.js:117-136 | The whole first state: open is [source], closed is empty, there is no current node and the run is running; the two valid stores hold only the source, with the path [source] and the strategy's `initData` |
| Search.InitInv | js/graphAlgo.js:117-136 | The initial state satisfies the run invariant |
| Search.RelaxChild | js/graphAlgo.js:171-190 | A closed child changes nothing. A child that is not closed and has no data, or whose tentative cost is strictly lower, is appended to open, its path becomes the current node's path plus the child, and its data becomes the tentative data. Each store is then exactly a `put` at the child, so every other key and the key order stay as they were. In every other case nothing changes. Closed list, current node, phase and the current node's entries are always kept |
| Search.Relax | js/graphAlgo.js:169-191 | The loop keeps closed list, current node, phase and the current node's entries |
| Search.RelaxKeepsOpen | js/graphAlgo.js:169-191 | The loop only appends to open |
| Search.RelaxKeepsKeys | js/graphAlgo.js:182-185 | The loop only adds keys to the stores |
| Search.RelaxPushes | js/graphAlgo.js:179-185 | Every node the loop appends is a child, was not closed, and is recorded |
| Search.RelaxChildLowers | js/graphAlgo.js:179-185 | A recorded cost is never raised: data is replaced only when missing or strictly cheaper |
| Search.RelaxLowers | js/graphAlgo.js:169-191 | The whole loop never raises a recorded cost |
| Search.StepKeepsSorted | js/graphAlgo.js:147-150 | The step closes the head of the sorted open list, makes it current and keeps the rest as the front of open |
| Search.StepPops | js/graphAlgo.js:147-150 | The popped node is the earliest of least cost. It becomes current and is appended to closed, and open loses exactly that one entry before any child is appended |
| Search.Step | js/graphAlgo.js:138-199 | The popped node was in open and is appended to closed and made current. Popping a TARGET solves the run with that node's recorded path, appends nothing to open and leaves both stores unchanged. Otherwise the run is not solved, and it ends as exhausted exactly when open is left empty |
| Search.HeadRecorded | js/graphAlgo.js:149-154 | The popped node has a path, and data whenever the strategy reads it |
| Search.InvCanStep | js/graphAlgo.js:147-176 | A running state satisfying the invariant meets what `stepAlgo` reads |
| Search.RecordOf | js/graphAlgo.js:182-185 | A key's recorded path is a graph path from the source to it, and its data is the strategy's data for that path |
| Search.NonGreedyHasData | js/graphAlgo.js:176 | Every recorded node has data for the heuristic to read, except under greedy |
| Search.PutBoth | js/graphAlgo.js:184-185 | Storing a graph path and its expected data under the same key keeps both stores consistent |
| Search.RelaxChildRecords | js/graphAlgo.js:169-190 | Relaxing one child keeps every recorded path a graph path with its expected data |
| Search.RelaxRecords | js/graphAlgo.js:169-191 | The whole loop keeps the stores consistent |
| Search.PoppedRecorded | js/graphAlgo.js:147-150 | The popped node is recorded; on the first step it is the source; what stays in open is recorded and is not the source |
| Search.PoppedState | js/graphAlgo.js:147-150 | The state right after the pop is ready for the loop |
| Search.RelaxedInv | js/graphAlgo.js:168-197 | Expanding a just-closed node keeps the invariant |
| Search.RelaxedOpen | js/graphAlgo.js:179-185 | After the loop every open node is recorded and none is the source |
| Search.RelaxedClosed | js/graphAlgo.js:184 | After the loop every closed node is still recorded |
| Search.StepInv | js/graphAlgo.js:138-199 | From any running state satisfying the invariant, a step can be taken and keeps the invariant; so every reported solution is a path of the graph from the source to a TARGET node |
| Search.StepSolvedInv | js/graphAlgo.js:158-166 | Popping the target keeps the invariant, with the solution a source-to-target path |
| Search.StepRelaxedInv | js/graphAlgo.js:168-197 | Expanding a non-target keeps the invariant |
| Search.OpenCostsKnown | js/graphAlgo.js:148 | Once the source is closed, every open node has a cost, so the comparator never meets a missing one |
| Search.BreadthFirstDepth | js/graphAlgo.js:33-36 | Under BFS a node's recorded cost is the edge count of its recorded path |
| GraphAlgo.FirstFrame | js/graphAlgo.js:201-206 | The state after the frame `visualize` runs at once satisfies the invariant, with the source closed and current |
| GraphAlgo.Run.constructor | js/graphAlgo.js:111-136 | The run's fields hold exactly `Search.Init`, in two fresh stores, and satisfy the invariant |
| GraphAlgo.Run.Pop | js/graphAlgo.js:147-150 | The open list is sorted by cost, its head is shifted off, appended to closed and made current; the head has a path and, except under greedy, data |
| GraphAlgo.Run.ExpandChild | js/graphAlgo.js:171-190 | The fields and stores change exactly as `Search.RelaxChild` says |
| GraphAlgo.Run.ExpandAll | js/graphAlgo.js:169-191 | The loop over the children changes the fields and stores exactly as `Search.Relax` says |
| GraphAlgo.Run.Step | js/graphAlgo.js:138-199 | The in-place `stepAlgo` leaves the run exactly in the state `Search.Step` gives |
| GraphAlgo.Visualizer.CancelVisualize | js/graphAlgo.js:75-83 | The pending frame is cleared and no run is left |
| GraphAlgo.Visualizer.Visualize | js/graphAlgo.js:86-136 | With a run pending, only reset. Otherwise report a wrong source count, then a wrong target count, then an unknown algorithm, each without starting a run. Start exactly when there is one source, one target and a known algorithm; the new run is then set up from the graph's edges and the two nodes, and has taken its first step |
| GraphAlgo.Visualizer.Tick | js/graphAlgo.js:201-204 | A running run takes exactly one `Search.Step`; a solved or exhausted run stays as it is; the invariant is kept |

## Left out

- Rendering and colouring are not modelled: the PIXI graphics, every
  `setColor` and `colorPath` call in `stepAlgo`, `resetVisuals`, and the
  DOM changes to the button and the lock overlay. They do not affect search
  decisions.
- `alert` messages are not modelled as text. `Visualize` returns an
  `Outcome` saying which check failed, with the count the message reports.
- Timers are not modelled as time. `setTimeout`/`clearTimeout` become the
  `algoTimeout` field and the `Tick` method, and the frame delay and
  `changeSpeed` are left out.
- The graph is locked for editing while a run exists, so each run keeps the
  edge sequence it started with. Editing during a run cannot happen in the
  application and is not modelled.
- Floating-point arithmetic is replaced by `real`. `distanceTo`
  (`app/js/vector2D.js`) is the abstract parameter `dist`, and node
  positions are plain reals.
- `JSON.parse`/`JSON.stringify` are not modelled; the model works on the
  object form they exchange.
- `Node.setType` after construction is not modelled: a node's category and
  position are fixed when it is created. The context menu and dragging that
  change them are UI.
- The event handlers, context menu, zoom, viewport, help and share dialogs,
  `shareGraph` and the PHP files are outside the core.
- `VisualGraph.WithoutNull`: the model follows the base `Graph.removeEdge`.
  In the application the graph is always a `VisualGraph`, whose `removeEdge`
  (js/visualGraph.js:286-289) also calls `edge.destroyGraphics()` after the
  filter, so `removeEdge(undefined)` throws there with the edges already
  unchanged. `toggleNodeConnection` never reaches that case, since it only
  disconnects a pair that has an edge.
- `FakeHashtables.FakeHashtable`: the two arrays are sequence fields that
  `Put` and `SoftPut` reassign rather than arrays written in place. They are never handed
  out of the object, so no aliasing of them is lost.
- Sorting the open list in place is modelled by reassigning the `openList`
  sequence field with the stably sorted sequence. Stability is what
  ECMAScript requires of `Array.prototype.sort`.
- `Search.CostKey`: a missing cost is read as 0. In the source it gives NaN or
  throws. `OpenCostsKnown` shows that a cost is missing only while the
  source is alone in open, where the comparator is never called. Its
  contract speaks of recorded nodes only (Dafny cannot quantify over every
  object in a function's contract); every open node is recorded.
- `GraphAlgo.Visualizer.Visualize`: an unknown algorithm name makes the
  source throw when reading `algo.heuristic`, after it has switched the
  button to "Reset" and shown the lock. The model returns
  `UnknownAlgorithm` with no run, and the stale button state is not
  modelled.
- `VisualGraph.Graph.FromObject`: an edge index outside the node list makes
  the source throw inside the `VisualEdge` constructor, and no graph is
  produced. The model returns None.
- `VisualGraph.Graph.DisconnectNodes`: "the pair is unjoined afterwards" is
  stated only for graphs with at most one edge per ordered pair. Every graph
  the editing operations build has that property.
