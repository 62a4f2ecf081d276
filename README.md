# Pipeline editor: DAG validator, undo history and edit handlers

A Dafny model of the core of a React Flow pipeline editor. On its canvas a
user builds a directed graph of named stages. The editor checks on every
edit that the graph is a well-formed DAG, and it keeps an undo stack of
canvas snapshots.

- `graph_types.dfy` (module `GraphTypes`): nodes (id, optional caption,
  position, kind) and edges (id, source, target, optional handles).
- `dag_spec.dfy` (module `DagSpec`): the graph vocabulary the contracts use.
  It defines walks, cycles, reachability from a listed node, self-loops,
  connectivity, and the id lists the validator reports. It also holds the
  lemmas about them.
- `dag_utils.dfy` (module `DagUtils`): `validateDAG` as imperative Dafny:
  - one pass over the edges builds the adjacency record and collects the
    self-loop ids;
  - the connectivity set and the check against it;
  - the depth-first search as a class `CycleSearch` over the `visited`,
    `recStack`, `path` and `cycleNodes` state. `hasCycle` becomes
    `HasCycle` plus its neighbour loop `SearchNeighbours`; the loop over the
    nodes becomes `FindCycle`;
  - the `find` loop that names the cycle's edges;
  - the verdict.

  The search is proved sound and complete with a ghost finishing rank.
  Every neighbour of a finished id finished earlier, so a search that
  finishes every node rules out any cycle reachable from a node. A
  reported cycle is a suffix of the search path closed by a back edge, so it
  is a simple cycle reachable from a node.
- `use_history.dfy` (module `UseHistory`): the `useHistory` hook. It is a
  class over a `seq` of snapshots with `Push`, `Undo` and `CanUndo`. Beside
  it sit the timeline functions `Pushed`, `Undone` and `Edited` and the
  last-in-first-out lemmas about them.
- `pipeline_editor.dfy` (module `PipelineEditor`): the editor component as a
  class `Editor` over `nodes`, `edges`, `history` and `contextMenu`. Each
  handler is one state transition. Every accepted edit is stated as
  `Edited(old state, new canvas)`: the old canvas is pushed once, then the
  canvas is replaced. Every handler keeps the canvas and the undo stack free
  of self-loops. Adding a node, deleting nodes or edges, the layout and the
  menu's delete also keep every edge endpoint a listed node; connecting
  (which does not check that its ends exist) and undo (which brings back
  whatever canvas was saved) promise nothing about that.
- `dag_examples.dfy` (module `DagExamples`): the validator on two small
  canvases. A self-loop on a listed node is reported as a cycle with its id
  twice. A three-node chain is valid.

Two behaviours of the code deserve a note:
- A self-loop on a listed node is found by the depth-first search as a
  one-node cycle. The result is then the cycle message with the self-loop's
  id twice: once from the self-loop scan and once from the cycle's edge.
  The self-loop message is returned only for a self-loop on an id that no
  listed node reaches (`DagSpec.SelfLoopsUnreachable`,
  `DagExamples.SelfLoopOnNodeReportedTwice`).
- An edge whose source or target is not a listed node is not ignored. Its
  source still gets an adjacency list, and the search walks through such
  ids whenever a listed node reaches them. Reachability in the model is
  therefore "from a listed node along edges", whatever the ids on the way.

## Model

| member | source | states |
|---|---|---|
| DagUtils.ValidateDAG | src/lib/dagUtils.ts:10-86 | The whole verdict, branch by branch. Fewer than 2 nodes gives invalid, the size message and no ids. An unconnected node gives the connectivity message, with the self-loop ids followed by every edge id. Otherwise a cycle reachable from a node gives the cycle message, with the self-loop ids followed by one edge id per node of some simple cycle reachable from a node. Otherwise a self-loop gives the self-loop message with the self-loop ids. Otherwise the graph is valid with no ids. Soundness: valid implies no ids, at least 2 nodes, all connected, no self-loop and no reachable cycle. Completeness: at least 2 nodes, all connected, no self-loop and acyclic imply valid. Valid holds exactly when the message starts with `VALID` |
| DagUtils.MessagesAnnounceVerdict | src/lib/dagUtils.ts:12-85 | The four failure texts do not start with `VALID`; the success text does |
| DagUtils.BuildAdjacency | src/lib/dagUtils.ts:16-29 | The record built is the one the edge pass defines (an empty list per node, then each edge's target appended to its source's list). The ids collected are exactly the self-loop ids in edge order. The flag holds exactly when some edge is a self-loop |
| DagUtils.EdgePassStep | src/lib/dagUtils.ts:20-29 | One more edge appends its target to its source's list and, when it is a self-loop, its id to the self-loop ids |
| DagUtils.EmptyLists | src/lib/dagUtils.ts:17 | Definition: the record after initialisation, one entry per node id, each an empty list (a later duplicate id overwrites the earlier one) |
| DagUtils.AdjacencyFor | src/lib/dagUtils.ts:20-29 | Definition: the record after the edge pass, each edge in turn appending its target to its source's list, the list created empty when the source has none |
| DagUtils.Neighbours | src/lib/dagUtils.ts:53 | Definition: the list of an id, and the empty list for an id without an entry (`adj[v]` or else the empty list) |
| DagUtils.EmptyListsAreEmpty | src/lib/dagUtils.ts:17 | After initialisation every list is empty, and the ids with a list are exactly the node ids |
| DagUtils.AdjacencyForIsSucc | src/lib/dagUtils.ts:16-29 | The list of every id is the targets of the edges leaving it, in edge order |
| DagUtils.AdjacencyForKeys | src/lib/dagUtils.ts:17-27 | An id has a list exactly when it is a node id or the source of some edge |
| DagUtils.AdjacencyForListsEdges | src/lib/dagUtils.ts:27-28 | `w` is in the list of `u` exactly when an edge goes from `u` to `w` |
| DagUtils.AdjacencyForBounded | src/lib/dagUtils.ts:27-28 | Every listed neighbour is an edge endpoint, so the search stays in the finite set of node ids and endpoints |
| DagSpec.SuccIsEdges | src/lib/dagUtils.ts:28 | An id is among the targets of `u`'s edges exactly when an edge joins `u` to it |
| DagSpec.SuccInEndpoints | src/lib/dagUtils.ts:28 | Every target of an edge list is an edge endpoint |
| DagSpec.SelfLoopIds | src/lib/dagUtils.ts:19-25 | Definition: the ids of the self-loop edges, in edge order, one entry per self-loop edge |
| DagSpec.SelfLoopIdsAreSelfLoops | src/lib/dagUtils.ts:22-25 | An id is among the self-loop ids exactly when some self-loop edge carries it |
| DagSpec.SelfLoopIdsEmpty | src/lib/dagUtils.ts:19-25 | The self-loop ids are empty exactly when no edge is a self-loop |
| DagSpec.EdgeIds | src/lib/dagUtils.ts:40 | One id per edge, in edge order: entry `k` is the id of edge `k` |
| DagUtils.ConnectedIds | src/lib/dagUtils.ts:32-36 | The set holds exactly the ids that are the source or the target of some edge |
| DagSpec.EndpointsAreIncident | src/lib/dagUtils.ts:32-36 | An id is an endpoint exactly when some edge starts or ends at it |
| DagUtils.SomeUnconnected | src/lib/dagUtils.ts:38 | True exactly when some node's id is missing from the set |
| DagUtils.CycleSearch.constructor | src/lib/dagUtils.ts:45-47 | The search starts with empty `visited`, `recStack`, `path` and `cycleNodes`, and its bookkeeping holds |
| DagUtils.CycleSearch.HasCycle | src/lib/dagUtils.ts:48-66 | The bookkeeping is kept: `recStack` is the ids of `path`, `path` is a simple chain of neighbours, and every visited id is on the path or finished after its neighbours. `visited` only grows. Returning false, `v` is finished and `path` and `recStack` are as before. Returning true, `cycleNodes` is a non-empty suffix of `path` whose first id is a neighbour of its last, and `path` still starts where this search started |
| DagUtils.CycleSearch.SearchNeighbours | src/lib/dagUtils.ts:53-61 | The loop over `v`'s list keeps the bookkeeping. Returning false, every neighbour of `v` is finished. Returning true, `cycleNodes` is a non-empty suffix of `path` whose first id is a neighbour of the last path id, and `path` still starts where it did |
| DagUtils.IndexOf | src/lib/dagUtils.ts:57 | The result is the first position of the id in the sequence |
| DagUtils.EnterKeepsState | src/lib/dagUtils.ts:49-52 | Marking an unvisited neighbour of the last path id visited, on the stack and on the path keeps the bookkeeping |
| DagUtils.LeaveKeepsState | src/lib/dagUtils.ts:63-64 | Popping an id whose neighbours are all finished, and finishing it with the next rank, keeps the bookkeeping |
| DagUtils.CycleSearch.FindCycle | src/lib/dagUtils.ts:68-79 | Returning false, every node is finished. Returning true, the path starts at a node id and `cycleNodes` closes a cycle on it. The contract does not say which node's search found the cycle (see the `DagUtils.ValidateDAG` line under "## Left out") |
| DagUtils.RankFallsAlongWalk | src/lib/dagUtils.ts:53-65 | Along any walk from a finished id, the last id is finished with a rank lower by at least the number of steps |
| DagUtils.NoReachableCycleWhenFinished | src/lib/dagUtils.ts:68-79 | When the search finishes every node without a cycle, no cycle is reachable from any node |
| DagUtils.LinkedIsWalk | src/lib/dagUtils.ts:52-54 | The search path is a walk along edges |
| DagUtils.BackEdgeClosesCycle | src/lib/dagUtils.ts:55-58 | A path suffix whose first id is a neighbour of the path's last id is a cycle |
| DagUtils.FoundCycleIsReachable | src/lib/dagUtils.ts:55-58 | The reported `cycleNodes` form a cycle without repeated ids, reachable from the node the search started at |
| DagUtils.NextIndex | src/lib/dagUtils.ts:73 | `(i + 1) % length` is the next position, wrapping to 0 after the last |
| DagUtils.CycleEdgeIdsOf | src/lib/dagUtils.ts:71-76 | The loop collects, in order, the id of the first edge found for each consecutive pair of `cycleNodes` (the last pair wrapping to the first); a pair with no edge adds nothing |
| DagSpec.FindEdgeSucceeds | src/lib/dagUtils.ts:74-75 | `find` succeeds exactly when an edge joins the pair |
| DagSpec.FindEdge | src/lib/dagUtils.ts:74 | An edge that `find` returns is in the list and goes from `from` to `to` |
| DagSpec.FindEdgeIsFirst | src/lib/dagUtils.ts:74 | The edge `find` returns is the first match: it sits at a position before which no edge joins the pair |
| DagSpec.CycleEdgeIds | src/lib/dagUtils.ts:71-76 | Definition: for each position of the cycle in turn, the id of the first edge from that node to the next one (the last wrapping to the first), nothing for a pair without an edge |
| DagSpec.CycleEdgeIdsUpToLength | src/lib/dagUtils.ts:71-76 | When every pair so far has an edge, one id has been added per pair |
| DagSpec.CycleEdgeIdsUpToAt | src/lib/dagUtils.ts:71-76 | When every pair so far has an edge, entry `j` is the id of the edge found for pair `j` |
| DagSpec.CycleEdgeIdsOfCycle | src/lib/dagUtils.ts:71-76 | For a cycle, every `find` succeeds and exactly one id is added per cycle node: entry `j` is the first edge from node `j` to the next |
| DagSpec.SelfLoopOnNodeIsReachableCycle | src/lib/dagUtils.ts:53-58 | A self-loop on a listed node is a cycle reachable from that node, so the search reports a cycle |
| DagSpec.SelfLoopsUnreachable | src/lib/dagUtils.ts:81-82 | When no cycle is reachable, every self-loop sits on an id that no node reaches and that is not a node id: the self-loop message is only for such self-loops |
| DagSpec.OneNodeCycleRepeatsSelfLoop | src/lib/dagUtils.ts:74-75 | Reporting the one-node cycle of a self-loop names an id that is already among the self-loop ids |
| DagSpec.ClosedCycleReachable | src/lib/dagUtils.ts:68-79 | When every edge endpoint is a node, "a cycle reachable from a node" is the same as "not acyclic" |
| DagExamples.OnlyCycleThroughSink | src/lib/dagUtils.ts:55-58 | In a graph whose every edge ends at `x`, the only cycle without repeated ids is `[x]` |
| DagExamples.SelfLoopCanvas | src/lib/dagUtils.ts:20-41 | On nodes `a`, `b` with edges `a-b` and the self-loop `b-b`, every node is connected, a cycle is reachable, the self-loop ids are `["b-b"]`, and every simple cycle is reported as `["b-b"]` |
| DagExamples.SelfLoopOnNodeReportedTwice | src/lib/dagUtils.ts:55-77 | On that canvas the verdict is invalid, with the cycle message and the ids `["b-b", "b-b"]` |
| DagExamples.ChainCanvas | src/lib/dagUtils.ts:32-42 | The chain `a`, `b`, `c` is connected, has no self-loop and is acyclic |
| DagExamples.RankedIsAcyclic | src/lib/dagUtils.ts:44-79 | A ranking of ids that every edge lowers rules out every cycle |
| DagExamples.ChainIsValid | src/lib/dagUtils.ts:85 | The chain is valid, with the valid message and no ids |
| UseHistory.HistoryHook.constructor | src/components/PipelineEditor/useHistory.ts:4-5 | The stack starts empty over the given canvas |
| UseHistory.Pushed | src/components/PipelineEditor/useHistory.ts:7-9 | Definition: the canvas stays, and the stack gains the current canvas on top |
| UseHistory.Undone | src/components/PipelineEditor/useHistory.ts:11-19 | Definition: on an empty stack the state is unchanged; otherwise the top entry becomes the canvas and the stack loses that entry |
| UseHistory.HistoryHook.Push | src/components/PipelineEditor/useHistory.ts:7-9 | The new state is the old one with the current canvas appended to the stack (`Pushed`) |
| UseHistory.HistoryHook.Undo | src/components/PipelineEditor/useHistory.ts:11-19 | The new state is `Undone(old)`: no change on an empty stack, else the top entry becomes the canvas and leaves the stack |
| UseHistory.HistoryHook.CanUndo | src/components/PipelineEditor/useHistory.ts:21 | True exactly when the stack is non-empty, which is exactly when undo changes the state |
| UseHistory.UndoAfterPush | src/components/PipelineEditor/useHistory.ts:7-19 | Push then undo restores the canvas and the stack |
| UseHistory.UndoEmptyIsNoOp | src/components/PipelineEditor/useHistory.ts:13 | On an empty stack, any number of undos changes nothing |
| UseHistory.Edited | src/components/PipelineEditor/useHistory.ts:7-19 | An edit (push, then a new canvas) shows the new canvas, and one undo takes it back exactly |
| UseHistory.EditedAll | src/components/PipelineEditor/useHistory.ts:8 | A run of edits grows the stack by one entry per edit |
| UseHistory.UndoLastEdit | src/components/PipelineEditor/useHistory.ts:14-17 | One undo after a run of edits takes back the last edit |
| UseHistory.UndoUnwindsEdits | src/components/PipelineEditor/useHistory.ts:7-19 | `k` undos after a run of edits give the state after all but the last `k` edits |
| UseHistory.UndoRestoresInReverse | src/components/PipelineEditor/useHistory.ts:7-19 | The `j`-th undo shows the canvas the `j`-th last edit replaced: the canvases come back in reverse order, ending at the first one |
| UseHistory.UndoAllEdits | src/components/PipelineEditor/useHistory.ts:7-19 | As many undos as edits restore the starting canvas and stack |
| PipelineEditor.Editor.constructor | src/components/PipelineEditor/PipelineEditor.tsx:26-42 | Empty canvas, empty stack, no menu; no self-loop anywhere |
| PipelineEditor.Editor.PushToHistory | src/components/PipelineEditor/PipelineEditor.tsx:46-48 | The state becomes `Pushed(old)`; the menu is unchanged; freedom from self-loops is kept |
| PipelineEditor.Editor.HandleAddNode | src/components/PipelineEditor/PipelineEditor.tsx:53-67 | A cancelled or empty name changes nothing and pushes nothing. Otherwise it is one edit appending the node (given id and position, the name as caption, kind `default`); existing nodes and edges are unchanged. Edges without a dangling endpoint stay that way, and self-loop freedom is kept |
| PipelineEditor.Editor.OnConnect | src/components/PipelineEditor/PipelineEditor.tsx:75-85 | A self-loop, or a connection not from `out` to `in`, changes nothing and pushes nothing. Otherwise it is one edit appending the edge. Freedom from self-loops on the canvas and in the stack is kept |
| PipelineEditor.Accepted | src/components/PipelineEditor/PipelineEditor.tsx:77-78 | Definition: a connection passes both guards when its ends differ and it runs from an `out` handle to an `in` handle |
| PipelineEditor.AddEdge | src/components/PipelineEditor/PipelineEditor.tsx:80-82 | The old edges are kept in place, and one edge from the connection's source to its target is added at the end |
| PipelineEditor.AcceptedIsNoSelfLoop | src/components/PipelineEditor/PipelineEditor.tsx:77-82 | Adding an accepted connection to a self-loop-free edge list leaves it self-loop-free |
| PipelineEditor.Editor.OnNodesDelete | src/components/PipelineEditor/PipelineEditor.tsx:87-98 | One edit. Nodes carrying a deleted id go, and so does every edge with an end at a deleted id. Edges without a dangling endpoint stay that way, and self-loop freedom is kept |
| PipelineEditor.Filter | src/components/PipelineEditor/PipelineEditor.tsx:90-95 | An element survives exactly when it was in the list and is accepted; the result is no longer than the input |
| PipelineEditor.FilterAppend | src/components/PipelineEditor/PipelineEditor.tsx:90-95 | Filtering a concatenation filters each part in order, so survivors keep their relative order |
| PipelineEditor.FilterKeepsAll | src/components/PipelineEditor/PipelineEditor.tsx:103 | A filter that rejects nothing returns its input unchanged |
| PipelineEditor.RemoveNodes | src/components/PipelineEditor/PipelineEditor.tsx:90 | A node survives exactly when it was listed and no deleted node has its id |
| PipelineEditor.RemoveIncidentEdges | src/components/PipelineEditor/PipelineEditor.tsx:91-95 | An edge survives exactly when it was listed and neither end is a deleted node's id |
| PipelineEditor.DeletedIdsAreGone | src/components/PipelineEditor/PipelineEditor.tsx:90-95 | A deleted id is left on no node and on no end of an edge |
| PipelineEditor.DeletionKeepsClosed | src/components/PipelineEditor/PipelineEditor.tsx:90-95 | If every edge joined two listed nodes before the deletion, every surviving edge joins two surviving nodes |
| PipelineEditor.Editor.OnEdgesDelete | src/components/PipelineEditor/PipelineEditor.tsx:100-106 | One edit. The nodes are unchanged, and the edges whose id a deleted edge carries go. The no-dangling and no-self-loop invariants are kept |
| PipelineEditor.RemoveEdges | src/components/PipelineEditor/PipelineEditor.tsx:103 | An edge survives exactly when it was listed and no deleted edge has its id |
| PipelineEditor.RemoveEdgesKeepsOthers | src/components/PipelineEditor/PipelineEditor.tsx:103 | When no deleted id matches, the edge list is unchanged |
| PipelineEditor.Editor.HandleAutoLayout | src/components/PipelineEditor/PipelineEditor.tsx:109-125 | One edit that changes only node positions: edges are unchanged, and the no-dangling and no-self-loop invariants are kept |
| PipelineEditor.Relocated | src/components/PipelineEditor/PipelineEditor.tsx:117-123 | Same length; each node keeps its id, caption and kind and takes the position chosen for its id |
| PipelineEditor.LayoutKeepsClosed | src/components/PipelineEditor/PipelineEditor.tsx:117-124 | A layout keeps the set of node ids, so it keeps every edge attached |
| PipelineEditor.Editor.HandleContextMenu | src/components/PipelineEditor/PipelineEditor.tsx:132-138 | The menu opens at the given point with the given node id; the canvas and stack are unchanged |
| PipelineEditor.Editor.HandleCloseContextMenu | src/components/PipelineEditor/PipelineEditor.tsx:140 | The menu closes; the canvas and stack are unchanged |
| PipelineEditor.Editor.HandleUndo | src/components/PipelineEditor/PipelineEditor.tsx:142-150 | The same step as the hook's undo, `Undone(old)`; the menu is unchanged and self-loop freedom is kept |
| PipelineEditor.MenuNode | src/components/PipelineEditor/PipelineEditor.tsx:153 | Definition: the menu's node id when a menu is open and its id is present and not empty (JavaScript truthiness of a string), otherwise none |
| PipelineEditor.StubNode | src/components/PipelineEditor/PipelineEditor.tsx:155-160 | Definition: the stand-in node with the given id, no caption, position (0, 0) and kind `custom` |
| PipelineEditor.Editor.HandleDelete | src/components/PipelineEditor/PipelineEditor.tsx:152-164 | With a menu whose node id is set and non-empty, it is one node deletion of that id. Otherwise the canvas and stack are unchanged. The menu is closed in every case |

## Left out

- DagUtils.ValidateDAG: does not pin down which cycle is reported when there are several. The contract says the ids are those of some simple cycle reachable from a node; the one found first depends on the node order and on each adjacency list's order.
- DagUtils.CycleSearch.HasCycle: when it returns true, the contract says only that the path still starts where the search started. The exact path left behind is not stated.
- The `markerEnd` arrow style, and reactflow's `addEdge` duplicate check and id derivation, are not modelled. `AddEdge` appends, and the new edge's id is a parameter.
- A connection whose source or target is `null` is not modelled. Connection ends are strings; missing handles are `None`.
- The `dagre` layout engine is a foreign call with floating-point output. Its positions are a parameter `place` of `HandleAutoLayout`.
- `prompt`, `Date.now()` and `Math.random()` in `handleAddNode` are parameters: the name (`None` when cancelled), the id and the position.
- Node ids that clash with JavaScript object prototype keys (such as `constructor`) are not modelled. The adjacency record is a plain map.
- React machinery is not modelled: state batching, `useCallback` closures and the `setState` updater functions. Each handler is one atomic transition.
- The editor's own `history` and the `useHistory` hook are modelled as two separate stacks, as in the code.
- The `useDagValidation` memo wrapper (src/components/PipelineEditor/useDagValidation.ts) is left out, since it only caches `validateDAG`. The JSON preview, `fitView`, `event.preventDefault`, the rendering components and styling are left out as well.
- PipelineEditor.Editor.OnConnect: promises nothing about edge endpoints being listed nodes, because the code does not check that a connection's ends exist.
- PipelineEditor.Editor.HandleUndo: promises nothing about edge endpoints being listed nodes, because the saved canvases carry no such invariant; it brings back whatever canvas was saved.
