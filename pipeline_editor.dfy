/** The pipeline editor's state machine: the canvas (`nodes`, `edges`), the
    undo stack and the context menu, and the handlers that change them. */
module PipelineEditor {
  import opened GraphTypes
  import opened DagSpec
  import opened UseHistory

  // ---------------------------------------------------------------------------
  // The list operations behind the handlers

  /** The elements `keep` accepts, in their original order (the array `filter`). */
  function Filter<T(!new)>(s: seq<T>, keep: T -> bool): (r: seq<T>)
    ensures forall x :: x in r <==> x in s && keep(x)
    ensures |r| <= |s|
  {
    if |s| == 0 then []
    else (if keep(s[0]) then [s[0]] else []) + Filter(s[1..], keep)
  }

  /** Filtering a concatenation filters each part and keeps them in order, so
      the survivors keep their relative order. */
  lemma {:induction false} FilterAppend<T(!new)>(a: seq<T>, b: seq<T>, keep: T -> bool)
    ensures Filter(a + b, keep) == Filter(a, keep) + Filter(b, keep)
  {
    if |a| > 0 {
      assert (a + b)[1..] == a[1..] + b;
      assert (a + b)[0] == a[0];
      FilterAppend(a[1..], b, keep);
    } else {
      assert a + b == b;
    }
  }

  /** A filter that rejects nothing returns its input unchanged. */
  lemma {:induction false} FilterKeepsAll<T(!new)>(s: seq<T>, keep: T -> bool)
    requires forall x | x in s :: keep(x)
    ensures Filter(s, keep) == s
  {
    if |s| > 0 {
      assert forall x | x in s[1..] :: x in s;
      FilterKeepsAll(s[1..], keep);
      assert s == [s[0]] + s[1..];
    }
  }

  /** The ids of a list of edges. */
  function EdgeIdSet(edges: seq<Edge>): set<string>
  {
    set e | e in edges :: e.id
  }

  /** The nodes whose id no deleted node carries (the node filter of `onNodesDelete`). */
  function RemoveNodes(nodes: seq<Node>, deleted: seq<Node>): (r: seq<Node>)
    ensures forall n :: n in r <==> n in nodes && n.id !in NodeIds(deleted)
  {
    Filter(nodes, (n: Node) => n.id !in NodeIds(deleted))
  }

  /** The edges with neither end at a deleted node's id (the edge filter of `onNodesDelete`). */
  function RemoveIncidentEdges(edges: seq<Edge>, deleted: seq<Node>): (r: seq<Edge>)
    ensures forall e :: e in r <==> e in edges && e.source !in NodeIds(deleted) && e.target !in NodeIds(deleted)
  {
    Filter(edges, (e: Edge) => e.source !in NodeIds(deleted) && e.target !in NodeIds(deleted))
  }

  /** The edges whose id no deleted edge carries (the filter of `onEdgesDelete`). */
  function RemoveEdges(edges: seq<Edge>, deleted: seq<Edge>): (r: seq<Edge>)
    ensures forall e :: e in r <==> e in edges && e.id !in EdgeIdSet(deleted)
  {
    Filter(edges, (e: Edge) => e.id !in EdgeIdSet(deleted))
  }

  /** Deleting nodes never leaves a dangling edge behind: if every edge
      joined two listed nodes before, every surviving edge joins two surviving
      nodes. */
  lemma DeletionKeepsClosed(nodes: seq<Node>, edges: seq<Edge>, deleted: seq<Node>)
    requires Closed(nodes, edges)
    ensures Closed(RemoveNodes(nodes, deleted), RemoveIncidentEdges(edges, deleted))
  {
    var ns := RemoveNodes(nodes, deleted);
    forall e | e in RemoveIncidentEdges(edges, deleted)
      ensures e.source in NodeIds(ns) && e.target in NodeIds(ns)
    {
      var a :| a in nodes && a.id == e.source;
      var b :| b in nodes && b.id == e.target;
      assert a in ns && b in ns;
    }
  }

  /** A node id a deleted node carries is gone from the nodes and from every
      remaining edge. */
  lemma DeletedIdsAreGone(nodes: seq<Node>, edges: seq<Edge>, deleted: seq<Node>, id: string)
    requires id in NodeIds(deleted)
    ensures id !in NodeIds(RemoveNodes(nodes, deleted))
    ensures forall e | e in RemoveIncidentEdges(edges, deleted) :: e.source != id && e.target != id
  {
  }

  /** Removing edges leaves the edges no deleted edge names, and keeps them all
      when no deleted id matches. */
  lemma RemoveEdgesKeepsOthers(edges: seq<Edge>, deleted: seq<Edge>)
    requires forall e | e in edges :: e.id !in EdgeIdSet(deleted)
    ensures RemoveEdges(edges, deleted) == edges
  {
    FilterKeepsAll(edges, (e: Edge) => e.id !in EdgeIdSet(deleted));
  }

  /** `addEdge`: the connection becomes an edge at the end of the list; the new
      edge's id is a parameter. */
  function AddEdge(edges: seq<Edge>, params: Connection, id: string): (r: seq<Edge>)
    ensures |r| == |edges| + 1 && r[..|edges|] == edges
    ensures r[|edges|].source == params.source && r[|edges|].target == params.target
  {
    edges + [Edge(id, params.source, params.target, params.sourceHandle, params.targetHandle)]
  }

  /** The nodes with the positions a layout chose; nothing else changes. */
  function Relocated(nodes: seq<Node>, place: string -> Position): (r: seq<Node>)
    ensures |r| == |nodes|
    ensures forall i :: 0 <= i < |nodes| ==>
              r[i].id == nodes[i].id && r[i].caption == nodes[i].caption &&
              r[i].kind == nodes[i].kind && r[i].position == place(nodes[i].id)
  {
    seq(|nodes|, i requires 0 <= i < |nodes| => nodes[i].(position := place(nodes[i].id)))
  }

  /** A layout keeps the node ids, so it keeps every edge attached. */
  lemma LayoutKeepsClosed(nodes: seq<Node>, edges: seq<Edge>, place: string -> Position)
    requires Closed(nodes, edges)
    ensures NodeIds(Relocated(nodes, place)) == NodeIds(nodes)
    ensures Closed(Relocated(nodes, place), edges)
  {
    var r := Relocated(nodes, place);
    forall x
      ensures x in NodeIds(r) <==> x in NodeIds(nodes)
    {
      if x in NodeIds(r) {
        var i :| 0 <= i < |r| && r[i].id == x;
        assert nodes[i] in nodes;
      }
      if x in NodeIds(nodes) {
        var i :| 0 <= i < |nodes| && nodes[i].id == x;
        assert r[i] in r;
      }
    }
  }

  // ---------------------------------------------------------------------------
  // The editor

  /** The arguments of `onConnect`: the two ends and the handles they attach to
      (a handle may be absent). */
  datatype Connection = Connection(source: string, target: string, sourceHandle: Option<string>, targetHandle: Option<string>)

  /** The context menu at a screen point, opened on a node or on the canvas. */
  datatype Menu = Menu(x: real, y: real, nodeId: Option<string>)

  /** The node the open menu names, when that counts as set: a menu is open,
      it carries a node id, and the id is not the empty string. */
  function MenuNode(menu: Option<Menu>): Option<string>
  {
    if menu.Some? && menu.value.nodeId.Some? && menu.value.nodeId.value != "" then menu.value.nodeId
    else None
  }

  /** The stand-in node `handleDelete` passes to `onNodesDelete`. */
  function StubNode(id: string): Node
  {
    Node(id, None, Position(0.0, 0.0), "custom")
  }

  /** A connection the editor accepts: two different nodes, from an `out`
      handle to an `in` handle. */
  predicate Accepted(params: Connection)
  {
    params.source != params.target &&
    params.sourceHandle == Some("out") && params.targetHandle == Some("in")
  }

  /** No accepted connection is a self-loop, so `onConnect` never adds one. */
  lemma AcceptedIsNoSelfLoop(edges: seq<Edge>, params: Connection, id: string)
    requires Accepted(params) && !HasSelfLoop(edges)
    ensures !HasSelfLoop(AddEdge(edges, params, id))
  {
    var r := AddEdge(edges, params, id);
    forall e | e in r
      ensures e.source != e.target
    {
      if e != r[|edges|] {
        var i :| 0 <= i < |r| && r[i] == e;
        assert r[i] == edges[i];
      }
    }
  }

  /** `PipelineEditor`: the state its handlers share. */
  class Editor {
    var nodes: seq<Node>
    var edges: seq<Edge>
    var history: seq<Snapshot>
    var contextMenu: Option<Menu>

    /** The canvas and the undo stack. */
    function State(): Timeline
      reads this
    {
      Timeline(Snapshot(nodes, edges), history)
    }

    /** No self-loop on the canvas, nor in any canvas undo can bring back. */
    ghost predicate SelfLoopFree()
      reads this
    {
      !HasSelfLoop(edges) && forall s | s in history :: !HasSelfLoop(s.edges)
    }

    /** The editor opens on an empty canvas, an empty stack and no menu. */
    constructor ()
      ensures nodes == [] && edges == [] && history == [] && contextMenu == None
      ensures SelfLoopFree()
    {
      nodes, edges, history, contextMenu := [], [], [], None;
    }

    /** `pushToHistory`. */
    method PushToHistory()
      modifies this
      ensures State() == Pushed(old(State())) && contextMenu == old(contextMenu)
      ensures old(SelfLoopFree()) ==> SelfLoopFree()
    {
      history := history + [Snapshot(nodes, edges)];
    }

    /** `handleAddNode`, with the answer of the name prompt (`None` when it is
        cancelled), the new id and the new position given. */
    method HandleAddNode(name: Option<string>, id: string, position: Position)
      modifies this
      ensures name == None || name == Some("") ==> State() == old(State())
      ensures name.Some? && name != Some("") ==>
                State() == Edited(old(State()), Snapshot(old(nodes) + [Node(id, name, position, "default")], old(edges)))
      ensures contextMenu == old(contextMenu)
      ensures old(Closed(nodes, edges)) ==> Closed(nodes, edges)
      ensures old(SelfLoopFree()) ==> SelfLoopFree()
    {
      if name == None || name == Some("") {
        return;
      }
      PushToHistory();
      nodes := nodes + [Node(id, name, position, "default")];
    }

    /** `onConnect`: a self-loop or a connection between the wrong handles is
        ignored; any other becomes a new edge, with the id given. */
    method OnConnect(params: Connection, edgeId: string)
      modifies this
      ensures !Accepted(params) ==> State() == old(State())
      ensures Accepted(params) ==>
                State() == Edited(old(State()), Snapshot(old(nodes), AddEdge(old(edges), params, edgeId)))
      ensures contextMenu == old(contextMenu)
      ensures old(SelfLoopFree()) ==> SelfLoopFree()
    {
      if params.source == params.target {
        return;
      }
      if params.sourceHandle != Some("out") || params.targetHandle != Some("in") {
        return;
      }
      ghost var before := edges;
      PushToHistory();
      edges := AddEdge(edges, params, edgeId);
      if !HasSelfLoop(before) {
        AcceptedIsNoSelfLoop(before, params, edgeId);
      }
    }

    /** `onNodesDelete`: the deleted nodes go, and with them every edge that
        touches one of them. */
    method OnNodesDelete(deleted: seq<Node>)
      modifies this
      ensures State() == Edited(old(State()), Snapshot(RemoveNodes(old(nodes), deleted), RemoveIncidentEdges(old(edges), deleted)))
      ensures contextMenu == old(contextMenu)
      ensures old(Closed(nodes, edges)) ==> Closed(nodes, edges)
      ensures old(SelfLoopFree()) ==> SelfLoopFree()
    {
      PushToHistory();
      if Closed(nodes, edges) {
        DeletionKeepsClosed(nodes, edges, deleted);
      }
      nodes := RemoveNodes(nodes, deleted);
      edges := RemoveIncidentEdges(edges, deleted);
    }

    /** `onEdgesDelete`: the edges whose ids are deleted go; nodes stay. */
    method OnEdgesDelete(deleted: seq<Edge>)
      modifies this
      ensures State() == Edited(old(State()), Snapshot(old(nodes), RemoveEdges(old(edges), deleted)))
      ensures contextMenu == old(contextMenu)
      ensures old(Closed(nodes, edges)) ==> Closed(nodes, edges)
      ensures old(SelfLoopFree()) ==> SelfLoopFree()
    {
      PushToHistory();
      edges := RemoveEdges(edges, deleted);
    }

    /** `handleAutoLayout`, with the positions the layout engine chose given
        as `place`. */
    method HandleAutoLayout(place: string -> Position)
      modifies this
      ensures State() == Edited(old(State()), Snapshot(Relocated(old(nodes), place), old(edges)))
      ensures contextMenu == old(contextMenu)
      ensures old(Closed(nodes, edges)) ==> Closed(nodes, edges)
      ensures old(SelfLoopFree()) ==> SelfLoopFree()
    {
      PushToHistory();
      if Closed(nodes, edges) {
        LayoutKeepsClosed(nodes, edges, place);
      }
      nodes := Relocated(nodes, place);
    }

    /** `handleContextMenu`, with the pointer position given. */
    method HandleContextMenu(x: real, y: real, nodeId: Option<string>)
      modifies this
      ensures contextMenu == Some(Menu(x, y, nodeId))
      ensures State() == old(State())
    {
      contextMenu := Some(Menu(x, y, nodeId));
    }

    /** `handleCloseContextMenu`. */
    method HandleCloseContextMenu()
      modifies this
      ensures contextMenu == None
      ensures State() == old(State())
    {
      contextMenu := None;
    }

    /** `handleUndo`: the same step as the history hook's `undo`. */
    method HandleUndo()
      modifies this
      ensures State() == Undone(old(State()))
      ensures contextMenu == old(contextMenu)
      ensures old(SelfLoopFree()) ==> SelfLoopFree()
    {
      if |history| == 0 {
        return;
      }
      var prev := history[|history| - 1];
      assert prev in history;
      nodes := prev.nodes;
      edges := prev.edges;
      history := history[..|history| - 1];
    }

    /** `handleDelete`: deletes the node the menu was opened on, if any, and
        closes the menu in every case. */
    method HandleDelete()
      modifies this
      ensures MenuNode(old(contextMenu)).Some? ==>
                var d := [StubNode(MenuNode(old(contextMenu)).value)];
                State() == Edited(old(State()), Snapshot(RemoveNodes(old(nodes), d), RemoveIncidentEdges(old(edges), d)))
      ensures MenuNode(old(contextMenu)).None? ==> State() == old(State())
      ensures contextMenu == None
      ensures old(Closed(nodes, edges)) ==> Closed(nodes, edges)
      ensures old(SelfLoopFree()) ==> SelfLoopFree()
    {
      var target := MenuNode(contextMenu);
      if target.Some? {
        OnNodesDelete([StubNode(target.value)]);
      }
      contextMenu := None;
    }
  }
}
