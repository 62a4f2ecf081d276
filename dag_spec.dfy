/** What the validator's answers mean: edges, walks, cycles and reachability
    over a node list and an edge list, and the edge-id lists it reports. */
module DagSpec {
  import opened GraphTypes

  /** The ids of the listed nodes. */
  function NodeIds(nodes: seq<Node>): set<string>
  {
    set n | n in nodes :: n.id
  }

  /** Some edge goes from `u` to `w`. */
  ghost predicate HasEdge(edges: seq<Edge>, u: string, w: string)
  {
    exists e | e in edges :: e.source == u && e.target == w
  }

  /** `x` is the source or the target of some edge. */
  ghost predicate Incident(edges: seq<Edge>, x: string)
  {
    exists e | e in edges :: e.source == x || e.target == x
  }

  /** Every node is attached to at least one edge. */
  ghost predicate AllConnected(nodes: seq<Node>, edges: seq<Edge>)
  {
    forall n | n in nodes :: Incident(edges, n.id)
  }

  ghost predicate HasSelfLoop(edges: seq<Edge>)
  {
    exists e | e in edges :: e.source == e.target
  }

  /** Every edge starts and ends at a listed node (no dangling endpoint). */
  ghost predicate Closed(nodes: seq<Node>, edges: seq<Edge>)
  {
    forall e | e in edges :: e.source in NodeIds(nodes) && e.target in NodeIds(nodes)
  }

  /** A non-empty sequence of ids, each joined to the next by an edge. */
  ghost predicate IsWalk(edges: seq<Edge>, w: seq<string>)
  {
    |w| > 0 && forall i :: 0 <= i < |w| - 1 ==> HasEdge(edges, w[i], w[i + 1])
  }

  /** The id after position `i` of `c`, the last one wrapping to the first. */
  function Next(c: seq<string>, i: nat): string
    requires i < |c|
  {
    if i + 1 < |c| then c[i + 1] else c[0]
  }

  /** A closed walk: each id is joined to the next, and the last to the first. */
  ghost predicate IsCycle(edges: seq<Edge>, c: seq<string>)
  {
    |c| > 0 && forall i {:trigger Next(c, i)} :: 0 <= i < |c| ==> HasEdge(edges, c[i], Next(c, i))
  }

  /** Some walk leads from a listed node to `x`. */
  ghost predicate Reachable(nodes: seq<Node>, edges: seq<Edge>, x: string)
  {
    exists w :: IsWalk(edges, w) && w[0] in NodeIds(nodes) && w[|w| - 1] == x
  }

  /** Some cycle can be reached from a listed node. */
  ghost predicate CycleReachable(nodes: seq<Node>, edges: seq<Edge>)
  {
    exists c :: IsCycle(edges, c) && Reachable(nodes, edges, c[0])
  }

  ghost predicate Acyclic(edges: seq<Edge>)
  {
    forall c :: !IsCycle(edges, c)
  }

  predicate Distinct<T(==)>(s: seq<T>)
  {
    forall i, j :: 0 <= i < j < |s| ==> s[i] != s[j]
  }

  /** The adjacency list of `u`: the targets of the edges leaving `u`, in edge order. */
  function Succ(edges: seq<Edge>, u: string): seq<string>
  {
    if |edges| == 0 then []
    else
      var last := edges[|edges| - 1];
      Succ(edges[..|edges| - 1], u) + (if last.source == u then [last.target] else [])
  }

  /** Every source and target of the edges. */
  function Endpoints(edges: seq<Edge>): set<string>
  {
    if |edges| == 0 then {}
    else
      var last := edges[|edges| - 1];
      Endpoints(edges[..|edges| - 1]) + {last.source, last.target}
  }

  /** The ids of the self-loop edges, in edge order. */
  function SelfLoopIds(edges: seq<Edge>): seq<string>
  {
    if |edges| == 0 then []
    else
      var last := edges[|edges| - 1];
      SelfLoopIds(edges[..|edges| - 1]) + (if last.source == last.target then [last.id] else [])
  }

  /** The ids of all edges, in edge order. */
  function EdgeIds(edges: seq<Edge>): (r: seq<string>)
    ensures |r| == |edges|
    ensures forall k :: 0 <= k < |edges| ==> r[k] == edges[k].id
  {
    if |edges| == 0 then []
    else EdgeIds(edges[..|edges| - 1]) + [edges[|edges| - 1].id]
  }

  /** The first edge from `u` to `w`, if any (the array `find` of the validator). */
  function FindEdge(edges: seq<Edge>, u: string, w: string): (r: Option<Edge>)
    ensures r.Some? ==> r.value in edges && r.value.source == u && r.value.target == w
  {
    if |edges| == 0 then None
    else if edges[0].source == u && edges[0].target == w then Some(edges[0])
    else FindEdge(edges[1..], u, w)
  }

  /** The ids found for the first `i` consecutive pairs of `c` (wrapping at the end). */
  function CycleEdgeIdsUpTo(edges: seq<Edge>, c: seq<string>, i: nat): seq<string>
    requires i <= |c|
  {
    if i == 0 then []
    else
      CycleEdgeIdsUpTo(edges, c, i - 1)
      + match FindEdge(edges, c[i - 1], Next(c, i - 1))
        case Some(e) => [e.id]
        case None => []
  }

  /** The ids the validator reports for the cycle `c`. */
  function CycleEdgeIds(edges: seq<Edge>, c: seq<string>): seq<string>
  {
    CycleEdgeIdsUpTo(edges, c, |c|)
  }

  // ---------------------------------------------------------------------------
  // Lemmas about the adjacency and id lists

  lemma {:induction false} SuccIsEdges(edges: seq<Edge>, u: string, w: string)
    ensures w in Succ(edges, u) <==> HasEdge(edges, u, w)
  {
    if |edges| > 0 {
      var p := edges[..|edges| - 1];
      var last := edges[|edges| - 1];
      assert edges == p + [last];
      SuccIsEdges(p, u, w);
      if HasEdge(edges, u, w) && !(last.source == u && last.target == w) {
        var e :| e in edges && e.source == u && e.target == w;
        assert e in p;
      }
    }
  }

  lemma {:induction false} EndpointsAreIncident(edges: seq<Edge>, x: string)
    ensures x in Endpoints(edges) <==> Incident(edges, x)
  {
    if |edges| > 0 {
      var p := edges[..|edges| - 1];
      var last := edges[|edges| - 1];
      assert edges == p + [last];
      EndpointsAreIncident(p, x);
      if Incident(edges, x) && !(last.source == x || last.target == x) {
        var e :| e in edges && (e.source == x || e.target == x);
        assert e in p;
      }
    }
  }

  /** Every adjacency-list entry is an edge endpoint. */
  lemma SuccInEndpoints(edges: seq<Edge>, u: string, w: string)
    requires w in Succ(edges, u)
    ensures w in Endpoints(edges)
  {
    SuccIsEdges(edges, u, w);
    var e :| e in edges && e.source == u && e.target == w;
    EndpointsAreIncident(edges, w);
  }

  lemma {:induction false} SelfLoopIdsAreSelfLoops(edges: seq<Edge>, id: string)
    ensures id in SelfLoopIds(edges) <==> exists e | e in edges :: e.source == e.target && e.id == id
  {
    if |edges| > 0 {
      var p := edges[..|edges| - 1];
      var last := edges[|edges| - 1];
      assert edges == p + [last];
      SelfLoopIdsAreSelfLoops(p, id);
      if exists e | e in edges :: e.source == e.target && e.id == id {
        var e :| e in edges && e.source == e.target && e.id == id;
        if e != last {
          assert e in p;
        }
      }
    }
  }

  /** The self-loop list is empty exactly when no edge is a self-loop. */
  lemma SelfLoopIdsEmpty(edges: seq<Edge>)
    ensures SelfLoopIds(edges) == [] <==> !HasSelfLoop(edges)
  {
    if HasSelfLoop(edges) {
      var e :| e in edges && e.source == e.target;
      SelfLoopIdsAreSelfLoops(edges, e.id);
    }
    if SelfLoopIds(edges) != [] {
      SelfLoopIdsAreSelfLoops(edges, SelfLoopIds(edges)[0]);
    }
  }

  /** `find` succeeds exactly when an edge from `u` to `w` exists. */
  lemma {:induction false} FindEdgeSucceeds(edges: seq<Edge>, u: string, w: string)
    ensures FindEdge(edges, u, w).Some? <==> HasEdge(edges, u, w)
  {
    if |edges| > 0 && !(edges[0].source == u && edges[0].target == w) {
      var rest := edges[1..];
      assert edges == [edges[0]] + rest;
      FindEdgeSucceeds(rest, u, w);
      if HasEdge(edges, u, w) {
        var e :| e in edges && e.source == u && e.target == w;
        assert e in rest;
      }
    }
  }

  /** What `find` returns is the first matching edge: every edge before it
      goes elsewhere. */
  lemma {:induction false} FindEdgeIsFirst(edges: seq<Edge>, u: string, w: string)
    requires FindEdge(edges, u, w).Some?
    ensures exists k :: 0 <= k < |edges| && edges[k] == FindEdge(edges, u, w).value &&
              forall j :: 0 <= j < k ==> !(edges[j].source == u && edges[j].target == w)
  {
    if !(edges[0].source == u && edges[0].target == w) {
      var rest := edges[1..];
      FindEdgeIsFirst(rest, u, w);
      var k :| 0 <= k < |rest| && rest[k] == FindEdge(rest, u, w).value &&
        forall j :: 0 <= j < k ==> !(rest[j].source == u && rest[j].target == w);
      assert edges[k + 1] == rest[k];
      forall j | 0 <= j < k + 1
        ensures !(edges[j].source == u && edges[j].target == w)
      {
        if j > 0 {
          assert edges[j] == rest[j - 1];
        }
      }
    } else {
      assert edges[0] == FindEdge(edges, u, w).value;
    }
  }

  /** Each of the first `i` consecutive pairs of `c` is joined by an edge. */
  predicate PairsFound(edges: seq<Edge>, c: seq<string>, i: nat)
    requires i <= |c|
  {
    forall k {:trigger Next(c, k)} :: 0 <= k < i ==> FindEdge(edges, c[k], Next(c, k)).Some?
  }

  lemma {:induction false} CycleEdgeIdsUpToLength(edges: seq<Edge>, c: seq<string>, i: nat)
    requires i <= |c| && PairsFound(edges, c, i)
    ensures |CycleEdgeIdsUpTo(edges, c, i)| == i
  {
    if i > 0 {
      CycleEdgeIdsUpToLength(edges, c, i - 1);
      assert FindEdge(edges, c[i - 1], Next(c, i - 1)).Some?;
    }
  }

  lemma {:induction false} CycleEdgeIdsUpToAt(edges: seq<Edge>, c: seq<string>, i: nat, j: nat)
    requires j < i <= |c| && PairsFound(edges, c, i)
    ensures |CycleEdgeIdsUpTo(edges, c, i)| == i
    ensures FindEdge(edges, c[j], Next(c, j)).Some?
    ensures CycleEdgeIdsUpTo(edges, c, i)[j] == FindEdge(edges, c[j], Next(c, j)).value.id
  {
    CycleEdgeIdsUpToLength(edges, c, i);
    assert FindEdge(edges, c[i - 1], Next(c, i - 1)).Some?;
    if j < i - 1 {
      CycleEdgeIdsUpToAt(edges, c, i - 1, j);
    }
  }

  /** Reporting a cycle adds exactly one id per cycle node: the id of the
      first edge from that node to the next one (the last wrapping to the first). */
  lemma CycleEdgeIdsOfCycle(edges: seq<Edge>, c: seq<string>)
    requires IsCycle(edges, c)
    ensures |CycleEdgeIds(edges, c)| == |c|
    ensures forall j {:trigger CycleEdgeIds(edges, c)[j]} :: 0 <= j < |c| ==>
              FindEdge(edges, c[j], Next(c, j)).Some? &&
              CycleEdgeIds(edges, c)[j] == FindEdge(edges, c[j], Next(c, j)).value.id
  {
    forall k | 0 <= k < |c|
      ensures FindEdge(edges, c[k], Next(c, k)).Some?
    {
      FindEdgeSucceeds(edges, c[k], Next(c, k));
    }
    CycleEdgeIdsUpToLength(edges, c, |c|);
    forall j | 0 <= j < |c|
      ensures FindEdge(edges, c[j], Next(c, j)).Some? &&
              CycleEdgeIds(edges, c)[j] == FindEdge(edges, c[j], Next(c, j)).value.id
    {
      CycleEdgeIdsUpToAt(edges, c, |c|, j);
    }
  }

  // ---------------------------------------------------------------------------
  // Lemmas about self-loops and cycles

  /** A self-loop on a listed node is a cycle reachable from that node. */
  lemma SelfLoopOnNodeIsReachableCycle(nodes: seq<Node>, edges: seq<Edge>, e: Edge)
    requires e in edges && e.source == e.target && e.source in NodeIds(nodes)
    ensures CycleReachable(nodes, edges)
  {
    var c := [e.source];
    assert HasEdge(edges, c[0], Next(c, 0));
    assert IsCycle(edges, c);
    assert IsWalk(edges, c);
    assert Reachable(nodes, edges, c[0]);
  }

  /** When no cycle is reachable, every self-loop sits on an id no listed node
      reaches; in particular on an id that is not a listed node. */
  lemma SelfLoopsUnreachable(nodes: seq<Node>, edges: seq<Edge>)
    requires !CycleReachable(nodes, edges)
    ensures forall e | e in edges && e.source == e.target ::
              !Reachable(nodes, edges, e.source) && e.source !in NodeIds(nodes)
  {
    forall e | e in edges && e.source == e.target
      ensures !Reachable(nodes, edges, e.source) && e.source !in NodeIds(nodes)
    {
      var c := [e.source];
      assert HasEdge(edges, c[0], Next(c, 0));
      assert IsCycle(edges, c);
      if e.source in NodeIds(nodes) {
        SelfLoopOnNodeIsReachableCycle(nodes, edges, e);
      }
    }
  }

  /** Reporting the one-node cycle of a self-loop names that self-loop's id a
      second time: it is already among the self-loop ids. */
  lemma OneNodeCycleRepeatsSelfLoop(edges: seq<Edge>, x: string)
    requires HasEdge(edges, x, x)
    ensures FindEdge(edges, x, x).Some?
    ensures CycleEdgeIds(edges, [x]) == [FindEdge(edges, x, x).value.id]
    ensures FindEdge(edges, x, x).value.id in SelfLoopIds(edges)
  {
    FindEdgeSucceeds(edges, x, x);
    var e := FindEdge(edges, x, x).value;
    assert Next([x], 0) == x;
    assert CycleEdgeIds(edges, [x]) == CycleEdgeIdsUpTo(edges, [x], 0) + [e.id];
    SelfLoopIdsAreSelfLoops(edges, e.id);
  }

  /** Without dangling endpoints, a reachable cycle is the same as any cycle. */
  lemma ClosedCycleReachable(nodes: seq<Node>, edges: seq<Edge>)
    requires Closed(nodes, edges)
    ensures CycleReachable(nodes, edges) <==> !Acyclic(edges)
  {
    if !Acyclic(edges) {
      var c :| IsCycle(edges, c);
      assert HasEdge(edges, c[0], Next(c, 0));
      var e :| e in edges && e.source == c[0] && e.target == Next(c, 0);
      assert IsWalk(edges, [c[0]]);
    }
  }
}
