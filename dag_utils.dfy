/** The graph validator `validateDAG`: a fixed sequence of checks (size,
    self-loops, connectivity, cycles) over a node list and an edge list, with
    the depth-first cycle search over explicit `visited` / `recStack` / `path`
    state. */
module DagUtils {
  import opened GraphTypes
  import opened DagSpec

  /** The status texts: a verdict word, then the reason. */
  const InvalidPrefix: string := "INVALID: "
  const TooFewNodesMessage: string := InvalidPrefix + "Add at least 2 nodes"
  const UnconnectedMessage: string := InvalidPrefix + "All nodes must be connected to at least one edge"
  const CycleMessage: string := InvalidPrefix + "The graph contains a cycle"
  const SelfLoopMessage: string := InvalidPrefix + "The graph contains a self-loop"
  const ValidMessage: string := "VALID: The graph is a valid DAG"

  datatype ValidationResult = ValidationResult(valid: bool, message: string, invalidEdgeIds: seq<string>)

  /** The status text announces a valid graph: it starts with `VALID`. */
  predicate AnnouncesValid(message: string)
  {
    |message| >= 5 && message[..5] == "VALID"
  }

  /** The adjacency record: node id to the list of its edge targets. */
  type Adjacency = map<string, seq<string>>

  /** The list of `v`; an id without an entry has no neighbours. */
  function Neighbours(adj: Adjacency, v: string): seq<string>
  {
    if v in adj then adj[v] else []
  }

  /** The record after its initialisation: an empty list for every node id. */
  function EmptyLists(nodes: seq<Node>): Adjacency
  {
    if |nodes| == 0 then map[]
    else EmptyLists(nodes[..|nodes| - 1])[nodes[|nodes| - 1].id := []]
  }

  /** The record after the edge pass: each edge appends its target to the
      list of its source, creating the list when the source has none. */
  function AdjacencyFor(nodes: seq<Node>, edges: seq<Edge>): Adjacency
  {
    if |edges| == 0 then EmptyLists(nodes)
    else
      var a := AdjacencyFor(nodes, edges[..|edges| - 1]);
      var last := edges[|edges| - 1];
      a[last.source := Neighbours(a, last.source) + [last.target]]
  }

  /** `w` is listed under `u` exactly when an edge goes from `u` to `w`. */
  ghost predicate ListsEdges(adj: Adjacency, edges: seq<Edge>)
  {
    forall u, w :: w in Neighbours(adj, u) <==> HasEdge(edges, u, w)
  }

  lemma {:induction false} EmptyListsAreEmpty(nodes: seq<Node>, u: string)
    ensures Neighbours(EmptyLists(nodes), u) == []
    ensures u in EmptyLists(nodes) <==> u in NodeIds(nodes)
  {
    if |nodes| > 0 {
      var p := nodes[..|nodes| - 1];
      EmptyListsAreEmpty(p, u);
      assert nodes == p + [nodes[|nodes| - 1]];
      assert NodeIds(nodes) == NodeIds(p) + {nodes[|nodes| - 1].id};
    }
  }

  /** The list of every id holds the targets of its outgoing edges, in edge order. */
  lemma {:induction false} AdjacencyForIsSucc(nodes: seq<Node>, edges: seq<Edge>, u: string)
    ensures Neighbours(AdjacencyFor(nodes, edges), u) == Succ(edges, u)
  {
    if |edges| == 0 {
      EmptyListsAreEmpty(nodes, u);
    } else {
      AdjacencyForIsSucc(nodes, edges[..|edges| - 1], u);
    }
  }

  /** Every node id has a list, and so has every edge source; no other id has one. */
  lemma {:induction false} AdjacencyForKeys(nodes: seq<Node>, edges: seq<Edge>, u: string)
    ensures u in AdjacencyFor(nodes, edges) <==> u in NodeIds(nodes) || exists e | e in edges :: e.source == u
  {
    if |edges| == 0 {
      EmptyListsAreEmpty(nodes, u);
    } else {
      var p := edges[..|edges| - 1];
      var last := edges[|edges| - 1];
      assert edges == p + [last];
      AdjacencyForKeys(nodes, p, u);
      if exists e | e in edges :: e.source == u {
        var e :| e in edges && e.source == u;
        if e != last {
          assert e in p;
        }
      }
    }
  }

  lemma AdjacencyForListsEdges(nodes: seq<Node>, edges: seq<Edge>)
    ensures ListsEdges(AdjacencyFor(nodes, edges), edges)
  {
    forall u, w
      ensures w in Neighbours(AdjacencyFor(nodes, edges), u) <==> HasEdge(edges, u, w)
    {
      AdjacencyForIsSucc(nodes, edges, u);
      SuccIsEdges(edges, u, w);
    }
  }

  /** Every listed id is an edge endpoint. */
  lemma AdjacencyForBounded(nodes: seq<Node>, edges: seq<Edge>)
    ensures forall u, w | w in Neighbours(AdjacencyFor(nodes, edges), u) :: w in Endpoints(edges)
  {
    forall u, w | w in Neighbours(AdjacencyFor(nodes, edges), u)
      ensures w in Endpoints(edges)
    {
      AdjacencyForIsSucc(nodes, edges, u);
      SuccInEndpoints(edges, u, w);
    }
  }

  function Elems(s: seq<string>): set<string>
  {
    set x | x in s
  }

  /** The first position of `x` (the array `indexOf`). */
  function IndexOf(s: seq<string>, x: string): (k: nat)
    requires x in s
    ensures k < |s| && s[k] == x
    ensures forall j :: 0 <= j < k ==> s[j] != x
  {
    if s[0] == x then 0 else 1 + IndexOf(s[1..], x)
  }

  /** Each id of `path` is followed by one of its neighbours. */
  ghost predicate Linked(adj: Adjacency, path: seq<string>)
  {
    forall i :: 0 <= i < |path| - 1 ==> path[i + 1] in Neighbours(adj, path[i])
  }

  /** Every neighbour of a finished id finished strictly earlier. */
  ghost predicate Finished(adj: Adjacency, rank: map<string, nat>)
  {
    forall u, w | u in rank && w in Neighbours(adj, u) :: w in rank && rank[w] < rank[u]
  }

  /** The bookkeeping of the search: `recStack` holds exactly the ids of
      `path`, a simple chain of neighbours; every visited id is on the path or
      finished; and finished ids respect `Finished`. */
  ghost predicate SearchState(adj: Adjacency, universe: set<string>, visited: set<string>, recStack: set<string>,
                              path: seq<string>, rank: map<string, nat>, clock: nat)
  {
    visited <= universe &&
    recStack == Elems(path) && Distinct(path) && Linked(adj, path) &&
    visited == recStack + rank.Keys && recStack !! rank.Keys &&
    (forall u | u in rank :: rank[u] < clock) &&
    Finished(adj, rank)
  }

  /** Entering an unvisited neighbour of the last path id keeps the bookkeeping. */
  lemma EnterKeepsState(adj: Adjacency, universe: set<string>, visited: set<string>, recStack: set<string>,
                        path: seq<string>, rank: map<string, nat>, clock: nat, v: string)
    requires SearchState(adj, universe, visited, recStack, path, rank, clock)
    requires v in universe && v !in visited
    requires path != [] ==> v in Neighbours(adj, path[|path| - 1])
    ensures SearchState(adj, universe, visited + {v}, recStack + {v}, path + [v], rank, clock)
  {
    var p := path + [v];
    assert Elems(p) == Elems(path) + {v};
    forall i | 0 <= i < |p| - 1
      ensures p[i + 1] in Neighbours(adj, p[i])
    {
      if i < |path| - 1 {
        assert p[i] == path[i] && p[i + 1] == path[i + 1];
      }
    }
    forall i, j | 0 <= i < j < |p|
      ensures p[i] != p[j]
    {
      if j < |path| {
        assert p[i] == path[i] && p[j] == path[j];
      } else {
        assert p[i] == path[i] && p[i] in Elems(path);
      }
    }
  }

  /** Leaving the last path id once all its neighbours are finished, and
      finishing it with the next rank, keeps the bookkeeping. */
  lemma LeaveKeepsState(adj: Adjacency, universe: set<string>, visited: set<string>, recStack: set<string>,
                        path: seq<string>, rank: map<string, nat>, clock: nat, v: string)
    requires SearchState(adj, universe, visited, recStack, path + [v], rank, clock)
    requires forall w | w in Neighbours(adj, v) :: w in rank
    ensures v !in rank
    ensures SearchState(adj, universe, visited, recStack - {v}, path, rank[v := clock], clock + 1)
  {
    var p := path + [v];
    assert v == p[|p| - 1] && v in Elems(p);
    forall i | 0 <= i < |path|
      ensures path[i] != v
    {
      assert path[i] == p[i];
    }
    assert Elems(path) == recStack - {v} by {
      forall x
        ensures x in Elems(path) <==> x in Elems(p) && x != v
      {
        if x in Elems(path) {
          var i :| 0 <= i < |path| && path[i] == x;
          assert p[i] == x;
        }
        if x in Elems(p) && x != v {
          var i :| 0 <= i < |p| && p[i] == x;
          assert path[i] == x;
        }
      }
    }
    forall i | 0 <= i < |path| - 1
      ensures path[i + 1] in Neighbours(adj, path[i])
    {
      assert path[i] == p[i] && path[i + 1] == p[i + 1];
    }
    forall i, j | 0 <= i < j < |path|
      ensures path[i] != path[j]
    {
      assert path[i] == p[i] && path[j] == p[j];
    }
  }

  /** The depth-first search of `hasCycle` and the state it shares across calls. */
  class CycleSearch {
    const adj: Adjacency
    /** Every id the search can meet: the node ids and the edge endpoints. */
    ghost const universe: set<string>
    var visited: set<string>
    var recStack: set<string>
    var path: seq<string>
    var cycleNodes: seq<string>
    /** The order in which ids finished (left the recursion stack without a cycle). */
    ghost var rank: map<string, nat>
    ghost var clock: nat

    ghost predicate Valid()
      reads this
    {
      SearchState(adj, universe, visited, recStack, path, rank, clock)
    }

    ghost predicate Bounded()
    {
      forall u, w | w in Neighbours(adj, u) :: w in universe
    }

    /** `cycleNodes` is a non-empty suffix of `path` whose first id is a
        neighbour of the last id of `path`. */
    ghost predicate CycleFound()
      reads this
    {
      0 < |cycleNodes| <= |path| &&
      cycleNodes == path[|path| - |cycleNodes|..] &&
      cycleNodes[0] in Neighbours(adj, path[|path| - 1])
    }

    constructor (adj: Adjacency, ghost universe: set<string>)
      requires forall u, w | w in Neighbours(adj, u) :: w in universe
      ensures Valid() && Bounded()
      ensures this.adj == adj && this.universe == universe
      ensures visited == {} && recStack == {} && path == [] && cycleNodes == [] && rank == map[]
    {
      this.adj := adj;
      this.universe := universe;
      visited, recStack, path, cycleNodes := {}, {}, [], [];
      rank, clock := map[], 0;
    }

    /** The loop of `validateDAG` over the nodes: `hasCycle(node.id, [])`
        for each node in turn, stopping at the first cycle. */
    method FindCycle(nodes: seq<Node>) returns (found: bool)
      requires Valid() && Bounded() && path == []
      requires NodeIds(nodes) <= universe
      modifies this
      ensures Valid()
      ensures !found ==> forall n | n in nodes :: n.id in rank
      ensures found ==> |path| > 0 && path[0] in NodeIds(nodes) && CycleFound()
    {
      for i := 0 to |nodes|
        invariant Valid() && path == []
        invariant forall k :: 0 <= k < i ==> nodes[k].id in rank
      {
        assert nodes[i] in nodes;
        found := HasCycle(nodes[i].id);
        if found {
          return;
        }
      }
      found := false;
    }

    /** `hasCycle(v, path)`. Returning false, the search leaves `path` and
        `recStack` as it found them and `v` finished; returning true, `path`
        still holds the branch that reached the cycle and `cycleNodes` the cycle. */
    method HasCycle(v: string) returns (found: bool)
      requires Valid() && Bounded()
      requires v in universe
      requires v in visited ==> path == []
      requires v !in visited && path != [] ==> v in Neighbours(adj, path[|path| - 1])
      modifies this
      decreases universe - visited, 0
      ensures Valid()
      ensures old(visited) <= visited
      ensures old(rank).Keys <= rank.Keys
      ensures !found ==> path == old(path) && recStack == old(recStack) && v in rank
      ensures found ==> |path| > 0 && path[0] == (old(path) + [v])[0] && CycleFound()
    {
      if v !in visited {
        assert v !in recStack;
        EnterKeepsState(adj, universe, visited, recStack, path, rank, clock, v);
        visited, recStack, path := visited + {v}, recStack + {v}, path + [v];
        found := SearchNeighbours(v);
        if found {
          return;
        }
        assert recStack == old(recStack) + {v};
        LeaveKeepsState(adj, universe, visited, recStack, old(path), rank, clock, v);
        assert path[..|path| - 1] == old(path);
        recStack, path := recStack - {v}, path[..|path| - 1];
        rank, clock := rank[v := clock], clock + 1;
        assert recStack == old(recStack);
      } else {
        // reached only from the outer loop: the stack and the path are
        // empty, and popping the empty path leaves it empty
        assert recStack == Elems([]) == {};
        recStack := recStack - {v};
      }
      found := false;
    }

    /** The loop of `hasCycle` over the neighbours of `v`, the last id of the
        path: an unvisited neighbour is searched, a neighbour still on the
        recursion stack closes a cycle. */
    method SearchNeighbours(v: string) returns (found: bool)
      requires Valid() && Bounded()
      requires path != [] && path[|path| - 1] == v
      modifies this
      decreases universe - visited, 1
      ensures Valid()
      ensures old(visited) <= visited
      ensures old(rank).Keys <= rank.Keys
      ensures !found ==> path == old(path) && recStack == old(recStack) &&
                         forall w | w in Neighbours(adj, v) :: w in rank
      ensures found ==> |path| > 0 && path[0] == old(path)[0] && CycleFound()
    {
      var neighbours := Neighbours(adj, v);
      for j := 0 to |neighbours|
        invariant Valid()
        invariant path == old(path) && recStack == old(recStack)
        invariant old(visited) <= visited
        invariant old(rank).Keys <= rank.Keys
        invariant forall k :: 0 <= k < j ==> neighbours[k] in rank
      {
        var w := neighbours[j];
        if w !in visited {
          ghost var before := path;
          found := HasCycle(w);
          if found {
            assert path[0] == (before + [w])[0] == before[0];
            return;
          }
        }
        if w in recStack {
          var start := IndexOf(path, w);
          cycleNodes := path[start..];
          assert SearchState(adj, universe, visited, recStack, path, rank, clock);
          return true;
        }
      }
      assert forall w | w in neighbours :: w in rank;
      found := false;
    }
  }

  // ---------------------------------------------------------------------------
  // What the search establishes

  /** Along a walk from a finished id, the last id is finished too, with a
      rank lower by at least the number of steps. */
  lemma {:induction false} RankFallsAlongWalk(edges: seq<Edge>, adj: Adjacency, rank: map<string, nat>, w: seq<string>)
    requires ListsEdges(adj, edges) && Finished(adj, rank)
    requires IsWalk(edges, w) && w[0] in rank
    ensures w[|w| - 1] in rank && rank[w[|w| - 1]] + |w| - 1 <= rank[w[0]]
  {
    if |w| > 1 {
      var n := |w| - 1;
      var p := w[..n];
      assert IsWalk(edges, p) by {
        forall i | 0 <= i < |p| - 1
          ensures HasEdge(edges, p[i], p[i + 1])
        {
          assert p[i] == w[i] && p[i + 1] == w[i + 1];
        }
      }
      RankFallsAlongWalk(edges, adj, rank, p);
      assert HasEdge(edges, w[n - 1], w[n]);
      assert w[n] in Neighbours(adj, p[n - 1]);
    }
  }

  /** A search that finished every node without finding a cycle proves that
      no cycle is reachable from any node. */
  lemma NoReachableCycleWhenFinished(nodes: seq<Node>, edges: seq<Edge>, adj: Adjacency, rank: map<string, nat>)
    requires ListsEdges(adj, edges) && Finished(adj, rank)
    requires forall n | n in nodes :: n.id in rank
    ensures !CycleReachable(nodes, edges)
  {
    if CycleReachable(nodes, edges) {
      var c :| IsCycle(edges, c) && Reachable(nodes, edges, c[0]);
      var w :| IsWalk(edges, w) && w[0] in NodeIds(nodes) && w[|w| - 1] == c[0];
      RankFallsAlongWalk(edges, adj, rank, w);
      var around := c + [c[0]];
      assert IsWalk(edges, around) by {
        forall i | 0 <= i < |around| - 1
          ensures HasEdge(edges, around[i], around[i + 1])
        {
          assert around[i] == c[i];
          if i < |c| - 1 {
            assert around[i + 1] == Next(c, i);
          } else {
            assert around[i + 1] == Next(c, i);
          }
        }
      }
      RankFallsAlongWalk(edges, adj, rank, around);
      assert false;
    }
  }

  /** A chain of neighbours is a walk. */
  lemma LinkedIsWalk(edges: seq<Edge>, adj: Adjacency, path: seq<string>)
    requires ListsEdges(adj, edges) && Linked(adj, path) && |path| > 0
    ensures IsWalk(edges, path)
  {
    forall i | 0 <= i < |path| - 1
      ensures HasEdge(edges, path[i], path[i + 1])
    {
      assert path[i + 1] in Neighbours(adj, path[i]);
    }
  }

  /** A suffix of a chain of neighbours whose first id is a neighbour of the
      chain's last id is a cycle. */
  lemma BackEdgeClosesCycle(edges: seq<Edge>, adj: Adjacency, path: seq<string>, s: nat)
    requires ListsEdges(adj, edges) && Linked(adj, path) && s < |path|
    requires path[s] in Neighbours(adj, path[|path| - 1])
    ensures IsCycle(edges, path[s..])
  {
    var cycle := path[s..];
    forall i | 0 <= i < |cycle|
      ensures HasEdge(edges, cycle[i], Next(cycle, i))
    {
      if i < |cycle| - 1 {
        assert cycle[i] == path[s + i] && Next(cycle, i) == path[s + i + 1];
        assert path[s + i + 1] in Neighbours(adj, path[s + i]);
      } else {
        assert Next(cycle, i) == path[s] && cycle[i] == path[|path| - 1];
      }
    }
  }

  /** The cycle a search reports is a simple cycle reachable from the node the search started at. */
  lemma FoundCycleIsReachable(nodes: seq<Node>, edges: seq<Edge>, adj: Adjacency, path: seq<string>, cycle: seq<string>)
    requires ListsEdges(adj, edges)
    requires Linked(adj, path) && Distinct(path) && |path| > 0 && path[0] in NodeIds(nodes)
    requires 0 < |cycle| <= |path| && cycle == path[|path| - |cycle|..]
    requires cycle[0] in Neighbours(adj, path[|path| - 1])
    ensures IsCycle(edges, cycle) && Distinct(cycle) && Reachable(nodes, edges, cycle[0])
  {
    var s := |path| - |cycle|;
    var w := path[..s + 1];
    assert Linked(adj, w) by {
      forall i | 0 <= i < |w| - 1
        ensures w[i + 1] in Neighbours(adj, w[i])
      {
        assert w[i] == path[i] && w[i + 1] == path[i + 1];
      }
    }
    LinkedIsWalk(edges, adj, w);
    assert w[0] == path[0] && w[|w| - 1] == cycle[0];
    BackEdgeClosesCycle(edges, adj, path, s);
    DistinctSuffix(path, s);
  }

  lemma DistinctSuffix(s: seq<string>, k: nat)
    requires Distinct(s) && k <= |s|
    ensures Distinct(s[k..])
  {
    var t := s[k..];
    forall i, j | 0 <= i < j < |t|
      ensures t[i] != t[j]
    {
      assert t[i] == s[k + i] && t[j] == s[k + j];
    }
  }

  // ---------------------------------------------------------------------------
  // The validator

  /** One more edge of the pass: its target joins its source's list, and its
      id joins the self-loop ids when it is a self-loop. */
  lemma EdgePassStep(nodes: seq<Node>, edges: seq<Edge>, i: nat)
    requires i < |edges|
    ensures AdjacencyFor(nodes, edges[..i + 1]) ==
              AdjacencyFor(nodes, edges[..i])[edges[i].source := Neighbours(AdjacencyFor(nodes, edges[..i]), edges[i].source) + [edges[i].target]]
    ensures SelfLoopIds(edges[..i + 1]) ==
              SelfLoopIds(edges[..i]) + (if edges[i].source == edges[i].target then [edges[i].id] else [])
  {
    assert edges[..i + 1][..i] == edges[..i];
  }

  /** The adjacency record and the self-loop scan (one pass over the edges). */
  method BuildAdjacency(nodes: seq<Node>, edges: seq<Edge>) returns (adj: Adjacency, selfLoops: seq<string>, hasSelfLoop: bool)
    ensures adj == AdjacencyFor(nodes, edges)
    ensures selfLoops == SelfLoopIds(edges)
    ensures hasSelfLoop <==> HasSelfLoop(edges)
  {
    adj := map[];
    for i := 0 to |nodes|
      invariant adj == EmptyLists(nodes[..i])
    {
      assert EmptyLists(nodes[..i + 1]) == EmptyLists(nodes[..i])[nodes[i].id := []] by {
        assert nodes[..i + 1][..i] == nodes[..i];
      }
      adj := adj[nodes[i].id := []];
    }
    assert nodes[..|nodes|] == nodes;
    selfLoops := [];
    hasSelfLoop := false;
    for i := 0 to |edges|
      invariant adj == AdjacencyFor(nodes, edges[..i])
      invariant selfLoops == SelfLoopIds(edges[..i])
      invariant hasSelfLoop <==> selfLoops != []
    {
      var edge := edges[i];
      EdgePassStep(nodes, edges, i);
      if edge.source == edge.target {
        selfLoops := selfLoops + [edge.id];
        hasSelfLoop := true;
      }
      ghost var before := adj;
      if edge.source !in adj {
        adj := adj[edge.source := []];
      }
      adj := adj[edge.source := adj[edge.source] + [edge.target]];
      assert adj == before[edge.source := Neighbours(before, edge.source) + [edge.target]];
    }
    assert edges[..|edges|] == edges;
    SelfLoopIdsEmpty(edges);
  }

  /** The set of ids that occur as a source or a target. */
  method ConnectedIds(edges: seq<Edge>) returns (connected: set<string>)
    ensures forall x :: x in connected <==> Incident(edges, x)
  {
    connected := {};
    for i := 0 to |edges|
      invariant connected == Endpoints(edges[..i])
    {
      assert edges[..i + 1][..i] == edges[..i];
      connected := connected + {edges[i].source};
      connected := connected + {edges[i].target};
    }
    assert edges[..|edges|] == edges;
    forall x
      ensures x in connected <==> Incident(edges, x)
    {
      EndpointsAreIncident(edges, x);
    }
  }

  /** Whether some node's id is missing from `connected`. */
  method SomeUnconnected(nodes: seq<Node>, connected: set<string>) returns (found: bool)
    ensures found <==> exists n | n in nodes :: n.id !in connected
  {
    for i := 0 to |nodes|
      invariant forall k :: 0 <= k < i ==> nodes[k].id in connected
    {
      if nodes[i].id !in connected {
        return true;
      }
    }
    return false;
  }

  /** The remainder of `i + 1` by `n` is the position after `i`, wrapping to 0 at the end. */
  lemma NextIndex(i: nat, n: nat)
    requires i < n
    ensures (i + 1) % n == if i + 1 < n then i + 1 else 0
  {
    if i + 1 == n {
      assert (i + 1) % n == n % n;
    }
  }

  /** One id per consecutive pair of `cycleNodes` (the last pair wrapping to
      the first node) for which an edge is found. */
  method CycleEdgeIdsOf(edges: seq<Edge>, cycleNodes: seq<string>) returns (ids: seq<string>)
    ensures ids == CycleEdgeIds(edges, cycleNodes)
  {
    ids := [];
    for i := 0 to |cycleNodes|
      invariant ids == CycleEdgeIdsUpTo(edges, cycleNodes, i)
    {
      var from := cycleNodes[i];
      var to := cycleNodes[(i + 1) % |cycleNodes|];
      NextIndex(i, |cycleNodes|);
      var edge := FindEdge(edges, from, to);
      if edge.Some? {
        ids := ids + [edge.value.id];
      }
    }
  }

  /** The status texts: only the last one announces a valid graph. */
  lemma MessagesAnnounceVerdict()
    ensures !AnnouncesValid(TooFewNodesMessage) && !AnnouncesValid(UnconnectedMessage)
    ensures !AnnouncesValid(CycleMessage) && !AnnouncesValid(SelfLoopMessage)
    ensures AnnouncesValid(ValidMessage)
  {
    assert TooFewNodesMessage[0] == InvalidPrefix[0] == 'I';
    assert UnconnectedMessage[0] == InvalidPrefix[0];
    assert CycleMessage[0] == InvalidPrefix[0] && SelfLoopMessage[0] == InvalidPrefix[0];
    assert ValidMessage[..5] == "VALID";
  }

  /** `validateDAG(nodes, edges)`. */
  method ValidateDAG(nodes: seq<Node>, edges: seq<Edge>) returns (r: ValidationResult)
    // size
    ensures |nodes| < 2 ==> r == ValidationResult(false, TooFewNodesMessage, [])
    // connectivity, before cycles: self-loop ids, then every edge id
    ensures |nodes| >= 2 && !AllConnected(nodes, edges) ==>
              r == ValidationResult(false, UnconnectedMessage, SelfLoopIds(edges) + EdgeIds(edges))
    // one simple cycle, reachable from a node: self-loop ids, then one id per cycle node
    ensures |nodes| >= 2 && AllConnected(nodes, edges) && CycleReachable(nodes, edges) ==>
              !r.valid && r.message == CycleMessage &&
              exists c :: IsCycle(edges, c) && Distinct(c) && Reachable(nodes, edges, c[0]) &&
                r.invalidEdgeIds == SelfLoopIds(edges) + CycleEdgeIds(edges, c)
    // self-loops no node reaches
    ensures |nodes| >= 2 && AllConnected(nodes, edges) && !CycleReachable(nodes, edges) && HasSelfLoop(edges) ==>
              r == ValidationResult(false, SelfLoopMessage, SelfLoopIds(edges))
    ensures |nodes| >= 2 && AllConnected(nodes, edges) && !CycleReachable(nodes, edges) && !HasSelfLoop(edges) ==>
              r == ValidationResult(true, ValidMessage, [])
    // soundness and completeness
    ensures r.valid ==> r.invalidEdgeIds == [] && |nodes| >= 2 && AllConnected(nodes, edges) &&
                        !HasSelfLoop(edges) && !CycleReachable(nodes, edges)
    ensures |nodes| >= 2 && AllConnected(nodes, edges) && !HasSelfLoop(edges) && Acyclic(edges) ==> r.valid
    ensures r.valid <==> AnnouncesValid(r.message)
  {
    MessagesAnnounceVerdict();
    if |nodes| < 2 {
      return ValidationResult(false, TooFewNodesMessage, []);
    }
    var adj, invalidEdgeIds, hasSelfLoop := BuildAdjacency(nodes, edges);

    var connected := ConnectedIds(edges);
    var unconnected := SomeUnconnected(nodes, connected);
    if unconnected {
      invalidEdgeIds := invalidEdgeIds + EdgeIds(edges);
      return ValidationResult(false, UnconnectedMessage, invalidEdgeIds);
    }

    ghost var universe := NodeIds(nodes) + Endpoints(edges);
    AdjacencyForBounded(nodes, edges);
    var search := new CycleSearch(adj, universe);
    var found := search.FindCycle(nodes);
    AdjacencyForListsEdges(nodes, edges);
    if found {
      FoundCycleIsReachable(nodes, edges, adj, search.path, search.cycleNodes);
      var cycleIds := CycleEdgeIdsOf(edges, search.cycleNodes);
      invalidEdgeIds := invalidEdgeIds + cycleIds;
      return ValidationResult(false, CycleMessage, invalidEdgeIds);
    }
    NoReachableCycleWhenFinished(nodes, edges, adj, search.rank);

    if hasSelfLoop {
      return ValidationResult(false, SelfLoopMessage, invalidEdgeIds);
    }
    SelfLoopIdsEmpty(edges);
    return ValidationResult(true, ValidMessage, invalidEdgeIds);
  }
}
