/** Worked cases of the validator on small canvases. */
module DagExamples {
  import opened GraphTypes
  import opened DagSpec
  import opened DagUtils

  function Stage(id: string): Node
  {
    Node(id, Some(id), Position(0.0, 0.0), "default")
  }

  function Link(id: string, source: string, target: string): Edge
  {
    Edge(id, source, target, Some("out"), Some("in"))
  }

  /** A sequence of copies of one id is distinct exactly when it has at most one entry. */
  lemma DistinctCopies(c: seq<string>, x: string)
    requires forall i | 0 <= i < |c| :: c[i] == x
    ensures Distinct(c) <==> |c| <= 1
  {
    if |c| > 1 {
      assert c[0] == c[1];
    }
  }

  /** In a graph whose every edge ends at `x`, the only simple cycle is `[x]`. */
  lemma OnlyCycleThroughSink(edges: seq<Edge>, x: string, c: seq<string>)
    requires forall e | e in edges :: e.target == x
    requires IsCycle(edges, c) && Distinct(c)
    ensures c == [x]
  {
    forall i | 0 <= i < |c|
      ensures c[i] == x
    {
      var p := if i == 0 then |c| - 1 else i - 1;
      assert Next(c, p) == c[i];
      assert HasEdge(edges, c[p], Next(c, p));
    }
    DistinctCopies(c, x);
  }

  /** Along a cycle whose every edge lowers `rank`, the rank `k + 1` steps on
      from the first id is at least `k + 1` below the first id's. */
  lemma {:induction false} RankFallsAroundCycle(edges: seq<Edge>, rank: string -> int, c: seq<string>, k: nat)
    requires forall e | e in edges :: rank(e.source) > rank(e.target)
    requires IsCycle(edges, c) && k < |c|
    ensures rank(c[0]) >= rank(Next(c, k)) + k + 1
  {
    assert HasEdge(edges, c[k], Next(c, k));
    if k > 0 {
      RankFallsAroundCycle(edges, rank, c, k - 1);
      assert Next(c, k - 1) == c[k];
    }
  }

  /** A ranking of the ids that every edge lowers rules out every cycle. */
  lemma RankedIsAcyclic(edges: seq<Edge>, rank: string -> int)
    requires forall e | e in edges :: rank(e.source) > rank(e.target)
    ensures Acyclic(edges)
  {
    forall c
      ensures !IsCycle(edges, c)
    {
      if IsCycle(edges, c) {
        RankFallsAroundCycle(edges, rank, c, |c| - 1);
        assert false;
      }
    }
  }

  /** The canvas of the self-loop case: every node attached, a cycle
      reachable, and every simple cycle reported as the self-loop's id. */
  lemma SelfLoopCanvas(nodes: seq<Node>, edges: seq<Edge>)
    requires nodes == [Stage("a"), Stage("b")]
    requires edges == [Link("a-b", "a", "b"), Link("b-b", "b", "b")]
    ensures |nodes| >= 2 && AllConnected(nodes, edges) && CycleReachable(nodes, edges)
    ensures SelfLoopIds(edges) == ["b-b"]
    ensures forall c | IsCycle(edges, c) && Distinct(c) :: CycleEdgeIds(edges, c) == ["b-b"]
  {
    assert edges[0] in edges && edges[1] in edges;
    assert Stage("a") in nodes && Stage("b") in nodes;
    assert AllConnected(nodes, edges);
    SelfLoopOnNodeIsReachableCycle(nodes, edges, edges[1]);
    assert SelfLoopIds(edges) == ["b-b"] by {
      var first := edges[..1];
      assert first == [Link("a-b", "a", "b")];
      assert first[..0] == [];
      assert SelfLoopIds(first) == [];
      assert edges[..|edges| - 1] == first;
    }
    assert HasEdge(edges, "b", "b");
    OneNodeCycleRepeatsSelfLoop(edges, "b");
    assert FindEdge(edges, "b", "b") == Some(edges[1]);
    forall c | IsCycle(edges, c) && Distinct(c)
      ensures CycleEdgeIds(edges, c) == ["b-b"]
    {
      OnlyCycleThroughSink(edges, "b", c);
    }
  }

  /** Nodes `a` and `b`, an edge from `a` to `b` and a self-loop on `b`: the
      self-loop is reported as a cycle, and its id twice, once by the
      self-loop scan and once for the one-node cycle. */
  method SelfLoopOnNodeReportedTwice() returns (r: ValidationResult)
    ensures !r.valid && r.message == CycleMessage
    ensures r.invalidEdgeIds == ["b-b", "b-b"]
  {
    var nodes := [Stage("a"), Stage("b")];
    var edges := [Link("a-b", "a", "b"), Link("b-b", "b", "b")];
    SelfLoopCanvas(nodes, edges);
    r := ValidateDAG(nodes, edges);
  }

  /** The canvas of the chain case: every node attached, no self-loop, no cycle. */
  lemma ChainCanvas(nodes: seq<Node>, edges: seq<Edge>)
    requires nodes == [Stage("a"), Stage("b"), Stage("c")]
    requires edges == [Link("a-b", "a", "b"), Link("b-c", "b", "c")]
    ensures |nodes| >= 2 && AllConnected(nodes, edges) && !HasSelfLoop(edges) && Acyclic(edges)
  {
    assert edges[0] in edges && edges[1] in edges;
    assert Incident(edges, "a") && Incident(edges, "b") && Incident(edges, "c");
    assert AllConnected(nodes, edges);
    RankedIsAcyclic(edges, x => if x == "a" then 2 else if x == "b" then 1 else 0);
  }

  /** A chain `a` to `b` to `c` is a valid DAG. */
  method ChainIsValid() returns (r: ValidationResult)
    ensures r == ValidationResult(true, ValidMessage, [])
  {
    var nodes := [Stage("a"), Stage("b"), Stage("c")];
    var edges := [Link("a-b", "a", "b"), Link("b-c", "b", "c")];
    ChainCanvas(nodes, edges);
    r := ValidateDAG(nodes, edges);
  }
}
