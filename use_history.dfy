/** The undo history of the pipeline editor: a stack of snapshots of the
    canvas, pushed before each edit and popped by undo. */
module UseHistory {
  import opened GraphTypes

  /** The canvas at one moment: its nodes and its edges. */
  datatype Snapshot = Snapshot(nodes: seq<Node>, edges: seq<Edge>)

  /** The canvas shown now, together with the stack of earlier canvases
      (the last entry is the most recent). */
  datatype Timeline = Timeline(current: Snapshot, history: seq<Snapshot>)

  /** `push`: the current canvas goes on top of the stack. */
  function Pushed(t: Timeline): Timeline
  {
    Timeline(t.current, t.history + [t.current])
  }

  /** `undo`: with an empty stack nothing happens; otherwise the top entry
      becomes the canvas and leaves the stack. */
  function Undone(t: Timeline): Timeline
  {
    if |t.history| == 0 then t
    else Timeline(t.history[|t.history| - 1], t.history[..|t.history| - 1])
  }

  /** An edit: the current canvas is pushed, then replaced by `next`. */
  function Edited(t: Timeline, next: Snapshot): (r: Timeline)
    ensures r.current == next
    ensures Undone(r) == t
  {
    Timeline(next, Pushed(t).history)
  }

  /** A run of edits, applied in order. */
  function EditedAll(t: Timeline, nexts: seq<Snapshot>): (r: Timeline)
    ensures |r.history| == |t.history| + |nexts|
  {
    if |nexts| == 0 then t
    else Edited(EditedAll(t, nexts[..|nexts| - 1]), nexts[|nexts| - 1])
  }

  /** `k` undos in a row. */
  function UndoneTimes(t: Timeline, k: nat): Timeline
    decreases k
  {
    if k == 0 then t else UndoneTimes(Undone(t), k - 1)
  }

  // ---------------------------------------------------------------------------
  // Properties of the stack

  /** Push then undo restores the canvas and the stack. */
  lemma UndoAfterPush(t: Timeline)
    ensures Undone(Pushed(t)) == t
  {
    assert Pushed(t).history[..|t.history|] == t.history;
  }

  /** Undo on an empty stack is a no-op, however often it is repeated. */
  lemma {:induction false} UndoEmptyIsNoOp(t: Timeline, k: nat)
    requires |t.history| == 0
    ensures UndoneTimes(t, k) == t
  {
    if k > 0 {
      UndoEmptyIsNoOp(t, k - 1);
    }
  }

  /** One undo after a run of edits takes back the last edit. */
  lemma UndoLastEdit(t: Timeline, nexts: seq<Snapshot>)
    requires |nexts| > 0
    ensures Undone(EditedAll(t, nexts)) == EditedAll(t, nexts[..|nexts| - 1])
  {
  }

  /** An undo followed by `k - 1` more is `k` undos. Stated over plain
      timelines so that `UndoUnwindsEdits` can use it without unfolding the
      run of edits, which keeps that proof small. */
  lemma UndoThenRest(x: Timeline, y: Timeline, z: Timeline, k: nat)
    requires k > 0 && Undone(x) == y && UndoneTimes(y, k - 1) == z
    ensures UndoneTimes(x, k) == z
  {
  }

  /** `k` undos after a run of edits take back exactly the last `k` edits. */
  lemma {:induction false} UndoUnwindsEdits(t: Timeline, nexts: seq<Snapshot>, k: nat)
    requires k <= |nexts|
    ensures UndoneTimes(EditedAll(t, nexts), k) == EditedAll(t, nexts[..|nexts| - k])
  {
    if k > 0 {
      var shorter := nexts[..|nexts| - 1];
      assert shorter[..|shorter| - (k - 1)] == nexts[..|nexts| - k];
      UndoLastEdit(t, nexts);
      UndoUnwindsEdits(t, shorter, k - 1);
      UndoThenRest(EditedAll(t, nexts), EditedAll(t, shorter), EditedAll(t, nexts[..|nexts| - k]), k);
    } else {
      assert nexts[..|nexts|] == nexts;
    }
  }

  /** Last in, first out: the `j`-th undo after a run of edits shows the
      canvas that the `j`-th last edit replaced, so the canvases come back in
      reverse order, ending at the canvas before the first edit. */
  lemma UndoRestoresInReverse(t: Timeline, nexts: seq<Snapshot>, j: nat)
    requires 1 <= j <= |nexts|
    ensures UndoneTimes(EditedAll(t, nexts), j).current ==
              if j == |nexts| then t.current else nexts[|nexts| - j - 1]
  {
    UndoUnwindsEdits(t, nexts, j);
    var m := |nexts| - j;
    if m > 0 {
      assert nexts[..m][m - 1] == nexts[m - 1];
    }
  }

  /** As many undos as edits give back the starting canvas and stack. */
  lemma UndoAllEdits(t: Timeline, nexts: seq<Snapshot>)
    ensures UndoneTimes(EditedAll(t, nexts), |nexts|) == t
  {
    UndoUnwindsEdits(t, nexts, |nexts|);
  }

  // ---------------------------------------------------------------------------
  // The hook

  /** `useHistory(nodes, edges, setNodes, setEdges)`: the stack is the hook's
      own state; `nodes` and `edges` are the canvas it reads and, on undo,
      writes through the setters. */
  class HistoryHook {
    var nodes: seq<Node>
    var edges: seq<Edge>
    var history: seq<Snapshot>

    function State(): Timeline
      reads this
    {
      Timeline(Snapshot(nodes, edges), history)
    }

    /** The hook starts with an empty stack. */
    constructor (nodes: seq<Node>, edges: seq<Edge>)
      ensures State() == Timeline(Snapshot(nodes, edges), [])
    {
      this.nodes, this.edges, this.history := nodes, edges, [];
    }

    method Push()
      modifies this
      ensures State() == Pushed(old(State()))
    {
      history := history + [Snapshot(nodes, edges)];
    }

    method Undo()
      modifies this
      ensures State() == Undone(old(State()))
    {
      if |history| == 0 {
        return;
      }
      var prev := history[|history| - 1];
      nodes := prev.nodes;
      edges := prev.edges;
      history := history[..|history| - 1];
    }

    /** `canUndo`: the stack is non-empty, which is exactly when undo has an effect. */
    function CanUndo(): (b: bool)
      reads this
      ensures b <==> |history| > 0
      ensures b <==> Undone(State()) != State()
    {
      |history| > 0
    }
  }
}
