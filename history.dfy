/**
 * Snapshot history of the whiteboard: `history` holds one serialised
 * canvas per committed operation, oldest first; `redoStack` holds the
 * entries taken off by undo, most recently undone last. Snapshots are
 * opaque to this module.
 */
module History {

  /** The two stacks as a value. */
  datatype Stacks<S> = Stacks(history: seq<S>, redoStack: seq<S>)

  /** saveCanvasState: push the new snapshot and forget every undone entry. */
  function Save<S>(st: Stacks<S>, snap: S): (r: Stacks<S>)
    ensures |r.history| == |st.history| + 1 && r.history[..|st.history|] == st.history
    ensures r.history[|st.history|] == snap && r.redoStack == []
  {
    Stacks(st.history + [snap], [])
  }

  /** handleUndo: no-op on one entry or fewer; otherwise move the top entry to the redo stack. */
  function Undo<S>(st: Stacks<S>): (r: Stacks<S>)
    ensures |r.history| + |r.redoStack| == |st.history| + |st.redoStack|
    ensures |st.history| <= 1 ==> r == st
    ensures |st.history| > 1 ==> |r.history| == |st.history| - 1 && |r.redoStack| == |st.redoStack| + 1
    ensures |st.history| > 1 ==>
      && r.history + [st.history[|st.history| - 1]] == st.history
      && r.redoStack == st.redoStack + [st.history[|st.history| - 1]]
    ensures |st.history| >= 1 ==> |r.history| >= 1 && r.history[0] == st.history[0]
  {
    if |st.history| <= 1 then st
    else Stacks(st.history[..|st.history| - 1], st.redoStack + [st.history[|st.history| - 1]])
  }

  /** handleRedo: no-op on an empty redo stack; otherwise move its top entry back onto the history. */
  function Redo<S>(st: Stacks<S>): (r: Stacks<S>)
    ensures |r.history| + |r.redoStack| == |st.history| + |st.redoStack|
    ensures |st.redoStack| == 0 ==> r == st
    ensures |st.redoStack| > 0 ==> |r.history| == |st.history| + 1 && |r.redoStack| == |st.redoStack| - 1
    ensures |st.redoStack| > 0 ==>
      && r.history == st.history + [st.redoStack[|st.redoStack| - 1]]
      && r.redoStack + [st.redoStack[|st.redoStack| - 1]] == st.redoStack
    ensures |st.history| >= 1 ==> r.history[0] == st.history[0]
  {
    if |st.redoStack| == 0 then st
    else Stacks(st.history + [st.redoStack[|st.redoStack| - 1]], st.redoStack[..|st.redoStack| - 1])
  }

  /** Redo undoes an undo that did something. */
  lemma RedoAfterUndo<S>(st: Stacks<S>)
    requires |st.history| > 1
    ensures Redo(Undo(st)) == st
  {
    var h := st.history;
    assert h[..|h| - 1] + [h[|h| - 1]] == h;
    var r := st.redoStack;
    assert (r + [h[|h| - 1]])[..|r|] == r;
  }

  /** Undo undoes a redo that did something, provided the blank canvas was recorded. */
  lemma UndoAfterRedo<S>(st: Stacks<S>)
    requires |st.history| >= 1 && |st.redoStack| > 0
    ensures Undo(Redo(st)) == st
  {
    var r := st.redoStack;
    assert r[..|r| - 1] + [r[|r| - 1]] == r;
    var h := st.history;
    assert (h + [r[|r| - 1]])[..|h|] == h;
  }

  /** Undo right after a commit gives back the history before it; only the commit can be redone. */
  lemma UndoAfterSave<S>(st: Stacks<S>, snap: S)
    requires |st.history| >= 1
    ensures Undo(Save(st, snap)) == Stacks(st.history, [snap])
  {
    assert (st.history + [snap])[..|st.history|] == st.history;
  }

  datatype Command<S> = SaveCmd(snap: S) | UndoCmd | RedoCmd

  function Apply<S>(st: Stacks<S>, cmds: seq<Command<S>>): Stacks<S>
    decreases |cmds|
  {
    if |cmds| == 0 then st
    else
      var next := match cmds[0]
        case SaveCmd(snap) => Save(st, snap)
        case UndoCmd => Undo(st)
        case RedoCmd => Redo(st);
      Apply(next, cmds[1..])
  }

  /**
   * Once the blank canvas is recorded, no sequence of saves, undos and
   * redos empties the history or replaces its first entry.
   */
  lemma {:induction false} FirstEntryKept<S>(st: Stacks<S>, cmds: seq<Command<S>>)
    requires |st.history| >= 1
    ensures |Apply(st, cmds).history| >= 1 && Apply(st, cmds).history[0] == st.history[0]
    decreases |cmds|
  {
    if |cmds| > 0 {
      var next := match cmds[0]
        case SaveCmd(snap) => Save(st, snap)
        case UndoCmd => Undo(st)
        case RedoCmd => Redo(st);
      FirstEntryKept(next, cmds[1..]);
    }
  }

  /** The stacks kept in place by the whiteboard component. */
  class SnapshotHistory<S> {
    var history: seq<S>
    var redoStack: seq<S>

    function Value(): Stacks<S>
      reads this
    {
      Stacks(history, redoStack)
    }

    constructor ()
      ensures history == [] && redoStack == []
    {
      history := [];
      redoStack := [];
    }

    /** `history.push(dataUrl); redoStack = []` */
    method SaveCanvasState(snap: S)
      modifies this
      ensures Value() == Save(old(Value()), snap)
      ensures history == old(history) + [snap] && redoStack == []
    {
      history := history + [snap];
      redoStack := [];
    }

    /** `if (history.length <= 1) return; redoStack.push(history.pop())` */
    method HandleUndo()
      modifies this
      ensures Value() == Undo(old(Value()))
    {
      if |history| <= 1 {
        return;
      }
      var top := history[|history| - 1];
      history := history[..|history| - 1];
      redoStack := redoStack + [top];
    }

    /** `if (!redoStack.length) return; history.push(redoStack.pop())` */
    method HandleRedo()
      modifies this
      ensures Value() == Redo(old(Value()))
    {
      if |redoStack| == 0 {
        return;
      }
      var next := redoStack[|redoStack| - 1];
      redoStack := redoStack[..|redoStack| - 1];
      history := history + [next];
    }
  }
}
