/**
 * Sequences of user events applied to the editor, and the properties that
 * span several events: the synchronisation of the live document with the
 * history, the undo/redo round trip, and the drag gesture.
 */
module Session {
  import opened Document
  import opened Canvas

  /**
   * One user event. The form-field events are the input bindings; a click
   * or press carries the text measurement the canvas offers at that moment.
   */
  datatype Event =
    | TextTyped(t: string)
    | ColorPicked(c: string)
    | FontSizeEntered(n: int)
    | FontPicked(f: string)
    | SubmitPressed
    | ClickAt(p: Point, width: string -> int)
    | PressAt(p: Point, width: string -> int)
    | PointerAt(p: Point)
    | Release
    | UndoPressed
    | RedoPressed

  /** The editor after one event. */
  function Step(s: Editor, e: Event): (r: Editor)
    requires s.Valid()
    ensures r.Valid()
  {
    match e
    case TextTyped(t) => s.(text := t)
    case ColorPicked(c) => s.(color := c)
    case FontSizeEntered(n) => s.(fontSize := n)
    case FontPicked(f) => s.(fontFamily := f)
    case SubmitPressed => Submit(s)
    case ClickAt(p, width) => Click(s, p, width)
    case PressAt(p, width) => MouseDown(s, p, width)
    case PointerAt(p) => MouseMove(s, p)
    case Release => MouseUp(s)
    case UndoPressed => Canvas.Undo(s)
    case RedoPressed => Canvas.Redo(s)
  }

  /** The editor after a sequence of events. */
  function Run(s: Editor, es: seq<Event>): (r: Editor)
    requires s.Valid()
    ensures r.Valid()
    decreases |es|
  {
    if es == [] then s else Run(Step(s, es[0]), es[1..])
  }

  /** Every event keeps the live document equal to the snapshot under the cursor whenever no drag is in progress. */
  lemma StepKeepsSynced(s: Editor, e: Event)
    requires s.Synced()
    ensures Step(s, e).Synced()
  {
  }

  /** Every state reached from a synchronised one, in particular from `Init()`, is synchronised. */
  lemma {:induction false} RunKeepsSynced(s: Editor, es: seq<Event>)
    requires s.Synced()
    ensures Run(s, es).Synced()
    decreases |es|
  {
    if es != [] {
      StepKeepsSynced(s, es[0]);
      RunKeepsSynced(Step(s, es[0]), es[1..]);
    }
  }

  /** Only the history buttons can leave the selection pointing past the end of the document. */
  lemma StepKeepsSelectionInRange(s: Editor, e: Event)
    requires s.Valid() && s.SelectionInRange()
    requires !e.UndoPressed? && !e.RedoPressed?
    ensures Step(s, e).SelectionInRange()
  {
  }

  /** Outside a drag, an enabled undo followed by redo restores the editor exactly. */
  lemma UndoThenRedoRestores(s: Editor)
    requires s.Synced() && !s.dragging && s.hist.CanUndo()
    ensures Canvas.Redo(Canvas.Undo(s)) == s
  {
  }

  /** Outside a drag, an enabled redo followed by undo restores the editor exactly. */
  lemma RedoThenUndoRestores(s: Editor)
    requires s.Synced() && !s.dragging && s.hist.CanRedo()
    ensures Canvas.Undo(Canvas.Redo(s)) == s
  {
  }

  /** A commit made after an undo discards the undone snapshot: Redo is disabled. */
  lemma CommitAfterUndoDisablesRedo(s: Editor)
    requires s.Valid() && s.hist.CanUndo()
    ensures var r := AddText(Canvas.Undo(s));
      && !r.hist.CanRedo()
      && r.hist.snapshots == s.hist.snapshots[..s.hist.cursor] + [r.doc]
  {
  }

  /** The pointer moves of a drag, applied one after the other. */
  function Moves(s: Editor, ps: seq<Point>): (r: Editor)
    ensures r == s.(doc := r.doc) && |r.doc| == |s.doc|
    decreases |ps|
  {
    if ps == [] then s else Moves(MouseMove(s, ps[0]), ps[1..])
  }

  /**
   * Any number of pointer moves during a drag only repositions the dragged
   * item, to the last pointer position minus the grab offset; the history
   * and every other field are untouched.
   */
  lemma {:induction false} MovesOnlyReposition(s: Editor, ps: seq<Point>)
    requires s.dragging && s.HasItemSelected()
    ensures var r := Moves(s, ps);
      && r == s.(doc := r.doc)
      && (ps == [] ==> r.doc == s.doc)
      && (ps != [] ==> r.doc == MoveItem(s.doc, s.selected.value, DragTarget(s, ps[|ps| - 1])))
    decreases |ps|
  {
    if ps != [] {
      var s1 := MouseMove(s, ps[0]);
      MovesOnlyReposition(s1, ps[1..]);
      if ps[1..] != [] {
        assert ps[1..][|ps[1..]| - 1] == ps[|ps| - 1];
        MoveItemOverrides(s.doc, s.selected.value, DragTarget(s, ps[0]), DragTarget(s, ps[|ps| - 1]));
      }
    }
  }

  /**
   * A complete drag gesture on an item (press, any number of moves,
   * release) records exactly one snapshot, holding the final position; no
   * item other than the dragged one changes, and no item's text, color or
   * font changes.
   */
  lemma DragGestureRecordsOnce(s: Editor, p: Point, width: string -> int, ps: seq<Point>)
    requires s.Valid()
    requires exists k :: 0 <= k < |s.doc| && Contains(s.doc[k], p, width)
    ensures var r := MouseUp(Moves(MouseDown(s, p, width), ps));
      && r.Synced() && !r.dragging
      && |r.hist.snapshots| == s.hist.cursor + 2
      && (forall k :: 0 <= k <= s.hist.cursor ==> r.hist.snapshots[k] == s.hist.snapshots[k])
      && r.hist.cursor == |r.hist.snapshots| - 1 && r.hist.Current() == r.doc
      && !r.hist.CanRedo()
      && |r.doc| == |s.doc|
      && (forall k :: 0 <= k < |s.doc| && k != FindHit(s.doc, p, width) ==> r.doc[k] == s.doc[k])
      && (forall k :: 0 <= k < |s.doc| ==>
            && r.doc[k].text == s.doc[k].text && r.doc[k].color == s.doc[k].color
            && r.doc[k].fontSize == s.doc[k].fontSize && r.doc[k].fontFamily == s.doc[k].fontFamily)
  {
    var s1 := MouseDown(s, p, width);
    MovesOnlyReposition(s1, ps);
  }

  /**
   * Moving the pointer back to where the item was grabbed, after any
   * number of moves elsewhere, puts the item back where it was.
   */
  lemma MoveBackRestores(s: Editor, p: Point, width: string -> int, ps: seq<Point>)
    requires exists k :: 0 <= k < |s.doc| && Contains(s.doc[k], p, width)
    ensures Moves(MouseDown(s, p, width), ps + [p]).doc == s.doc
  {
    var s1 := MouseDown(s, p, width);
    MovesOnlyReposition(s1, ps + [p]);
    assert (ps + [p])[|ps + [p]| - 1] == p;
    MoveItemInPlace(s.doc, s1.selected.value);
  }

  /**
   * A plain click on an item (press and release without moving) records a
   * copy of the current snapshot, which also discards any redo history.
   */
  lemma PressReleaseRecordsCopy(s: Editor, p: Point, width: string -> int)
    requires s.Synced() && !s.dragging && |s.hist.snapshots| > 0
    requires exists k :: 0 <= k < |s.doc| && Contains(s.doc[k], p, width)
    ensures var r := MouseUp(MouseDown(s, p, width));
      && r.doc == s.doc
      && r.hist.snapshots == s.hist.snapshots[..s.hist.cursor + 1] + [s.hist.Current()]
      && !r.hist.CanRedo()
  {
    var r := MouseUp(MouseDown(s, p, width));
    assert r.hist.snapshots == s.hist.snapshots[..s.hist.cursor + 1] + [s.hist.Current()];
  }

  /**
   * A release outside a drag changes nothing. This is a named corollary: it
   * restates the `!s.dragging ==> r == s` clause of `MouseUp`.
   */
  lemma ReleaseWithoutDragIsNoOp(s: Editor)
    requires s.Valid() && !s.dragging
    ensures MouseUp(s) == s
  {
  }

  /**
   * Add "A", add "B", undo, add "C": the entry for "B" is pruned, leaving
   * two snapshots with the document [A, C] under the cursor.
   */
  lemma AddUndoAddScenario()
    ensures var s1 := Submit(Init().(text := "A"));
      var s2 := Submit(s1.(text := "B"));
      var s3 := Canvas.Undo(s2);
      var s4 := Submit(s3.(text := "C"));
      && |s1.hist.snapshots| == 1 && s1.hist.cursor == 0 && s1.doc == [DefaultItem("A")]
      && |s2.hist.snapshots| == 2 && s2.doc == [DefaultItem("A"), DefaultItem("B")]
      && s3.doc == [DefaultItem("A")]
      && |s4.hist.snapshots| == 2 && s4.doc == [DefaultItem("A"), DefaultItem("C")]
      && s4.hist.snapshots == [[DefaultItem("A")], [DefaultItem("A"), DefaultItem("C")]]
  {
    var s1 := Submit(Init().(text := "A"));
    assert s1.doc == [DefaultItem("A")];
    var s2 := Submit(s1.(text := "B"));
    assert s2.doc == [DefaultItem("A"), DefaultItem("B")];
    var s3 := Canvas.Undo(s2);
    var s4 := Submit(s3.(text := "C"));
    assert s4.doc == [DefaultItem("A"), DefaultItem("C")];
  }

  /** The first addition can never be undone: Undo is disabled at the first snapshot. */
  lemma FirstAddCannotBeUndone()
    ensures var s1 := AddText(Init());
      !s1.hist.CanUndo() && Canvas.Undo(s1) == s1
  {
  }
}
