/**
 * The state core of the canvas component: one immutable record holding the
 * live document, the selection, the form fields, the drag gesture and the
 * history, with one pure transition per event handler. Each handler is one
 * atomic step; the framework's asynchronous state cells are not modelled.
 */
module Canvas {
  import opened Wrappers
  import opened Document
  import opened UndoHistory

  datatype Editor = Editor(
    doc: Doc,                 // the live text array on screen
    selected: Option<nat>,    // selected item index, None for no selection
    text: string,             // the text input field
    position: Point,          // position used for a new or updated item
    color: string,
    fontSize: int,
    fontFamily: string,
    dragging: bool,
    dragOffset: Point,        // pointer minus item position at the press
    hist: History<Doc>)
  {
    predicate Valid() {
      hist.Valid()
    }

    /**
     * Outside a drag, the document on screen is the snapshot under the
     * cursor, or the empty document before the first commit.
     */
    predicate Synced() {
      && hist.Valid()
      && (!dragging ==> doc == if |hist.snapshots| == 0 then [] else hist.Current())
    }

    /** The selection, when there is one, names an item of the live document. */
    predicate SelectionInRange() {
      selected.Some? ==> selected.value < |doc|
    }

    /** Whether there is a selection naming an item of the live document. */
    predicate HasItemSelected() {
      selected.Some? && selected.value < |doc|
    }

    /** The item described by the form fields, as Add Text or Update Text stores it. */
    function Pending(): TextItem {
      TextItem(text, position.x, position.y, color, fontSize, fontFamily)
    }
  }

  /** The component as mounted: empty document, no selection, default form values, empty history. */
  function Init(): (s: Editor)
    ensures s.Synced() && s.SelectionInRange()
    ensures s.doc == [] && s.selected == None && !s.dragging
    ensures |s.hist.snapshots| == 0
  {
    Editor([], None, "", Point(50, 50), "#000000", 20, "Arial", false, Point(0, 0), Empty())
  }

  /** The item Add Text stores for text `t` while the other form fields hold their initial values. */
  function DefaultItem(t: string): TextItem {
    TextItem(t, 50, 50, "#000000", 20, "Arial")
  }

  /**
   * updateHistory: `d` becomes both the live document and the newest
   * snapshot, and every snapshot past the old cursor is dropped.
   */
  function Record(s: Editor, d: Doc): (r: Editor)
    requires s.Valid()
    ensures r.Synced() && r.doc == d
    ensures |r.hist.snapshots| == s.hist.cursor + 2
    ensures forall k :: 0 <= k <= s.hist.cursor ==> r.hist.snapshots[k] == s.hist.snapshots[k]
    ensures r.hist.cursor == |r.hist.snapshots| - 1 && r.hist.Current() == d
    ensures !r.hist.CanRedo()
    ensures r == s.(doc := d, hist := r.hist)
  {
    s.(doc := d, hist := Commit(s.hist, d))
  }

  /**
   * addText: appends the item described by the form fields, records the new
   * document and clears the text field. The selection is not touched.
   */
  function AddText(s: Editor): (r: Editor)
    requires s.Valid()
    ensures |r.doc| == |s.doc| + 1
    ensures forall k :: 0 <= k < |s.doc| ==> r.doc[k] == s.doc[k]
    ensures r.doc[|s.doc|] == s.Pending()
    ensures r.Synced() && |r.hist.snapshots| == s.hist.cursor + 2
    ensures forall k :: 0 <= k <= s.hist.cursor ==> r.hist.snapshots[k] == s.hist.snapshots[k]
    ensures r.hist.Current() == r.doc && !r.hist.CanRedo()
    ensures r == s.(doc := r.doc, hist := r.hist, text := "")
  {
    Record(s, s.doc + [s.Pending()]).(text := "")
  }

  /**
   * The click handler's selection part: a hit selects the first item under
   * the pointer and loads its fields into the form; a miss clears the
   * selection and the text field. Neither changes the document or history.
   */
  function Click(s: Editor, p: Point, width: string -> int): (r: Editor)
    ensures r.doc == s.doc && r.hist == s.hist
    ensures r.dragging == s.dragging && r.dragOffset == s.dragOffset
    ensures r.selected == None <==> forall k :: 0 <= k < |s.doc| ==> !Contains(s.doc[k], p, width)
    ensures r.selected == None ==> r == s.(selected := None, text := "")
    ensures r.selected.Some? ==>
      && r.selected.value < |s.doc|
      && Contains(s.doc[r.selected.value], p, width)
      && (forall k :: 0 <= k < r.selected.value ==> !Contains(s.doc[k], p, width))
      && r.Pending() == s.doc[r.selected.value]
  {
    var i := FindHit(s.doc, p, width);
    if i == -1 then
      s.(selected := None, text := "")
    else
      var item := s.doc[i];
      s.(selected := Some(i), text := item.text, position := Point(item.x, item.y),
         color := item.color, fontSize := item.fontSize, fontFamily := item.fontFamily)
  }

  /**
   * updateText: with a selected item, replaces it by the item the form
   * describes and records the result; without one, nothing happens and no
   * snapshot is recorded. A selection that no longer names an item counts
   * as none (see the findings in README.md).
   */
  function UpdateText(s: Editor): (r: Editor)
    requires s.Valid()
    ensures r.Valid() && |r.doc| == |s.doc|
    ensures !s.HasItemSelected() ==> r == s
    ensures s.HasItemSelected() ==>
      && r.doc[s.selected.value] == s.Pending()
      && (forall k :: 0 <= k < |s.doc| && k != s.selected.value ==> r.doc[k] == s.doc[k])
      && r.Synced() && |r.hist.snapshots| == s.hist.cursor + 2
      && (forall k :: 0 <= k <= s.hist.cursor ==> r.hist.snapshots[k] == s.hist.snapshots[k])
      && r.hist.Current() == r.doc && !r.hist.CanRedo()
      && r == s.(doc := r.doc, hist := r.hist)
  {
    if s.HasItemSelected() then
      Record(s, s.doc[s.selected.value := s.Pending()])
    else
      s
  }

  /**
   * The form's button: Add Text when nothing is selected, Update Text
   * otherwise. Either way an effective press records exactly one snapshot.
   */
  function Submit(s: Editor): (r: Editor)
    requires s.Valid()
    ensures r.Valid()
    ensures s.selected.None? ==>
      && |r.doc| == |s.doc| + 1
      && (forall k :: 0 <= k < |s.doc| ==> r.doc[k] == s.doc[k])
      && r.doc[|s.doc|] == s.Pending() && r.text == ""
      && r.Synced() && |r.hist.snapshots| == s.hist.cursor + 2
      && (forall k :: 0 <= k <= s.hist.cursor ==> r.hist.snapshots[k] == s.hist.snapshots[k])
      && r.hist.Current() == r.doc && !r.hist.CanRedo()
      && r == s.(doc := r.doc, hist := r.hist, text := "")
    ensures s.HasItemSelected() ==>
      && r.doc == s.doc[s.selected.value := s.Pending()] && r.text == s.text
      && r.Synced() && |r.hist.snapshots| == s.hist.cursor + 2
      && (forall k :: 0 <= k <= s.hist.cursor ==> r.hist.snapshots[k] == s.hist.snapshots[k])
      && r.hist.Current() == r.doc && !r.hist.CanRedo()
      && r == s.(doc := r.doc, hist := r.hist)
    ensures s.selected.Some? && !s.HasItemSelected() ==> r == s
  {
    if s.selected.None? then AddText(s) else UpdateText(s)
  }

  /**
   * handleMouseDown: a press on an item selects the first item under the
   * pointer and starts a drag, remembering where on the item it was grabbed.
   * A press on empty canvas changes nothing.
   */
  function MouseDown(s: Editor, p: Point, width: string -> int): (r: Editor)
    ensures r == s.(selected := r.selected, dragging := r.dragging, dragOffset := r.dragOffset)
    ensures (forall k :: 0 <= k < |s.doc| ==> !Contains(s.doc[k], p, width)) ==> r == s
    ensures (exists k :: 0 <= k < |s.doc| && Contains(s.doc[k], p, width)) ==>
      && r.dragging && r.HasItemSelected()
      && Contains(s.doc[r.selected.value], p, width)
      && (forall k :: 0 <= k < r.selected.value ==> !Contains(s.doc[k], p, width))
      && s.doc[r.selected.value].x + r.dragOffset.x == p.x
      && s.doc[r.selected.value].y + r.dragOffset.y == p.y
  {
    var i := FindHit(s.doc, p, width);
    if i == -1 then
      s
    else
      s.(selected := Some(i), dragOffset := Point(p.x - s.doc[i].x, p.y - s.doc[i].y), dragging := true)
  }

  /** Where the dragged item goes when the pointer is at `p`: the pointer minus the grab offset. */
  function DragTarget(s: Editor, p: Point): (r: Point)
    ensures r.x + s.dragOffset.x == p.x && r.y + s.dragOffset.y == p.y
  {
    Point(p.x - s.dragOffset.x, p.y - s.dragOffset.y)
  }

  /**
   * handleMouseMove: during a drag, the selected item follows the pointer;
   * only its position changes and nothing is recorded. Outside a drag,
   * nothing happens.
   */
  function MouseMove(s: Editor, p: Point): (r: Editor)
    ensures r == s.(doc := r.doc) && |r.doc| == |s.doc|
    ensures !s.dragging ==> r == s
    ensures s.dragging && s.HasItemSelected() ==>
      var i := s.selected.value;
      && r.doc[i].x == p.x - s.dragOffset.x && r.doc[i].y == p.y - s.dragOffset.y
      && r.doc[i].text == s.doc[i].text && r.doc[i].color == s.doc[i].color
      && r.doc[i].fontSize == s.doc[i].fontSize && r.doc[i].fontFamily == s.doc[i].fontFamily
      && (forall k :: 0 <= k < |s.doc| && k != i ==> r.doc[k] == s.doc[k])
  {
    if s.dragging && s.HasItemSelected() then
      s.(doc := MoveItem(s.doc, s.selected.value, DragTarget(s, p)))
    else
      s
  }

  /**
   * handleMouseUp: ends the drag. If a drag was in progress, the live
   * document is recorded as one snapshot; otherwise nothing changes.
   */
  function MouseUp(s: Editor): (r: Editor)
    requires s.Valid()
    ensures r.Valid() && !r.dragging && r.doc == s.doc
    ensures !s.dragging ==> r == s
    ensures s.dragging ==>
      && r.Synced()
      && |r.hist.snapshots| == s.hist.cursor + 2
      && (forall k :: 0 <= k <= s.hist.cursor ==> r.hist.snapshots[k] == s.hist.snapshots[k])
      && r.hist.cursor == |r.hist.snapshots| - 1 && r.hist.Current() == s.doc
      && !r.hist.CanRedo()
      && r == s.(dragging := false, hist := r.hist)
  {
    if s.dragging then Record(s, s.doc).(dragging := false) else s
  }

  /**
   * undo: when the Undo button is enabled, moves the cursor back one
   * snapshot and shows that snapshot; otherwise nothing happens. The
   * snapshots themselves never change.
   */
  function Undo(s: Editor): (r: Editor)
    requires s.Valid()
    ensures r.Valid() && r.hist.snapshots == s.hist.snapshots
    ensures !s.hist.CanUndo() ==> r == s
    ensures s.hist.CanUndo() ==>
      && r.hist.cursor == s.hist.cursor - 1
      && r.doc == s.hist.snapshots[s.hist.cursor - 1]
      && r == s.(doc := r.doc, hist := r.hist)
  {
    if s.hist.CanUndo() then
      var h := UndoHistory.Undo(s.hist);
      s.(hist := h, doc := h.Current())
    else
      s
  }

  /**
   * redo: when the Redo button is enabled, moves the cursor forward one
   * snapshot and shows that snapshot; otherwise nothing happens.
   */
  function Redo(s: Editor): (r: Editor)
    requires s.Valid()
    ensures r.Valid() && r.hist.snapshots == s.hist.snapshots
    ensures !s.hist.CanRedo() ==> r == s
    ensures s.hist.CanRedo() ==>
      && r.hist.cursor == s.hist.cursor + 1
      && r.doc == s.hist.snapshots[s.hist.cursor + 1]
      && r == s.(doc := r.doc, hist := r.hist)
  {
    if s.hist.CanRedo() then
      var h := UndoHistory.Redo(s.hist);
      s.(hist := h, doc := h.Current())
    else
      s
  }
}
