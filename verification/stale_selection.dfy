/**
 * Update Text with a stale selection, as the component is written. Undo and
 * redo replace the live document but keep the selected index, and updateText
 * only checks that a selection exists. When the selected item's addition has
 * been undone, the index is at or past the end of the array, and the store
 * into it grows the array (leaving holes when it is further out) instead of
 * replacing an item.
 */
module StaleSelection {
  import opened Wrappers
  import opened Document
  import opened Canvas

  /** A script array that may have holes; `None` is a hole. */
  type SparseArray = seq<Option<TextItem>>

  /** The document as an array without holes. */
  function Lift(d: Doc): SparseArray {
    seq(|d|, k requires 0 <= k < |d| => Some(d[k]))
  }

  /**
   * Assignment `a[k] = v` on a script array: in range it replaces an
   * element; at or past the end it lengthens the array to k + 1, leaving
   * holes between the old end and k.
   */
  function Store(a: SparseArray, k: nat, v: TextItem): (r: SparseArray)
    ensures |r| == if k < |a| then |a| else k + 1
    ensures r[k] == Some(v)
    ensures forall j :: 0 <= j < |a| && j != k ==> r[j] == a[j]
    ensures forall j :: |a| <= j < k ==> r[j] == None
  {
    if k < |a| then a[k := Some(v)] else a + seq(k - |a|, _ => None) + [Some(v)]
  }

  /**
   * The array updateText passes to updateHistory as written, or None when
   * there is no selection and nothing is recorded.
   */
  function UpdateTextAsWritten(s: Editor): (r: Option<SparseArray>)
    ensures r.None? <==> s.selected.None?
    ensures r.Some? ==> |r.value| == if s.selected.value < |s.doc| then |s.doc| else s.selected.value + 1
    ensures r.Some? ==> r.value[s.selected.value] == Some(s.Pending())
  {
    if s.selected.None? then None else Some(Store(Lift(s.doc), s.selected.value, s.Pending()))
  }

  /** Text width used by the scenario below: every text measures 10. */
  function Ten(t: string): int {
    10
  }

  /** Add "A" and "B": both land at the default position (50, 50). */
  function AddedBoth(): Editor {
    var s1 := AddText(Init().(text := "A"));
    AddText(s1.(text := "B"))
  }

  /** Then drag A away to (150, 150); the release is followed by a click there. */
  function DraggedA(): Editor {
    var s := AddedBoth();
    var released := MouseUp(MouseMove(MouseDown(s, Point(50, 50), Ten), Point(150, 150)));
    Click(released, Point(150, 150), Ten)
  }

  /** Then click B: press, release, click. */
  function SelectedB(): Editor {
    var s := DraggedA();
    Click(MouseUp(MouseDown(s, Point(50, 50), Ten)), Point(50, 50), Ten)
  }

  /**
   * Then undo three times, back to the first snapshot. B stays selected
   * although the live document holds only A.
   */
  function StaleScenario(): Editor {
    Canvas.Undo(Canvas.Undo(Canvas.Undo(SelectedB())))
  }

  /** The state after the two additions. */
  lemma AddedBothState()
    ensures var s := AddedBoth();
      && s.Valid() && !s.dragging && s.doc == [DefaultItem("A"), DefaultItem("B")]
      && s.hist.cursor == 1 && s.hist.snapshots[0] == [DefaultItem("A")]
  {
    var s1 := AddText(Init().(text := "A"));
    assert s1.doc == [DefaultItem("A")];
  }

  /** The state after the drag: A moved, one more snapshot. */
  lemma DraggedAState()
    ensures var s := DraggedA();
      && s.Valid() && !s.dragging && |s.doc| == 2
      && s.doc[0] == DefaultItem("A").(x := 150, y := 150) && s.doc[1] == DefaultItem("B")
      && s.hist.cursor == 2 && s.hist.snapshots[0] == [DefaultItem("A")]
  {
    var s := AddedBoth();
    AddedBothState();
    assert Contains(s.doc[0], Point(50, 50), Ten);
    assert FindHit(s.doc, Point(50, 50), Ten) == 0;
    var s3 := MouseDown(s, Point(50, 50), Ten);
    assert s3 == s.(selected := Some(0), dragOffset := Point(0, 0), dragging := true);
    var s4 := MouseMove(s3, Point(150, 150));
    assert s4.doc == [DefaultItem("A").(x := 150, y := 150), DefaultItem("B")];
  }

  /** The state after clicking B: B selected, a duplicate snapshot recorded. */
  lemma SelectedBState()
    ensures var s := SelectedB();
      && s.Valid() && s.selected == Some(1)
      && s.hist.cursor == 3 && s.hist.snapshots[0] == [DefaultItem("A")]
  {
    var s := DraggedA();
    DraggedAState();
    assert !Contains(s.doc[0], Point(50, 50), Ten) && Contains(s.doc[1], Point(50, 50), Ten);
    assert FindHit(s.doc, Point(50, 50), Ten) == 1;
    var s6 := MouseDown(s, Point(50, 50), Ten);
    assert s6 == s.(selected := Some(1), dragOffset := Point(0, 0), dragging := true);
    var s7 := MouseUp(s6);
    assert s7.hist.cursor == 3 && s7.doc == s.doc;
  }

  /**
   * In the scenario the selection names index 1 of a one-item document, and
   * Update Text as written produces a two-item array: it adds an item
   * instead of replacing one.
   */
  lemma StaleUpdateGrowsDocument()
    ensures var s := StaleScenario();
      && s.Valid() && |s.doc| == 1 && s.selected == Some(1) && !s.SelectionInRange()
      && UpdateTextAsWritten(s).Some?
      && |UpdateTextAsWritten(s).value| == 2
  {
    SelectedBState();
    var s9 := Canvas.Undo(SelectedB());
    var s10 := Canvas.Undo(s9);
    var s11 := Canvas.Undo(s10);
    assert s11.hist.cursor == 0 && s11.doc == [DefaultItem("A")];
  }

  /** The model's Update Text treats the stale selection as none: nothing changes. */
  lemma StaleUpdateIsNoOp()
    ensures UpdateText(StaleScenario()) == StaleScenario()
  {
    StaleUpdateGrowsDocument();
  }
}
