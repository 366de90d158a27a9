# Canvas text editor: state core

A Dafny model of the state core of the canvas text editor component
(`src/Componenets/HomePage/Canvas.jsx`). Users place text labels on a canvas,
select them by clicking, edit them through a small form, drag them around, and
step through a linear undo/redo history of full document snapshots.

The component keeps its state in many separate framework state cells. The
model gathers them into one immutable record, `Canvas.Editor`: the live text
array, the selected index, the form fields (text, position, color, font size,
font family), the drag flag and grab offset, and the history with its cursor.
Every event handler is one pure transition on that record.

Modules:

- `Wrappers`: the `Option` type used for the selection (`null` is `None`).
- `UndoHistory`: the snapshot list and cursor. It covers `updateHistory`,
  `undo`, `redo`, and the `canUndo`/`canRedo` expressions passed to the
  undo/redo buttons.
- `Document`: text items, the hit test (`findIndex` with the hit-box
  predicate), and repositioning one item.
- `Canvas`: the editor record and one function per handler: `addText`,
  the selection part of `handleCanvasClick`, `updateText`, the form button,
  `handleMouseDown`, `handleMouseMove`, `handleMouseUp`, `undo` and `redo`.
- `Session`: event sequences and the properties that span several events.
  These are the sync invariant, the undo/redo round trip, the drag gesture
  recording exactly one snapshot, and the add/undo/add scenario.
- `StaleSelection`: the as-written Update Text, used for the finding below.

Inputs from the browser are parameters. Pointer positions are canvas-relative
integer points. Text width is a function `width: string -> int` that comes
with each click or press event. In the source, `measureText` uses whatever
font the canvas context last had, so the width is not a property of the item
alone.

In these places the code departs from what a user would expect, and the
model follows the code:

- The hit test scans in ascending index order and returns the first match.
  Where boxes overlap, the lowest index wins, even though later items are
  drawn on top. See `Document.FirstMatchWins`.
- The hit box reaches a fixed 20 units above the baseline, whatever the
  item's font size. With the text measurement fixed, the font size plays
  no part in the hit test. See `Document.HitIgnoresFontSize`.

Two further observations about the code:

- Undo is disabled at the first snapshot, so the very first addition can
  never be undone (`Session.FirstAddCannotBeUndone`).
- A plain click on an item also fires mouse-down and mouse-up. The mouse-up
  ends a zero-length drag, which records a copy of the current snapshot and
  discards any redo history (`Session.PressReleaseRecordsCopy`).

## Model

| member | source | states |
|---|---|---|
| `UndoHistory.Empty` | src/Componenets/HomePage/Canvas.jsx:16-17 | The initial history has no snapshot and cursor -1; it satisfies the cursor invariant, and both buttons are disabled |
| `UndoHistory.Commit` | src/Componenets/HomePage/Canvas.jsx:147-152 | The snapshots up to the old cursor are kept and the new document follows them. The cursor lands on it (new length minus 1), the invariant is kept, and redo is disabled. Undo is enabled exactly when the history was non-empty |
| `UndoHistory.Undo` | src/Componenets/HomePage/Canvas.jsx:154-159 | The snapshots are never changed. At cursor <= 0 the history is unchanged; otherwise the cursor drops by one and redo becomes enabled |
| `UndoHistory.Redo` | src/Componenets/HomePage/Canvas.jsx:161-166 | The snapshots are never changed. At the last snapshot the history is unchanged; otherwise the cursor rises by one and undo becomes enabled |
| `UndoHistory.History.CanUndo` | src/Componenets/HomePage/Canvas.jsx:227 | `canUndo`: for a valid history, true exactly when a snapshot precedes the cursor |
| `UndoHistory.History.CanRedo` | src/Componenets/HomePage/Canvas.jsx:227 | `canRedo`: for a valid history, true exactly when a snapshot follows the cursor |
| `UndoHistory.UndoEnabledIffEffective` | src/Componenets/HomePage/Canvas.jsx:227 | `canUndo` is true exactly when pressing Undo changes the history |
| `UndoHistory.RedoEnabledIffEffective` | src/Componenets/HomePage/Canvas.jsx:227 | `canRedo` is true exactly when pressing Redo changes the history |
| `UndoHistory.UndoThenRedo` | src/Componenets/HomePage/Canvas.jsx:154-166 | When undo is enabled, undo followed by redo returns the same history |
| `UndoHistory.RedoThenUndo` | src/Componenets/HomePage/Canvas.jsx:154-166 | When redo is enabled, redo followed by undo returns the same history |
| `UndoHistory.UndoTimes` | src/Componenets/HomePage/Canvas.jsx:154-159 | Pressing Undo n times moves the cursor back n steps but never below the first snapshot; the snapshots are untouched |
| `UndoHistory.RedoTimes` | src/Componenets/HomePage/Canvas.jsx:161-166 | Pressing Redo n times moves the cursor forward n steps but never past the last snapshot |
| `UndoHistory.UndoTimesThenRedoTimes` | src/Componenets/HomePage/Canvas.jsx:154-166 | Undoing n available steps and then redoing n steps restores the history |
| `UndoHistory.CommitAfterUndoPrunes` | src/Componenets/HomePage/Canvas.jsx:147-159 | A commit after n undos keeps exactly the snapshots up to the new cursor, then the new document; redo is disabled |
| `Document.Contains` | src/Componenets/HomePage/Canvas.jsx:59-65 | The `findIndex` predicate: the point is inside `[x, x+width(text)]` horizontally and `[y-20, y]` vertically, all bounds inclusive |
| `Document.FindHitFrom` | src/Componenets/HomePage/Canvas.jsx:58-66 | The search from index `from` returns -1 exactly when no later item's box contains the point. Otherwise it returns the first index whose box contains it |
| `Document.FindHit` | src/Componenets/HomePage/Canvas.jsx:103-111 | The hit index is -1 exactly when no box `[x, x+width] x [y-20, y]` contains the point. Otherwise it is the smallest index whose box contains it |
| `Document.MoveItem` | src/Componenets/HomePage/Canvas.jsx:128-133 | Only item i changes, and only its x and y. Text, color, font size and family are kept, and the length is the same |
| `Document.FirstMatchWins` | src/Componenets/HomePage/Canvas.jsx:58-66 | When two boxes both contain the point, the hit is at or below the lower index, not the topmost item |
| `Document.HitIgnoresFontSize` | src/Componenets/HomePage/Canvas.jsx:64-65 | With the text measurement fixed, an item's font size plays no part in the hit test: the box is 20 high whatever the size |
| `Document.MoveItemOverrides` | src/Componenets/HomePage/Canvas.jsx:128-133 | Two successive moves of one item equal the last move alone: positions do not accumulate |
| `Canvas.Init` | src/Componenets/HomePage/Canvas.jsx:7-17 | The mounted editor has an empty document, no selection, no drag and no snapshot. It is synchronised with its history |
| `Canvas.Editor.Pending` | src/Componenets/HomePage/Canvas.jsx:85-92 | The object literal built by `addText` and `updateText`: text, x and y of the position field, color, font size and font family from the form |
| `Canvas.DragTarget` | src/Componenets/HomePage/Canvas.jsx:131-132 | Where a drag puts the item: adding the grab offset back gives the pointer position, so the offset stays fixed through the gesture |
| `Canvas.Record` | src/Componenets/HomePage/Canvas.jsx:147-152 | updateHistory: the new document becomes both the live document and the newest snapshot under the cursor. Snapshots up to the old cursor are kept, redo is disabled, and nothing else changes |
| `Canvas.AddText` | src/Componenets/HomePage/Canvas.jsx:42-50 | The document grows by exactly one item, built from the form fields. Earlier items are unchanged. One snapshot of the new document is recorded after the snapshots up to the old cursor, which are kept. The text field is cleared; the selection and other fields are unchanged |
| `Canvas.Click` | src/Componenets/HomePage/Canvas.jsx:52-80 | The selection is none exactly when no box contains the point; a miss also clears the text field and changes nothing else. A hit selects the first containing item and loads all its fields into the form. The document and history are never changed |
| `Canvas.UpdateText` | src/Componenets/HomePage/Canvas.jsx:82-95 | Without a selected item nothing changes and nothing is recorded. Otherwise only the selected index is replaced, by the form's item, and one snapshot is recorded after the kept snapshots up to the old cursor. The length never changes |
| `Canvas.Submit` | src/Componenets/HomePage/Canvas.jsx:193-195 | With no selection the button appends the form's item after the unchanged earlier items, clears the text and records one snapshot. With a selected item it replaces that item by the form's item and records one snapshot. A selection that names no item leaves the editor unchanged. Either recording touches only the document, the history and (for Add) the text field, and keeps the snapshots up to the old cursor and disables redo |
| `Canvas.MouseDown` | src/Componenets/HomePage/Canvas.jsx:97-120 | A press on empty canvas changes nothing. A press on an item selects the first item under the pointer and starts a drag with grab offset = pointer minus item position. The document, history and form are untouched |
| `Canvas.MouseMove` | src/Componenets/HomePage/Canvas.jsx:122-136 | Outside a drag nothing changes. During a drag only the selected item's x and y change, to pointer minus grab offset. Its text, color and font are kept, other items and the history are untouched |
| `Canvas.MouseUp` | src/Componenets/HomePage/Canvas.jsx:138-145 | The drag flag always ends false and the document is unchanged. Outside a drag nothing changes. Ending a drag records exactly one snapshot, holding the live document, after the kept snapshots up to the old cursor. The cursor moves onto it and redo is disabled; nothing else changes |
| `Canvas.Undo` | src/Componenets/HomePage/Canvas.jsx:154-159 | When undo is disabled nothing changes. Otherwise the cursor drops by one and the live document becomes `history[index-1]`. The snapshots and all other fields are unchanged |
| `Canvas.Redo` | src/Componenets/HomePage/Canvas.jsx:161-166 | When redo is disabled nothing changes. Otherwise the cursor rises by one and the live document becomes `history[index+1]`. The snapshots and all other fields are unchanged |
| `Session.Step` | src/Componenets/HomePage/Canvas.jsx:179-227 | Dispatches each event to its handler; every handler keeps the cursor invariant |
| `Session.Run` | src/Componenets/HomePage/Canvas.jsx:179-227 | Any event sequence keeps the cursor invariant `-1 <= index < length`, with -1 exactly for an empty history |
| `Session.StepKeepsSynced` | src/Componenets/HomePage/Canvas.jsx:122-166 | Every event keeps this invariant: outside a drag, the live document equals the snapshot under the cursor (or is empty before the first commit) |
| `Session.RunKeepsSynced` | src/Componenets/HomePage/Canvas.jsx:138-166 | Every state reached from a synchronised state, the initial one included, is synchronised |
| `Session.StepKeepsSelectionInRange` | src/Componenets/HomePage/Canvas.jsx:42-145 | Every event except Undo and Redo keeps the selection, when set, inside the document |
| `Session.UndoThenRedoRestores` | src/Componenets/HomePage/Canvas.jsx:154-166 | Outside a drag, undo followed by redo restores the editor exactly, live document included |
| `Session.RedoThenUndoRestores` | src/Componenets/HomePage/Canvas.jsx:154-166 | Outside a drag, redo followed by undo restores the editor exactly |
| `Session.CommitAfterUndoDisablesRedo` | src/Componenets/HomePage/Canvas.jsx:147-159 | Adding text after an undo drops the undone snapshot: the history is the snapshots before the old cursor followed by the new document, and redo is disabled |
| `Session.Moves` | src/Componenets/HomePage/Canvas.jsx:122-136 | Pointer moves change only the live document, never its length, the history, the selection or the drag state |
| `Session.MovesOnlyReposition` | src/Componenets/HomePage/Canvas.jsx:122-136 | After any number of moves during a drag, the document is the original with the dragged item at the last pointer minus grab offset; nothing else in the editor changes |
| `Session.DragGestureRecordsOnce` | src/Componenets/HomePage/Canvas.jsx:113-145 | Press on an item, any number of moves, then release records exactly one snapshot, whatever the number of moves. The snapshot holds the final document, the cursor is on it and redo is disabled. Only the dragged item moves, and no item's text, color or font changes |
| `Session.MoveBackRestores` | src/Componenets/HomePage/Canvas.jsx:113-136 | After a press on an item and any number of moves, moving the pointer back to the grab point puts the document back as it was before the press |
| `Session.PressReleaseRecordsCopy` | src/Componenets/HomePage/Canvas.jsx:113-145 | A press and release on an item without moving records a copy of the current snapshot, and redo becomes disabled |
| `Session.ReleaseWithoutDragIsNoOp` | src/Componenets/HomePage/Canvas.jsx:138-145 | A release outside a drag changes nothing (a named corollary of `Canvas.MouseUp`'s no-drag clause) |
| `Session.AddUndoAddScenario` | src/Componenets/HomePage/Canvas.jsx:147-159 | Add A, add B, undo, add C gives snapshots `[[A], [A, C]]` and document `[A, C]`: B's entry is pruned |
| `Session.FirstAddCannotBeUndone` | src/Componenets/HomePage/Canvas.jsx:154-159 | After the first addition, undo is disabled and pressing it changes nothing |
| `StaleSelection.Store` | src/Componenets/HomePage/Canvas.jsx:84-85 | A script array store at index k: in range it replaces one element. At or past the end it grows the array to k+1 and leaves holes in between |
| `StaleSelection.UpdateTextAsWritten` | src/Componenets/HomePage/Canvas.jsx:82-95 | As written, a selection past the end yields an array of length index+1 holding the form's item at that index, instead of a same-length replacement |
| `StaleSelection.StaleUpdateGrowsDocument` | src/Componenets/HomePage/Canvas.jsx:82-95 | A concrete run selects an item and then undoes its addition. Update Text as written then turns a one-item document into two items |
| `StaleSelection.StaleUpdateIsNoOp` | src/Componenets/HomePage/Canvas.jsx:82-95 | In the same state, the model's Update Text changes nothing |

## Findings

| source | as written | input that shows it | evidently intended | confidence | as-written member | corrected member |
|---|---|---|---|---|---|---|
| src/Componenets/HomePage/Canvas.jsx:82-95 | `updateText` checks only that a selection exists. `undo`/`redo` replace the text array but keep the selected index, so the index can point at or past the end of the array. The store then grows the array instead of replacing an item | Add "A", add "B", drag A away, click B, undo three times, press Update Text: a one-item document becomes two items | Update Text replaces an existing item and never changes the document's length; a selection that names no item counts as none | not executed | `StaleSelection.StaleUpdateGrowsDocument` | `Canvas.UpdateText` |

## Left out

- Rendering (the drawing effect and the red selection rectangle): drawing calls into the browser's 2D canvas.
- Client-to-canvas coordinate translation (`getBoundingClientRect`, `clientX`): DOM plumbing. Handlers take canvas-relative points.
- `measureText`: a font-metrics call into the browser. It is the `width` parameter, and its result is taken as an integer.
- Which font the measurement uses: after a render, the canvas context keeps the last drawn item's font, and every hit box is measured with it. Editing that item's font size therefore changes the width of every hit box. The model does not derive `width` from the document; each click or press event supplies it.
- Coordinates are integers. The source's pointer positions and widths may be fractional numbers.
- The framework's asynchronous state batching and stale closures: each handler is one atomic transition.
- `parseInt` in the font-size field: the model takes the parsed integer. The NaN produced by an empty field is not modelled.
- Events that reach no handler: a mouse-up released outside the canvas never reaches `handleMouseUp`, so the drag flag stays set. The model shows this only as the absence of a `Release` event.
- `Canvas.MouseMove`: with a stale selection (an undo during a drag whose release happened outside the canvas), the source stores an object holding only x and y at that index. The model leaves the document unchanged, as it does for `Canvas.UpdateText`.
- `Session.Step`: its contract states only the cursor invariant. The per-event properties are on the handlers and the Session lemmas.
- `src/Componenets/HomePage/UndoRedo.jsx` is presentation only: two buttons disabled from `canUndo`/`canRedo`. Those two expressions are `UndoHistory.History.CanUndo` and `CanRedo`.
