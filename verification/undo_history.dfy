/**
 * The linear undo/redo history of the canvas editor. Every committed document
 * is kept as a full snapshot and a cursor marks the snapshot on screen.
 * Committing after an undo discards the snapshots past the cursor; undo and
 * redo only move the cursor.
 */
module UndoHistory {

  /** `snapshots` is the history array and `cursor` the history index, -1 before the first commit. */
  datatype History<T> = History(snapshots: seq<T>, cursor: int) {

    /** The cursor indexes a snapshot, and is -1 exactly when there is none. */
    predicate Valid() {
      && -1 <= cursor < |snapshots|
      && (cursor == -1 <==> |snapshots| == 0)
    }

    /** Whether the Undo button is enabled: exactly when a snapshot precedes the cursor. */
    predicate CanUndo(): (b: bool)
      ensures Valid() ==> (b <==> 0 <= cursor - 1 < |snapshots|)
    {
      cursor > 0
    }

    /** Whether the Redo button is enabled: exactly when a snapshot follows the cursor. */
    predicate CanRedo(): (b: bool)
      ensures Valid() ==> (b <==> 0 <= cursor + 1 < |snapshots|)
    {
      cursor < |snapshots| - 1
    }

    /** The snapshot under the cursor. */
    function Current(): T
      requires Valid() && |snapshots| > 0
    {
      snapshots[cursor]
    }
  }

  /** The history of a freshly mounted editor: no snapshot, cursor -1. */
  function Empty<T>(): (h: History<T>)
    ensures h.Valid() && |h.snapshots| == 0
    ensures !h.CanUndo() && !h.CanRedo()
  {
    History([], -1)
  }

  /**
   * Records `d`: the snapshots up to and including the cursor are kept, `d`
   * is appended after them and the cursor moves onto it.
   */
  function Commit<T>(h: History<T>, d: T): (r: History<T>)
    requires h.Valid()
    ensures r.Valid()
    ensures |r.snapshots| == h.cursor + 2
    ensures forall k :: 0 <= k <= h.cursor ==> r.snapshots[k] == h.snapshots[k]
    ensures r.cursor == |r.snapshots| - 1 && r.Current() == d
    ensures !r.CanRedo()
    ensures r.CanUndo() <==> |h.snapshots| > 0
  {
    var kept := h.snapshots[..h.cursor + 1];
    History(kept + [d], |kept|)
  }

  /** Steps the cursor back by one; does nothing at the first snapshot or with no snapshot. */
  function Undo<T>(h: History<T>): (r: History<T>)
    requires h.Valid()
    ensures r.Valid() && r.snapshots == h.snapshots
    ensures h.CanUndo() ==> r.cursor == h.cursor - 1 && r.CanRedo()
    ensures !h.CanUndo() ==> r == h
  {
    if h.cursor > 0 then h.(cursor := h.cursor - 1) else h
  }

  /** Steps the cursor forward by one; does nothing at the last snapshot. */
  function Redo<T>(h: History<T>): (r: History<T>)
    requires h.Valid()
    ensures r.Valid() && r.snapshots == h.snapshots
    ensures h.CanRedo() ==> r.cursor == h.cursor + 1 && r.CanUndo()
    ensures !h.CanRedo() ==> r == h
  {
    if h.cursor < |h.snapshots| - 1 then h.(cursor := h.cursor + 1) else h
  }

  /** The Undo button is enabled exactly when pressing it changes the history. */
  lemma UndoEnabledIffEffective<T>(h: History<T>)
    requires h.Valid()
    ensures h.CanUndo() <==> Undo(h) != h
  {
  }

  /** The Redo button is enabled exactly when pressing it changes the history. */
  lemma RedoEnabledIffEffective<T>(h: History<T>)
    requires h.Valid()
    ensures h.CanRedo() <==> Redo(h) != h
  {
  }

  /** An effective undo followed by a redo gives back the same history. */
  lemma UndoThenRedo<T>(h: History<T>)
    requires h.Valid() && h.CanUndo()
    ensures Redo(Undo(h)) == h
  {
  }

  /** An effective redo followed by an undo gives back the same history. */
  lemma RedoThenUndo<T>(h: History<T>)
    requires h.Valid() && h.CanRedo()
    ensures Undo(Redo(h)) == h
  {
  }

  /** Pressing Undo `n` times: the cursor goes back `n` steps but never below the first snapshot. */
  function UndoTimes<T>(h: History<T>, n: nat): (r: History<T>)
    requires h.Valid()
    ensures r.Valid() && r.snapshots == h.snapshots
    ensures h.cursor <= 0 ==> r == h
    ensures h.cursor > 0 ==> r.cursor == if n <= h.cursor then h.cursor - n else 0
    decreases n
  {
    if n == 0 then h else UndoTimes(Undo(h), n - 1)
  }

  /** Pressing Redo `n` times: the cursor goes forward `n` steps but never past the last snapshot. */
  function RedoTimes<T>(h: History<T>, n: nat): (r: History<T>)
    requires h.Valid()
    ensures r.Valid() && r.snapshots == h.snapshots
    ensures r.cursor == if h.cursor + n < |h.snapshots| then h.cursor + n else |h.snapshots| - 1
    decreases n
  {
    if n == 0 then h else RedoTimes(Redo(h), n - 1)
  }

  /** Undoing `n` steps that are available and then redoing `n` steps returns to the same history. */
  lemma UndoTimesThenRedoTimes<T>(h: History<T>, n: nat)
    requires h.Valid() && n <= h.cursor
    ensures RedoTimes(UndoTimes(h, n), n) == h
  {
  }

  /**
   * A commit made after undoing `n` steps keeps exactly the snapshots up to
   * the new cursor: the `n` undone snapshots are lost and redo is disabled.
   */
  lemma CommitAfterUndoPrunes<T>(h: History<T>, n: nat, d: T)
    requires h.Valid() && n <= h.cursor
    ensures var r := Commit(UndoTimes(h, n), d);
      && r.snapshots == h.snapshots[..h.cursor - n + 1] + [d]
      && !r.CanRedo()
  {
  }
}
