/** The undo history of the edit view as values: the list of saved snapshots
    and the cursor on the one the canvas shows. Saving cuts off whatever lies
    after the cursor, appends the new snapshot and evicts the oldest entry
    once the list grows past twenty; undo and redo only move the cursor, and
    only when their buttons are enabled. */
module EditHistory {

  /** The longest the history may grow before the oldest entry is dropped. */
  const MaxEntries: nat := 20

  /** `editHistory` and `historyIndex`. */
  datatype History<T> = History(entries: seq<T>, index: int)

  /** The history as the edit view opens it, before its first snapshot. */
  function Empty<T>(): History<T> {
    History([], -1)
  }

  /** The cursor points at an entry, or is -1 exactly when there is none, and
      there are never more than twenty entries. */
  predicate Valid<T>(h: History<T>) {
    -1 <= h.index < |h.entries| <= MaxEntries && (h.index == -1 <==> |h.entries| == 0)
  }

  /** The snapshot the canvas shows. */
  function Current<T>(h: History<T>): T
    requires Valid(h) && h.index >= 0
  {
    h.entries[h.index]
  }

  /** `undoBtn.disabled` as updateUndoRedoButtons sets it. */
  predicate UndoDisabled<T>(h: History<T>) {
    h.index <= 0
  }

  /** `redoBtn.disabled` as updateUndoRedoButtons sets it. */
  predicate RedoDisabled<T>(h: History<T>) {
    h.index >= |h.entries| - 1
  }

  /** saveToHistory: keep the entries up to the cursor, append s, and drop the
      oldest entry when that makes twenty-one. The new snapshot is the last
      entry and the cursor is on it; the entries before it are the most
      recent ones that were up to the old cursor, in their order. */
  function Saved<T>(h: History<T>, s: T): (r: History<T>)
    requires Valid(h)
    ensures Valid(r) && 0 <= r.index == |r.entries| - 1 && r.entries[r.index] == s
    ensures |r.entries| == if h.index + 2 > MaxEntries then MaxEntries else h.index + 2
    ensures forall k :: 0 <= k < r.index ==> r.entries[k] == h.entries[k + (h.index + 2 - |r.entries|)]
  {
    var kept := h.entries[..h.index + 1] + [s];
    if |kept| > MaxEntries then History(kept[1..], h.index) else History(kept, h.index + 1)
  }

  /** undoEdit: step the cursor back when the undo button is enabled. */
  function Undone<T>(h: History<T>): History<T> {
    if h.index > 0 then History(h.entries, h.index - 1) else h
  }

  /** redoEdit: step the cursor forward when the redo button is enabled. */
  function Redone<T>(h: History<T>): History<T> {
    if h.index < |h.entries| - 1 then History(h.entries, h.index + 1) else h
  }

  // ---------------------------------------------------------------------
  // Properties
  // ---------------------------------------------------------------------

  /** The first snapshot of a freshly opened edit view is the only entry, and
      both buttons are disabled. */
  lemma FirstSave<T>(s: T)
    ensures Saved(Empty(), s) == History([s], 0)
    ensures UndoDisabled(Saved(Empty(), s)) && RedoDisabled(Saved(Empty(), s))
  {
  }

  /** Undo and redo keep the history valid and never change its entries. */
  lemma MovesKeepEntries<T>(h: History<T>)
    requires Valid(h)
    ensures Valid(Undone(h)) && Undone(h).entries == h.entries
    ensures Valid(Redone(h)) && Redone(h).entries == h.entries
  {
  }

  /** The undo button is disabled exactly when undo would do nothing, and an
      enabled undo moves the cursor back by one. */
  lemma UndoButtonMatchesUndo<T>(h: History<T>)
    ensures UndoDisabled(h) <==> Undone(h) == h
    ensures !UndoDisabled(h) ==> Undone(h).index == h.index - 1
  {
  }

  /** The redo button is disabled exactly when redo would do nothing, and an
      enabled redo moves the cursor forward by one. */
  lemma RedoButtonMatchesRedo<T>(h: History<T>)
    ensures RedoDisabled(h) <==> Redone(h) == h
    ensures !RedoDisabled(h) ==> Redone(h).index == h.index + 1
  {
  }

  /** Redo takes back an undo. */
  lemma RedoUndoesUndo<T>(h: History<T>)
    requires Valid(h) && !UndoDisabled(h)
    ensures !RedoDisabled(Undone(h)) && Redone(Undone(h)) == h
  {
  }

  /** Undo takes back a redo. */
  lemma UndoUndoesRedo<T>(h: History<T>)
    requires Valid(h) && !RedoDisabled(h)
    ensures !UndoDisabled(Redone(h)) && Undone(Redone(h)) == h
  {
  }

  /** After a save there is nothing to redo; there is something to undo
      exactly when the history held a snapshot before. */
  lemma SaveSetsButtons<T>(h: History<T>, s: T)
    requires Valid(h)
    ensures RedoDisabled(Saved(h, s))
    ensures UndoDisabled(Saved(h, s)) <==> h.index == -1
  {
  }

  /** Undo right after a save goes back to the snapshot that was current
      before it, even when the save evicted the oldest entry. */
  lemma {:induction false} UndoAfterSave<T>(h: History<T>, s: T)
    requires Valid(h) && h.index >= 0
    ensures var u := Undone(Saved(h, s)); Valid(u) && u.index >= 0 && Current(u) == Current(h)
  {
    var r := Saved(h, s);
    var dropped := h.index + 2 - |r.entries|;
    assert r.entries[r.index - 1] == h.entries[r.index - 1 + dropped];
  }

  /** A history that is full stays full: each further save evicts exactly one
      entry, the oldest. */
  lemma SaveWhenFull<T>(h: History<T>, s: T)
    requires Valid(h) && h.index == MaxEntries - 1
    ensures Saved(h, s).entries == h.entries[1..] + [s]
  {
  }

  /** Saving k snapshots, one after the other. */
  function SavedAll<T>(h: History<T>, ss: seq<T>): (r: History<T>)
    requires Valid(h)
    ensures Valid(r)
    decreases |ss|
  {
    if |ss| == 0 then h else SavedAll(Saved(h, ss[0]), ss[1..])
  }

  /** However many snapshots are saved, the history holds at most twenty.
      After k >= 1 saves it holds exactly min(old cursor + 1 + k, 20) entries,
      the redo tail having been cut by the first save, and the last snapshot
      saved is current. */
  lemma {:induction false} SavedAllLength<T>(h: History<T>, ss: seq<T>)
    requires Valid(h)
    ensures |SavedAll(h, ss).entries| <= MaxEntries
    ensures |ss| > 0 ==> 0 <= SavedAll(h, ss).index == |SavedAll(h, ss).entries| - 1
    ensures |ss| > 0 ==> Current(SavedAll(h, ss)) == ss[|ss| - 1]
    ensures |SavedAll(h, ss).entries| >= if h.index + 1 + |ss| > MaxEntries then MaxEntries else h.index + 1 + |ss|
    ensures |ss| > 0 ==>
      |SavedAll(h, ss).entries| == if h.index + 1 + |ss| > MaxEntries then MaxEntries else h.index + 1 + |ss|
    decreases |ss|
  {
    if |ss| > 0 {
      var h' := Saved(h, ss[0]);
      SavedAllLength(h', ss[1..]);
      if |ss| > 1 {
        assert ss[1..][|ss[1..]| - 1] == ss[|ss| - 1];
      }
    }
  }
}
