/**
 * The undo history shared by `src/hooks/useGridEditor.ts` and the two
 * editor components: a list of at most 100 snapshots and a cursor on the
 * one that is current.  A push drops every entry after the cursor, appends,
 * and evicts from the front past the cap; undo and redo move the cursor.
 * The three copies in the source are the same; the stateful components
 * apply these functions to their fields.
 */
module History {
  import opened Grids

  const MaxHistoryCount: nat := 100

  /** One history entry: the grid, and the height and width texts exactly
      as they were typed (`"06"` and `"6"` differ). */
  datatype Snapshot = Snapshot(grid: Grid, height: string, width: string)

  /** The history list and the index of the current entry. */
  datatype Timeline = Timeline(entries: seq<Snapshot>, cursor: int) {
    predicate Valid() {
      0 <= cursor < |entries| <= MaxHistoryCount
    }

    function Current(): Snapshot
      requires Valid()
    {
      entries[cursor]
    }

    predicate CanUndo() { cursor > 0 }

    predicate CanRedo() { cursor < |entries| - 1 }
  }

  /** A history holding only `s`. */
  function Single(s: Snapshot): (t: Timeline)
    ensures t.Valid() && t.Current() == s && !t.CanUndo() && !t.CanRedo()
  {
    Timeline([s], 0)
  }

  /** `pushToHistory`: nothing happens when `s` equals the current entry
      (the source compares the `JSON.stringify` texts of the two);
      otherwise the entries after the cursor are dropped, `s` is appended,
      only the newest `MaxHistoryCount` entries are kept, and the cursor
      moves to the last one. */
  function Pushed(t: Timeline, s: Snapshot): (u: Timeline)
    requires t.Valid()
    ensures u.Valid() && u.Current() == s
  {
    if s == t.Current() then t
    else
      var kept := t.entries[..t.cursor + 1] + [s];
      var capped := if |kept| > MaxHistoryCount then kept[|kept| - MaxHistoryCount..] else kept;
      Timeline(capped, |capped| - 1)
  }

  /** `undo`: one entry back, or nothing at the first entry. */
  function Undone(t: Timeline): (u: Timeline)
    requires t.Valid()
    ensures u.Valid() && u.entries == t.entries
    ensures u.cursor == if t.CanUndo() then t.cursor - 1 else t.cursor
  {
    if t.cursor > 0 then Timeline(t.entries, t.cursor - 1) else t
  }

  /** `redo`: one entry forward, or nothing at the last entry. */
  function Redone(t: Timeline): (u: Timeline)
    requires t.Valid()
    ensures u.Valid() && u.entries == t.entries
    ensures u.cursor == if t.CanRedo() then t.cursor + 1 else t.cursor
  {
    if t.cursor < |t.entries| - 1 then Timeline(t.entries, t.cursor + 1) else t
  }

  // ---------------------------------------------------------------- properties

  /** Pushing the current entry again changes nothing. */
  lemma PushDuplicateIsNoOp(t: Timeline)
    requires t.Valid()
    ensures Pushed(t, t.Current()) == t
  {
  }

  /** Below the cap, a new entry replaces everything after the cursor: the
      redo branch is gone and the cursor is on the new last entry. */
  lemma PushDropsRedoBranch(t: Timeline, s: Snapshot)
    requires t.Valid() && s != t.Current() && t.cursor + 1 < MaxHistoryCount
    ensures Pushed(t, s).entries == t.entries[..t.cursor + 1] + [s]
    ensures Pushed(t, s).cursor == t.cursor + 1
    ensures !Pushed(t, s).CanRedo()
  {
  }

  /** At the cap, a new entry evicts the oldest one. */
  lemma PushEvictsOldest(t: Timeline, s: Snapshot)
    requires t.Valid() && s != t.Current() && t.cursor + 1 == MaxHistoryCount
    ensures Pushed(t, s).entries == t.entries[1..] + [s]
    ensures |Pushed(t, s).entries| == MaxHistoryCount
    ensures Pushed(t, s).cursor == MaxHistoryCount - 1
  {
    assert t.entries[..t.cursor + 1] == t.entries;
    var kept := t.entries + [s];
    assert kept[|kept| - MaxHistoryCount..] == t.entries[1..] + [s];
  }

  /** After a push that changes something, nothing can be redone, and one
      undo returns to the entry that was current before. */
  lemma UndoAfterPush(t: Timeline, s: Snapshot)
    requires t.Valid() && s != t.Current()
    ensures !Pushed(t, s).CanRedo()
    ensures Pushed(t, s).CanUndo()
    ensures Undone(Pushed(t, s)).Current() == t.Current()
  {
    var kept := t.entries[..t.cursor + 1] + [s];
    assert kept[|kept| - 2] == t.Current();
    if |kept| > MaxHistoryCount {
      var capped := kept[|kept| - MaxHistoryCount..];
      assert capped[|capped| - 2] == kept[|kept| - 2];
    }
  }

  /** A push adds no entry but the new one: every entry afterwards was
      already in the history or is `s`. */
  lemma PushedEntries(t: Timeline, s: Snapshot)
    requires t.Valid()
    ensures forall i :: 0 <= i < |Pushed(t, s).entries| ==>
      Pushed(t, s).entries[i] == s || Pushed(t, s).entries[i] in t.entries
  {
    if s != t.Current() {
      var kept := t.entries[..t.cursor + 1] + [s];
      var u := Pushed(t, s).entries;
      forall i | 0 <= i < |u| ensures u[i] == s || u[i] in t.entries {
        var j := if |kept| > MaxHistoryCount then i + |kept| - MaxHistoryCount else i;
        assert u[i] == kept[j];
        if j < t.cursor + 1 {
          assert kept[j] == t.entries[j];
        }
      }
    }
  }

  /** Redo undoes an undo, and undo undoes a redo. */
  lemma RedoAfterUndo(t: Timeline)
    requires t.Valid() && t.CanUndo()
    ensures Redone(Undone(t)) == t
  {
  }

  lemma UndoAfterRedo(t: Timeline)
    requires t.Valid() && t.CanRedo()
    ensures Undone(Redone(t)) == t
  {
  }
}
