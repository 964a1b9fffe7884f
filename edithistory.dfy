/** The undo/redo history of the transcript editor: a list of saved contents and a
    cursor into it, at most `MaxHistory` entries long. */
module EditHistory {

  const MaxHistory: nat := 20

  /** A snapshot of the history: the saved contents and the cursor. */
  datatype State = State(entries: seq<string>, index: int)

  /** The history before the editor first opens is empty with the cursor at -1; from
      then on the cursor points at an entry and the list is bounded. */
  predicate Valid(s: State)
  {
    |s.entries| <= MaxHistory &&
    ((s.entries == [] && s.index == -1) || (0 <= s.index < |s.entries|))
  }

  /** The last `n` elements of `s` (all of it when it is shorter). */
  function LastN(s: seq<string>, n: nat): (r: seq<string>)
    ensures |r| == if |s| <= n then |s| else n
  {
    if |s| <= n then s else s[|s| - n..]
  }

  /** Opening the editor starts a history holding the initial content. */
  function Opened(initial: string): State
  {
    State([initial], 0)
  }

  /** Saving: nothing changes when the content equals the entry under the cursor;
      otherwise the entries after the cursor are dropped, the content is appended and
      becomes current, and the oldest entry goes when the list grows past the bound. */
  function Saved(s: State, content: string): State
    requires Valid(s)
  {
    if |s.entries| > 0 && s.entries[s.index] == content then s
    else
      var kept := if s.index < |s.entries| - 1 then s.entries[..s.index + 1] else s.entries;
      var pushed := kept + [content];
      if |pushed| > MaxHistory then State(pushed[1..], |pushed| - 2)
      else State(pushed, |pushed| - 1)
  }

  function Undone(s: State): State
  {
    if s.index > 0 then State(s.entries, s.index - 1) else s
  }

  function Redone(s: State): State
  {
    if s.index < |s.entries| - 1 then State(s.entries, s.index + 1) else s
  }

  /** The undo button is disabled when the cursor is at the first entry (or none). */
  predicate UndoDisabled(s: State)
  {
    s.index <= 0
  }

  /** The redo button is disabled when the cursor is at the last entry (or none). */
  predicate RedoDisabled(s: State)
  {
    s.index >= |s.entries| - 1
  }

  // ---------------------------------------------------------------------------
  // Properties
  // ---------------------------------------------------------------------------

  lemma OpenedValid(initial: string)
    ensures Valid(Opened(initial))
    ensures UndoDisabled(Opened(initial)) && RedoDisabled(Opened(initial))
  {
  }

  /** Every operation keeps the history well formed. */
  lemma OperationsKeepValid(s: State, content: string)
    requires Valid(s)
    ensures Valid(Saved(s, content)) && Valid(Undone(s)) && Valid(Redone(s))
  {
  }

  /** Saving the content already under the cursor changes nothing. */
  lemma SaveSameIsNoop(s: State)
    requires Valid(s) && s.entries != []
    ensures Saved(s, s.entries[s.index]) == s
  {
  }

  /** A real save keeps the entries up to the cursor, then the new content, bounded to
      the last `MaxHistory`; the new content is current and there is nothing to redo. */
  lemma SaveMeaning(s: State, content: string)
    requires Valid(s)
    requires s.entries == [] || s.entries[s.index] != content
    ensures var r := Saved(s, content);
      r.entries == LastN(s.entries[..s.index + 1] + [content], MaxHistory) &&
      r.index == |r.entries| - 1 && r.entries[r.index] == content &&
      RedoDisabled(r)
  {
    var kept := if s.index < |s.entries| - 1 then s.entries[..s.index + 1] else s.entries;
    assert kept == s.entries[..s.index + 1];
  }

  /** After a real save there is something to undo unless the history held nothing. */
  lemma SaveEnablesUndo(s: State, content: string)
    requires Valid(s) && s.entries != []
    requires s.entries[s.index] != content
    ensures !UndoDisabled(Saved(s, content))
  {
  }

  /** A disabled button is exactly an operation that would do nothing. */
  lemma ButtonsMatchOperations(s: State)
    ensures UndoDisabled(s) <==> Undone(s) == s
    ensures RedoDisabled(s) <==> Redone(s) == s
  {
  }

  /** Undo then redo, and redo then undo, come back to the same state. */
  lemma UndoRedoInverse(s: State)
    requires Valid(s)
    ensures !UndoDisabled(s) ==> Redone(Undone(s)) == s
    ensures !RedoDisabled(s) ==> Undone(Redone(s)) == s
  {
  }

  /** Undo shows the entry saved before the current one; the list itself is kept. */
  lemma UndoShowsPrevious(s: State)
    requires Valid(s) && !UndoDisabled(s)
    ensures Undone(s).entries == s.entries
    ensures Undone(s).entries[Undone(s).index] == s.entries[s.index - 1]
  {
  }

  /** The editor's history, updated in place as the page does. */
  class History {
    var entries: seq<string>
    var index: int

    ghost function Snapshot(): State
      reads this
    {
      State(entries, index)
    }

    constructor ()
      ensures Snapshot() == State([], -1)
    {
      entries := [];
      index := -1;
    }

    method Open(initial: string)
      modifies this
      ensures Snapshot() == Opened(initial)
    {
      entries := [initial];
      index := 0;
    }

    method Save(content: string)
      requires Valid(Snapshot())
      modifies this
      ensures Snapshot() == Saved(old(Snapshot()), content)
    {
      if |entries| > 0 && entries[index] == content {
        return;
      }
      if index < |entries| - 1 {
        entries := entries[..index + 1];
      }
      entries := entries + [content];
      index := |entries| - 1;
      if |entries| > MaxHistory {
        entries := entries[1..];
        index := index - 1;
      }
    }

    method Undo()
      modifies this
      ensures Snapshot() == Undone(old(Snapshot()))
    {
      if index > 0 {
        index := index - 1;
      }
    }

    method Redo()
      modifies this
      ensures Snapshot() == Redone(old(Snapshot()))
    {
      if index < |entries| - 1 {
        index := index + 1;
      }
    }

  }
}
