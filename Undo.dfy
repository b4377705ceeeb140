/**
 * The undo list of the prompt (struct Undo, prompt->undo and
 * prompt->undocurr) and the functions that work on it: setpromptundo,
 * addundo, undo and redo.
 *
 * The doubly linked list is a sequence ordered from the bottom up: index 0
 * is the dummy entry setpromptundo allocates (its text is NULL, here None),
 * the last index is prompt->undo, the newest entry. An entry's next link
 * leads one index down, its prev link one index up. prompt->undocurr is
 * an index or None.
 */
module Undo {
  import opened Defs
  import opened CStr
  import opened Edit

  /**
   * The shape of the list: the dummy entry at the bottom and only there,
   * every other entry a copy of a C string, and a current entry, when
   * there is one, on a list that holds more than the dummy.
   */
  predicate WellFormed(entries: seq<Option<seq<byte>>>, curr: Option<nat>)
  {
    |entries| >= 1 && entries[0] == None
    && (forall i :: 1 <= i < |entries| ==> entries[i].Some? && NUL !in entries[i].value)
    && (curr.Some? ==> curr.value < |entries| && |entries| >= 2)
  }

  /** addundo never pushes a copy of the entry below: neighbours differ. */
  predicate NoRepeats(entries: seq<Option<seq<byte>>>)
  {
    forall i :: 0 <= i < |entries| - 1 ==> entries[i] != entries[i + 1]
  }

  /** What addundo keeps: the entries up to the current one, when one is current. */
  function Kept(entries: seq<Option<seq<byte>>>, curr: Option<nat>): (k: seq<Option<seq<byte>>>)
    requires WellFormed(entries, curr)
    ensures 1 <= |k| <= |entries| && k == entries[..|k|]
    ensures curr.Some? ==> |k| == curr.value + 1
  {
    if curr.Some? && curr.value + 1 < |entries| then entries[..curr.value + 1] else entries
  }

  /**
   * The list addundo leaves: the entries above the current one go, then s
   * is pushed unless the newest entry already holds it, becoming current
   * when editing.
   */
  function Added(entries: seq<Option<seq<byte>>>, curr: Option<nat>, s: seq<byte>, editing: bool)
    : (r: (seq<Option<seq<byte>>>, Option<nat>))
    requires WellFormed(entries, curr) && NUL !in s
    ensures WellFormed(r.0, r.1) && r.0[|r.0| - 1] == Some(s)
  {
    var kept := Kept(entries, curr);
    var top: Option<nat> := if editing then Some(|kept|) else curr;
    if kept[|kept| - 1] != Some(s) then (kept + [Some(s)], top) else (kept, curr)
  }

  /** addundo keeps neighbouring entries distinct. */
  lemma AddedNoRepeats(entries: seq<Option<seq<byte>>>, curr: Option<nat>, s: seq<byte>, editing: bool)
    requires WellFormed(entries, curr) && NUL !in s && NoRepeats(entries)
    ensures NoRepeats(Added(entries, curr, s, editing).0)
  {
    var kept := Kept(entries, curr);
    assert NoRepeats(kept) by {
      forall i | 0 <= i < |kept| - 1
        ensures kept[i] != kept[i + 1]
      {
        assert kept[i] == entries[i] && kept[i + 1] == entries[i + 1];
      }
    }
  }

  /**
   * Recording the same string twice changes the list once: the second
   * addundo finds it on top and pushes nothing, and leaves the current
   * entry alone unless the first call was not editing and the second is.
   */
  lemma AddedTwice(entries: seq<Option<seq<byte>>>, curr: Option<nat>, s: seq<byte>, e1: bool, e2: bool)
    requires WellFormed(entries, curr) && NUL !in s
    ensures var once := Added(entries, curr, s, e1);
      var twice := Added(once.0, once.1, s, e2);
      twice.0 == once.0 && (e1 || !e2 ==> twice.1 == once.1)
  {
    var kept := Kept(entries, curr);
    var once := Added(entries, curr, s, e1);
    if kept[|kept| - 1] != Some(s) && !e1 && curr.Some? {
      assert Kept(once.0, once.1) == kept;
    }
  }

  /**
   * undo as written: None when there is nothing to do, Fault when it
   * reaches strlen(NULL), otherwise the new current entry and the string
   * copied into the input field.
   */
  datatype Outcome = Fault | Step(curr: Option<nat>, restore: Option<seq<byte>>)

  function UndoAsWritten(entries: seq<Option<seq<byte>>>, curr: Option<nat>, s: seq<byte>): (o: Outcome)
    requires WellFormed(entries, curr)
  {
    match curr
    case None => Step(None, None)
    case Some(i) =>
      if entries[i].None? then Step(curr, None)
      else
        var j := if entries[i].value == s then i - 1 else i;
        if entries[j].None? then Fault
        else Step(Some(j - 1), entries[j])
  }

  /**
   * undo corrected: when stepping past an entry equal to the input lands
   * on the dummy entry, nothing is copied and the dummy stays current.
   */
  function UndoStep(entries: seq<Option<seq<byte>>>, curr: Option<nat>, s: seq<byte>)
    : (r: (Option<nat>, Option<seq<byte>>))
    requires WellFormed(entries, curr)
    ensures r.0.Some? ==> r.0.value < |entries|
  {
    match curr
    case None => (None, None)
    case Some(i) =>
      if entries[i].None? then (curr, None)
      else
        var j := if entries[i].value == s then i - 1 else i;
        if entries[j].None? then (Some(j), None)
        else (Some(j - 1), entries[j])
  }

  /**
   * redo: one entry up, and one more when that entry equals the input and
   * is not the newest; the string of the entry reached is copied in.
   */
  function RedoStep(entries: seq<Option<seq<byte>>>, curr: Option<nat>, s: seq<byte>)
    : (r: (Option<nat>, Option<seq<byte>>))
    requires WellFormed(entries, curr)
    ensures r.0.Some? ==> r.0.value < |entries|
  {
    match curr
    case None => (None, None)
    case Some(i) =>
      var j := if i + 1 < |entries| then i + 1 else i;
      var k := if j + 1 < |entries| && entries[j] == Some(s) then j + 1 else j;
      (Some(k), entries[k])
  }

  /**
   * The as-written undo faults exactly when the corrected one stops on
   * the dummy entry; otherwise the two agree.
   */
  lemma UndoCorrectionAgrees(entries: seq<Option<seq<byte>>>, curr: Option<nat>, s: seq<byte>)
    requires WellFormed(entries, curr)
    ensures UndoAsWritten(entries, curr, s) == Fault <==>
      curr == Some(1) && entries[1] == Some(s)
    ensures UndoAsWritten(entries, curr, s) != Fault ==>
      UndoAsWritten(entries, curr, s) == Step(UndoStep(entries, curr, s).0, UndoStep(entries, curr, s).1)
  {
  }

  /**
   * Backspace on an empty prompt records "" as the newest entry and makes
   * it current; Ctrl+Z then finds the input equal to it, steps onto the
   * dummy entry and passes its NULL text to strlen.
   */
  lemma UndoFaultsAfterEmptyEdit()
    ensures WellFormed([None, Some([])], Some(1))
    ensures UndoAsWritten([None, Some([])], Some(1), []) == Fault
    ensures UndoStep([None, Some([])], Some(1), []) == (Some(0), None)
  {
  }

  /** The corrected undo always moves down the list, and never copies the string already there. */
  lemma {:induction false} UndoMovesDown(entries: seq<Option<seq<byte>>>, curr: Option<nat>, s: seq<byte>)
    requires WellFormed(entries, curr) && NoRepeats(entries)
    ensures var (c, r) := UndoStep(entries, curr, s);
      (c.Some? ==> curr.Some? && c.value <= curr.value)
      && (r.Some? ==> curr.Some? && c.Some? && c.value < curr.value && r.value != s
                      && (r == entries[curr.value] || r == entries[curr.value - 1]))
  {
    if curr.Some? {
      var i := curr.value;
      if entries[i].Some? && entries[i].value == s && entries[i - 1].Some? {
        assert entries[i - 1] != entries[i];
      }
    }
  }

  /** redo moves up the list, and copies the string already there only from the newest entry. */
  lemma {:induction false} RedoMovesUp(entries: seq<Option<seq<byte>>>, curr: Option<nat>, s: seq<byte>)
    requires WellFormed(entries, curr) && NoRepeats(entries)
    ensures var (c, r) := RedoStep(entries, curr, s);
      (curr.Some? <==> c.Some?) && (curr.Some? ==> curr.value <= c.value && r.Some?)
      && (curr.Some? && curr.value + 1 < |entries| ==> curr.value < c.value)
      && (r == Some(s) ==> c.value == |entries| - 1)
  {
  }

  /**
   * Redo takes back an undo: when the input was the current entry or the
   * one just above it (as addundo leaves it before an undo that follows
   * an edit), undo then redo puts the same string back.
   */
  lemma {:induction false} RedoAfterUndo(entries: seq<Option<seq<byte>>>, i: nat, s: seq<byte>)
    requires WellFormed(entries, Some(i)) && NoRepeats(entries)
    requires entries[i] == Some(s) || (i + 1 < |entries| && entries[i + 1] == Some(s))
    requires UndoStep(entries, Some(i), s).1.Some?
    ensures var (c, r) := UndoStep(entries, Some(i), s);
      RedoStep(entries, c, r.value).1 == Some(s)
  {
    var (c, r) := UndoStep(entries, Some(i), s);
    var j := if entries[i].value == s then i - 1 else i;
    assert c == Some(j - 1) && r == entries[j];
    if entries[i] == Some(s) {
      assert entries[j] != entries[i];
    }
  }

  /** The undo list with its current entry. */
  class UndoLog {
    var entries: seq<Option<seq<byte>>>
    var curr: Option<nat>

    ghost predicate Valid()
      reads this
    {
      WellFormed(entries, curr) && NoRepeats(entries)
    }

    /** setpromptundo: only the dummy entry, none current. */
    constructor()
      ensures Valid() && entries == [None] && curr == None
    {
      entries := [None];
      curr := None;
    }

    /**
     * addundo(prompt, editing): the entries above the current one go; then
     * the string s of the input field is pushed unless the newest entry
     * already holds it, becoming current when editing. Either way the
     * newest entry holds s.
     */
    method AddUndo(s: seq<byte>, editing: bool)
      requires Valid() && NUL !in s
      modifies this
      ensures Valid() && entries[|entries| - 1] == Some(s)
      ensures (entries, curr) == Added(old(entries), old(curr), s, editing)
    {
      ghost var kept := Kept(entries, curr);
      AddedNoRepeats(entries, curr, s, editing);
      if curr.Some? && curr.value + 1 < |entries| {
        entries := entries[..curr.value + 1];
      }
      assert entries == kept;
      var top := entries[|entries| - 1];
      if top.None? || top.value != s {
        entries := entries + [Some(s)];
        if editing {
          curr := Some(|entries| - 1);
        }
      }
    }

    /**
     * undo, with the sentinel guard of UndoStep: the current entry moves
     * down and its string replaces the text before the cursor.
     */
    method Undo(buf: EditBuffer)
      requires Valid() && buf.Valid()
      modifies this, buf
      ensures Valid() && entries == old(entries) && buf.Valid() && buf.file == old(buf.file)
      ensures |buf.text| == |old(buf.text)|
      ensures var (c, r) := UndoStep(old(entries), old(curr), Content(old(buf.text)));
        curr == c && HeadReplaced(r, old(buf.text), old(buf.cursor), old(buf.select), buf.text, buf.cursor, buf.select)
    {
      ghost var step := UndoStep(entries, curr, Content(buf.text));
      if curr.Some? {
        var i := curr.value;
        if entries[i].None? {
          return;
        }
        if entries[i].value == Content(buf.text) {
          curr := Some(i - 1);
        }
      }
      var j := curr;
      if j.Some? && entries[j.value].Some? {
        buf.ReplaceHead(entries[j.value].value);
        curr := Some(j.value - 1);
      }
      assert curr == step.0;
    }

    /** redo: the current entry moves up and its string replaces the text before the cursor. */
    method Redo(buf: EditBuffer)
      requires Valid() && buf.Valid()
      modifies this, buf
      ensures Valid() && entries == old(entries) && buf.Valid() && buf.file == old(buf.file)
      ensures |buf.text| == |old(buf.text)|
      ensures var (c, r) := RedoStep(old(entries), old(curr), Content(old(buf.text)));
        curr == c && HeadReplaced(r, old(buf.text), old(buf.cursor), old(buf.select), buf.text, buf.cursor, buf.select)
    {
      if curr.Some? && curr.value + 1 < |entries| {
        curr := Some(curr.value + 1);
      }
      if curr.Some? && curr.value + 1 < |entries| && entries[curr.value] == Some(Content(buf.text)) {
        curr := Some(curr.value + 1);
      }
      if curr.Some? {
        buf.ReplaceHead(entries[curr.value].value);
      }
    }
  }
}
