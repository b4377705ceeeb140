/**
 * keypress: one key event applied to the prompt.
 *
 * The prompt is made of the components modelled elsewhere: the input field
 * (EditBuffer), the undo list (UndoLog), the history (History), the
 * Control-key table (KeyTable) and the window over the match chain
 * (MatchWindow), together with the item tree. The two static variables of
 * keypress, complist and prevoperation, are fields of the Prompt.
 *
 * What XmbLookupString returns is a parameter: its status, the keysym, the
 * modifier state and the bytes it wrote. The X calls of keypress (pasting,
 * copying, taking the primary selection) do nothing here, and puts of the
 * accepted text is left to the caller, who sees the Enter result. File
 * name completion is not part of this model, so filecomp is always 0.
 */
module Dispatch {
  import opened Defs
  import opened CStr
  import opened Utf8
  import opened Defaults
  import opened Items
  import opened Edit
  import opened Undo
  import opened Hist
  import opened Keys
  import opened Matching

  /** The status XmbLookupString reports: nothing usable, characters only, or a keysym (with or without characters). */
  datatype Lookup = LookupNone | LookupChars | LookupKeySym

  /** iscntrl in the "C" locale; the terminating NUL is a control byte too. */
  predicate IsCntrl(c: byte)
  {
    c < 32 || c == 127
  }

  /**
   * The cursor offset a motion or its selecting counterpart moves to: the
   * start or the end of the string, one rune left or right (staying put at
   * either end), the start of the previous word or the end of the next.
   */
  function Moved(op: Ctrl, text: seq<byte>, cursor: nat): (c: nat)
    requires IsMotion(op) || IsSelection(op)
    requires NUL in text && cursor <= Strlen(text)
    ensures c <= Strlen(text)
    ensures (op.CtrlBol? || op.CtrlSelBol?) ==> c == 0
    ensures (op.CtrlEol? || op.CtrlSelEol?) ==> text[c] == NUL
    ensures (op.CtrlLeft? || op.CtrlSelLeft?) ==> (cursor > 0 <==> c < cursor)
    ensures (op.CtrlRight? || op.CtrlSelRight?) ==> (cursor < Strlen(text) <==> cursor < c)
    ensures (op.CtrlWLeft? || op.CtrlSelWLeft?) ==> c <= cursor
    ensures (op.CtrlWRight? || op.CtrlSelWRight?) ==> cursor <= c && IsDelim(WordDelimiters, text[c])
  {
    if op.CtrlBol? || op.CtrlSelBol? then 0
    else if op.CtrlEol? || op.CtrlSelEol? then Strlen(text)
    else if op.CtrlLeft? || op.CtrlSelLeft? then (if cursor > 0 then Boundary(text, cursor, -1) else cursor)
    else if op.CtrlRight? || op.CtrlSelRight? then (if cursor < Strlen(text) then Boundary(text, cursor, 1) else cursor)
    else if op.CtrlWLeft? || op.CtrlSelWLeft? then WordEdge(WordDelimiters, text, cursor, -1)
    else WordEdge(WordDelimiters, text, cursor, 1)
  }

  /**
   * The cases in which keypress returns Nop: the clipboard and paging keys,
   * an unbound Control key, a control character typed as input, the
   * history keys without a history, and moving or deleting past either end
   * of the string when nothing is selected.
   */
  predicate Ignored(op: Ctrl, hflag: bool, histsize: nat, text: seq<byte>, cursor: nat, select: nat, first: byte)
    requires cursor < |text|
  {
    op.CtrlPaste? || op.CtrlCopy? || op.CtrlPgUp? || op.CtrlPgDown? || op.CtrlNothing?
    || (op.Insert? && IsCntrl(first))
    || ((op.CtrlUp? || op.CtrlDown?) && (!hflag || histsize == 0))
    || ((op.CtrlLeft? || op.CtrlSelLeft?) && cursor == 0)
    || ((op.CtrlRight? || op.CtrlSelRight?) && text[cursor] == NUL)
    || (op.CtrlDelLeft? && cursor == select && cursor == 0)
    || (op.CtrlDelRight? && cursor == select && text[cursor] == NUL)
  }

  /**
   * The redraw the common tail of keypress asks for: only the input for a
   * selection, and for an edit or an undo outside completion; the whole
   * prompt otherwise.
   */
  function Redraw(op: Ctrl, matching: bool): PressRet
  {
    if IsSelection(op) || ((IsEditing(op) || IsUndo(op)) && !matching) then DrawInput else DrawPrompt
  }

  /** Outside selections, edits and undo the tail redraws the whole prompt, in completion or not. */
  lemma RedrawWhole(op: Ctrl)
    requires !IsSelection(op) && !IsEditing(op) && !IsUndo(op)
    ensures Redraw(op, true) == Redraw(op, false) == DrawPrompt
  {
  }

  /** What the switch itself returned when keypress returns r: nothing when r is a redraw of the common tail. */
  function Returned(r: PressRet): Option<PressRet>
  {
    if r.DrawInput? || r.DrawPrompt? then None else Some(r)
  }

  /**
   * What keypress returns for op, read off its switch: the state before
   * the key is the history size, whether completion is on, the input
   * field and the first byte typed.
   */
  function Answer(op: Ctrl, sflag: bool, hflag: bool, histsize: nat, matching: bool,
                  text: seq<byte>, cursor: nat, select: nat, first: byte): PressRet
    requires cursor < |text|
  {
    if op.CtrlPaste? || op.CtrlCopy? || op.CtrlPgUp? || op.CtrlPgDown? || op.CtrlNothing? then Nop
    else if op.CtrlCancel? then (if sflag || !matching || text[0] == NUL then Esc else DrawPrompt)
    else if op.CtrlEnter? then (if sflag || !matching then Enter else DrawPrompt)
    else if op.CtrlUp? || op.CtrlDown? then (if !hflag || histsize == 0 then Nop else DrawPrompt)
    else if (op.CtrlLeft? || op.CtrlSelLeft?) && cursor == 0 then Nop
    else if (op.CtrlRight? || op.CtrlSelRight?) && text[cursor] == NUL then Nop
    else if op.CtrlDelLeft? && cursor == select && cursor == 0 then Nop
    else if op.CtrlDelRight? && cursor == select && text[cursor] == NUL then Nop
    else if op.Insert? && IsCntrl(first) then Nop
    else Redraw(op, matching)
  }

  /**
   * keypress returns Nop exactly in the Ignored cases; Esc only for a
   * Cancel with -s, outside completion or with an empty input; Enter only
   * for an Enter with -s or outside completion; DrawInput for a selection,
   * and for an edit or an undo outside completion, that is not ignored.
   */
  lemma AnswerCases(op: Ctrl, sflag: bool, hflag: bool, histsize: nat, matching: bool,
                    text: seq<byte>, cursor: nat, select: nat, first: byte)
    requires cursor < |text|
    ensures var r := Answer(op, sflag, hflag, histsize, matching, text, cursor, select, first);
      var ignored := Ignored(op, hflag, histsize, text, cursor, select, first);
      (r.Nop? <==> ignored)
      && (r.Esc? <==> op.CtrlCancel? && (sflag || !matching || text[0] == NUL))
      && (r.Enter? <==> op.CtrlEnter? && (sflag || !matching))
      && (r.DrawInput? <==> !ignored && (IsSelection(op) || ((IsEditing(op) || IsUndo(op)) && !matching)))
  {
  }

  /**
   * The input field (text, cursor, select) after typing s over the
   * selection of (t, c, sel): the selected bytes are gone and s stands at
   * the start of the selection, the cursor after it, unless the result
   * would not fit in the buffer; then only the selection is gone.
   */
  ghost predicate Overwritten(t: seq<byte>, c: nat, sel: nat, s: seq<byte>, text: seq<byte>, cursor: nat, select: nat)
    requires NUL in t && c <= Strlen(t) && sel < |t| && NUL in t[sel..]
    requires NUL in text
  {
    var lo := Min(c, sel);
    var rest := if c == sel then Content(t) else Content(t)[..lo] + Content(t[Max(c, sel)..]);
    lo <= |rest|
    && if |rest| + |s| <= |text| - 1
       then (Content(text), cursor, select) == (rest[..lo] + s + rest[lo..], lo + |s|, lo + |s|)
       else (Content(text), cursor, select) == (rest, lo, lo)
  }

  /**
   * Deleting the selection and then inserting s at the cursor, when the
   * longer string fits, types s over the selection.
   */
  lemma TypedOver(t: seq<byte>, c: nat, sel: nat, s: seq<byte>, mid: seq<byte>,
                  text: seq<byte>, cursor: nat, select: nat)
    requires NUL in t && c <= Strlen(t) && sel < |t| && NUL in t[sel..] && NUL !in s
    requires NUL in mid && |mid| == |t|
    requires c == sel ==> mid == t
    requires c != sel ==> Content(mid) == Content(t)[..Min(c, sel)] + Content(t[Max(c, sel)..])
    requires NUL in text
    requires !Fits(mid, |s|) ==> text == mid && cursor == select == Min(c, sel)
    requires Fits(mid, |s|) ==>
      Content(text) == Spliced(Content(mid), Min(c, sel), s, |s|) && cursor == select == Min(c, sel) + |s|
    ensures Overwritten(t, c, sel, s, text, cursor, select)
  {
    var lo := Min(c, sel);
    var rest := Content(mid);
    assert lo <= |rest|;
    if Fits(mid, |s|) {
      StrlenIs(mid, |rest|);
      SplicedWhole(rest, lo, s);
    }
  }

  /** Splicing all of s in at lo puts s between the two halves. */
  lemma SplicedWhole(rest: seq<byte>, lo: nat, s: seq<byte>)
    requires lo <= |rest|
    ensures Spliced(rest, lo, s, |s|) == rest[..lo] + s + rest[lo..]
  {
    if |s| == 0 {
      assert rest[..lo] + rest[lo..] == rest;
    } else {
      assert s[..|s|] == s;
    }
  }

  /**
   * The input field (text, cursor, select) after deleting from (t, c, sel):
   * a selection goes as a whole; otherwise the rune before the cursor goes
   * (for CTRLDELRIGHT, the rune after it), cursor and select ending where
   * it started.
   */
  ghost predicate RuneDeleted(op: Ctrl, t: seq<byte>, c: nat, sel: nat, text: seq<byte>, cursor: nat, select: nat)
    requires NUL in t && c <= Strlen(t) && sel < |t| && NUL in t[sel..]
    requires NUL in text
  {
    if c != sel then
      var lo, hi := Min(c, sel), Max(c, sel);
      (Content(text), cursor, select) == (Content(t)[..lo] + Content(t[hi..]), lo, lo)
    else
      var q := if op.CtrlDelRight? && c < Strlen(t) then Boundary(t, c, 1) else c;
      var p := if q > 0 then Boundary(t, q, -1) else 0;
      (Content(text), cursor, select) == (Content(t)[..p] + Content(t)[q..], p, p)
  }

  /**
   * The input field (text, cursor, select) after CTRLDELBOL (the text
   * before the cursor goes), CTRLDELEOL (the text after it goes) or
   * CTRLDELWORD (the word before the cursor goes) applied to (t, c, sel).
   * The selection ends at the cursor, except that deleting a word at the
   * start of the string changes nothing.
   */
  ghost predicate LineCut(op: Ctrl, t: seq<byte>, c: nat, sel: nat, text: seq<byte>, cursor: nat, select: nat)
    requires NUL in t && c <= Strlen(t) && NUL in text
  {
    if op.CtrlDelBol? then (Content(text), cursor, select) == (Content(t)[c..], 0, 0)
    else if op.CtrlDelEol? then (Content(text), cursor, select) == (Content(t)[..c], c, c)
    else
      var w := WordEdge(WordDelimiters, t, c, -1);
      (Content(text), cursor, select) == (Content(t)[..w] + Content(t)[c..], w, if c > 0 then w else sel)
  }

  /**
   * The input field after insertselitem puts s, the selected item's text,
   * in place of the word before the cursor of (t, c): s and the text after
   * the cursor follow the text before the word when they fit in the
   * buffer, with cursor and select after s; otherwise only the word goes,
   * and select, sel before, is left at the start of the word when a word
   * went.
   */
  ghost predicate SelItemPut(s: seq<byte>, t: seq<byte>, c: nat, sel: nat, text: seq<byte>, cursor: nat, select: nat)
    requires NUL in t && c <= Strlen(t) && NUL in text
  {
    var content := Content(t);
    var start := EditBuffer.SelItemStart(t, c);
    var tail := content[c..];
    if start + |s| + |tail| <= |t| - 1
    then (Content(text), cursor, select) == (content[..start] + s + tail, start + |s|, start + |s|)
    else (Content(text), cursor, select) == (content[..start] + tail, start, if start < c then start else sel)
  }

  /**
   * The input field (text, cursor, select) after an editing operation on
   * (t, c, sel) that is not ignored, typed being the bytes of an INSERT:
   * Overwritten, RuneDeleted or LineCut, as the operation is.
   */
  ghost predicate Edited(op: Ctrl, typed: seq<byte>, t: seq<byte>, c: nat, sel: nat, text: seq<byte>, cursor: nat, select: nat)
    requires IsEditing(op)
    requires NUL in t && c <= Strlen(t) && sel < |t| && NUL in t[sel..] && NUL in text
  {
    match op
    case Insert => Overwritten(t, c, sel, typed, text, cursor, select)
    case CtrlDelLeft | CtrlDelRight => RuneDeleted(op, t, c, sel, text, cursor, select)
    case CtrlDelBol | CtrlDelEol | CtrlDelWord => LineCut(op, t, c, sel, text, cursor, select)
  }

  /**
   * CTRLUNDO or CTRLREDO on the undo list (entries, curr) and the input
   * field (t, c, sel): the current entry becomes next as UndoStep or
   * RedoStep says, and the string they return replaces the text before
   * the cursor, giving (text, cursor, select).
   */
  ghost predicate Restored(op: Ctrl, entries: seq<Option<seq<byte>>>, curr: Option<nat>, t: seq<byte>, c: nat, sel: nat,
                           next: Option<nat>, text: seq<byte>, cursor: nat, select: nat)
    requires IsUndo(op) && WellFormed(entries, curr)
    requires NUL in t && c <= Strlen(t) && NUL in text
  {
    var (i, r) := if op.CtrlUndo? then UndoStep(entries, curr, Content(t)) else RedoStep(entries, curr, Content(t));
    next == i && HeadReplaced(r, t, c, sel, text, cursor, select)
  }

  /**
   * The undo grouping of keypress on the list (entries, curr) with s in
   * the input field, prev being the operation of the last key: an undo or
   * redo right after an edit records s without making it current; the
   * first of a run of the same editing operation records s and makes it
   * current; otherwise the list stays as it is.
   */
  function Recorded(op: Ctrl, prev: Ctrl, entries: seq<Option<seq<byte>>>, curr: Option<nat>, s: seq<byte>)
    : (r: (seq<Option<seq<byte>>>, Option<nat>))
    requires WellFormed(entries, curr) && NUL !in s
    ensures WellFormed(r.0, r.1)
    ensures !(IsUndo(op) && IsEditing(prev)) && !(IsEditing(op) && op != prev) ==> r == (entries, curr)
    ensures r != (entries, curr) ==> r.0[|r.0| - 1] == Some(s)
  {
    if IsUndo(op) && IsEditing(prev) then Added(entries, curr, s, false)
    else if IsEditing(op) && op != prev then Added(entries, curr, s, true)
    else (entries, curr)
  }

  /** Splicing in a negative count deletes the bytes between the new and the old cursor. */
  lemma SplicedOut(c: seq<byte>, p: nat, q: nat)
    requires p <= q <= |c|
    ensures Spliced(c, q, [], p - q) == c[..p] + c[q..]
  {
  }

  /** The text before the cursor reaches the terminator exactly at the end of the string. */
  lemma AtTerminator(text: seq<byte>, cursor: nat)
    requires NUL in text && cursor <= Strlen(text)
    ensures text[cursor] == NUL <==> cursor == Strlen(text)
  {
    if cursor < Strlen(text) {
      assert text[..Strlen(text)][cursor] == text[cursor];
    }
  }

  /**
   * The part of the prompt keypress changes once the undo list has
   * recorded the key, as values: the input field (text, cursor, select),
   * the current entry of the undo list, the history index, complist and
   * the match window.
   */
  datatype Screen = Screen(text: seq<byte>, cursor: nat, select: nat, undo: Option<nat>, hindex: nat, complist: Option<nat>, win: Window)

  class Prompt {
    const edit: EditBuffer
    const log: UndoLog
    const hist: History
    const keys: KeyTable
    const win: MatchWindow
    const items: seq<Item>
    const root: Option<nat>
    const sflag: bool
    const hflag: bool
    const mode: Mode
    /** The static complist of keypress: the list completion draws from. */
    var complist: Option<nat>
    /** The static prevoperation of keypress: the operation of the last key. */
    var prevoperation: Ctrl

    /**
     * The components are consistent, the items and history entries are C
     * strings, the lists point into the item arena and a shown match list
     * has a selected match.
     */
    ghost predicate Valid()
      reads this`complist, edit, log, hist, keys, keys.ctrl, win, win.itemarray
    {
      edit.Valid() && log.Valid() && keys.Valid() && ArenaOk() && HistOk() && WinOk()
    }

    /** The item arena is linked forwards, its texts are C strings, and root and complist lie in it. */
    ghost predicate ArenaOk()
      reads this`complist
    {
      mode.delims == WordDelimiters
      && Forward(items) && InArena(items, root) && InArena(items, complist)
      && (forall k :: 0 <= k < |items| ==> NUL !in items[k].text)
    }

    /** The history entries are C strings. */
    ghost predicate HistOk()
      reads hist
    {
      hist.Valid() && forall i :: 0 <= i < |hist.entries| ==> NUL !in hist.entries[i]
    }

    /** The match chain holds arena indices, and a shown match list has a selected match. */
    ghost predicate WinOk()
      reads win, win.itemarray
    {
      win.Valid() && (forall i :: 0 <= i < |win.chain| ==> win.chain[i] < |items|)
      && (win.top.Some? ==> win.sel.Some?)
    }

    /** The chain getmatchlist builds from list for the word before the cursor. */
    ghost function Matches(list: Option<nat>, text: seq<byte>, cursor: nat): seq<nat>
      requires Forward(items) && InArena(items, list) && cursor <= |text|
    {
      MatchChain(items, list, text[WordStart(mode.delims, text, cursor)..cursor], mode)
    }

    /** The state as a Screen. */
    ghost function Now(): Screen
      reads this`complist, edit, log, hist, win
    {
      Screen(edit.text, edit.cursor, edit.select, log.curr, hist.index, complist, win.View())
    }

    /** The item arena is linked forwards and root lies in it. */
    ghost predicate Rooted()
    {
      Forward(items) && InArena(items, root)
    }

    /** The input field of s holds a C string with the cursor and select in it. */
    ghost predicate FieldOk(s: Screen)
    {
      NUL in s.text && s.cursor <= Strlen(s.text) && s.select < |s.text| && NUL in s.text[s.select..]
    }

    /**
     * What Valid says about a Screen: the input field is sound, the history
     * index lies in entries, complist lies in the arena and the window is a
     * window over arena indices.
     */
    ghost predicate Sound(s: Screen, entries: seq<seq<byte>>)
    {
      Rooted() && FieldOk(s) && s.hindex <= |entries| && InArena(items, s.complist)
      && (forall i :: 0 <= i < |s.win.chain| ==> s.win.chain[i] < |items|)
      && (s.win.sel.Some? ==> s.win.sel.value < |s.win.chain|)
      && (s.win.top.Some? ==> s.win.sel.Some? && s.win.top.value < |s.win.chain|)
      && (win.maxitems >= 1 && s.win.top.Some? ==> s.win.top.value <= s.win.sel.value < s.win.top.value + win.maxitems)
    }

    /**
     * The tail of keypress after an edit or an undo that gave s2's input
     * field: in completion, complist is found again for the new input and
     * the window is rebuilt on the matches of the word before the cursor;
     * outside completion both stay as in s1.
     */
    ghost predicate Rematched(s1: Screen, s2: Screen)
      requires Rooted() && FieldOk(s2)
    {
      if s1.win.top.None? then (s2.complist, s2.win) == (s1.complist, s1.win)
      else
        var list := CompList(items, root, s2.text, s2.cursor, mode);
        (s2.complist, s2.win) == (list, if list.None? then s1.win else Rebuilt(Matches(list, s2.text, s2.cursor), win.maxitems))
    }

    /**
     * CTRLPREV or CTRLNEXT from s1: outside completion complist is found
     * for the input and completion opens on its matches; in completion the
     * selection steps back or on. Without a complist the window stays.
     */
    ghost predicate Navigated(op: Ctrl, s1: Screen, s2: Screen, entries: seq<seq<byte>>)
      requires Sound(s1, entries) && Sound(s2, entries)
    {
      var list := if s1.win.top.None? then CompList(items, root, s1.text, s1.cursor, mode) else s1.complist;
      (s2.complist, s2.win) ==
        (list,
         if list.None? then s1.win
         else if s1.win.top.None? then Opened(Matches(list, s1.text, s1.cursor), s1.win, win.maxitems)
         else Scrolled(s1.win, if op.CtrlNext? then 1 else -1, win.maxitems))
    }

    /**
     * CTRLUP or CTRLDOWN from s1 with a history: the index moves one entry
     * back or on, and the entry reached, if any, replaces the text before
     * the cursor.
     */
    ghost predicate Recalled(op: Ctrl, s1: Screen, s2: Screen, entries: seq<seq<byte>>)
      requires Sound(s1, entries) && Sound(s2, entries)
    {
      s2.hindex == NavIndex(s1.hindex, |entries|, if op.CtrlUp? then -1 else 1)
      && HeadReplaced(if s2.hindex < |entries| then Some(entries[s2.hindex]) else None,
                      s1.text, s1.cursor, s1.select, s2.text, s2.cursor, s2.select)
    }

    /** insertselitem in completion: the selected match's text replaces the word before the cursor. */
    ghost predicate Put(s1: Screen, s2: Screen, entries: seq<seq<byte>>)
      requires Sound(s1, entries) && Sound(s2, entries) && s1.win.top.Some?
    {
      SelItemPut(items[s1.win.chain[s1.win.sel.value]].text, s1.text, s1.cursor, s1.select, s2.text, s2.cursor, s2.select)
    }

    /**
     * The cases of the switch that work on the input field alone, from s1
     * to s2: early is Nop when the key is ignored, and then nothing
     * changes. An edit changes the input field as Edited says (an undo as
     * Restored says, beside the undo list); a motion or a selection moves
     * the cursor.
     */
    ghost predicate FieldSwitched(op: Ctrl, early: Option<PressRet>, typed: seq<byte>, undos: seq<Option<seq<byte>>>, s1: Screen, s2: Screen)
      requires IsMotion(op) || IsSelection(op) || IsUndo(op) || IsEditing(op)
      requires Rooted() && FieldOk(s1) && FieldOk(s2) && WellFormed(undos, s1.undo)
    {
      if early.Some? then early.value.Nop? && s2 == s1
      else if IsEditing(op) || IsUndo(op) then
        Changed(op, typed, undos, s1, s2) && (s2.hindex, s2.complist, s2.win) == (s1.hindex, s1.complist, s1.win)
      else s2 == s1.(cursor := Moved(op, s1.text, s1.cursor))
    }

    /**
     * An edit or an undo from s1 to s2 on the input field and the undo
     * list whose entries are undos: an edit as Edited says, keeping the
     * current entry; an undo or a redo as Restored says.
     */
    ghost predicate Changed(op: Ctrl, typed: seq<byte>, undos: seq<Option<seq<byte>>>, s1: Screen, s2: Screen)
      requires IsEditing(op) || IsUndo(op)
      requires FieldOk(s1) && FieldOk(s2) && WellFormed(undos, s1.undo)
    {
      if IsEditing(op) then Edited(op, typed, s1.text, s1.cursor, s1.select, s2.text, s2.cursor, s2.select) && s2.undo == s1.undo
      else Restored(op, undos, s1.undo, s1.text, s1.cursor, s1.select, s2.undo, s2.text, s2.cursor, s2.select)
    }

    /**
     * The cases of the switch that work on the prompt as a whole, from s1
     * to s2, early being the result when the switch returns: a Nop or an
     * Esc changes nothing. Cancel closes the window; Enter in completion
     * puts the selected match in, then closes the window unless the prompt
     * is accepted; Up and Down recall a history entry and close the
     * window; Prev and Next navigate.
     */
    ghost predicate PromptSwitched(op: Ctrl, early: Option<PressRet>, entries: seq<seq<byte>>, s1: Screen, s2: Screen)
      requires Sound(s1, entries) && Sound(s2, entries)
    {
      (early.Some? ==> early.value.Nop? || (op.CtrlCancel? && early.value.Esc?) || (op.CtrlEnter? && early.value.Enter?))
      && if early.Some? && !early.value.Enter? then s2 == s1
      else if op.CtrlCancel? then s2 == s1.(win := Closed(s1.win))
      else if op.CtrlEnter? then
        if s1.win.top.None? then s2 == s1
        else Put(s1, s2, entries)
             && (s2.undo, s2.hindex, s2.complist, s2.win) == (s1.undo, s1.hindex, s1.complist, if early.Some? then s1.win else Closed(s1.win))
      else if op.CtrlUp? || op.CtrlDown? then
        Recalled(op, s1, s2, entries) && (s2.undo, s2.complist, s2.win) == (s1.undo, s1.complist, Closed(s1.win))
      else if op.CtrlPrev? || op.CtrlNext? then
        s2 == s1.(complist := s2.complist, win := s2.win) && Navigated(op, s1, s2, entries)
      else s2 == s1
    }

    /**
     * The common tail of keypress from s1 to s2, returning r: a motion
     * empties the selection and closes the window; an edit or an undo in
     * completion rematches; nothing else changes.
     */
    ghost predicate Finished(op: Ctrl, r: PressRet, s1: Screen, s2: Screen)
      requires Rooted() && FieldOk(s1) && FieldOk(s2)
    {
      r == Redraw(op, s1.win.top.Some?)
      && if IsMotion(op) then s2 == s1.(select := s1.cursor, win := Closed(s1.win))
      else if (IsEditing(op) || IsUndo(op)) && s1.win.top.Some? then
        s2 == s1.(complist := s2.complist, win := s2.win) && Rematched(s1, s2)
      else s2 == s1
    }

    /**
     * A key on the input field alone, once the undo list has recorded it,
     * from s1 to s2, returning r: a Nop changes nothing; an edit changes
     * the input field as Edited says (an undo as Restored says) and
     * rematches in completion; a motion moves the cursor, empties the
     * selection and closes the window; a selection only moves the cursor.
     */
    ghost predicate FieldPressed(op: Ctrl, r: PressRet, typed: seq<byte>, undos: seq<Option<seq<byte>>>, s1: Screen, s2: Screen)
      requires IsMotion(op) || IsSelection(op) || IsUndo(op) || IsEditing(op)
      requires Rooted() && FieldOk(s1) && FieldOk(s2) && WellFormed(undos, s1.undo)
    {
      if r.Nop? then s2 == s1
      else if IsEditing(op) || IsUndo(op) then
        Changed(op, typed, undos, s1, s2) && s2.hindex == s1.hindex && Rematched(s1, s2)
      else if IsMotion(op) then
        var c := Moved(op, s1.text, s1.cursor);
        s2 == s1.(cursor := c, select := c, win := Closed(s1.win))
      else s2 == s1.(cursor := Moved(op, s1.text, s1.cursor))
    }

    /**
     * A whole key from s1 to s2 once the undo list has recorded it,
     * returning r. For a key on the prompt as a whole the tail adds
     * nothing to its case of the switch, so the switch's early result is
     * r unless r is a redraw.
     */
    ghost predicate Pressed(op: Ctrl, r: PressRet, typed: seq<byte>, entries: seq<seq<byte>>, undos: seq<Option<seq<byte>>>, s1: Screen, s2: Screen)
      requires Sound(s1, entries) && Sound(s2, entries) && WellFormed(undos, s1.undo)
    {
      if IsMotion(op) || IsSelection(op) || IsUndo(op) || IsEditing(op) then FieldPressed(op, r, typed, undos, s1, s2)
      else PromptSwitched(op, Returned(r), entries, s1, s2)
    }

    /** A case of the switch on the input field that breaks out, followed by the tail, is a whole key. */
    lemma FieldThenFinished(op: Ctrl, r: PressRet, typed: seq<byte>, undos: seq<Option<seq<byte>>>, s1: Screen, s2: Screen, s3: Screen)
      requires IsMotion(op) || IsSelection(op) || IsUndo(op) || IsEditing(op)
      requires Rooted() && FieldOk(s1) && FieldOk(s2) && FieldOk(s3) && WellFormed(undos, s1.undo)
      requires FieldSwitched(op, None, typed, undos, s1, s2) && Finished(op, r, s2, s3)
      ensures FieldPressed(op, r, typed, undos, s1, s3)
    {
      ClassifiersDisjoint(op);
    }

    /**
     * The prompt main sets up before the event loop, with the -s, -h, -a,
     * -d and -i options as flags; no completion list and no previous
     * operation yet.
     */
    constructor(edit: EditBuffer, log: UndoLog, hist: History, keys: KeyTable, win: MatchWindow,
                items: seq<Item>, root: Option<nat>,
                sflag: bool, hflag: bool, aflag: bool, dflag: bool, icase: bool)
      requires edit.Valid() && log.Valid() && hist.Valid() && keys.Valid() && win.Valid()
      requires win.chain == [] && win.top == None && win.sel == None
      requires Linked(items) && InArena(items, root)
      requires forall k :: 0 <= k < |items| ==> NUL !in items[k].text
      requires forall i :: 0 <= i < |hist.entries| ==> NUL !in hist.entries[i]
      ensures Valid()
      ensures this.edit == edit && this.log == log && this.hist == hist && this.keys == keys && this.win == win
      ensures this.items == items && this.root == root && this.sflag == sflag && this.hflag == hflag
      ensures mode == Mode(aflag, dflag, icase, WordDelimiters)
      ensures complist == None && prevoperation.CtrlNothing?
    {
      this.edit, this.log, this.hist, this.keys, this.win := edit, log, hist, keys, win;
      this.items, this.root, this.sflag, this.hflag := items, root, sflag, hflag;
      mode := Mode(aflag, dflag, icase, WordDelimiters);
      complist := None;
      prevoperation := CtrlNothing;
      new;
      LinkedForward(items);
    }

    /** The operation a key event stands for: INSERT for bare characters, getoperation otherwise. */
    function Operation(status: Lookup, ksym: nat, state: bv32): Ctrl
      requires keys.Valid()
      reads keys, keys.ctrl
    {
      if status == LookupChars then Insert else keys.GetOperation(ksym, state)
    }

    /**
     * keypress: the key is looked up (op is CtrlNothing when there is no
     * key), the undo list records the text as the grouping demands, the
     * operation runs, and the result says what to redraw: Answer of the
     * operation and the state before it, whose cases AnswerCases spells
     * out. The clauses after the undo list give the new input field,
     * history index, complist and match window for every kind of
     * operation; a Nop or an Esc leaves all of them as they were.
     */
    method KeyPress(status: Lookup, ksym: nat, state: bv32, input: seq<byte>, len: nat) returns (r: PressRet, ghost op: Ctrl)
      requires Valid()
      requires 1 <= |input| && len <= |input| && NUL !in input[..len]
      modifies this, edit, log, hist, win, win.itemarray
      ensures Valid() && hist.entries == old(hist.entries)
      ensures op == if status == LookupNone then CtrlNothing else old(Operation(status, ksym, state))
      ensures r == Answer(op, sflag, hflag, |old(hist.entries)|, old(win.top).Some?, old(edit.text), old(edit.cursor), old(edit.select), input[0])
      ensures var grouped := status == LookupKeySym && !(op.Insert? && IsCntrl(input[0]));
        var (entries, curr) := if grouped then Recorded(op, old(prevoperation), old(log.entries), old(log.curr), Content(old(edit.text)))
                               else (old(log.entries), old(log.curr));
        prevoperation == (if grouped then op else old(prevoperation))
        && log.entries == entries
        && Pressed(op, r, input[..len], hist.entries, entries, old(Now()).(undo := curr), Now())
    {
      // Without a key the switch sees CTRLNOTHING and returns Nop, as the
      // default of the status switch does; a control byte typed as INSERT
      // skips the grouping and is ignored where the switch inserts.
      var o := if status == LookupNone then CtrlNothing else Operation(status, ksym, state);
      op := o;
      ClassifiersDisjoint(o);
      if status == LookupKeySym && !(o.Insert? && IsCntrl(input[0])) {
        Record(o);
        prevoperation := o;
      }
      r := Apply(o, input, len);
    }

    /** The operation itself, then the tail of keypress that redraws. */
    method Apply(op: Ctrl, input: seq<byte>, len: nat) returns (r: PressRet)
      requires Valid()
      requires 1 <= |input| && len <= |input| && NUL !in input[..len]
      modifies this, edit, log, hist, win, win.itemarray
      ensures Valid() && prevoperation == old(prevoperation) && hist.entries == old(hist.entries)
      ensures r == Answer(op, sflag, hflag, |old(hist.entries)|, old(win.top).Some?, old(edit.text), old(edit.cursor), old(edit.select), input[0])
      ensures log.entries == old(log.entries)
      ensures Pressed(op, r, input[..len], hist.entries, log.entries, old(Now()), Now())
    {
      ClassifiersDisjoint(op);
      ghost var answer := Answer(op, sflag, hflag, |hist.entries|, win.top.Some?, edit.text, edit.cursor, edit.select, input[0]);
      if IsMotion(op) || IsSelection(op) || IsUndo(op) || IsEditing(op) {
        r := PressField(op, input, len, answer);
      } else {
        var early := Control(op, input[0], answer);
        RedrawWhole(op);
        // A case that breaks out of the switch reaches the common tail,
        // which for these keys only asks for the whole prompt to be redrawn.
        r := if early.Some? then early.value else DrawPrompt;
        assert Returned(r) == early;
      }
    }

    /** The undo grouping of keypress, as Recorded says, on the text in the input field. */
    method Record(op: Ctrl)
      requires edit.Valid() && log.Valid()
      modifies log
      ensures log.Valid()
      ensures (log.entries, log.curr) == Recorded(op, old(prevoperation), old(log.entries), old(log.curr), Content(old(edit.text)))
    {
      var s := Content(edit.text);
      if IsUndo(op) && IsEditing(prevoperation) {
        log.AddUndo(s, false);
      } else if IsEditing(op) && op != prevoperation {
        log.AddUndo(s, true);
      }
    }

    /**
     * A key on the input field alone: its case of the switch, then the
     * common tail unless the case returned Nop.
     */
    method PressField(op: Ctrl, input: seq<byte>, len: nat, ghost answer: PressRet) returns (r: PressRet)
      requires Valid() && (IsMotion(op) || IsSelection(op) || IsUndo(op) || IsEditing(op))
      requires 1 <= |input| && len <= |input| && NUL !in input[..len]
      requires answer == Answer(op, sflag, hflag, |hist.entries|, win.top.Some?, edit.text, edit.cursor, edit.select, input[0])
      modifies this, edit, log, win, win.itemarray
      ensures edit.Valid() && log.Valid() && ArenaOk() && WinOk() && prevoperation == old(prevoperation)
      ensures r == answer
      ensures log.entries == old(log.entries)
      ensures FieldPressed(op, r, input[..len], log.entries, old(Now()), Now())
    {
      ClassifiersDisjoint(op);
      ghost var s1 := Now();
      var early := Local(op, input, len, answer);
      r := Complete(op, early, input[..len], s1);
    }

    /**
     * The rest of a key on the input field once its case of the switch has
     * taken the screen from s1 to the current one: the case's own answer
     * when it returned, the tail when it broke out.
     */
    method Complete(op: Ctrl, early: Option<PressRet>, ghost typed: seq<byte>, ghost s1: Screen) returns (r: PressRet)
      requires edit.Valid() && ArenaOk() && WinOk() && FieldOk(s1) && WellFormed(log.entries, s1.undo)
      requires IsMotion(op) || IsSelection(op) || IsUndo(op) || IsEditing(op)
      modifies this, edit, win, win.itemarray
      ensures edit.Valid() && ArenaOk() && WinOk() && prevoperation == old(prevoperation)
      ensures r == if early.Some? then early.value else Redraw(op, old(win.top).Some?)
      ensures FieldSwitched(op, early, typed, log.entries, s1, old(Now())) ==> FieldPressed(op, r, typed, log.entries, s1, Now())
    {
      if early.Some? {
        return early.value;
      }
      ghost var s2 := Now();
      r := Finish(op);
      if FieldSwitched(op, None, typed, log.entries, s1, s2) {
        FieldThenFinished(op, r, typed, log.entries, s1, s2, Now());
      }
    }

    /**
     * The cases of the switch that work on the prompt as a whole: the
     * clipboard and paging keys, Cancel, Enter, the completion keys and the
     * history keys.
     */
    method Control(op: Ctrl, ghost first: byte, ghost answer: PressRet) returns (early: Option<PressRet>)
      requires Valid()
      requires op.CtrlPaste? || op.CtrlCopy? || op.CtrlPgUp? || op.CtrlPgDown? || op.CtrlNothing?
        || op.CtrlCancel? || op.CtrlEnter? || op.CtrlPrev? || op.CtrlNext? || op.CtrlUp? || op.CtrlDown?
      requires answer == Answer(op, sflag, hflag, |hist.entries|, win.top.Some?, edit.text, edit.cursor, edit.select, first)
      modifies this, edit, hist, win, win.itemarray
      ensures edit.Valid() && ArenaOk() && HistOk() && WinOk() && prevoperation == old(prevoperation) && hist.entries == old(hist.entries)
      ensures (early.Some? ==> early.value == answer) && (early.None? ==> answer == Redraw(op, win.top.Some?))
      ensures PromptSwitched(op, early, hist.entries, old(Now()), Now())
    {
      if op.CtrlPaste? || op.CtrlCopy? || op.CtrlPgUp? || op.CtrlPgDown? || op.CtrlNothing? {
        early := Some(Nop);
      } else if op.CtrlCancel? {
        early := Cancel(first, answer);
      } else if op.CtrlEnter? {
        early := Accept(first, answer);
      } else if op.CtrlPrev? || op.CtrlNext? {
        RedrawWhole(op);
        Navigate(op);
        early := None;
      } else {
        early := Recall(op, first, answer);
      }
    }

    /**
     * The cases of the switch that work on the input field alone: the
     * motions and selections, undo and redo, and the editing operations.
     */
    method Local(op: Ctrl, input: seq<byte>, len: nat, ghost answer: PressRet) returns (early: Option<PressRet>)
      requires edit.Valid() && log.Valid() && win.Valid() && Rooted()
      requires IsMotion(op) || IsSelection(op) || IsUndo(op) || IsEditing(op)
      requires 1 <= |input| && len <= |input| && NUL !in input[..len]
      requires answer == Answer(op, sflag, hflag, |hist.entries|, win.top.Some?, edit.text, edit.cursor, edit.select, input[0])
      modifies edit, log
      ensures edit.Valid() && log.Valid() && log.entries == old(log.entries)
      ensures (early.Some? ==> early.value == answer) && (early.None? ==> answer == Redraw(op, win.top.Some?))
      ensures FieldSwitched(op, early, input[..len], log.entries, old(Now()), Now())
    {
      ClassifiersDisjoint(op);
      if IsMotion(op) || IsSelection(op) {
        early := Move(op, input[0], answer);
      } else if op.CtrlUndo? {
        assert answer == Redraw(op, win.top.Some?);
        log.Undo(edit);
        early := None;
      } else if op.CtrlRedo? {
        assert answer == Redraw(op, win.top.Some?);
        log.Redo(edit);
        early := None;
      } else {
        early := EditOp(op, input, len, answer);
      }
    }

    /**
     * CTRLCANCEL: with -s, outside completion or with an empty input, the
     * prompt closes (Esc); otherwise only the completion ends.
     */
    method Cancel(ghost first: byte, ghost answer: PressRet) returns (early: Option<PressRet>)
      requires edit.Valid() && WinOk() && answer == Answer(CtrlCancel, sflag, hflag, |hist.entries|, win.top.Some?, edit.text, edit.cursor, edit.select, first)
      modifies win
      ensures (early.Some? ==> early.value == answer) && (early.None? ==> answer == Redraw(CtrlCancel, win.top.Some?))
      ensures WinOk()
      ensures early.Some? <==> sflag || old(win.top).None? || edit.text[0] == NUL
      ensures early.Some? ==> early.value.Esc? && win.View() == old(win.View())
      ensures early.None? ==> win.View() == Closed(old(win.View()))
    {
      if sflag || win.top.None? || edit.text[0] == NUL {
        return Some(Esc);
      }
      win.DelMatchList();
      return None;
    }

    /**
     * CTRLENTER: in completion, the selected item's text replaces the word
     * before the cursor; then with -s or outside completion the prompt
     * accepts the input (Enter), otherwise only the completion ends.
     */
    method Accept(ghost first: byte, ghost answer: PressRet) returns (early: Option<PressRet>)
      requires edit.Valid() && ArenaOk() && WinOk() && answer == Answer(CtrlEnter, sflag, hflag, |hist.entries|, win.top.Some?, edit.text, edit.cursor, edit.select, first)
      modifies edit, win
      ensures (early.Some? ==> early.value == answer) && (early.None? ==> answer == Redraw(CtrlEnter, win.top.Some?))
      ensures edit.Valid() && WinOk()
      ensures early.Some? <==> sflag || old(win.top).None?
      ensures early.Some? ==> early.value.Enter? && win.View() == old(win.View())
      ensures early.None? ==> win.View() == Closed(old(win.View()))
      ensures old(win.top).None? ==>
        edit.text == old(edit.text) && edit.cursor == old(edit.cursor) && edit.select == old(edit.select)
      ensures old(win.top).Some? ==>
        SelItemPut(items[old(win.chain)[old(win.sel).value]].text, old(edit.text), old(edit.cursor), old(edit.select),
                   edit.text, edit.cursor, edit.select)
    {
      if win.top.None? {
        return Some(Enter);
      }
      edit.InsertSelItem(items[win.chain[win.sel.value]].text, false);
      if sflag {
        return Some(Enter);
      }
      win.DelMatchList();
      return None;
    }

    /**
     * CTRLPREV and CTRLNEXT: outside completion, complist becomes the list
     * getcomplist finds for the input; when there is one, completion
     * starts on the matches of the word before the cursor. In completion,
     * the selection moves one match back or on.
     */
    method Navigate(op: Ctrl)
      requires edit.Valid() && ArenaOk() && WinOk() && (op.CtrlPrev? || op.CtrlNext?)
      modifies this, win, win.itemarray
      ensures ArenaOk() && WinOk() && prevoperation == old(prevoperation)
      ensures complist == (if old(win.top).None? then CompList(items, root, edit.text, edit.cursor, mode) else old(complist))
      ensures win.View() ==
        if complist.None? then old(win.View())
        else if old(win.top).None? then Opened(Matches(complist, edit.text, edit.cursor), old(win.View()), win.maxitems)
        else Scrolled(old(win.View()), if op.CtrlNext? then 1 else -1, win.maxitems)
    {
      if win.top.None? {
        StartCompletion();
      } else if complist.None? {
        return;
      } else if op.CtrlNext? {
        win.NavMatchList(1);
      } else {
        win.NavMatchList(-1);
      }
    }

    /** Navigate outside completion: getcomplist, then the matches of the word before the cursor. */
    method StartCompletion()
      requires edit.Valid() && ArenaOk() && WinOk() && win.top.None?
      modifies this, win, win.itemarray
      ensures ArenaOk() && WinOk() && prevoperation == old(prevoperation)
      ensures complist == CompList(items, root, edit.text, edit.cursor, mode)
      ensures complist.None? || win.chain == [] ==> win.nitems == old(win.nitems) && win.shown == old(win.shown)
      ensures complist.None? ==>
        win.chain == old(win.chain) && win.top == old(win.top) && win.sel == old(win.sel)
      ensures complist.Some? ==>
        win.chain == MatchChain(items, complist, edit.text[WordStart(mode.delims, edit.text, edit.cursor)..edit.cursor], mode)
        && win.top == win.sel == (if win.chain == [] then None else Some(0))
        && (win.chain != [] ==> win.nitems == Min(win.maxitems, |win.chain|) && win.shown == win.chain[..win.nitems])
    {
      Collect();
      if complist.Some? {
        win.NavMatchList(0);
        assert win.chain != [] ==> win.top == win.sel == Some(0);
      }
    }

    /** getcomplist for the input, then getmatchlist when it finds a list. */
    method Collect()
      requires edit.Valid() && ArenaOk() && WinOk()
      modifies this, win
      ensures ArenaOk() && WinOk() && prevoperation == old(prevoperation) && win.nitems == old(win.nitems)
      ensures complist == CompList(items, root, edit.text, edit.cursor, mode)
      ensures complist.None? ==> win.chain == old(win.chain) && win.top == old(win.top) && win.sel == old(win.sel)
      ensures complist.Some? ==>
        win.chain == MatchChain(items, complist, edit.text[WordStart(mode.delims, edit.text, edit.cursor)..edit.cursor], mode)
        && win.top == win.sel == (if win.chain == [] then None else Some(0))
    {
      complist := GetCompList(items, root, edit.text, edit.cursor, mode);
      if complist.Some? {
        win.GetMatchList(items, complist, edit.text, edit.cursor, mode);
      }
    }

    /**
     * CTRLUP and CTRLDOWN: without history, Nop. Otherwise navhist moves to
     * the older or newer entry; the entry reached, if any, replaces the
     * text before the cursor; completion ends.
     */
    method Recall(op: Ctrl, ghost first: byte, ghost answer: PressRet) returns (early: Option<PressRet>)
      requires edit.Valid() && HistOk() && WinOk() && (op.CtrlUp? || op.CtrlDown?)
      requires answer == Answer(op, sflag, hflag, |hist.entries|, win.top.Some?, edit.text, edit.cursor, edit.select, first)
      modifies hist, edit, win
      ensures (early.Some? ==> early.value == answer) && (early.None? ==> answer == Redraw(op, win.top.Some?))
      ensures edit.Valid() && HistOk() && WinOk() && hist.entries == old(hist.entries)
      ensures early.Some? <==> !hflag || |hist.entries| == 0
      ensures early.Some? ==>
        early.value.Nop? && edit.text == old(edit.text) && edit.cursor == old(edit.cursor)
        && edit.select == old(edit.select) && hist.index == old(hist.index) && win.View() == old(win.View())
      ensures early.None? ==>
        hist.index == NavIndex(old(hist.index), |hist.entries|, if op.CtrlUp? then -1 else 1)
        && win.View() == Closed(old(win.View()))
      ensures early.None? ==>
        HeadReplaced(if hist.index < |hist.entries| then Some(hist.entries[hist.index]) else None,
                     old(edit.text), old(edit.cursor), old(edit.select), edit.text, edit.cursor, edit.select)
    {
      RedrawWhole(op);
      assert answer == if !hflag || |hist.entries| == 0 then Nop else DrawPrompt;
      if !hflag || |hist.entries| == 0 {
        return Some(Nop);
      }
      var direction := if op.CtrlUp? then -1 else 1;
      var s := hist.NavHist(direction);
      if s.Some? {
        edit.ReplaceHead(s.value);
      }
      win.DelMatchList();
      return None;
    }

    /**
     * The motions and their selecting counterparts move the cursor to
     * Moved; moving left at the start or right at the end is Nop.
     */
    method Move(op: Ctrl, ghost first: byte, ghost answer: PressRet) returns (early: Option<PressRet>)
      requires edit.Valid() && (IsMotion(op) || IsSelection(op))
      requires answer == Answer(op, sflag, hflag, |hist.entries|, win.top.Some?, edit.text, edit.cursor, edit.select, first)
      modifies edit
      ensures (early.Some? ==> early.value == answer) && (early.None? ==> answer == Redraw(op, win.top.Some?))
      ensures edit.Valid()
      ensures edit.text == old(edit.text) && edit.select == old(edit.select) && edit.file == old(edit.file)
      ensures early.Some? ==> early.value.Nop? && edit.cursor == old(edit.cursor)
      ensures early.None? ==> edit.cursor == Moved(op, old(edit.text), old(edit.cursor))
    {
      var text, cursor := edit.text, edit.cursor;
      AtTerminator(text, cursor);
      assert answer == if ((op.CtrlLeft? || op.CtrlSelLeft?) && cursor == 0) || ((op.CtrlRight? || op.CtrlSelRight?) && text[cursor] == NUL)
        then Nop else Redraw(op, win.top.Some?);
      if op.CtrlBol? || op.CtrlSelBol? {
        edit.cursor := 0;
      } else if op.CtrlEol? || op.CtrlSelEol? {
        if text[cursor] != NUL {
          edit.cursor := Strlen(text);
        }
      } else if op.CtrlLeft? || op.CtrlSelLeft? {
        if cursor == 0 {
          return Some(Nop);
        }
        edit.cursor := NextRune(text, cursor, -1);
      } else if op.CtrlRight? || op.CtrlSelRight? {
        if text[cursor] == NUL {
          return Some(Nop);
        }
        edit.cursor := NextRune(text, cursor, 1);
      } else if op.CtrlWLeft? || op.CtrlSelWLeft? {
        edit.cursor := MoveWordEdge(WordDelimiters, text, cursor, -1);
      } else {
        edit.cursor := MoveWordEdge(WordDelimiters, text, cursor, 1);
      }
      return None;
    }

    /**
     * The editing operations in the switch: Delete and BackSpace, the three
     * line cuts, and INSERT; only the first two and INSERT can be Nop.
     */
    method EditOp(op: Ctrl, input: seq<byte>, len: nat, ghost answer: PressRet) returns (early: Option<PressRet>)
      requires edit.Valid() && IsEditing(op)
      requires 1 <= |input| && len <= |input| && NUL !in input[..len]
      requires answer == Answer(op, sflag, hflag, |hist.entries|, win.top.Some?, edit.text, edit.cursor, edit.select, input[0])
      modifies edit
      ensures edit.Valid()
      ensures (early.Some? ==> early.value == answer) && (early.None? ==> answer == Redraw(op, win.top.Some?))
      ensures early.Some? ==>
        early.value.Nop? && edit.text == old(edit.text) && edit.cursor == old(edit.cursor) && edit.select == old(edit.select)
      ensures early.None? ==>
        Edited(op, input[..len], old(edit.text), old(edit.cursor), old(edit.select), edit.text, edit.cursor, edit.select)
    {
      ghost var t, c, sel := edit.text, edit.cursor, edit.select;
      if op.CtrlDelLeft? || op.CtrlDelRight? {
        assert answer == if c == sel && ((op.CtrlDelLeft? && c == 0) || (op.CtrlDelRight? && t[c] == NUL))
          then Nop else Redraw(op, win.top.Some?);
        early := DeleteRune(op);
      } else if op.Insert? {
        assert answer == if IsCntrl(input[0]) then Nop else Redraw(op, win.top.Some?);
        early := Type(input, len);
      } else {
        assert answer == Redraw(op, win.top.Some?);
        CutLine(op);
        early := None;
      }
    }

    /** CTRLDELBOL, CTRLDELEOL and CTRLDELWORD. */
    method CutLine(op: Ctrl)
      requires edit.Valid() && (op.CtrlDelBol? || op.CtrlDelEol? || op.CtrlDelWord?)
      modifies edit
      ensures edit.Valid()
      ensures LineCut(op, old(edit.text), old(edit.cursor), old(edit.select), edit.text, edit.cursor, edit.select)
    {
      if op.CtrlDelBol? {
        edit.DelBol();
      } else if op.CtrlDelEol? {
        edit.DelEol();
      } else {
        edit.DelWord();
      }
    }

    /**
     * CTRLDELLEFT and CTRLDELRIGHT: a selection is deleted; otherwise the
     * rune before the cursor (after it, for CTRLDELRIGHT) goes, and Nop at
     * the start (the end) of the string.
     */
    method DeleteRune(op: Ctrl) returns (early: Option<PressRet>)
      requires edit.Valid() && (op.CtrlDelLeft? || op.CtrlDelRight?)
      modifies edit
      ensures edit.Valid()
      ensures var t, c, s := old(edit.text), old(edit.cursor), old(edit.select);
        early.Some? <==> c == s && ((op.CtrlDelLeft? && c == 0) || (op.CtrlDelRight? && t[c] == NUL))
      ensures early.Some? ==>
        early.value.Nop? && edit.text == old(edit.text) && edit.cursor == old(edit.cursor) && edit.select == old(edit.select)
      ensures early.None? ==> RuneDeleted(op, old(edit.text), old(edit.cursor), old(edit.select), edit.text, edit.cursor, edit.select)
    {
      if edit.cursor != edit.select {
        edit.DelSelection();
        return None;
      }
      early := DeleteOne(op);
    }

    /** Deleting with nothing selected: the rune before the cursor, or after it for CTRLDELRIGHT. */
    method DeleteOne(op: Ctrl) returns (early: Option<PressRet>)
      requires edit.Valid() && edit.cursor == edit.select && (op.CtrlDelLeft? || op.CtrlDelRight?)
      modifies edit
      ensures edit.Valid()
      ensures early.Some? <==>
        (op.CtrlDelLeft? && old(edit.cursor) == 0) || (op.CtrlDelRight? && old(edit.text)[old(edit.cursor)] == NUL)
      ensures early.Some? ==>
        early.value.Nop? && edit.text == old(edit.text) && edit.cursor == old(edit.cursor) && edit.select == old(edit.select)
      ensures early.None? ==> RuneDeleted(op, old(edit.text), old(edit.cursor), old(edit.select), edit.text, edit.cursor, edit.select)
    {
      var text, c := edit.text, edit.cursor;
      AtTerminator(text, c);
      var q := c;
      if op.CtrlDelRight? {
        if text[c] == NUL {
          return Some(Nop);
        }
        q := NextRune(text, c, 1);
      }
      if q == 0 {
        return Some(Nop);
      }
      DeleteBefore(q);
      return None;
    }

    /** The shared tail of CTRLDELLEFT and CTRLDELRIGHT: with the cursor moved to q, the rune before it goes. */
    method DeleteBefore(q: nat)
      requires edit.Valid() && edit.cursor == edit.select && 0 < q <= Strlen(edit.text)
      modifies edit
      ensures edit.Valid()
      ensures var p := Boundary(old(edit.text), q, -1);
        Content(edit.text) == Content(old(edit.text))[..p] + Content(old(edit.text))[q..] && edit.cursor == p && edit.select == p
    {
      ghost var text := edit.text;
      var p := NextRune(edit.text, q, -1);
      edit.cursor := q;
      var n := p as int - q as int;
      assert Fits(text, n);
      edit.Insert([], n);
      SplicedOut(Content(text), p, q);
    }

    /**
     * INSERT: a control character is Nop; otherwise the selection is
     * deleted and the len bytes typed are inserted at the cursor, when they
     * fit in the buffer.
     */
    method Type(input: seq<byte>, len: nat) returns (early: Option<PressRet>)
      requires edit.Valid()
      requires 1 <= |input| && len <= |input| && NUL !in input[..len]
      modifies edit
      ensures edit.Valid()
      ensures early.Some? <==> IsCntrl(input[0])
      ensures early.Some? ==>
        early.value.Nop? && edit.text == old(edit.text) && edit.cursor == old(edit.cursor) && edit.select == old(edit.select)
      ensures early.None? ==> Overwritten(old(edit.text), old(edit.cursor), old(edit.select), input[..len], edit.text, edit.cursor, edit.select)
    {
      if IsCntrl(input[0]) {
        return Some(Nop);
      }
      Overwrite(input[..len]);
      return None;
    }

    /** The selection is deleted and s inserted in its place, when it fits in the buffer. */
    method Overwrite(s: seq<byte>)
      requires edit.Valid() && NUL !in s
      modifies edit
      ensures edit.Valid()
      ensures Overwritten(old(edit.text), old(edit.cursor), old(edit.select), s, edit.text, edit.cursor, edit.select)
    {
      ghost var t, c, sel := edit.text, edit.cursor, edit.select;
      edit.DelSelection();
      ghost var mid := edit.text;
      edit.Insert(s, |s|);
      TypedOver(t, c, sel, s, mid, edit.text, edit.cursor, edit.select);
    }

    /**
     * The tail of keypress. A motion ends the selection and completion
     * (DrawPrompt); a selection only redraws the input and leaves the
     * window alone. After an edit or an undo in completion the matches are
     * recomputed for the new input (DrawPrompt); outside completion only
     * the input is redrawn.
     */
    method Finish(op: Ctrl) returns (r: PressRet)
      requires edit.Valid() && ArenaOk() && WinOk()
      modifies this, edit, win, win.itemarray
      ensures edit.Valid() && ArenaOk() && WinOk() && prevoperation == old(prevoperation)
      ensures Finished(op, r, old(Now()), Now())
    {
      ClassifiersDisjoint(op);
      if IsMotion(op) {
        assert Redraw(op, win.top.Some?) == DrawPrompt;
        EndMotion();
        return DrawPrompt;
      }
      if IsSelection(op) {
        return DrawInput;
      }
      if IsEditing(op) || IsUndo(op) {
        if win.top.Some? {
          assert Redraw(op, true) == DrawPrompt;
          Rematch();
          return DrawPrompt;
        }
        return DrawInput;
      }
      return DrawPrompt;
    }

    /** After a motion the selection is empty again and completion ends. */
    method EndMotion()
      requires edit.Valid() && WinOk()
      modifies edit, win
      ensures edit.Valid() && WinOk()
      ensures edit.text == old(edit.text) && edit.cursor == old(edit.cursor) && edit.select == edit.cursor
      ensures win.View() == Closed(old(win.View()))
    {
      edit.select := edit.cursor;
      assert edit.text[edit.cursor..][Strlen(edit.text) - edit.cursor] == NUL;
      win.DelMatchList();
    }

    /**
     * The rematch after an edit in completion: complist becomes the list
     * getcomplist finds for the new input; when there is one, the window is
     * rebuilt on the matches of the word before the cursor, and completion
     * ends when nothing matches.
     */
    method Rematch()
      requires edit.Valid() && ArenaOk() && WinOk() && win.top.Some?
      modifies this, win, win.itemarray
      ensures ArenaOk() && WinOk() && prevoperation == old(prevoperation)
      ensures complist == CompList(items, root, edit.text, edit.cursor, mode)
      ensures win.View() == if complist.None? then old(win.View()) else Rebuilt(Matches(complist, edit.text, edit.cursor), win.maxitems)
    {
      Collect();
      if complist.None? {
        return;
      }
      if win.top.None? {
        win.DelMatchList();
      } else {
        win.NavMatchList(0);
        assert win.top == win.sel == Some(0);
      }
    }
  }
}
