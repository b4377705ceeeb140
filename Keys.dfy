/**
 * The key binding table: initctrl fills the static table ctrl[CaseLast][NLETTERS]
 * from config.xpromptctrl, and getoperation maps a key symbol and a
 * modifier state to an input operation, consulting the table for
 * Ctrl+letter combinations.
 */
module Keys {
  import opened Defs
  import Defaults

  /** Rows of the table (enum {LowerCase, UpperCase, CaseLast}) and its columns (NLETTERS). */
  const LowerCase: nat := 0
  const UpperCase: nat := 1
  const CaseLast: nat := 2
  const NLetters: nat := 26

  /** Key symbols of <X11/keysymdef.h> that getoperation names. */
  const XK_BackSpace: nat := 0xff08
  const XK_Tab: nat := 0xff09
  const XK_Return: nat := 0xff0d
  const XK_Escape: nat := 0xff1b
  const XK_Home: nat := 0xff50
  const XK_Left: nat := 0xff51
  const XK_Up: nat := 0xff52
  const XK_Right: nat := 0xff53
  const XK_Down: nat := 0xff54
  const XK_Prior: nat := 0xff55
  const XK_Next: nat := 0xff56
  const XK_End: nat := 0xff57
  const XK_KP_Enter: nat := 0xff8d
  const XK_ISO_Left_Tab: nat := 0xfe20
  const XK_Delete: nat := 0xffff
  const XK_A: nat := 0x41
  const XK_Z: nat := 0x5a
  const XK_a: nat := 0x61
  const XK_z: nat := 0x7a

  /** The modifier bits of an X key event's state (<X11/X.h>). */
  const ShiftMask: bv32 := 1
  const ControlMask: bv32 := 4

  /** state & ShiftMask */
  predicate Shift(state: bv32)
  {
    state & ShiftMask != 0
  }

  /** state & ControlMask */
  predicate Control(state: bv32)
  {
    state & ControlMask != 0
  }

  /** The keys getoperation handles before looking at the Control modifier. */
  predicate NamedKey(ksym: nat)
  {
    ksym in {XK_Escape, XK_Return, XK_KP_Enter, XK_ISO_Left_Tab, XK_Tab, XK_Prior, XK_Next,
             XK_BackSpace, XK_Delete, XK_Up, XK_Down, XK_Home, XK_End, XK_Left, XK_Right}
  }

  /** The keys whose Shift variant selects. */
  predicate MotionKey(ksym: nat)
  {
    ksym in {XK_Home, XK_End, XK_Left, XK_Right}
  }

  /**
   * The table cell a character of xpromptctrl binds: an upper-case ASCII
   * letter selects the UpperCase row, a lower-case one the LowerCase row,
   * anything else nothing (isalpha, isupper and islower in the C locale).
   */
  function LetterCell(c: byte): (cell: Option<(nat, nat)>)
    ensures cell.Some? ==> cell.value.0 < CaseLast && cell.value.1 < NLetters
    ensures cell.Some? && cell.value.0 == UpperCase ==> c as nat == XK_A + cell.value.1
    ensures cell.Some? && cell.value.0 == LowerCase ==> c as nat == XK_a + cell.value.1
    ensures cell.None? <==> !(XK_A <= c as nat <= XK_Z || XK_a <= c as nat <= XK_z)
  {
    if 'A' as byte <= c <= 'Z' as byte then Some((UpperCase, (c - 'A' as byte) as nat))
    else if 'a' as byte <= c <= 'z' as byte then Some((LowerCase, (c - 'a' as byte) as nat))
    else None
  }

  /**
   * The operation in cell (row, col) once initctrl has scanned the first
   * n characters of cfg: the operation of the LAST of them that names the
   * cell, and CTRLNOTHING when none does.
   */
  function Bound(cfg: seq<byte>, n: nat, row: nat, col: nat): (c: Ctrl)
    requires n <= |cfg| && n <= Ordinal(CtrlNothing)
    ensures c == CtrlNothing || Ordinal(c) < n
    ensures c != Insert
    decreases n
  {
    if n == 0 then CtrlNothing
    else if LetterCell(cfg[n - 1]) == Some((row, col)) then CtrlOf(n - 1)
    else Bound(cfg, n - 1, row, col)
  }

  /**
   * What Bound means: a cell is bound exactly when some scanned letter
   * names it, and then to the operation of the last such letter.
   */
  lemma {:induction false} BoundIsLast(cfg: seq<byte>, n: nat, row: nat, col: nat)
    requires n <= |cfg| && n <= Ordinal(CtrlNothing)
    ensures var c := Bound(cfg, n, row, col);
      (c != CtrlNothing ==> LetterCell(cfg[Ordinal(c)]) == Some((row, col)))
      && (c != CtrlNothing ==> forall i :: Ordinal(c) < i < n ==> LetterCell(cfg[i]) != Some((row, col)))
      && (c == CtrlNothing <==> forall i :: 0 <= i < n ==> LetterCell(cfg[i]) != Some((row, col)))
    decreases n
  {
    if n > 0 && LetterCell(cfg[n - 1]) != Some((row, col)) {
      BoundIsLast(cfg, n - 1, row, col);
    }
  }

  /** How many characters of cfg initctrl scans: up to the terminator, and below CTRLNOTHING. */
  function Scanned(cfg: seq<byte>): (n: nat)
    ensures n <= |cfg| && n <= Ordinal(CtrlNothing)
    ensures n == |cfg| || n == Ordinal(CtrlNothing)
  {
    Min(|cfg|, Ordinal(CtrlNothing))
  }

  /** The static table ctrl[CaseLast][NLETTERS]. */
  class KeyTable {
    const ctrl: array2<Ctrl>

    ghost predicate Valid()
      reads this, ctrl
    {
      ctrl.Length0 == CaseLast && ctrl.Length1 == NLetters
      && forall r, j :: 0 <= r < CaseLast && 0 <= j < NLetters ==> ctrl[r, j] != Insert
    }

    /** The table as a static array starts zeroed: every cell holds CTRLPASTE. */
    constructor()
      ensures Valid() && fresh(ctrl)
      ensures forall r, j :: 0 <= r < CaseLast && 0 <= j < NLetters ==> ctrl[r, j] == CtrlPaste
    {
      ctrl := new Ctrl[CaseLast, NLetters]((r, j) => CtrlPaste);
    }

    /** The table holds, in every cell, the binding cfg gives it. */
    ghost predicate Holds(cfg: seq<byte>)
      reads this, ctrl
    {
      BoundUpTo(cfg, Scanned(cfg))
    }

    /** Every cell holds the binding of the first n characters of cfg. */
    ghost predicate BoundUpTo(cfg: seq<byte>, n: nat)
      reads this, ctrl
    {
      ctrl.Length0 == CaseLast && ctrl.Length1 == NLetters && n <= |cfg| && n <= Ordinal(CtrlNothing)
      && forall r, j :: 0 <= r < CaseLast && 0 <= j < NLetters ==> ctrl[r, j] == Bound(cfg, n, r, j)
    }

    /**
     * initctrl: every cell is reset to CTRLNOTHING, then each letter among
     * the first CTRLNOTHING characters of cfg (the bytes of
     * config.xpromptctrl before its terminator) binds the operation whose
     * value is its position; a later letter overrides an earlier one.
     */
    method InitCtrl(cfg: seq<byte>)
      requires Valid() && NUL !in cfg
      modifies ctrl
      ensures Valid() && Holds(cfg)
    {
      Reset();
      var i := 0;
      while i < Ordinal(CtrlNothing) && i < |cfg|
        invariant Valid() && BoundUpTo(cfg, i)
      {
        BindOne(cfg, i);
        i := i + 1;
      }
      assert i == Scanned(cfg);
    }

    /** One round of the second loop of initctrl: the letter at position i, if any, binds its cell. */
    method BindOne(cfg: seq<byte>, i: nat)
      requires i < |cfg| && i < Ordinal(CtrlNothing) && BoundUpTo(cfg, i)
      modifies ctrl
      ensures Valid() && BoundUpTo(cfg, i + 1)
    {
      BoundStep(cfg, i);
      var cell := LetterCell(cfg[i]);
      if cell.Some? {
        ctrl[cell.value.0, cell.value.1] := CtrlOf(i);
      }
    }

    /** The first loop of initctrl: every cell becomes CTRLNOTHING. */
    method Reset()
      requires ctrl.Length0 == CaseLast && ctrl.Length1 == NLetters
      modifies ctrl
      ensures forall r, j :: 0 <= r < CaseLast && 0 <= j < NLetters ==> ctrl[r, j] == CtrlNothing
    {
      var i := 0;
      while i < CaseLast
        invariant 0 <= i <= CaseLast
        invariant forall r, j :: 0 <= r < i && 0 <= j < NLetters ==> ctrl[r, j] == CtrlNothing
      {
        var j := 0;
        while j < NLetters
          invariant 0 <= j <= NLetters
          invariant forall r, k :: 0 <= r < i && 0 <= k < NLetters ==> ctrl[r, k] == CtrlNothing
          invariant forall k :: 0 <= k < j ==> ctrl[i, k] == CtrlNothing
        {
          ctrl[i, j] := CtrlNothing;
          j := j + 1;
        }
        i := i + 1;
      }
    }

    /**
     * getoperation(ksym, state): the named keys give fixed operations, the
     * Shift variants of Home, End, Left and Right (with Control, of Left
     * and Right) select; otherwise Control with a letter consults the
     * table (the UpperCase row with Shift or a capital), Control with any
     * other key gives CTRLNOTHING, and a key without Control is input.
     */
    function GetOperation(ksym: nat, state: bv32): (op: Ctrl)
      requires Valid()
      reads this, ctrl
      ensures op == Insert <==> !NamedKey(ksym) && !Control(state)
      ensures MotionKey(ksym) ==> (IsSelection(op) <==> Shift(state)) && (IsMotion(op) <==> !Shift(state))
      ensures !NamedKey(ksym) && Control(state) && !(XK_A <= ksym <= XK_Z || XK_a <= ksym <= XK_z)
        ==> op == CtrlNothing
    {
      if ksym == XK_Escape then CtrlCancel
      else if ksym == XK_Return then CtrlEnter
      else if ksym == XK_KP_Enter then CtrlEnter
      else if ksym == XK_ISO_Left_Tab then CtrlPrev
      else if ksym == XK_Tab then CtrlNext
      else if ksym == XK_Prior then CtrlPgUp
      else if ksym == XK_Next then CtrlPgDown
      else if ksym == XK_BackSpace then CtrlDelLeft
      else if ksym == XK_Delete then CtrlDelRight
      else if ksym == XK_Up then CtrlUp
      else if ksym == XK_Down then CtrlDown
      else if ksym == XK_Home then (if Shift(state) then CtrlSelBol else CtrlBol)
      else if ksym == XK_End then (if Shift(state) then CtrlSelEol else CtrlEol)
      else if ksym == XK_Left then
        (if Shift(state) && Control(state) then CtrlSelWLeft
         else if Shift(state) then CtrlSelLeft
         else if Control(state) then CtrlWLeft
         else CtrlLeft)
      else if ksym == XK_Right then
        (if Shift(state) && Control(state) then CtrlSelWRight
         else if Shift(state) then CtrlSelRight
         else if Control(state) then CtrlWRight
         else CtrlRight)
      else if Control(state) then
        (if !Shift(state) && XK_a <= ksym <= XK_z then ctrl[LowerCase, ksym - XK_a]
         else if Shift(state) && XK_a <= ksym <= XK_z then ctrl[UpperCase, ksym - XK_a]
         else if XK_A <= ksym <= XK_Z then ctrl[UpperCase, ksym - XK_A]
         else CtrlNothing)
      else Insert
    }
  }

  /** Scanning one more character changes only the cell its letter names. */
  lemma {:induction false} BoundStep(cfg: seq<byte>, i: nat)
    requires i < |cfg| && i < Ordinal(CtrlNothing)
    ensures forall r, j ::
      Bound(cfg, i + 1, r, j) == (if LetterCell(cfg[i]) == Some((r, j)) then CtrlOf(i) else Bound(cfg, i, r, j))
  {
  }

  /**
   * Shift turns a motion key into the selecting variant of the motion
   * the key gives without Shift.
   */
  lemma {:induction false} ShiftSelects(t: KeyTable, ksym: nat, state: bv32)
    requires t.Valid() && MotionKey(ksym)
    ensures IsMotion(t.GetOperation(ksym, state & !ShiftMask))
    ensures t.GetOperation(ksym, state | ShiftMask) == SelCounterpart(t.GetOperation(ksym, state & !ShiftMask))
  {
    assert Control(state | ShiftMask) == Control(state & !ShiftMask);
    assert Shift(state | ShiftMask) && !Shift(state & !ShiftMask);
  }

  /**
   * With Control held, a capital letter and the small letter with Shift
   * read the same cell; a small letter without Shift reads the LowerCase
   * row. Once initctrl has run, that cell holds the binding of the
   * configuration.
   */
  lemma {:induction false} CtrlLetter(t: KeyTable, cfg: seq<byte>, col: nat, state: bv32)
    requires t.Valid() && t.Holds(cfg) && col < NLetters && Control(state)
    ensures Shift(state) ==> t.GetOperation(XK_a + col, state) == Bound(cfg, Scanned(cfg), UpperCase, col)
    ensures t.GetOperation(XK_A + col, state) == Bound(cfg, Scanned(cfg), UpperCase, col)
    ensures !Shift(state) ==> t.GetOperation(XK_a + col, state) == Bound(cfg, Scanned(cfg), LowerCase, col)
  {
    assert !NamedKey(XK_a + col) && !NamedKey(XK_A + col);
  }

  /** A cell holds the operation of position p when the letter there names it and does not recur later in the scan. */
  lemma {:induction false} BoundAt(cfg: seq<byte>, n: nat, p: nat, row: nat, col: nat)
    requires n <= |cfg| && n <= Ordinal(CtrlNothing) && p < n
    requires LetterCell(cfg[p]) == Some((row, col))
    requires forall i :: p < i < n ==> cfg[i] != cfg[p]
    ensures Bound(cfg, n, row, col) == CtrlOf(p)
  {
    forall i | p < i < n
      ensures LetterCell(cfg[i]) != Some((row, col))
    {
    }
    BoundIsLast(cfg, n, row, col);
    var c := Bound(cfg, n, row, col);
    assert c != CtrlNothing;
    OrdinalInverse(c);
  }

  /** The compiled-in bindings of undo and redo: Ctrl+Z undoes and Ctrl+Shift+Z redoes. */
  lemma DefaultUndoKeys()
    ensures |Defaults.XPromptCtrl| == 29 && Scanned(Defaults.XPromptCtrl) == 29
    ensures Bound(Defaults.XPromptCtrl, 29, LowerCase, 'z' as nat - 'a' as nat) == CtrlUndo
    ensures Bound(Defaults.XPromptCtrl, 29, UpperCase, 'z' as nat - 'a' as nat) == CtrlRedo
  {
    var cfg := Defaults.XPromptCtrl;
    assert Bound(cfg, 29, LowerCase, 25) == CtrlUndo by {
      BoundAt(cfg, 29, 26, LowerCase, 25);
    }
    BoundAt(cfg, 29, 27, UpperCase, 25);
  }

  /** The compiled-in binding of Ctrl+H: delete left, as BackSpace does. */
  lemma DefaultDelLeftKey()
    ensures Bound(Defaults.XPromptCtrl, 29, LowerCase, 'h' as nat - 'a' as nat) == CtrlDelLeft
  {
    BoundAt(Defaults.XPromptCtrl, 29, 17, LowerCase, 7);
  }
}
