/**
 * Declarations shared by the whole prompt: the byte type, the input buffer
 * size, the MIN/MAX/BETWEEN macros, the enumeration of input operations and
 * the four classifiers over it (xprompt.h), and the compiled-in defaults
 * (config.h).
 */
module Defs {

  /** An unsigned char. */
  newtype byte = x: int | 0 <= x < 256

  /** Size of the input field and of every line buffer. */
  const INPUTSIZ: nat := 1024

  /** NUL, the C string terminator. */
  const NUL: byte := 0

  /** An optional reference: an index, or NULL. */
  datatype Option<T> = None | Some(value: T)

  /** The outcome of an operation whose failure the program reports with errx. */
  datatype Result<T> = Success(value: T) | Failure(error: string)

  /** MAX(x,y): the larger argument, one of the two. */
  function Max(x: int, y: int): (r: int)
    ensures r == x || r == y
    ensures r >= x && r >= y
  {
    if x > y then x else y
  }

  /** MIN(x,y): the smaller argument, one of the two. */
  function Min(x: int, y: int): (r: int)
    ensures r == x || r == y
    ensures r <= x && r <= y
  {
    if x < y then x else y
  }

  /** BETWEEN(x,a,b): a <= x <= b. */
  predicate Between(x: int, a: int, b: int)
  {
    a <= x && x <= b
  }

  /** BETWEEN is inclusive at both ends and excludes the neighbours outside. */
  lemma BetweenInclusive(a: int, b: int)
    requires a <= b
    ensures Between(a, a, b) && Between(b, a, b)
    ensures !Between(a - 1, a, b) && !Between(b + 1, a, b)
  {
  }

  /** enum Ctrl: the input operations, in declaration order. */
  datatype Ctrl =
    | CtrlPaste | CtrlCopy | CtrlEnter | CtrlPrev | CtrlNext | CtrlPgUp | CtrlPgDown
    | CtrlUp | CtrlDown | CtrlBol | CtrlEol | CtrlLeft | CtrlRight | CtrlWLeft | CtrlWRight
    | CtrlDelBol | CtrlDelEol | CtrlDelLeft | CtrlDelRight | CtrlDelWord
    | CtrlSelBol | CtrlSelEol | CtrlSelLeft | CtrlSelRight | CtrlSelWLeft | CtrlSelWRight
    | CtrlUndo | CtrlRedo | CtrlCancel | CtrlNothing | Insert

  /** The integer value C gives each enumerator (CTRLPASTE = 0, then +1 each). */
  function Ordinal(c: Ctrl): (n: nat)
    ensures n <= 30
  {
    match c
    case CtrlPaste => 0     case CtrlCopy => 1      case CtrlEnter => 2
    case CtrlPrev => 3      case CtrlNext => 4      case CtrlPgUp => 5
    case CtrlPgDown => 6    case CtrlUp => 7        case CtrlDown => 8
    case CtrlBol => 9       case CtrlEol => 10      case CtrlLeft => 11
    case CtrlRight => 12    case CtrlWLeft => 13    case CtrlWRight => 14
    case CtrlDelBol => 15   case CtrlDelEol => 16   case CtrlDelLeft => 17
    case CtrlDelRight => 18 case CtrlDelWord => 19  case CtrlSelBol => 20
    case CtrlSelEol => 21   case CtrlSelLeft => 22  case CtrlSelRight => 23
    case CtrlSelWLeft => 24 case CtrlSelWRight => 25 case CtrlUndo => 26
    case CtrlRedo => 27     case CtrlCancel => 28   case CtrlNothing => 29
    case Insert => 30
  }

  /** The enumerator whose value is n: the conversion `ctrl[..] = i` performs. */
  function CtrlOf(n: nat): (c: Ctrl)
    requires n <= 30
    ensures Ordinal(c) == n
  {
    if n < 15 then CtrlBelow15(n) else CtrlFrom15(n)
  }

  /** CtrlOf on the first fifteen values. */
  function CtrlBelow15(n: nat): (c: Ctrl)
    requires n < 15
    ensures Ordinal(c) == n
  {
    match n
    case 0 => CtrlPaste     case 1 => CtrlCopy      case 2 => CtrlEnter
    case 3 => CtrlPrev      case 4 => CtrlNext      case 5 => CtrlPgUp
    case 6 => CtrlPgDown    case 7 => CtrlUp        case 8 => CtrlDown
    case 9 => CtrlBol       case 10 => CtrlEol      case 11 => CtrlLeft
    case 12 => CtrlRight    case 13 => CtrlWLeft    case _ => CtrlWRight
  }

  /** CtrlOf on the values from fifteen to thirty. */
  function CtrlFrom15(n: nat): (c: Ctrl)
    requires 15 <= n <= 30
    ensures Ordinal(c) == n
  {
    match n
    case 15 => CtrlDelBol   case 16 => CtrlDelEol   case 17 => CtrlDelLeft
    case 18 => CtrlDelRight case 19 => CtrlDelWord  case 20 => CtrlSelBol
    case 21 => CtrlSelEol   case 22 => CtrlSelLeft  case 23 => CtrlSelRight
    case 24 => CtrlSelWLeft case 25 => CtrlSelWRight case 26 => CtrlUndo
    case 27 => CtrlRedo     case 28 => CtrlCancel   case 29 => CtrlNothing
    case _ => Insert
  }

  /** CtrlOf undoes Ordinal. */
  lemma OrdinalInverse(c: Ctrl)
    ensures CtrlOf(Ordinal(c)) == c
  {
  }

  /** Enumerator values are distinct: Ordinal and CtrlOf are inverse bijections. */
  lemma OrdinalBijective(c: Ctrl, d: Ctrl, n: nat)
    ensures Ordinal(c) == Ordinal(d) ==> c == d
    ensures n <= 30 ==> (CtrlOf(n) == c <==> Ordinal(c) == n)
  {
    OrdinalInverse(c);
    OrdinalInverse(d);
  }

  /** The layout of the enumeration: every bindable operation lies below CTRLNOTHING. */
  lemma CtrlLayout(c: Ctrl)
    ensures Ordinal(CtrlPaste) == 0 && Ordinal(CtrlCancel) == 28
    ensures Ordinal(CtrlNothing) == 29 && Ordinal(Insert) == 30
    ensures c != CtrlNothing && c != Insert ==> Ordinal(c) < Ordinal(CtrlNothing)
  {
  }

  predicate IsMotion(c: Ctrl)
  {
    c.CtrlBol? || c.CtrlEol? || c.CtrlLeft? || c.CtrlRight? || c.CtrlWLeft? || c.CtrlWRight?
  }

  predicate IsSelection(c: Ctrl)
  {
    c.CtrlSelBol? || c.CtrlSelEol? || c.CtrlSelLeft? || c.CtrlSelRight?
    || c.CtrlSelWLeft? || c.CtrlSelWRight?
  }

  predicate IsEditing(c: Ctrl)
  {
    c.CtrlDelBol? || c.CtrlDelEol? || c.CtrlDelLeft? || c.CtrlDelRight?
    || c.CtrlDelWord? || c.Insert?
  }

  predicate IsUndo(c: Ctrl)
  {
    c.CtrlUndo? || c.CtrlRedo?
  }

  /** The four classifiers never hold of the same operation. */
  lemma ClassifiersDisjoint(c: Ctrl)
    ensures !(IsMotion(c) && IsSelection(c)) && !(IsMotion(c) && IsEditing(c))
    ensures !(IsMotion(c) && IsUndo(c)) && !(IsSelection(c) && IsEditing(c))
    ensures !(IsSelection(c) && IsUndo(c)) && !(IsEditing(c) && IsUndo(c))
  {
  }

  /** Undo and redo are not editing operations; the editing ones are exactly the five deletions and INSERT. */
  lemma EditingOperations(c: Ctrl)
    ensures !IsEditing(CtrlUndo) && !IsEditing(CtrlRedo)
    ensures IsEditing(c) <==> c in {CtrlDelBol, CtrlDelEol, CtrlDelLeft, CtrlDelRight, CtrlDelWord, Insert}
  {
  }

  /** The selecting variant of a motion: CTRLSELx is handled together with CTRLx in keypress. */
  function SelCounterpart(c: Ctrl): (s: Ctrl)
    requires IsMotion(c)
    ensures IsSelection(s)
    ensures Ordinal(s) == Ordinal(c) + 11
  {
    match c
    case CtrlBol => CtrlSelBol
    case CtrlEol => CtrlSelEol
    case CtrlLeft => CtrlSelLeft
    case CtrlRight => CtrlSelRight
    case CtrlWLeft => CtrlSelWLeft
    case CtrlWRight => CtrlSelWRight
  }

  /** Every selection operation is the counterpart of exactly one motion. */
  lemma SelCounterpartBijective(s: Ctrl, m1: Ctrl, m2: Ctrl)
    requires IsMotion(m1) && IsMotion(m2)
    ensures SelCounterpart(m1) == SelCounterpart(m2) ==> m1 == m2
    ensures IsSelection(s) ==> exists m :: IsMotion(m) && SelCounterpart(m) == s
  {
    if IsSelection(s) {
      var m := match s
        case CtrlSelBol => CtrlBol
        case CtrlSelEol => CtrlEol
        case CtrlSelLeft => CtrlLeft
        case CtrlSelRight => CtrlRight
        case CtrlSelWLeft => CtrlWLeft
        case _ => CtrlWRight;
      assert IsMotion(m) && SelCounterpart(m) == s;
    }
  }

  /** enum Press_ret: what keypress asks the event loop to do. */
  datatype PressRet = DrawPrompt | DrawInput | Esc | Enter | Nop

  /** Bytes of a string literal whose characters are all below 256. */
  function Bytes(s: string): (b: seq<byte>)
    requires forall i :: 0 <= i < |s| ==> s[i] as int < 256
    ensures |b| == |s|
    ensures forall i :: 0 <= i < |s| ==> b[i] as int == s[i] as int
  {
    seq(|s|, i requires 0 <= i < |s| => s[i] as int as byte)
  }
}

/** The compiled-in configuration of config.h. */
module Defaults {
  import opened Defs

  /** config.worddelimiters */
  const WordDelimiters: seq<byte> := Bytes(" .,/:;\\<>'[]{}()&$?!")

  /**
   * config.xpromptctrl, "vcmpn::::aebf::ukhdwAEBF::zZ:": the letter bound
   * to each operation, ':' for none.
   */
  const XPromptCtrl: seq<byte> :=
    [118, 99, 109, 112, 110, 58, 58, 58, 58, 97, 101, 98, 102, 58, 58,
     117, 107, 104, 100, 119, 65, 69, 66, 70, 58, 58, 122, 90, 58]

  /** config.number_items */
  const NumberItems: nat := 8

  /** config.histsize */
  const HistSize: nat := 15

  /** config.geometryspec, "0x0" */
  const GeometrySpec: seq<byte> := [48, 120, 48]
}
