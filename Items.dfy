/**
 * The completion items: struct Item held in an arena (a sequence of
 * records addressed by index, in allocation order), the tree builder
 * builditems with its static state, and parsestdin, which feeds it one
 * input line at a time.
 *
 * In struct Item, prev/next link the siblings of one list and
 * parent/child link a list to the item it continues; the match links
 * prevmatch/nextmatch are kept apart, as the sequence of indices of the
 * Matching module.
 */
module Items {
  import opened Defs
  import opened CStr

  /** struct Item, with its links as arena indices. */
  datatype Item = Item(
    text: seq<byte>,
    description: Option<seq<byte>>,
    parent: Option<nat>,
    prev: Option<nat>,
    next: Option<nat>,
    child: Option<nat>)

  /** The parent of item k, if any, was allocated before it. */
  predicate ParentBelow(items: seq<Item>, k: nat)
    requires k < |items|
  {
    items[k].parent.Some? ==> items[k].parent.value < k
  }

  /** Every parent was allocated before its children. */
  predicate ParentsBelow(items: seq<Item>)
  {
    forall k :: 0 <= k < |items| ==> ParentBelow(items, k)
  }

  /**
   * The links of item k agree with the others: its prev link points back to
   * an earlier item whose next link points here; its next link points to a
   * later item that links back and shares the parent; its child link points
   * to a later item that has k as parent and starts its list.
   */
  ghost predicate LinkedAt(items: seq<Item>, k: nat)
    requires k < |items|
  {
    (items[k].prev.Some? ==>
       items[k].prev.value < k && items[items[k].prev.value].next == Some(k))
    && (items[k].next.Some? ==>
       k < items[k].next.value < |items| && items[items[k].next.value].prev == Some(k)
       && items[items[k].next.value].parent == items[k].parent)
    && (items[k].child.Some? ==>
       k < items[k].child.value < |items| && items[items[k].child.value].parent == Some(k)
       && items[items[k].child.value].prev == None)
  }

  /** The links of the arena agree with one another, and parents come first. */
  ghost predicate Linked(items: seq<Item>)
  {
    ParentsBelow(items) && forall k :: 0 <= k < |items| ==> LinkedAt(items, k)
  }

  /** The item h parent links above k, None once the walk leaves the tree. */
  function Up(items: seq<Item>, k: nat, h: nat): (r: Option<nat>)
    requires ParentsBelow(items) && k < |items|
    ensures r.Some? ==> r.value <= k
    ensures h > 0 && r.Some? ==> r.value < k
    decreases h
  {
    if h == 0 then Some(k)
    else
      match Up(items, k, h - 1)
      case None => None
      case Some(a) => assert ParentBelow(items, a); items[a].parent
  }

  /** Neither k nor any of its ancestors has a next sibling yet. */
  ghost predicate ClearAbove(items: seq<Item>, k: nat)
    requires ParentsBelow(items) && k < |items|
    decreases k
  {
    items[k].next == None
    && (items[k].parent.Some? ==> assert ParentBelow(items, k); ClearAbove(items, items[k].parent.value))
  }

  /** The path the next item may attach to is free: last has no child, and no next sibling above it. */
  ghost predicate PathClear(items: seq<Item>, last: nat)
    requires ParentsBelow(items) && last < |items|
  {
    items[last].child == None && ClearAbove(items, last)
  }

  /** Every ancestor of an item whose path is clear has a clear path, in particular no next sibling. */
  lemma {:induction false} ClearAncestor(items: seq<Item>, k: nat, h: nat)
    requires ParentsBelow(items) && k < |items| && ClearAbove(items, k)
    requires Up(items, k, h).Some?
    ensures ClearAbove(items, Up(items, k, h).value)
    ensures items[Up(items, k, h).value].next == None
    decreases h
  {
    if h > 0 {
      ClearAncestor(items, k, h - 1);
    }
  }

  /** A clear path stays clear in an arena that agrees on the next and parent links up to k. */
  lemma {:induction false} ClearSame(a: seq<Item>, b: seq<Item>, k: nat)
    requires ParentsBelow(a) && ParentsBelow(b) && k < |a| <= |b|
    requires forall j :: 0 <= j <= k ==> a[j].next == b[j].next && a[j].parent == b[j].parent
    requires ClearAbove(a, k)
    ensures ClearAbove(b, k)
    decreases k
  {
    if a[k].parent.Some? {
      assert ParentBelow(a, k);
      ClearSame(a, b, a[k].parent.value);
    }
  }

  /** b extends a and keeps the text and description of every item of a. */
  predicate SameLabels(a: seq<Item>, b: seq<Item>)
  {
    |a| <= |b|
    && forall k :: 0 <= k < |a| ==> a[k].text == b[k].text && a[k].description == b[k].description
  }

  /** The arena once a new item becomes the first child of p. */
  function WithChild(items: seq<Item>, p: nat, text: seq<byte>, description: Option<seq<byte>>): (r: seq<Item>)
    requires p < |items|
    ensures |r| == |items| + 1
  {
    items[p := items[p].(child := Some(|items|))] + [Item(text, description, Some(p), None, None, None)]
  }

  /** The arena once a new item becomes the next sibling of a, sharing its parent. */
  function WithNext(items: seq<Item>, a: nat, text: seq<byte>, description: Option<seq<byte>>): (r: seq<Item>)
    requires a < |items|
    ensures |r| == |items| + 1
  {
    items[a := items[a].(next := Some(|items|))] + [Item(text, description, items[a].parent, Some(a), None, None)]
  }

  /** Attaching a child keeps every label and labels the new item. */
  lemma WithChildLabels(items: seq<Item>, p: nat, text: seq<byte>, description: Option<seq<byte>>)
    requires p < |items|
    ensures var r := WithChild(items, p, text, description);
      SameLabels(items, r) && r[|items|].text == text && r[|items|].description == description
  {
  }

  /** Attaching a sibling keeps every label and labels the new item. */
  lemma WithNextLabels(items: seq<Item>, a: nat, text: seq<byte>, description: Option<seq<byte>>)
    requires a < |items|
    ensures var r := WithNext(items, a, text, description);
      SameLabels(items, r) && r[|items|].text == text && r[|items|].description == description
  {
  }

  /**
   * What the static state of builditems keeps: the arena is linked, the
   * root is the first item and has neither parent nor previous sibling,
   * previtem is the last item and the path above it is clear.
   */
  ghost predicate BuilderInv(items: seq<Item>, root: Option<nat>, prev: Option<nat>)
  {
    Linked(items)
    && (|items| == 0 ==> root == None && prev == None)
    && (|items| > 0 ==>
          root == Some(0) && prev == Some(|items| - 1)
          && items[0].parent == None && items[0].prev == None
          && PathClear(items, |items| - 1))
  }

  /** A lone item is a tree whose path is clear. */
  lemma FirstItem(text: seq<byte>, description: Option<seq<byte>>)
    ensures BuilderInv([Item(text, description, None, None, None, None)], Some(0), Some(0))
  {
  }

  /** Once the walk has left the tree it stays out. */
  lemma {:induction false} NoneStaysNone(items: seq<Item>, k: nat, h: nat, h': nat)
    requires ParentsBelow(items) && k < |items| && h <= h' && Up(items, k, h).None?
    ensures Up(items, k, h').None?
    decreases h' - h
  {
    if h < h' {
      NoneStaysNone(items, k, h, h' - 1);
    }
  }

  /** The items of WithChild: p gains its child, the new item comes last. */
  lemma WithChildAt(items: seq<Item>, p: nat, text: seq<byte>, description: Option<seq<byte>>)
    requires p < |items|
    ensures var r := WithChild(items, p, text, description);
      (forall k :: 0 <= k < |items| && k != p ==> r[k] == items[k])
      && r[p] == items[p].(child := Some(|items|))
      && r[|items|] == Item(text, description, Some(p), None, None, None)
  {
  }

  /** The items of WithNext: a gains its next sibling, the new item comes last. */
  lemma WithNextAt(items: seq<Item>, a: nat, text: seq<byte>, description: Option<seq<byte>>)
    requires a < |items|
    ensures var r := WithNext(items, a, text, description);
      (forall k :: 0 <= k < |items| && k != a ==> r[k] == items[k])
      && r[a] == items[a].(next := Some(|items|))
      && r[|items|] == Item(text, description, items[a].parent, Some(a), None, None)
  {
  }

  /** Adding the first child of the last item p keeps the arena linked. */
  lemma WithChildLinked(items: seq<Item>, p: nat, text: seq<byte>, description: Option<seq<byte>>)
    requires Linked(items) && p == |items| - 1 && items[p].child == None
    ensures Linked(WithChild(items, p, text, description))
  {
    var r := WithChild(items, p, text, description);
    WithChildAt(items, p, text, description);
    forall k | 0 <= k < |r|
      ensures ParentBelow(r, k)
    {
      if k < |items| {
        assert ParentBelow(items, k);
      }
    }
    forall k | 0 <= k < |r|
      ensures LinkedAt(r, k)
    {
      if k < |items| {
        assert LinkedAt(items, k);
      }
    }
  }

  /** Adding a next sibling to an item a without one keeps the arena linked. */
  lemma WithNextLinked(items: seq<Item>, a: nat, text: seq<byte>, description: Option<seq<byte>>)
    requires Linked(items) && a < |items| && items[a].next == None
    ensures Linked(WithNext(items, a, text, description))
  {
    var r := WithNext(items, a, text, description);
    WithNextAt(items, a, text, description);
    forall k | 0 <= k < |r|
      ensures ParentBelow(r, k)
    {
      if k < |items| {
        assert ParentBelow(items, k);
      } else {
        assert ParentBelow(items, a);
      }
    }
    forall k | 0 <= k < |r|
      ensures LinkedAt(r, k)
    {
      if k < |items| {
        assert LinkedAt(items, k);
      }
    }
  }

  /** Making a new item the first child of the last item keeps the invariant, and the child link was empty. */
  lemma ChildKeepsInv(items: seq<Item>, p: nat, text: seq<byte>, description: Option<seq<byte>>)
    requires |items| > 0 && BuilderInv(items, Some(0), Some(p))
    ensures items[p].child == None
    ensures BuilderInv(WithChild(items, p, text, description), Some(0), Some(|items|))
  {
    var items' := WithChild(items, p, text, description);
    WithChildLinked(items, p, text, description);
    WithChildAt(items, p, text, description);
    ClearSame(items, items', p);
  }

  /**
   * Making a new item the next sibling of a = Up(items, p, d), the last
   * item p or one of its ancestors, keeps the invariant, and the next link
   * was empty.
   */
  lemma NextKeepsInv(items: seq<Item>, p: nat, d: nat, a: nat, text: seq<byte>, description: Option<seq<byte>>)
    requires |items| > 0 && BuilderInv(items, Some(0), Some(p))
    requires Up(items, p, d) == Some(a)
    ensures a < |items| && items[a].next == None
    ensures BuilderInv(WithNext(items, a, text, description), Some(0), Some(|items|))
  {
    ClearAncestor(items, p, d);
    WithNextLinked(items, a, text, description);
    WithNextClear(items, a, text, description);
    WithNextAt(items, a, text, description);
  }

  /** The new next sibling of an item whose path is clear has a clear path. */
  lemma WithNextClear(items: seq<Item>, a: nat, text: seq<byte>, description: Option<seq<byte>>)
    requires ParentsBelow(items) && a < |items| && ClearAbove(items, a)
    requires ParentsBelow(WithNext(items, a, text, description))
    ensures ClearAbove(WithNext(items, a, text, description), |items|)
  {
    var items' := WithNext(items, a, text, description);
    WithNextAt(items, a, text, description);
    if items[a].parent.Some? {
      assert ParentBelow(items, a);
      ClearSame(items, items', items[a].parent.value);
    }
  }

  /**
   * Where builditems puts a new item, given previtem and prevlevel: the
   * first item starts the tree; a deeper level makes it the first child of
   * previtem; otherwise it becomes the next sibling of the ancestor
   * prevlevel - level parents above previtem (previtem itself at the same
   * level). None when that walk leaves the tree.
   */
  function Placed(items: seq<Item>, prev: Option<nat>, prevlevel: nat, level: nat,
                  text: seq<byte>, description: Option<seq<byte>>): (r: Option<seq<Item>>)
    requires ParentsBelow(items) && (prev.Some? ==> prev.value < |items|)
  {
    if prev.None? then Some(items + [Item(text, description, None, None, None, None)])
    else if level > prevlevel then Some(WithChild(items, prev.value, text, description))
    else
      match Up(items, prev.value, prevlevel - level)
      case None => None
      case Some(a) => Some(WithNext(items, a, text, description))
  }

  /**
   * builditems keeps its invariant: the new arena is linked, previtem
   * becomes the new item, and the link it sets (child of previtem, or
   * next of the ancestor) was empty, so no item is lost. It fails exactly
   * when the level drops below prevlevel and the walk runs out of parents.
   */
  lemma PlacedKeepsInv(items: seq<Item>, root: Option<nat>, prev: Option<nat>, prevlevel: nat, level: nat,
                       text: seq<byte>, description: Option<seq<byte>>)
    requires BuilderInv(items, root, prev)
    ensures var r := Placed(items, prev, prevlevel, level, text, description);
      (r.None? <==> prev.Some? && level < prevlevel && Up(items, prev.value, prevlevel - level).None?)
      && (r.Some? ==> BuilderInv(r.value, Some(0), Some(|items|)))
    ensures prev.Some? && level > prevlevel ==> items[prev.value].child == None
    ensures prev.Some? && level <= prevlevel && Up(items, prev.value, prevlevel - level).Some? ==>
      items[Up(items, prev.value, prevlevel - level).value].next == None
  {
    if prev.None? {
      FirstItem(text, description);
      assert items + [Item(text, description, None, None, None, None)] == [Item(text, description, None, None, None, None)];
    } else if level > prevlevel {
      ChildKeepsInv(items, prev.value, text, description);
    } else {
      var u := Up(items, prev.value, prevlevel - level);
      if u.Some? {
        NextKeepsInv(items, prev.value, prevlevel - level, u.value, text, description);
      }
    }
  }

  /** builditems keeps the labels of the items it has and labels the new one. */
  lemma PlacedLabels(items: seq<Item>, prev: Option<nat>, prevlevel: nat, level: nat,
                     text: seq<byte>, description: Option<seq<byte>>)
    requires ParentsBelow(items) && (prev.Some? ==> prev.value < |items|)
    ensures var r := Placed(items, prev, prevlevel, level, text, description);
      r.Some? ==> |r.value| == |items| + 1 && SameLabels(items, r.value)
                  && r.value[|items|].text == text && r.value[|items|].description == description
  {
    if prev.Some? && level > prevlevel {
      WithChildLabels(items, prev.value, text, description);
    } else if prev.Some? && Up(items, prev.value, prevlevel - level).Some? {
      WithNextLabels(items, Up(items, prev.value, prevlevel - level).value, text, description);
    }
  }

  /**
   * The for loop of builditems that goes up the tree from previtem, i
   * counting from level to prevlevel: the ancestor prevlevel - level
   * parents up, or None when the walk leaves the tree first.
   */
  method WalkUp(items: seq<Item>, p: nat, level: nat, prevlevel: nat) returns (item: Option<nat>)
    requires ParentsBelow(items) && p < |items| && level <= prevlevel
    ensures item == Up(items, p, prevlevel - level)
    ensures item.Some? ==> item.value <= p
  {
    item := Some(p);
    var i := level;
    while item.Some? && i != prevlevel
      invariant level <= i <= prevlevel
      invariant item == Up(items, p, i - level)
      decreases prevlevel - i
    {
      item := items[item.value].parent;
      i := i + 1;
    }
    if item.None? {
      NoneStaysNone(items, p, i - level, prevlevel - level);
    }
  }

  /** The message builditems exits with. */
  const ImproperIndentation := "improper indentation detected"

  /** The static state of builditems: the arena, rootitem, previtem and prevlevel. */
  class ItemBuilder {
    var items: seq<Item>
    var root: Option<nat>
    var prev: Option<nat>
    var prevlevel: nat

    ghost predicate Valid()
      reads this
    {
      BuilderInv(items, root, prev)
    }

    /** The static initializers: no item yet, prevlevel 0. */
    constructor()
      ensures Valid()
      ensures items == [] && root == None && prev == None && prevlevel == 0
    {
      items := [];
      root := None;
      prev := None;
      prevlevel := 0;
    }

    /**
     * builditems(level, text, description): allocates the item at index
     * |items| and attaches it by comparing level with prevlevel. The link
     * it sets was empty before, so no item is ever lost, and the arena
     * stays linked. Returns rootitem, or the failure errx reports when the
     * walk up the tree runs out of parents.
     */
    method Build(level: nat, text: seq<byte>, description: Option<seq<byte>>) returns (r: Result<nat>)
      requires Valid()
      modifies this
      ensures Valid()
      ensures r.Failure? <==> Placed(old(items), old(prev), old(prevlevel), level, text, description).None?
      ensures r.Failure? ==> r.error == ImproperIndentation && unchanged(this)
      ensures r.Success? ==>
        r == Success(0) && items == Placed(old(items), old(prev), old(prevlevel), level, text, description).value
        && prev == Some(|old(items)|) && prevlevel == level
    {
      PlacedKeepsInv(items, root, prev, prevlevel, level, text, description);
      var next: seq<Item>;
      if prev.None? {
        next := items + [Item(text, description, None, None, None, None)];
        root := Some(0);
      } else if level > prevlevel {
        next := WithChild(items, prev.value, text, description);
      } else {
        var item := WalkUp(items, prev.value, level, prevlevel);
        if item.None? {
          return Failure(ImproperIndentation);
        }
        next := WithNext(items, item.value, text, description);
      }
      assert Placed(old(items), old(prev), old(prevlevel), level, text, description) == Some(next);
      assert root == Some(0);
      items, prev, prevlevel := next, Some(|items|), level;
      r := Success(0);
    }
  }

  // ----- parsestdin -----

  const TAB: byte := 9
  const NL: byte := 10

  /** A line fgets reads holds at most sizeof buf - 1 bytes. */
  const LineMax: nat := INPUTSIZ - 1

  /** One line of input as parsestdin splits it. */
  datatype Line = Line(level: nat, text: seq<byte>, description: Option<seq<byte>>)

  /** The bytes of b before its first NUL: b read as a C string. */
  function CString(b: seq<byte>): (s: seq<byte>)
    ensures NUL !in s && |s| <= |b| && s == b[..|s|]
    ensures |s| < |b| ==> b[|s|] == NUL
  {
    if NUL in b then Content(b) else b
  }

  /** strspn(s + i, "\t"): the end of the run of tabs at i. */
  function TabsEnd(s: seq<byte>, i: nat): (j: nat)
    requires i <= |s|
    ensures i <= j <= |s| && (j < |s| ==> s[j] != TAB)
    ensures forall k :: i <= k < j ==> s[k] == TAB
    decreases |s| - i
  {
    if i < |s| && s[i] == TAB then TabsEnd(s, i + 1) else i
  }

  predicate IsTokDelim(c: byte)
  {
    c == TAB || c == NL
  }

  /** The start of the next token strtok(.., "\t\n") returns: the end of the run of delimiters at i. */
  function DelimsEnd(s: seq<byte>, i: nat): (j: nat)
    requires i <= |s|
    ensures i <= j <= |s| && (j < |s| ==> !IsTokDelim(s[j]))
    ensures forall k :: i <= k < j ==> IsTokDelim(s[k])
    decreases |s| - i
  {
    if i < |s| && IsTokDelim(s[i]) then DelimsEnd(s, i + 1) else i
  }

  /** The end of the token starting at i: the first tab or newline. */
  function TokenEnd(s: seq<byte>, i: nat): (j: nat)
    requires i <= |s|
    ensures i <= j <= |s| && (j < |s| ==> IsTokDelim(s[j]))
    ensures forall k :: i <= k < j ==> !IsTokDelim(s[k])
    decreases |s| - i
  {
    if i < |s| && !IsTokDelim(s[i]) then TokenEnd(s, i + 1) else i
  }

  /**
   * The body of the parsestdin loop for one buffer fgets filled: None when
   * the line is skipped (it starts with a newline, or no text token
   * follows the tabs), otherwise the tab count, the first token and the
   * second token if any.
   */
  function ParseLine(buf: seq<byte>): (r: Option<Line>)
    ensures r.Some? ==> |r.value.text| > 0 && NUL !in r.value.text
    ensures r.Some? ==> forall k :: 0 <= k < |r.value.text| ==> !IsTokDelim(r.value.text[k])
  {
    var s := CString(buf);
    if |s| > 0 && s[0] == NL then None
    else
      var level := TabsEnd(s, 0);
      var i := DelimsEnd(s, level);
      if i == |s| then None
      else
        var e := TokenEnd(s, i);
        var j := DelimsEnd(s, e);
        var description := if j == |s| then None else Some(s[j..TokenEnd(s, j)]);
        Some(Line(level, s[i..e], description))
  }

  /** A field parsestdin can read back: non-empty, without tab, newline or NUL. */
  predicate IsField(f: seq<byte>)
  {
    |f| > 0 && NUL !in f && forall k :: 0 <= k < |f| ==> !IsTokDelim(f[k])
  }

  /** Writes a line in the format parsestdin reads: level tabs, the text, a tab and the description, a newline. */
  function FormatLine(l: Line): (b: seq<byte>)
    ensures |b| > l.level + |l.text|
  {
    seq(l.level, _ => TAB) + l.text
    + (match l.description case None => [] case Some(d) => [TAB] + d)
    + [NL]
  }

  /** A field at offset n of s, followed by the end or a delimiter, is the token strtok finds there. */
  lemma TokenIn(s: seq<byte>, n: nat, f: seq<byte>)
    requires n + |f| <= |s| && s[n..n + |f|] == f && IsField(f)
    requires n + |f| < |s| ==> IsTokDelim(s[n + |f|])
    ensures DelimsEnd(s, n) == n && TokenEnd(s, n) == n + |f|
  {
    forall k | n <= k < n + |f|
      ensures !IsTokDelim(s[k])
    {
      assert s[k] == s[n..n + |f|][k - n];
    }
    TokenEndIs(s, n, n + |f|);
  }

  /** A field followed by nothing or by a delimiter is the token strtok finds where it starts. */
  lemma TokenAt(pre: seq<byte>, f: seq<byte>, tail: seq<byte>)
    requires IsField(f) && (|tail| > 0 ==> IsTokDelim(tail[0]))
    ensures var s := pre + f + tail;
      DelimsEnd(s, |pre|) == |pre| && TokenEnd(s, |pre|) == |pre| + |f| && s[|pre|..|pre| + |f|] == f
  {
    var s := pre + f + tail;
    assert s[|pre|..|pre| + |f|] == f;
    assert |tail| > 0 ==> s[|pre| + |f|] == tail[0];
    TokenIn(s, |pre|, f);
  }

  /** The fields ParseLine reads off a line that starts with tabs and a field. */
  lemma ParseHead(tabs: seq<byte>, text: seq<byte>, tail: seq<byte>)
    requires forall k :: 0 <= k < |tabs| ==> tabs[k] == TAB
    requires IsField(text) && |tail| > 0 && IsTokDelim(tail[0]) && NUL !in tail
    ensures var b := tabs + text + tail;
      var lv, e := |tabs|, |tabs| + |text|;
      NUL !in b && b[0] != NL && TabsEnd(b, 0) == lv && DelimsEnd(b, lv) == lv
      && TokenEnd(b, lv) == e && b[lv..e] == text && e < |b|
  {
    var b := tabs + text + tail;
    assert NUL !in tabs;
    assert NUL !in b;
    assert b[|tabs|] == text[0];
    assert b[0] != NL by {
      if |tabs| > 0 { assert b[0] == TAB; }
    }
    TabsEndIs(b, 0, |tabs|);
    TokenAt(tabs, text, tail);
  }

  /** ParseLine on a NUL-free line, given where its runs of tabs and tokens end. */
  lemma ParseLineOf(b: seq<byte>, lv: nat, e: nat, j: nat)
    requires NUL !in b && |b| > 0 && b[0] != NL
    requires TabsEnd(b, 0) == lv && lv < |b| && DelimsEnd(b, lv) == lv
    requires TokenEnd(b, lv) == e && DelimsEnd(b, e) == j
    ensures ParseLine(b) == Some(Line(lv, b[lv..e], if j == |b| then None else Some(b[j..TokenEnd(b, j)])))
  {
    assert CString(b) == b;
  }

  /** Reading a formatted line without description gives it back. */
  lemma ParseFormatPlain(lv: nat, text: seq<byte>)
    requires IsField(text)
    ensures ParseLine(FormatLine(Line(lv, text, None))) == Some(Line(lv, text, None))
  {
    var tabs := seq(lv, _ => TAB);
    var b := tabs + text + [NL];
    assert b == FormatLine(Line(lv, text, None));
    ParseHead(tabs, text, [NL]);
    var e := lv + |text|;
    assert b[e] == NL;
    assert DelimsEnd(b, e + 1) == e + 1;
    ParseLineOf(b, lv, e, e + 1);
  }

  /** Reading a formatted line with a description gives it back. */
  lemma ParseFormatDescribed(lv: nat, text: seq<byte>, d: seq<byte>)
    requires IsField(text) && IsField(d)
    ensures ParseLine(FormatLine(Line(lv, text, Some(d)))) == Some(Line(lv, text, Some(d)))
  {
    var tabs := seq(lv, _ => TAB);
    var b := tabs + text + [TAB] + d + [NL];
    assert b == FormatLine(Line(lv, text, Some(d)));
    assert b == tabs + text + ([TAB] + d + [NL]);
    ParseHead(tabs, text, [TAB] + d + [NL]);
    ParseDescription(tabs + text, d);
    var e := lv + |text|;
    ParseLineOf(b, lv, e, e + 1);
  }

  /** Reading a formatted line gives back its level, text and description. */
  lemma ParseFormatLine(l: Line)
    requires IsField(l.text)
    requires l.description.Some? ==> IsField(l.description.value)
    ensures ParseLine(FormatLine(l)) == Some(l)
  {
    match l.description {
      case None => ParseFormatPlain(l.level, l.text);
      case Some(d) => ParseFormatDescribed(l.level, l.text, d);
    }
  }

  /** After the text, a tab and a field make the description. */
  lemma ParseDescription(head: seq<byte>, d: seq<byte>)
    requires IsField(d)
    ensures var b := head + [TAB] + d + [NL];
      var e := |head|;
      DelimsEnd(b, e) == e + 1 && TokenEnd(b, e + 1) == e + 1 + |d| && b[e + 1..e + 1 + |d|] == d
  {
    var pre := head + [TAB];
    TokenAt(pre, d, [NL]);
    var b := pre + d + [NL];
    assert b[|head|] == TAB;
  }

  /** The run of tabs ends at the first offset that is not a tab. */
  lemma {:induction false} TabsEndIs(s: seq<byte>, i: nat, j: nat)
    requires i <= j <= |s| && (j < |s| ==> s[j] != TAB)
    requires forall k :: i <= k < j ==> s[k] == TAB
    ensures TabsEnd(s, i) == j
    decreases j - i
  {
    if i < j {
      TabsEndIs(s, i + 1, j);
    }
  }

  /** A token ends at the first tab or newline. */
  lemma {:induction false} TokenEndIs(s: seq<byte>, i: nat, j: nat)
    requires i <= j <= |s| && (j < |s| ==> IsTokDelim(s[j]))
    requires forall k :: i <= k < j ==> !IsTokDelim(s[k])
    ensures TokenEnd(s, i) == j
    decreases j - i
  {
    if i < j {
      TokenEndIs(s, i + 1, j);
    }
  }

  /**
   * The length of the buffer fgets(buf, INPUTSIZ, fp) fills from offset pos
   * of the input: up to and including the next newline, at most LineMax bytes
   * (ChunkShape).
   */
  function ChunkLen(input: seq<byte>, pos: nat): (n: nat)
    requires pos < |input|
    ensures 0 < n <= LineMax && pos + n <= |input|
  {
    ChunkFrom(input, pos, 1)
  }

  /** ChunkLen, having taken n - 1 bytes. */
  function ChunkFrom(input: seq<byte>, pos: nat, n: nat): (r: nat)
    requires pos < |input| && 0 < n <= LineMax && pos + n <= |input|
    ensures n <= r <= LineMax && pos + r <= |input|
    decreases LineMax - n
  {
    if input[pos + n - 1] == NL || n == LineMax || pos + n == |input| then n
    else ChunkFrom(input, pos, n + 1)
  }

  /**
   * fgets stops at the first newline, which it keeps, and otherwise only at
   * the end of the input or when the buffer is full.
   */
  lemma ChunkShape(input: seq<byte>, pos: nat)
    requires pos < |input|
    ensures var n := ChunkLen(input, pos);
      (forall k :: pos <= k < pos + n - 1 ==> input[k] != NL)
      && (input[pos + n - 1] == NL || n == LineMax || pos + n == |input|)
  {
    ChunkFromShape(input, pos, 1);
  }

  lemma {:induction false} ChunkFromShape(input: seq<byte>, pos: nat, n: nat)
    requires pos < |input| && 0 < n <= LineMax && pos + n <= |input|
    requires forall k :: pos <= k < pos + n - 1 ==> input[k] != NL
    ensures var r := ChunkFrom(input, pos, n);
      (forall k :: pos <= k < pos + r - 1 ==> input[k] != NL)
      && (input[pos + r - 1] == NL || r == LineMax || pos + r == |input|)
    decreases LineMax - n
  {
    if !(input[pos + n - 1] == NL || n == LineMax || pos + n == |input|) {
      ChunkFromShape(input, pos, n + 1);
    }
  }

  /** The buffers successive fgets calls fill from offset pos of the input on. */
  function Buffers(input: seq<byte>, pos: nat): (bufs: seq<seq<byte>>)
    decreases |input| - pos
  {
    if pos >= |input| then []
    else
      var n := ChunkLen(input, pos);
      [input[pos..pos + n]] + Buffers(input, pos + n)
  }

  /** The buffers in order, laid end to end. */
  function Join(bufs: seq<seq<byte>>): (s: seq<byte>)
  {
    if bufs == [] then [] else bufs[0] + Join(bufs[1..])
  }

  /** fgets loses and repeats nothing: the buffers spell out the input, each non-empty and within the buffer size. */
  lemma {:induction false} BuffersSplit(input: seq<byte>, pos: nat)
    requires pos <= |input|
    ensures Join(Buffers(input, pos)) == input[pos..]
    ensures forall k :: 0 <= k < |Buffers(input, pos)| ==> 0 < |Buffers(input, pos)[k]| <= LineMax
    decreases |input| - pos
  {
    if pos < |input| {
      var n := ChunkLen(input, pos);
      BuffersSplit(input, pos + n);
      var bufs := Buffers(input, pos);
      assert bufs == [input[pos..pos + n]] + Buffers(input, pos + n);
      assert bufs[1..] == Buffers(input, pos + n);
      assert input[pos..] == input[pos..pos + n] + input[pos + n..];
    }
  }

  /** The lines parsestdin hands to builditems, from buffer i on. */
  function LinesFrom(bufs: seq<seq<byte>>, i: nat): (ls: seq<Line>)
    ensures i < |bufs| ==> |ls| <= |bufs| - i
    ensures i >= |bufs| ==> ls == []
    decreases |bufs| - i
  {
    if i >= |bufs| then [] else Accepted(ParseLine(bufs[i])) + LinesFrom(bufs, i + 1)
  }

  /** The line a buffer contributes: none when ParseLine skips it. */
  function Accepted(line: Option<Line>): (ls: seq<Line>)
    ensures |ls| <= 1 && (line.Some? ==> ls == [line.value])
  {
    match line
    case None => []
    case Some(l) => [l]
  }

  /** The arena holds the lines' texts and descriptions, in order. */
  predicate Labels(items: seq<Item>, ls: seq<Line>)
  {
    |items| == |ls|
    && forall k :: 0 <= k < |items| ==>
         items[k].text == ls[k].text && items[k].description == ls[k].description
  }

  /** One more item carrying the labels of one more line. */
  lemma LabelsExtend(items: seq<Item>, items': seq<Item>, ls: seq<Line>, l: Line)
    requires Labels(items, ls) && SameLabels(items, items') && |items'| == |items| + 1
    requires items'[|items|].text == l.text && items'[|items|].description == l.description
    ensures Labels(items', ls + [l])
  {
  }

  /** Lines done, then lines ahead: moving the next line across keeps the whole. */
  lemma Regroup(all: seq<Line>, done: seq<Line>, ahead: seq<Line>, a: seq<Line>, rest: seq<Line>)
    requires all == done + ahead && ahead == a + rest
    ensures all == (done + a) + rest
  {
  }

  /** The root builditems returns for an arena: the first item, None while there is none. */
  function RootOf(items: seq<Item>): (r: Option<nat>)
    ensures r.Some? <==> |items| > 0
    ensures r.Some? ==> r.value == 0
  {
    if |items| == 0 then None else Some(0)
  }

  /** The previtem builditems keeps for an arena: the last item allocated, None while there is none. */
  function LastItem(items: seq<Item>): (r: Option<nat>)
    ensures r.Some? <==> |items| > 0
    ensures r.Some? ==> r.value == |items| - 1
  {
    if |items| == 0 then None else Some(|items| - 1)
  }

  /**
   * The static state of builditems (the arena and prevlevel) after it has
   * been called for the lines ls in order from its initial state, or None
   * once a call has met improper indentation. On success the arena holds
   * one item per line, labelled in line order and linked.
   */
  ghost function Built(ls: seq<Line>): (r: Option<(seq<Item>, nat)>)
    ensures r.Some? ==> BuilderInv(r.value.0, RootOf(r.value.0), LastItem(r.value.0)) && Labels(r.value.0, ls)
    ensures r.Some? && |ls| > 0 ==> r.value.1 == ls[|ls| - 1].level
    decreases |ls|
  {
    if ls == [] then Some(([], 0))
    else
      var init, l := ls[..|ls| - 1], ls[|ls| - 1];
      match Built(init)
      case None => None
      case Some((items, prevlevel)) =>
        PlacedKeepsInv(items, RootOf(items), LastItem(items), prevlevel, l.level, l.text, l.description);
        PlacedLabels(items, LastItem(items), prevlevel, l.level, l.text, l.description);
        match Placed(items, LastItem(items), prevlevel, l.level, l.text, l.description)
        case None => None
        case Some(items') =>
          assert init + [l] == ls;
          LabelsExtend(items, items', init, l);
          Some((items', l.level))
  }

  /** Once a line has met improper indentation, the lines after it change nothing: the build has failed. */
  lemma {:induction false} BuiltFails(ls: seq<Line>, more: seq<Line>)
    requires Built(ls).None?
    ensures Built(ls + more).None?
    decreases |more|
  {
    if more == [] {
      assert ls + more == ls;
    } else {
      var init := more[..|more| - 1];
      BuiltFails(ls, init);
      assert (ls + more)[..|ls + more| - 1] == ls + init;
    }
  }

  /** One more line: Built places it in the arena built so far, with the last item as previtem. */
  lemma BuiltStep(ls: seq<Line>, l: Line, items: seq<Item>, prevlevel: nat)
    requires Built(ls) == Some((items, prevlevel))
    ensures BuilderInv(items, RootOf(items), LastItem(items))
    ensures Built(ls + [l]) ==
      match Placed(items, LastItem(items), prevlevel, l.level, l.text, l.description)
      case None => None
      case Some(items') => Some((items', l.level))
  {
    assert (ls + [l])[..|ls|] == ls;
  }

  /**
   * One builditems call for a parsed line, as ItemBuilder.Build: it fails
   * exactly when Placed does, and otherwise leaves the arena Placed gives
   * with the new item as previtem and its level as prevlevel.
   */
  method AddLine(b: ItemBuilder, l: Line) returns (r: Result<nat>)
    requires b.Valid()
    modifies b
    ensures b.Valid()
    ensures r.Failure? <==> Placed(old(b.items), old(b.prev), old(b.prevlevel), l.level, l.text, l.description).None?
    ensures r.Failure? ==> r.error == ImproperIndentation
    ensures r.Success? ==> r.value == 0 && b.root == Some(0)
    ensures r.Success? ==>
      b.items == Placed(old(b.items), old(b.prev), old(b.prevlevel), l.level, l.text, l.description).value
      && b.prev == Some(|old(b.items)|) && b.prevlevel == l.level
  {
    r := b.Build(l.level, l.text, l.description);
  }

  /**
   * The body of the parsestdin loop for the line ParseLine gave: a
   * skipped line changes nothing, an accepted one goes to builditems. The
   * builder follows Built over the lines accepted so far.
   */
  method Feed(b: ItemBuilder, line: Option<Line>, ghost done: seq<Line>) returns (r: Result<nat>)
    requires b.Valid() && Built(done) == Some((b.items, b.prevlevel))
    modifies b
    ensures b.Valid()
    ensures r.Failure? <==> Built(done + Accepted(line)).None?
    ensures r.Failure? ==> r.error == ImproperIndentation
    ensures r.Success? ==> Built(done + Accepted(line)) == Some((b.items, b.prevlevel))
    ensures r.Success? ==> b.root == RootOf(b.items)
  {
    if line.None? {
      assert done + Accepted(line) == done;
      return Success(0);
    }
    BuiltStep(done, line.value, b.items, b.prevlevel);
    r := AddLine(b, line.value);
  }

  /**
   * parsestdin: reads the input with fgets, skips the lines ParseLine
   * rejects and hands the others to builditems. The input arrives as the
   * buffers fgets fills (Buffers). It fails exactly when Built fails on
   * the accepted lines, and otherwise returns the arena Built gives, with
   * the root at index 0 (None for an input without items).
   */
  method ParseStdin(bufs: seq<seq<byte>>) returns (r: Result<Option<nat>>, items: seq<Item>)
    ensures r.Failure? <==> Built(LinesFrom(bufs, 0)).None?
    ensures r.Failure? ==> r.error == ImproperIndentation
    ensures r.Success? ==> items == Built(LinesFrom(bufs, 0)).value.0 && r.value == RootOf(items)
    ensures r.Success? ==> Labels(items, LinesFrom(bufs, 0)) && Linked(items)
  {
    var b := new ItemBuilder();
    var i := 0;
    ghost var done: seq<Line> := [];
    ghost var all := LinesFrom(bufs, 0);
    while i < |bufs|
      invariant fresh(b) && b.Valid() && i <= |bufs|
      invariant all == done + LinesFrom(bufs, i)
      invariant Built(done) == Some((b.items, b.prevlevel))
    {
      var line := ParseLine(bufs[i]);
      Regroup(all, done, LinesFrom(bufs, i), Accepted(line), LinesFrom(bufs, i + 1));
      var res := Feed(b, line, done);
      done := done + Accepted(line);
      i := i + 1;
      if res.Failure? {
        BuiltFails(done, LinesFrom(bufs, i));
        return Failure(res.error), b.items;
      }
    }
    assert done == all;
    return Success(b.root), b.items;
  }
}
