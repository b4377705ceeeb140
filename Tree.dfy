/**
 * The tree builditems makes of well-indented input, stated link by link.
 *
 * The input is an outline: each line is indented at most one tab deeper
 * than the line before it, and the first line is not indented. For such
 * lines the builder never fails, and the item made of line k is linked as
 * the outline says: its parent is the nearest earlier line one level up;
 * its previous and next siblings are the nearest earlier and later lines
 * at its own level with no shallower line between; its child is the line
 * right after it when that line is deeper. Following child links first
 * and next links on the way back up (a pre-order walk) then visits the
 * items in line order, so the walk gives the input lines back.
 */
module ItemTree {
  import opened Defs
  import opened Items

  /** The first line is not indented, and no line is more than one level deeper than the line before it. */
  predicate WellIndented(ls: seq<Line>)
  {
    (|ls| > 0 ==> ls[0].level == 0)
    && forall k :: 0 < k < |ls| ==> ls[k].level <= ls[k - 1].level + 1
  }

  /** The last of the lines before m indented at most v deep, if any. */
  function LastUpTo(ls: seq<Line>, m: nat, v: int): (r: Option<nat>)
    requires m <= |ls|
    ensures r.Some? ==> r.value < m && ls[r.value].level <= v
    ensures r.Some? ==> forall j :: r.value < j < m ==> ls[j].level > v
    ensures r.None? ==> forall j :: 0 <= j < m ==> ls[j].level > v
    decreases m
  {
    if m == 0 then None
    else if ls[m - 1].level <= v then Some(m - 1)
    else LastUpTo(ls, m - 1, v)
  }

  /** The first of the lines from m on indented at most v deep, if any. */
  function FirstFrom(ls: seq<Line>, m: nat, v: int): (r: Option<nat>)
    requires m <= |ls|
    ensures r.Some? ==> m <= r.value < |ls| && ls[r.value].level <= v
    ensures r.Some? ==> forall j :: m <= j < r.value ==> ls[j].level > v
    ensures r.None? ==> forall j :: m <= j < |ls| ==> ls[j].level > v
    decreases |ls| - m
  {
    if m == |ls| then None
    else if ls[m].level <= v then Some(m)
    else FirstFrom(ls, m + 1, v)
  }

  /** The line j, if it lies exactly v deep. */
  function AtLevel(ls: seq<Line>, j: Option<nat>, v: nat): Option<nat>
    requires j.Some? ==> j.value < |ls|
  {
    if j.Some? && ls[j.value].level == v then j else None
  }

  /**
   * Item k carries line k and the links the outline gives it: the parent
   * is the nearest earlier line less deep; the previous sibling is the
   * nearest earlier line no deeper, when it is as deep; the next sibling
   * is the nearest later line no deeper, when it is as deep; the child is
   * the next line, when it is deeper.
   */
  ghost predicate OutlineAt(items: seq<Item>, ls: seq<Line>, k: nat)
    requires |items| == |ls| && k < |ls|
  {
    var v: int := ls[k].level;
    items[k].text == ls[k].text && items[k].description == ls[k].description
    && items[k].parent == LastUpTo(ls, k, v - 1)
    && items[k].prev == AtLevel(ls, LastUpTo(ls, k, v), v)
    && items[k].next == AtLevel(ls, FirstFrom(ls, k + 1, v), v)
    && items[k].child == (if k + 1 < |ls| && ls[k + 1].level > v then Some(k + 1) else None)
  }

  /** The arena is the outline of ls, item k made of line k. */
  ghost predicate Outline(items: seq<Item>, ls: seq<Line>)
  {
    |items| == |ls| && forall k :: 0 <= k < |ls| ==> OutlineAt(items, ls, k)
  }

  /** In an outline every parent comes before its children. */
  lemma {:induction false} OutlineParents(items: seq<Item>, ls: seq<Line>)
    requires Outline(items, ls)
    ensures ParentsBelow(items)
  {
    forall k | 0 <= k < |items|
      ensures ParentBelow(items, k)
    {
      assert OutlineAt(items, ls, k);
    }
  }

  /**
   * In well-indented lines the last line before m indented at most v deep,
   * for v no deeper than line m - 1, lies exactly v deep.
   */
  lemma {:induction false} LastExact(ls: seq<Line>, m: nat, v: int)
    requires WellIndented(ls) && 0 < m <= |ls| && 0 <= v <= ls[m - 1].level
    ensures LastUpTo(ls, m, v).Some? && ls[LastUpTo(ls, m, v).value].level == v
  {
    var r := LastUpTo(ls, m, v);
    if r.Some? && r.value + 1 < m {
      assert ls[r.value + 1].level > v;
    }
  }

  /** Lines deeper than v between a and m do not change the last line before m at most v deep. */
  lemma {:induction false} LastSkip(ls: seq<Line>, a: nat, m: nat, v: int)
    requires a <= m <= |ls|
    requires forall j :: a <= j < m ==> ls[j].level > v
    ensures LastUpTo(ls, m, v) == LastUpTo(ls, a, v)
    decreases m
  {
    if a < m {
      assert ls[m - 1].level > v;
      LastSkip(ls, a, m - 1, v);
    }
  }

  /** A further line does not change what the lines before m hold. */
  lemma {:induction false} LastExtend(ls: seq<Line>, l: Line, m: nat, v: int)
    requires m <= |ls|
    ensures LastUpTo(ls + [l], m, v) == LastUpTo(ls, m, v)
    decreases m
  {
    if m > 0 {
      assert (ls + [l])[m - 1] == ls[m - 1];
      LastExtend(ls, l, m - 1, v);
    }
  }

  /** A further line is found from m on only when none of ls is. */
  lemma {:induction false} FirstExtend(ls: seq<Line>, l: Line, m: nat, v: int)
    requires m <= |ls|
    ensures FirstFrom(ls + [l], m, v) ==
      if FirstFrom(ls, m, v).Some? then FirstFrom(ls, m, v)
      else if l.level <= v then Some(|ls|) else None
    decreases |ls| - m
  {
    if m < |ls| {
      assert (ls + [l])[m] == ls[m];
      FirstExtend(ls, l, m + 1, v);
    } else {
      assert (ls + [l])[m] == l;
    }
  }

  /**
   * Going h parents up from item k of an outline, for h up to the level
   * of line k, reaches the last line up to k that lies h levels less deep.
   */
  lemma {:induction false} Ancestor(items: seq<Item>, ls: seq<Line>, k: nat, h: nat)
    requires Outline(items, ls) && WellIndented(ls) && k < |ls| && h <= ls[k].level
    ensures ParentsBelow(items)
    ensures Up(items, k, h) == LastUpTo(ls, k + 1, ls[k].level - h)
    ensures Up(items, k, h).Some? && ls[Up(items, k, h).value].level == ls[k].level - h
    decreases h
  {
    OutlineParents(items, ls);
    if h == 0 {
      LastExact(ls, k + 1, ls[k].level);
    } else {
      Ancestor(items, ls, k, h - 1);
      var j := Up(items, k, h - 1).value;
      assert OutlineAt(items, ls, j);
      AncestorStep(items, ls, k, h, j);
    }
  }

  /** One step of Ancestor: the parent of the ancestor h - 1 up is the ancestor h up. */
  lemma {:induction false} AncestorStep(items: seq<Item>, ls: seq<Line>, k: nat, h: nat, j: nat)
    requires ParentsBelow(items) && |items| == |ls| && WellIndented(ls) && k < |ls| && 0 < h <= ls[k].level
    requires Up(items, k, h - 1) == Some(j) && LastUpTo(ls, k + 1, ls[k].level - (h - 1)) == Some(j)
    requires ls[j].level == ls[k].level - (h - 1) && OutlineAt(items, ls, j)
    ensures Up(items, k, h) == LastUpTo(ls, k + 1, ls[k].level - h)
    ensures Up(items, k, h).Some? && ls[Up(items, k, h).value].level == ls[k].level - h
  {
    ParentOfLast(items, ls, j, k + 1, ls[k].level - h);
    LastExact(ls, k + 1, ls[k].level - h);
    assert Up(items, k, h) == items[j].parent;
  }

  /**
   * The parent of j, the last line before m at most w + 1 deep and lying
   * exactly that deep, is the last line before m at most w deep.
   */
  lemma {:induction false} ParentOfLast(items: seq<Item>, ls: seq<Line>, j: nat, m: nat, w: int)
    requires |items| == |ls| && j < m <= |ls| && OutlineAt(items, ls, j)
    requires LastUpTo(ls, m, w + 1) == Some(j) && ls[j].level == w + 1
    ensures items[j].parent == LastUpTo(ls, m, w)
  {
    LastSkip(ls, j, m, w);
  }

  /** Item k lies exactly as many parents below the top list as line k is indented. */
  lemma {:induction false} DepthIsLevel(items: seq<Item>, ls: seq<Line>, k: nat)
    requires Outline(items, ls) && WellIndented(ls) && k < |ls|
    ensures ParentsBelow(items)
    ensures Up(items, k, ls[k].level).Some? && Up(items, k, ls[k].level + 1).None?
  {
    Ancestor(items, ls, k, ls[k].level);
    var top := Up(items, k, ls[k].level).value;
    assert OutlineAt(items, ls, top);
  }

  /** The first line alone is the outline of a one-item arena. */
  lemma {:induction false} FirstLine(l: Line)
    requires l.level == 0
    ensures Outline([Item(l.text, l.description, None, None, None, None)], [l])
  {
    assert OutlineAt([Item(l.text, l.description, None, None, None, None)], [l], 0);
  }

  /**
   * A line one level deeper than the last becomes its first child: the
   * arena WithChild gives is the outline of the lines with it.
   */
  lemma {:induction false} ChildStep(items: seq<Item>, ls: seq<Line>, l: Line)
    requires Outline(items, ls) && WellIndented(ls + [l]) && |ls| > 0
    requires l.level > ls[|ls| - 1].level
    ensures Outline(WithChild(items, |ls| - 1, l.text, l.description), ls + [l])
  {
    var items', ls' := WithChild(items, |ls| - 1, l.text, l.description), ls + [l];
    forall k | 0 <= k <= |ls|
      ensures OutlineAt(items', ls', k)
    {
      if k == |ls| {
        ChildStepNew(items, ls, l);
      } else {
        assert OutlineAt(items, ls, k);
        ChildStepOld(items, ls, l, k);
      }
    }
  }

  /** ChildStep for the new item: its parent is the last line, exactly one level up. */
  lemma {:induction false} ChildStepNew(items: seq<Item>, ls: seq<Line>, l: Line)
    requires Outline(items, ls) && WellIndented(ls + [l]) && |ls| > 0
    requires l.level > ls[|ls| - 1].level
    ensures OutlineAt(WithChild(items, |ls| - 1, l.text, l.description), ls + [l], |ls|)
  {
    var n, p := |ls|, |ls| - 1;
    WithChildAt(items, p, l.text, l.description);
    assert (ls + [l])[n] == l && (ls + [l])[p] == ls[p];
    assert l.level == ls[p].level + 1;
    LastExtend(ls, l, n, l.level - 1);
    LastExtend(ls, l, n, l.level);
  }

  /** ChildStep for an earlier item k: only the last item gains its child. */
  lemma {:induction false} ChildStepOld(items: seq<Item>, ls: seq<Line>, l: Line, k: nat)
    requires |items| == |ls| && k < |ls| && OutlineAt(items, ls, k)
    requires l.level > ls[|ls| - 1].level
    ensures OutlineAt(WithChild(items, |ls| - 1, l.text, l.description), ls + [l], k)
  {
    ExtendAt(items, ls, l, k);
    WithChildAt(items, |ls| - 1, l.text, l.description);
    if k + 1 < |ls| && FirstFrom(ls, k + 1, ls[k].level).None? {
      assert ls[|ls| - 1].level > ls[k].level;
    }
  }

  /**
   * A line no deeper than the last becomes the next sibling of a, the
   * last earlier line as deep as it: the arena WithNext gives is the
   * outline of the lines with it.
   */
  lemma {:induction false} NextStep(items: seq<Item>, ls: seq<Line>, l: Line, a: nat)
    requires Outline(items, ls) && WellIndented(ls + [l]) && |ls| > 0
    requires l.level <= ls[|ls| - 1].level
    requires LastUpTo(ls, |ls|, l.level) == Some(a) && ls[a].level == l.level
    ensures Outline(WithNext(items, a, l.text, l.description), ls + [l])
  {
    forall k | 0 <= k <= |ls|
      ensures OutlineAt(WithNext(items, a, l.text, l.description), ls + [l], k)
    {
      if k == |ls| {
        NextStepNew(items, ls, l, a);
      } else {
        assert OutlineAt(items, ls, k);
        NextStepOld(items, ls, l, a, k);
      }
    }
  }

  /** NextStep for the new item: it continues a, sharing its parent. */
  lemma {:induction false} NextStepNew(items: seq<Item>, ls: seq<Line>, l: Line, a: nat)
    requires Outline(items, ls) && |ls| > 0
    requires l.level <= ls[|ls| - 1].level
    requires LastUpTo(ls, |ls|, l.level) == Some(a) && ls[a].level == l.level
    ensures OutlineAt(WithNext(items, a, l.text, l.description), ls + [l], |ls|)
  {
    var n := |ls|;
    WithNextAt(items, a, l.text, l.description);
    assert (ls + [l])[n] == l;
    assert OutlineAt(items, ls, a);
    LastExtend(ls, l, n, l.level - 1);
    LastExtend(ls, l, n, l.level);
    LastSkip(ls, a, n, l.level - 1);
  }

  /**
   * A further line keeps the links of an earlier item k, except that k
   * gains the line as next sibling when nothing after k is as shallow as
   * k and the line lies at the level of k.
   */
  lemma {:induction false} ExtendAt(items: seq<Item>, ls: seq<Line>, l: Line, k: nat)
    requires |items| == |ls| && k < |ls| && OutlineAt(items, ls, k)
    ensures (ls + [l])[k] == ls[k]
    ensures k + 1 < |ls| ==> (ls + [l])[k + 1] == ls[k + 1]
    ensures k + 1 == |ls| ==> (ls + [l])[k + 1] == l
    ensures items[k].parent == LastUpTo(ls + [l], k, ls[k].level - 1)
    ensures items[k].prev == AtLevel(ls + [l], LastUpTo(ls + [l], k, ls[k].level), ls[k].level)
    ensures AtLevel(ls + [l], FirstFrom(ls + [l], k + 1, ls[k].level), ls[k].level) ==
      if FirstFrom(ls, k + 1, ls[k].level).None? && l.level == ls[k].level then Some(|ls|) else items[k].next
  {
    var ls' := ls + [l];
    var v: int := ls[k].level;
    assert ls'[k] == ls[k];
    LastExtend(ls, l, k, v - 1);
    LastExtend(ls, l, k, v);
    FirstExtend(ls, l, k + 1, v);
    if k + 1 < |ls| {
      assert ls'[k + 1] == ls[k + 1];
    } else {
      assert ls'[k + 1] == l;
    }
  }

  /** Line k is the last line at most as deep as itself exactly when no later line is. */
  lemma {:induction false} LastIsFinal(ls: seq<Line>, k: nat)
    requires k < |ls|
    ensures LastUpTo(ls, |ls|, ls[k].level) == Some(k) <==> FirstFrom(ls, k + 1, ls[k].level).None?
  {
    if FirstFrom(ls, k + 1, ls[k].level).None? {
      LastSkip(ls, k + 1, |ls|, ls[k].level);
    }
  }

  /** NextStep for an earlier item k: only a gains a next sibling. */
  lemma {:induction false} NextStepOld(items: seq<Item>, ls: seq<Line>, l: Line, a: nat, k: nat)
    requires |items| == |ls| && k < |ls| && OutlineAt(items, ls, k)
    requires l.level <= ls[|ls| - 1].level
    requires LastUpTo(ls, |ls|, l.level) == Some(a) && ls[a].level == l.level
    ensures OutlineAt(WithNext(items, a, l.text, l.description), ls + [l], k)
  {
    ExtendAt(items, ls, l, k);
    WithNextAt(items, a, l.text, l.description);
    LastIsFinal(ls, k);
  }

  /**
   * One more line of well-indented input: builditems, called with the
   * last item as previtem and its level as prevlevel, succeeds and the
   * arena stays the outline of the lines.
   */
  lemma {:induction false} PlacedStep(items: seq<Item>, ls: seq<Line>, prevlevel: nat, l: Line)
    requires Outline(items, ls) && WellIndented(ls + [l])
    requires |ls| > 0 ==> prevlevel == ls[|ls| - 1].level
    ensures ParentsBelow(items)
    ensures var r := Placed(items, LastItem(items), prevlevel, l.level, l.text, l.description);
      r.Some? && Outline(r.value, ls + [l])
  {
    OutlineParents(items, ls);
    WellIndentedPrefix(ls, l);
    if |ls| == 0 {
      assert (ls + [l])[0] == l;
      FirstLine(l);
      assert ls + [l] == [l];
    } else if l.level > prevlevel {
      ChildStep(items, ls, l);
    } else {
      var p := |ls| - 1;
      Ancestor(items, ls, p, prevlevel - l.level);
      NextStep(items, ls, l, Up(items, p, prevlevel - l.level).value);
    }
  }

  /** Dropping the last of well-indented lines leaves them well indented. */
  lemma {:induction false} WellIndentedPrefix(ls: seq<Line>, l: Line)
    requires WellIndented(ls + [l])
    ensures WellIndented(ls)
  {
    forall k | 0 < k < |ls|
      ensures ls[k].level <= ls[k - 1].level + 1
    {
      assert (ls + [l])[k] == ls[k] && (ls + [l])[k - 1] == ls[k - 1];
    }
    if |ls| > 0 {
      assert (ls + [l])[0] == ls[0];
    }
  }

  /** The lines before the last of well-indented lines are well indented. */
  lemma {:induction false} WellIndentedInit(ls: seq<Line>)
    requires WellIndented(ls) && |ls| > 0
    ensures WellIndented(ls[..|ls| - 1]) && ls[..|ls| - 1] + [ls[|ls| - 1]] == ls
  {
  }

  /**
   * Well-indented input never meets the improper-indentation error, and
   * the arena builditems makes of it is the outline of its lines.
   */
  lemma {:induction false} WellIndentedBuilds(ls: seq<Line>)
    requires WellIndented(ls)
    ensures Built(ls).Some? && Outline(Built(ls).value.0, ls)
    decreases |ls|
  {
    if ls != [] {
      var init, l := ls[..|ls| - 1], ls[|ls| - 1];
      WellIndentedInit(ls);
      WellIndentedBuilds(init);
      var (items, prevlevel) := Built(init).value;
      PlacedStep(items, init, prevlevel, l);
      BuiltStep(init, l, items, prevlevel);
    }
  }

  /**
   * The item a pre-order walk visits after k: its child, or else the next
   * sibling of k or of its nearest ancestor that has one; None at the end.
   */
  function Successor(items: seq<Item>, k: nat): Option<nat>
    requires ParentsBelow(items) && k < |items|
  {
    if items[k].child.Some? then items[k].child else Climb(items, k)
  }

  /** The next sibling of j or of its nearest ancestor that has one. */
  function Climb(items: seq<Item>, j: nat): Option<nat>
    requires ParentsBelow(items) && j < |items|
    decreases j
  {
    if items[j].next.Some? then items[j].next
    else if items[j].parent.Some? then (assert ParentBelow(items, j); Climb(items, items[j].parent.value))
    else None
  }

  /**
   * Climbing from the ancestor h parents above k, with h at most the
   * level drop d to the line after k, reaches that line: the ancestors
   * below height d have no next sibling, and the one at d has the line as
   * its next sibling.
   */
  lemma {:induction false} ClimbTo(items: seq<Item>, ls: seq<Line>, k: nat, h: nat)
    requires Outline(items, ls) && WellIndented(ls) && k + 1 < |ls|
    requires ls[k + 1].level <= ls[k].level && h <= ls[k].level - ls[k + 1].level
    ensures ParentsBelow(items) && Up(items, k, h).Some?
    ensures Climb(items, Up(items, k, h).value) == Some(k + 1)
    decreases ls[k].level - ls[k + 1].level - h
  {
    Ancestor(items, ls, k, h);
    var j := Up(items, k, h).value;
    var v := ls[k].level - h;
    assert OutlineAt(items, ls, j);
    assert FirstFrom(ls, j + 1, v) == Some(k + 1);
    if h < ls[k].level - ls[k + 1].level {
      ClimbTo(items, ls, k, h + 1);
      Ancestor(items, ls, k, h + 1);
    }
  }

  /** Climbing from any ancestor of the last item finds nothing: the walk ends there. */
  lemma {:induction false} ClimbOut(items: seq<Item>, ls: seq<Line>, h: nat)
    requires Outline(items, ls) && WellIndented(ls) && |ls| > 0 && h <= ls[|ls| - 1].level
    ensures ParentsBelow(items) && Up(items, |ls| - 1, h).Some?
    ensures Climb(items, Up(items, |ls| - 1, h).value) == None
    decreases ls[|ls| - 1].level - h
  {
    var k := |ls| - 1;
    Ancestor(items, ls, k, h);
    var j := Up(items, k, h).value;
    assert OutlineAt(items, ls, j);
    assert FirstFrom(ls, j + 1, ls[j].level) == None;
    if h < ls[k].level {
      ClimbOut(items, ls, h + 1);
      Ancestor(items, ls, k, h + 1);
    } else {
      assert ls[j].level == 0;
    }
  }

  /**
   * In the outline of well-indented lines the pre-order walk from the
   * root visits the items in line order: item 0 is the root, the
   * successor of item k is item k + 1, and the walk ends after the last
   * item. With the labels of Outline, the walk gives the lines back.
   */
  lemma {:induction false} PreOrder(items: seq<Item>, ls: seq<Line>, k: nat)
    requires Outline(items, ls) && WellIndented(ls) && k < |ls|
    ensures ParentsBelow(items)
    ensures items[0].parent == None && items[0].prev == None
    ensures Successor(items, k) == if k + 1 < |ls| then Some(k + 1) else None
  {
    OutlineParents(items, ls);
    assert OutlineAt(items, ls, 0);
    assert OutlineAt(items, ls, k);
    if k + 1 < |ls| {
      if ls[k + 1].level <= ls[k].level {
        ClimbTo(items, ls, k, 0);
      }
    } else {
      ClimbOut(items, ls, 0);
    }
  }

  /**
   * A first line indented deeper than a later line leaves that line
   * nothing to continue: with levels 1 then 0 the build fails with
   * improper indentation.
   */
  lemma {:induction false} ShallowerThanRootFails(t: seq<byte>, u: seq<byte>)
    ensures Built([Line(1, t, None), Line(0, u, None)]).None?
  {
    var l0, l1 := Line(1, t, None), Line(0, u, None);
    assert [l0, l1][..1] == [l0];
    assert [l0][..0] == [];
    var items := [Item(t, None, None, None, None, None)];
    assert Built([]) == Some(([], 0));
    assert [] + items == items;
    assert Built([l0]) == Some((items, 1));
    assert Up(items, 0, 1) == None;
  }
}
