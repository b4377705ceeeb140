/**
 * Completion and matching: getcomplist descends the item tree along the
 * words before the cursor, itemmatch tests one item against the word
 * being completed, getmatchlist strings the matching siblings into the
 * match chain, and navmatchlist and delmatchlist slide the window of at
 * most maxitems entries over that chain.
 *
 * The match chain, which the source threads through the prevmatch and
 * nextmatch fields of the items, is a sequence of arena indices; the
 * links firstmatch, matchlist and selitem become positions in it
 * (firstmatch is position 0).
 */
module Matching {
  import opened Defs
  import opened CStr
  import opened Items

  /**
   * The options that shape matching: -a (aflag), -d (dflag), -i (icase,
   * fstrncmp being strncasecmp rather than strncmp) and
   * config.worddelimiters.
   */
  datatype Mode = Mode(aflag: bool, dflag: bool, icase: bool, delims: seq<byte>)

  /** Sibling links lead forward in the arena, and child links stay inside it. */
  predicate Forward(items: seq<Item>)
  {
    forall k :: 0 <= k < |items| ==>
      (items[k].next.Some? ==> k < items[k].next.value < |items|)
      && (items[k].child.Some? ==> items[k].child.value < |items|)
  }

  /** A tree builditems produced has forward links. */
  lemma LinkedForward(items: seq<Item>)
    requires Linked(items)
    ensures Forward(items)
  {
    forall k | 0 <= k < |items|
      ensures (items[k].next.Some? ==> k < items[k].next.value < |items|)
      ensures (items[k].child.Some? ==> items[k].child.value < |items|)
    {
      assert LinkedAt(items, k);
    }
  }

  /** An arena index, or NULL. */
  predicate InArena(items: seq<Item>, p: Option<nat>)
  {
    p.Some? ==> p.value < |items|
  }

  /**
   * The list that starts at item p: p and its next siblings in order. The
   * indices rise, so no item appears twice.
   */
  function Siblings(items: seq<Item>, p: Option<nat>): (s: seq<nat>)
    requires Forward(items) && InArena(items, p)
    ensures p.None? <==> s == []
    ensures p.Some? ==> s[0] == p.value
    ensures forall i :: 0 <= i < |s| ==> s[i] < |items| && (p.Some? ==> p.value <= s[i])
    ensures forall i, j :: 0 <= i < j < |s| ==> s[i] < s[j]
    decreases if p.Some? then |items| - p.value else 0
  {
    match p
    case None => []
    case Some(k) => [k] + Siblings(items, items[k].next)
  }

  /** The string an item is matched by: its description under -d when it has one, else its text. */
  function Label(it: Item, dflag: bool): (s: seq<byte>)
    ensures s == it.text || (dflag && it.description.Some? && s == it.description.value)
  {
    if dflag && it.description.Some? then it.description.value else it.text
  }

  /** (*fstrncmp)(s + p, word, |word|) == 0: word starts at byte p of s. */
  predicate MatchesAt(icase: bool, s: seq<byte>, p: nat, word: seq<byte>)
    requires p <= |s|
  {
    StrnEq(icase, s[p..], word, |word|)
  }

  /** The first position from i on that is a delimiter or the terminator. */
  function SkipWord(delims: seq<byte>, s: seq<byte>, i: nat): (j: nat)
    requires i <= |s|
    ensures i <= j <= |s| && (j < |s| ==> IsDelim(delims, s[j]))
    ensures forall k :: i <= k < j ==> !IsDelim(delims, s[k])
    decreases |s| - i
  {
    if i < |s| && !IsDelim(delims, s[i]) then SkipWord(delims, s, i + 1) else i
  }

  /** The first position from i on that is not a delimiter, or holds the terminator. */
  function SkipDelims(delims: seq<byte>, s: seq<byte>, i: nat): (j: nat)
    requires i <= |s|
    ensures i <= j <= |s| && (j < |s| ==> s[j] == NUL || !IsDelim(delims, s[j]))
    ensures forall k :: i <= k < j ==> s[k] != NUL && IsDelim(delims, s[k])
    decreases |s| - i
  {
    if i < |s| && s[i] != NUL && IsDelim(delims, s[i]) then SkipDelims(delims, s, i + 1) else i
  }

  /** Where itemmatch goes next without middle: past the rest of the word and the delimiters after it. */
  function NextToken(delims: seq<byte>, s: seq<byte>, pos: nat): (j: nat)
    requires pos < |s| && s[pos] != NUL
    ensures pos < j <= |s|
  {
    SkipDelims(delims, s, SkipWord(delims, s, pos))
  }

  /**
   * The loop of itemmatch from byte pos of the string s: word matches at
   * pos, or further on, at every byte with middle and at the next word
   * start without it.
   */
  function MatchFrom(s: seq<byte>, pos: nat, word: seq<byte>, middle: bool, icase: bool, delims: seq<byte>): bool
    requires pos <= |s|
    decreases |s| - pos
  {
    if pos == |s| || s[pos] == NUL then false
    else if MatchesAt(icase, s, pos, word) then true
    else if middle then MatchFrom(s, pos + 1, word, middle, icase, delims)
    else MatchFrom(s, NextToken(delims, s, pos), word, middle, icase, delims)
  }

  /** itemmatch(item, word, |word|, middle) */
  function ItemMatch(it: Item, word: seq<byte>, middle: bool, mode: Mode): bool
  {
    MatchFrom(Label(it, mode.dflag), 0, word, middle, mode.icase, mode.delims)
  }

  /** The positions itemmatch tries without middle: 0 and the first byte of every later word. */
  predicate TokenStart(delims: seq<byte>, s: seq<byte>, p: nat)
  {
    p == 0 || (0 < p < |s| && IsDelim(delims, s[p - 1]) && !IsDelim(delims, s[p]))
  }

  /** NextToken reaches the next word start, skipping none. */
  lemma {:induction false} NextTokenIsNext(delims: seq<byte>, s: seq<byte>, pos: nat)
    requires NUL !in s && pos < |s|
    ensures var j := NextToken(delims, s, pos);
      (j < |s| ==> TokenStart(delims, s, j))
      && forall q :: pos < q < j ==> !TokenStart(delims, s, q)
  {
    var w := SkipWord(delims, s, pos);
    var j := SkipDelims(delims, s, w);
    if j < |s| && j > 0 {
      assert s[j] != NUL;
      assert w < j && IsDelim(delims, s[j - 1]);
    }
    forall q | pos < q < j
      ensures !TokenStart(delims, s, q)
    {
      if q <= w {
        assert !IsDelim(delims, s[q - 1]);
      } else {
        assert IsDelim(delims, s[q]);
      }
    }
  }

  /** With middle, itemmatch finds word at any byte of the string. */
  lemma {:induction false} MiddleMatch(s: seq<byte>, pos: nat, word: seq<byte>, icase: bool, delims: seq<byte>)
    requires NUL !in s && pos <= |s|
    ensures MatchFrom(s, pos, word, true, icase, delims) <==>
      exists p :: pos <= p < |s| && MatchesAt(icase, s, p, word)
    decreases |s| - pos
  {
    if pos < |s| {
      MiddleMatch(s, pos + 1, word, icase, delims);
      if MatchFrom(s, pos, word, true, icase, delims) && !MatchesAt(icase, s, pos, word) {
        var p :| pos + 1 <= p < |s| && MatchesAt(icase, s, p, word);
      }
    }
  }

  /** Without middle, itemmatch finds word exactly at the word starts from pos on. */
  lemma {:induction false} TokenMatch(s: seq<byte>, pos: nat, word: seq<byte>, icase: bool, delims: seq<byte>)
    requires NUL !in s && pos <= |s|
    ensures MatchFrom(s, pos, word, false, icase, delims) <==>
      exists p :: pos <= p < |s| && (p == pos || TokenStart(delims, s, p)) && MatchesAt(icase, s, p, word)
    decreases |s| - pos
  {
    if pos < |s| && !MatchesAt(icase, s, pos, word) {
      var j := NextToken(delims, s, pos);
      TokenMatch(s, j, word, icase, delims);
      NextTokenIsNext(delims, s, pos);
      if MatchFrom(s, pos, word, false, icase, delims) {
        var p :| j <= p < |s| && (p == j || TokenStart(delims, s, p)) && MatchesAt(icase, s, p, word);
        assert pos <= p && TokenStart(delims, s, p);
      }
      if exists p :: pos <= p < |s| && (p == pos || TokenStart(delims, s, p)) && MatchesAt(icase, s, p, word) {
        var p :| pos <= p < |s| && (p == pos || TokenStart(delims, s, p)) && MatchesAt(icase, s, p, word);
        assert j <= p;
      }
    }
  }

  /**
   * What itemmatch decides on a label without NUL bytes: without middle,
   * whether word starts the label or one of its later words; with middle,
   * whether word occurs anywhere in it.
   */
  lemma ItemMatchMeans(it: Item, word: seq<byte>, mode: Mode)
    requires NUL !in Label(it, mode.dflag)
    ensures var s := Label(it, mode.dflag);
      (ItemMatch(it, word, false, mode) <==>
        exists p :: 0 <= p < |s| && TokenStart(mode.delims, s, p) && MatchesAt(mode.icase, s, p, word))
      && (ItemMatch(it, word, true, mode) <==> exists p :: 0 <= p < |s| && MatchesAt(mode.icase, s, p, word))
  {
    var s := Label(it, mode.dflag);
    TokenMatch(s, 0, word, mode.icase, mode.delims);
    MiddleMatch(s, 0, word, mode.icase, mode.delims);
  }

  /** The empty word matches every item whose label is not empty, and an empty label matches nothing. */
  lemma EmptyWordMatches(it: Item, middle: bool, mode: Mode)
    ensures var s := Label(it, mode.dflag);
      ItemMatch(it, [], middle, mode) <==> |s| > 0 && s[0] != NUL
  {
  }
  /** Matching with middle from pos reaches any later position with no NUL before it. */
  lemma {:induction false} MiddleReaches(s: seq<byte>, pos: nat, j: nat, word: seq<byte>, icase: bool, delims: seq<byte>)
    requires pos <= j <= |s|
    requires forall k :: pos <= k < j ==> s[k] != NUL
    ensures MatchFrom(s, j, word, true, icase, delims) ==> MatchFrom(s, pos, word, true, icase, delims)
    decreases j - pos
  {
    if pos < j {
      MiddleReaches(s, pos + 1, j, word, icase, delims);
    }
  }

  /** Every match at a word start is a match with middle: the second pass of getmatchlist adds only new items. */
  lemma {:induction false} TokenImpliesMiddle(s: seq<byte>, pos: nat, word: seq<byte>, icase: bool, delims: seq<byte>)
    requires pos <= |s|
    ensures MatchFrom(s, pos, word, false, icase, delims) ==> MatchFrom(s, pos, word, true, icase, delims)
    decreases |s| - pos
  {
    if pos < |s| && s[pos] != NUL && !MatchesAt(icase, s, pos, word) {
      var j := NextToken(delims, s, pos);
      TokenImpliesMiddle(s, j, word, icase, delims);
      MiddleReaches(s, pos, j, word, icase, delims);
    }
  }

  predicate Increasing(s: seq<nat>)
  {
    forall i, j :: 0 <= i < j < |s| ==> s[i] < s[j]
  }

  /** Whether an item joins the chain in the first pass (middle false) or in the second (middle true). */
  predicate InPass(it: Item, word: seq<byte>, middle: bool, mode: Mode)
  {
    if middle then !ItemMatch(it, word, false, mode) && ItemMatch(it, word, true, mode)
    else ItemMatch(it, word, false, mode)
  }

  /** The items of the list sibs one pass of getmatchlist links, in list order. */
  function Pass(items: seq<Item>, sibs: seq<nat>, word: seq<byte>, middle: bool, mode: Mode): (r: seq<nat>)
    requires forall i :: 0 <= i < |sibs| ==> sibs[i] < |items|
    ensures forall i :: 0 <= i < |r| ==> r[i] in sibs && r[i] < |items|
    ensures forall i :: 0 <= i < |sibs| ==> (sibs[i] in r <==> InPass(items[sibs[i]], word, middle, mode))
  {
    if |sibs| == 0 then []
    else
      var rest := Pass(items, sibs[1..], word, middle, mode);
      assert forall i :: 1 <= i < |sibs| ==> sibs[i] == sibs[1..][i - 1];
      if InPass(items[sibs[0]], word, middle, mode) then [sibs[0]] + rest else rest
  }

  /** One step of a pass: the head of the list, when it passes, then the pass over the rest. */
  lemma PassCons(items: seq<Item>, sibs: seq<nat>, word: seq<byte>, middle: bool, mode: Mode)
    requires forall i :: 0 <= i < |sibs| ==> sibs[i] < |items|
    requires |sibs| > 0
    ensures Pass(items, sibs, word, middle, mode) ==
      (if InPass(items[sibs[0]], word, middle, mode) then [sibs[0]] else []) + Pass(items, sibs[1..], word, middle, mode)
  {
  }

  /** One step of a pass along the sibling links: item k, when it passes, then the pass from its next sibling on. */
  lemma PassStep(items: seq<Item>, k: nat, word: seq<byte>, middle: bool, mode: Mode)
    requires Forward(items) && k < |items|
    ensures Pass(items, Siblings(items, Some(k)), word, middle, mode) ==
      (if InPass(items[k], word, middle, mode) then [k] else []) + Pass(items, Siblings(items, items[k].next), word, middle, mode)
  {
    assert Siblings(items, Some(k))[1..] == Siblings(items, items[k].next);
    PassCons(items, Siblings(items, Some(k)), word, middle, mode);
  }

  lemma Associative(a: seq<nat>, b: seq<nat>, c: seq<nat>)
    ensures (a + b) + c == a + (b + c)
  {
  }

  /** The loop invariant of a pass, carried from item k to its next sibling. */
  lemma LinkStep(items: seq<Item>, complist: Option<nat>, k: nat, linked: seq<nat>, word: seq<byte>, middle: bool, mode: Mode)
    requires Forward(items) && InArena(items, complist) && k < |items|
    requires linked + Pass(items, Siblings(items, Some(k)), word, middle, mode)
             == Pass(items, Siblings(items, complist), word, middle, mode)
    ensures (if InPass(items[k], word, middle, mode) then linked + [k] else linked)
            + Pass(items, Siblings(items, items[k].next), word, middle, mode)
            == Pass(items, Siblings(items, complist), word, middle, mode)
  {
    var here := Pass(items, Siblings(items, Some(k)), word, middle, mode);
    var rest := Pass(items, Siblings(items, items[k].next), word, middle, mode);
    PassStep(items, k, word, middle, mode);
    if InPass(items[k], word, middle, mode) {
      assert here == [k] + rest;
      Associative(linked, [k], rest);
    } else {
      assert here == rest;
    }
  }

  /** A pass keeps the order of the list. */
  lemma {:induction false} PassIncreasing(items: seq<Item>, sibs: seq<nat>, word: seq<byte>, middle: bool, mode: Mode)
    requires forall i :: 0 <= i < |sibs| ==> sibs[i] < |items|
    requires Increasing(sibs)
    ensures Increasing(Pass(items, sibs, word, middle, mode))
  {
    if |sibs| > 0 {
      var rest := Pass(items, sibs[1..], word, middle, mode);
      PassIncreasing(items, sibs[1..], word, middle, mode);
      PassAbove(items, sibs[1..], word, middle, mode, sibs[0]);
      ConsIncreasing(sibs[0], rest);
    }
  }

  /** A pass over items all above b links only items above b. */
  lemma {:induction false} PassAbove(items: seq<Item>, sibs: seq<nat>, word: seq<byte>, middle: bool, mode: Mode, b: nat)
    requires forall i :: 0 <= i < |sibs| ==> b < sibs[i] < |items|
    ensures forall i :: 0 <= i < |Pass(items, sibs, word, middle, mode)| ==> b < Pass(items, sibs, word, middle, mode)[i]
  {
    if |sibs| > 0 {
      PassAbove(items, sibs[1..], word, middle, mode, b);
    }
  }

  lemma ConsIncreasing(h: nat, rest: seq<nat>)
    requires Increasing(rest) && forall i :: 0 <= i < |rest| ==> h < rest[i]
    ensures Increasing([h] + rest)
  {
  }

  /** Two increasing runs placed one after the other: a pair out of order straddles the seam. */
  lemma TwoRuns(first: seq<nat>, second: seq<nat>, i: nat, j: nat)
    requires Increasing(first) && Increasing(second) && i < j < |first| + |second|
    ensures (first + second)[i] < (first + second)[j] || i < |first| <= j
  {
    if j < |first| {
      assert (first + second)[i] == first[i] && (first + second)[j] == first[j];
    } else if |first| <= i {
      assert (first + second)[i] == second[i - |first|] && (first + second)[j] == second[j - |first|];
    }
  }

  /**
   * The match chain getmatchlist builds from the list complist: the items
   * matching word at a word start, then those matching it only in the
   * middle.
   */
  function MatchChain(items: seq<Item>, complist: Option<nat>, word: seq<byte>, mode: Mode): (chain: seq<nat>)
    requires Forward(items) && InArena(items, complist)
    ensures forall i :: 0 <= i < |chain| ==> chain[i] < |items|
  {
    var sibs := Siblings(items, complist);
    Pass(items, sibs, word, false, mode) + Pass(items, sibs, word, true, mode)
  }

  /** A pass over a list none of whose items passes its test links nothing. */
  lemma {:induction false} PassNone(items: seq<Item>, sibs: seq<nat>, word: seq<byte>, middle: bool, mode: Mode)
    requires forall i :: 0 <= i < |sibs| ==> sibs[i] < |items| && !InPass(items[sibs[i]], word, middle, mode)
    ensures Pass(items, sibs, word, middle, mode) == []
  {
    if |sibs| > 0 {
      PassNone(items, sibs[1..], word, middle, mode);
    }
  }

  /** Whatever a pass links passes its test. */
  lemma PassMember(items: seq<Item>, sibs: seq<nat>, word: seq<byte>, middle: bool, mode: Mode, x: nat)
    requires forall i :: 0 <= i < |sibs| ==> sibs[i] < |items|
    requires x in Pass(items, sibs, word, middle, mode)
    ensures x < |items| && InPass(items[x], word, middle, mode)
  {
    var k :| 0 <= k < |sibs| && sibs[k] == x;
  }

  /** The chain holds exactly the items of the list that match word, at a word start or in the middle. */
  lemma ChainMembers(items: seq<Item>, complist: Option<nat>, word: seq<byte>, mode: Mode)
    requires Forward(items) && InArena(items, complist)
    ensures var sibs := Siblings(items, complist);
      var chain := MatchChain(items, complist, word, mode);
      (forall x :: x in chain ==> x in sibs)
      && (forall i :: 0 <= i < |sibs| ==> (sibs[i] in chain <==> ItemMatch(items[sibs[i]], word, true, mode)))
  {
    var sibs := Siblings(items, complist);
    forall i | 0 <= i < |sibs|
      ensures ItemMatch(items[sibs[i]], word, false, mode) ==> ItemMatch(items[sibs[i]], word, true, mode)
    {
      TokenImpliesMiddle(Label(items[sibs[i]], mode.dflag), 0, word, mode.icase, mode.delims);
    }
  }

  /**
   * Each item appears in the chain once; those matching at a word start
   * come first, and each group keeps the order of the list.
   */
  lemma ChainOrder(items: seq<Item>, complist: Option<nat>, word: seq<byte>, mode: Mode)
    requires Forward(items) && InArena(items, complist)
    ensures var chain := MatchChain(items, complist, word, mode);
      (forall i, j :: 0 <= i < j < |chain| ==> chain[i] != chain[j])
      && (forall i, j :: 0 <= i < j < |chain| ==>
            chain[i] < chain[j]
            || (ItemMatch(items[chain[i]], word, false, mode) && !ItemMatch(items[chain[j]], word, false, mode)))
  {
    var sibs := Siblings(items, complist);
    var first := Pass(items, sibs, word, false, mode);
    var second := Pass(items, sibs, word, true, mode);
    var chain := MatchChain(items, complist, word, mode);
    assert chain == first + second;
    PassIncreasing(items, sibs, word, false, mode);
    PassIncreasing(items, sibs, word, true, mode);
    forall i, j | 0 <= i < j < |chain|
      ensures chain[i] < chain[j]
        || (ItemMatch(items[chain[i]], word, false, mode) && !ItemMatch(items[chain[j]], word, false, mode))
    {
      TwoRuns(first, second, i, j);
      if i < |first| <= j {
        PassMember(items, sibs, word, false, mode, chain[i]);
        PassMember(items, sibs, word, true, mode, chain[j]);
      }
    }
  }

  /** With nothing typed before the cursor every item of the list with a label joins the chain, list order kept. */
  lemma EmptyWordChain(items: seq<Item>, complist: Option<nat>, mode: Mode)
    requires Forward(items) && InArena(items, complist)
    ensures var sibs := Siblings(items, complist);
      var chain := MatchChain(items, complist, [], mode);
      Increasing(chain)
      && forall i :: 0 <= i < |sibs| ==>
           (sibs[i] in chain <==> (|Label(items[sibs[i]], mode.dflag)| > 0 && Label(items[sibs[i]], mode.dflag)[0] != NUL))
  {
    var sibs := Siblings(items, complist);
    forall i | 0 <= i < |sibs|
      ensures !InPass(items[sibs[i]], [], true, mode)
    {
      EmptyWordMatches(items[sibs[i]], true, mode);
      EmptyWordMatches(items[sibs[i]], false, mode);
    }
    forall i | 0 <= i < |sibs|
      ensures InPass(items[sibs[i]], [], false, mode) <==>
        (|Label(items[sibs[i]], mode.dflag)| > 0 && Label(items[sibs[i]], mode.dflag)[0] != NUL)
    {
      EmptyWordMatches(items[sibs[i]], false, mode);
    }
    var first := Pass(items, sibs, [], false, mode);
    var second := Pass(items, sibs, [], true, mode);
    assert MatchChain(items, complist, [], mode) == first + second;
    PassNone(items, sibs, [], true, mode);
    assert first + second == first;
    PassIncreasing(items, sibs, [], false, mode);
  }

  /**
   * The start of the word before the cursor: just past the last delimiter
   * before the cursor, or the start of the text.
   */
  function WordStart(delims: seq<byte>, text: seq<byte>, cursor: nat): (b: nat)
    requires cursor <= |text|
    ensures b <= cursor
    ensures forall k :: b <= k < cursor ==> !IsDelim(delims, text[k])
    ensures b == 0 || IsDelim(delims, text[b - 1])
  {
    if cursor == 0 then 0
    else if IsDelim(delims, text[cursor - 1]) then cursor
    else WordStart(delims, text, cursor - 1)
  }

  /** getcomplist's test of an item against a word typed before the cursor: the word starts its label. */
  predicate LabelStarts(it: Item, word: seq<byte>, mode: Mode)
  {
    MatchesAt(mode.icase, Label(it, mode.dflag), 0, word)
  }

  /** The search of getcomplist along the list from p: the first item whose label starts with word. */
  function FindItem(items: seq<Item>, p: Option<nat>, word: seq<byte>, mode: Mode): (r: Option<nat>)
    requires Forward(items) && InArena(items, p)
    ensures var sibs := Siblings(items, p);
      (r.Some? ==> r.value in sibs && LabelStarts(items[r.value], word, mode))
      && forall i :: 0 <= i < |sibs| && (r.None? || sibs[i] < r.value) ==> !LabelStarts(items[sibs[i]], word, mode)
    decreases if p.Some? then |items| - p.value else 0
  {
    match p
    case None => None
    case Some(k) =>
      if LabelStarts(items[k], word, mode) then p else FindItem(items, items[k].next, word, mode)
  }

  /** Where getcomplist's scan of a word from e stops: at the cursor, a delimiter or the terminator. */
  function WordEnd(delims: seq<byte>, text: seq<byte>, cursor: nat, e: nat): (r: nat)
    requires NUL in text && e <= Strlen(text)
    ensures e <= r <= Strlen(text)
    ensures cursor < e || r <= cursor
    ensures forall k :: e <= k < r ==> !IsDelim(delims, text[k])
    ensures r == cursor || IsDelim(delims, text[r])
    decreases Strlen(text) - e
  {
    if e != cursor && !IsDelim(delims, text[e]) then WordEnd(delims, text, cursor, e + 1) else e
  }

  /** The next word getcomplist reads from end on: where it begins and where it ends. */
  function NextWord(delims: seq<byte>, text: seq<byte>, cursor: nat, end: nat): (w: (nat, nat))
    requires NUL in text && end < cursor <= Strlen(text)
    ensures end <= w.0 <= w.1 <= Strlen(text) && end < w.1
  {
    var b := SkipDelims(delims, text, end);
    assert b <= Strlen(text);
    (b, WordEnd(delims, text, cursor, b))
  }

  /**
   * The loop of getcomplist from end on: curr is the list searched, found
   * whether a word has matched, nword the number of words read so far.
   */
  function CompFrom(items: seq<Item>, root: Option<nat>, text: seq<byte>, cursor: nat, mode: Mode,
                    end: nat, curr: Option<nat>, found: bool, nword: nat): (r: Option<nat>)
    requires Forward(items) && InArena(items, curr)
    requires NUL in text && cursor <= Strlen(text) && end <= Strlen(text)
    ensures InArena(items, r)
    decreases Strlen(text) - end
  {
    if end >= cursor then
      (if !found && nword > 1 then None else curr)
    else
      var (b, e) := NextWord(mode.delims, text, cursor, end);
      if e == cursor then CompFrom(items, root, text, cursor, mode, e, curr, found, nword + 1)
      else
        match FindItem(items, curr, text[b..e], mode)
        case None => CompFrom(items, root, text, cursor, mode, e, curr, found, nword + 1)
        case Some(it) =>
          if mode.aflag && items[it].child.None? && curr != root then curr
          else CompFrom(items, root, text, cursor, mode, e, items[it].child, true, nword + 1)
  }

  /** getcomplist(prompt, rootitem): the list of possible completions, None for NULL. */
  function CompList(items: seq<Item>, root: Option<nat>, text: seq<byte>, cursor: nat, mode: Mode): (r: Option<nat>)
    requires Forward(items) && InArena(items, root)
    requires NUL in text && cursor <= Strlen(text)
    ensures InArena(items, r)
    ensures cursor == 0 ==> r == root
  {
    CompFrom(items, root, text, cursor, mode, 0, root, false, 0)
  }

  /** The two scans of getcomplist: past the delimiters from end, then to the end of the word. */
  method ScanWord(delims: seq<byte>, text: seq<byte>, cursor: nat, end: nat) returns (beg: nat, wend: nat)
    requires NUL in text && end < cursor <= Strlen(text)
    ensures (beg, wend) == NextWord(delims, text, cursor, end)
  {
    beg := end;
    while text[beg] != NUL && IsDelim(delims, text[beg])
      invariant end <= beg <= Strlen(text)
      invariant SkipDelims(delims, text, beg) == SkipDelims(delims, text, end)
      decreases Strlen(text) - beg
    {
      beg := beg + 1;
    }
    wend := beg;
    while wend != cursor && !IsDelim(delims, text[wend])
      invariant beg <= wend <= Strlen(text)
      invariant WordEnd(delims, text, cursor, wend) == WordEnd(delims, text, cursor, beg)
      decreases Strlen(text) - wend
    {
      wend := wend + 1;
    }
  }

  /** The search loop of getcomplist along the list from curr. */
  method SearchList(items: seq<Item>, curr: Option<nat>, word: seq<byte>, mode: Mode) returns (item: Option<nat>)
    requires Forward(items) && InArena(items, curr)
    ensures item == FindItem(items, curr, word, mode)
  {
    item := curr;
    while item.Some? && !LabelStarts(items[item.value], word, mode)
      invariant InArena(items, item)
      invariant FindItem(items, item, word, mode) == FindItem(items, curr, word, mode)
      decreases if item.Some? then |items| - item.value else 0
    {
      item := items[item.value].next;
    }
  }

  /**
   * getcomplist: for each word before the cursor that the cursor does not
   * end, descend into the children of the first item of the current list
   * whose label it starts. NULL when no word matched and more than one
   * word was read; under -a, a word matching a childless item below the
   * root stops the descent at the list holding that item.
   */
  method GetCompList(items: seq<Item>, root: Option<nat>, text: seq<byte>, cursor: nat, mode: Mode)
    returns (r: Option<nat>)
    requires Forward(items) && InArena(items, root)
    requires NUL in text && cursor <= Strlen(text)
    ensures r == CompList(items, root, text, cursor, mode)
  {
    var nword := 0;
    var found := false;
    var end := 0;
    var curr := root;
    while end < cursor
      invariant end <= Strlen(text) && InArena(items, curr)
      invariant CompFrom(items, root, text, cursor, mode, end, curr, found, nword) == CompList(items, root, text, cursor, mode)
      decreases Strlen(text) - end
    {
      nword := nword + 1;
      var beg;
      beg, end := ScanWord(mode.delims, text, cursor, end);
      if end != cursor {
        var item := SearchList(items, curr, text[beg..end], mode);
        if item.Some? {
          if mode.aflag && items[item.value].child.None? && curr != root {
            return curr;
          }
          curr := items[item.value].child;
          found := true;
        }
      }
    }
    if !found && nword > 1 {
      return None;
    }
    return curr;
  }

  /** How many words getcomplist reads from end on. */
  function WordCount(delims: seq<byte>, text: seq<byte>, cursor: nat, end: nat): nat
    requires NUL in text && cursor <= Strlen(text) && end <= Strlen(text)
    decreases Strlen(text) - end
  {
    if end >= cursor then 0
    else 1 + WordCount(delims, text, cursor, NextWord(delims, text, cursor, end).1)
  }

  /** No word getcomplist reads from end on and the cursor does not end starts the label of an item of the list p. */
  predicate NoneMatch(items: seq<Item>, p: Option<nat>, text: seq<byte>, cursor: nat, mode: Mode, end: nat)
    requires Forward(items) && InArena(items, p)
    requires NUL in text && cursor <= Strlen(text) && end <= Strlen(text)
    decreases Strlen(text) - end
  {
    end < cursor ==>
      var (b, e) := NextWord(mode.delims, text, cursor, end);
      (e != cursor ==> FindItem(items, p, text[b..e], mode).None?)
      && NoneMatch(items, p, text, cursor, mode, e)
  }

  /** The loop of getcomplist yields NULL when, from end on, no word it completes matches the root list. */
  lemma {:induction false} CompFromUnmatched(items: seq<Item>, root: Option<nat>, text: seq<byte>, cursor: nat,
                                             mode: Mode, end: nat, nword: nat)
    requires Forward(items) && InArena(items, root)
    requires NUL in text && cursor <= Strlen(text) && end <= Strlen(text)
    requires nword + WordCount(mode.delims, text, cursor, end) > 1
    requires NoneMatch(items, root, text, cursor, mode, end)
    ensures CompFrom(items, root, text, cursor, mode, end, root, false, nword) == None
    decreases Strlen(text) - end
  {
    if end < cursor {
      var (b, e) := NextWord(mode.delims, text, cursor, end);
      assert NoneMatch(items, root, text, cursor, mode, e);
      assert WordCount(mode.delims, text, cursor, end) == 1 + WordCount(mode.delims, text, cursor, e);
      CompFromUnmatched(items, root, text, cursor, mode, e, nword + 1);
      assert e != cursor ==> FindItem(items, root, text[b..e], mode).None?;
    }
  }

  /**
   * getcomplist returns NULL when more than one word was read and none of
   * the words the cursor does not end starts the label of an item of the
   * root list.
   */
  lemma CompListUnmatched(items: seq<Item>, root: Option<nat>, text: seq<byte>, cursor: nat, mode: Mode)
    requires Forward(items) && InArena(items, root)
    requires NUL in text && cursor <= Strlen(text)
    requires WordCount(mode.delims, text, cursor, 0) > 1 && NoneMatch(items, root, text, cursor, mode, 0)
    ensures CompList(items, root, text, cursor, mode) == None
  {
    CompFromUnmatched(items, root, text, cursor, mode, 0, 0);
  }

  /** The scan of a word from e stops at m when m is the first cursor or delimiter position. */
  lemma {:induction false} WordEndAt(delims: seq<byte>, text: seq<byte>, cursor: nat, e: nat, m: nat)
    requires NUL in text && e <= m <= Strlen(text)
    requires forall k :: e <= k < m ==> !IsDelim(delims, text[k])
    requires cursor < e || m <= cursor
    requires m == cursor || IsDelim(delims, text[m])
    ensures WordEnd(delims, text, cursor, e) == m
    decreases m - e
  {
    if e < m {
      WordEndAt(delims, text, cursor, e + 1, m);
    }
  }

  /**
   * A word and a delimiter typed at the start of the prompt, the cursor at
   * the end: getcomplist gives the children of the first item of the root
   * list whose label the word starts, or NULL when there is none.
   */
  lemma {:induction false} CompListOneWord(items: seq<Item>, root: Option<nat>, text: seq<byte>, w: seq<byte>, d: byte, mode: Mode)
    requires Forward(items) && InArena(items, root)
    requires |w| > 0 && (forall k :: 0 <= k < |w| ==> !IsDelim(mode.delims, w[k]))
    requires d != NUL && d in mode.delims
    requires |w| + 2 <= |text| && text[..|w| + 2] == w + [d, NUL]
    ensures NUL in text && |w| + 1 <= Strlen(text)
    ensures CompList(items, root, text, |w| + 1, mode) ==
      match FindItem(items, root, w, mode)
      case None => None
      case Some(it) => items[it].child
  {
    var n := |w| + 1;
    assert text[n] == NUL;
    assert NUL !in text[..n] by {
      forall k | 0 <= k < n
        ensures text[..n][k] != NUL
      {
        assert text[k] == (w + [d, NUL])[k];
      }
    }
    StrlenIs(text, n);
    assert forall k :: 0 <= k < |w| ==> text[k] == w[k];
    assert SkipDelims(mode.delims, text, 0) == 0;
    WordEndAt(mode.delims, text, n, 0, |w|);
    assert text[0..|w|] == w;
    assert text[|w|] == d;
    assert SkipDelims(mode.delims, text, |w| + 1) == n;
    assert SkipDelims(mode.delims, text, |w|) == n;
    assert WordEnd(mode.delims, text, n, n) == n;
    assert NextWord(mode.delims, text, n, 0) == (0, |w|);
    assert NextWord(mode.delims, text, n, |w|) == (n, n);
    var r := FindItem(items, root, w, mode);
    var curr := if r.Some? then items[r.value].child else root;
    assert CompFrom(items, root, text, n, mode, |w|, curr, r.Some?, 1) ==
      CompFrom(items, root, text, n, mode, n, curr, r.Some?, 2);
  }

  /** Where navmatchlist moves selitem: one step along the chain in the direction asked, staying put at either end. */
  function Stepped(sel: nat, n: nat, direction: int): (s: nat)
    requires sel < n
    ensures s < n
    ensures direction > 0 ==> s == (if sel + 1 < n then sel + 1 else sel)
    ensures direction < 0 ==> s == (if sel > 0 then sel - 1 else sel)
    ensures direction == 0 ==> s == sel
  {
    if direction > 0 && sel + 1 < n then sel + 1
    else if direction < 0 && sel > 0 then sel - 1
    else sel
  }

  /**
   * Where navmatchlist moves matchlist, the first item shown: a page on
   * when the selection steps past the last row, a page back (or to the
   * first match) when it steps above the first.
   */
  function Paged(top: nat, sel: nat, n: nat, maxitems: nat, direction: int): (t: nat)
    requires top < n && sel < n
    requires maxitems >= 1 ==> top <= sel < top + maxitems
    ensures t < n
  {
    if direction > 0 && sel + 1 < n then
      if maxitems >= 1 && sel + 1 == top + maxitems then sel + 1 else top
    else if direction < 0 && sel > 0 then
      if sel == top then (if top >= maxitems then top - maxitems else 0) else top
    else top
  }

  /**
   * The window keeps the selection in view: the selected match is among
   * the maxitems shown from matchlist on. The window moves only when the
   * selection leaves it; a page forward starts at the newly selected
   * match, a page back ends just above the old first row.
   */
  lemma WindowFollowsSelection(top: nat, sel: nat, n: nat, maxitems: nat, direction: int)
    requires top < n && sel < n && maxitems >= 1 && top <= sel < top + maxitems
    ensures var s := Stepped(sel, n, direction);
      var t := Paged(top, sel, n, maxitems, direction);
      t <= s < t + maxitems
      && (top <= s < top + maxitems ==> t == top)
      && (s >= top + maxitems ==> t == s)
      && (s < top ==> s == top - 1 && t == (if top >= maxitems then top - maxitems else 0))
  {
  }

  /**
   * The match window as a value: the chain, matchlist (top) and selitem
   * (sel) as positions in it, and the nitems matches shown.
   */
  datatype Window = Window(chain: seq<nat>, top: Option<nat>, sel: Option<nat>, nitems: nat, shown: seq<nat>)

  /** w after delmatchlist: nothing is shown; the chain and the selection stay. */
  function Closed(w: Window): Window
  {
    w.(top := None, nitems := 0, shown := [])
  }

  /**
   * The window getmatchlist and navmatchlist(0) set up on chain: the first
   * match selected and shown first, as many shown as fit; with no match,
   * nothing shown and nothing selected.
   */
  function Rebuilt(chain: seq<nat>, maxitems: nat): Window
  {
    if chain == [] then Window([], None, None, 0, [])
    else var n := Min(maxitems, |chain|); Window(chain, Some(0), Some(0), n, chain[..n])
  }

  /**
   * The window completion opens on chain from w: Rebuilt, except that with
   * no match the rows of w stay as they were.
   */
  function Opened(chain: seq<nat>, w: Window, maxitems: nat): Window
  {
    if chain == [] then w.(chain := [], top := None, sel := None) else Rebuilt(chain, maxitems)
  }

  /**
   * w after navmatchlist(direction) in completion: the selection steps one
   * match, the window pages after it, and the rows shown are the matches
   * from the new top on.
   */
  function Scrolled(w: Window, direction: int, maxitems: nat): Window
    requires w.top.Some? && w.sel.Some? && w.top.value < |w.chain| && w.sel.value < |w.chain|
    requires maxitems >= 1 ==> w.top.value <= w.sel.value < w.top.value + maxitems
  {
    var n := |w.chain|;
    var t := Paged(w.top.value, w.sel.value, n, maxitems, direction);
    var k := Min(maxitems, n - t);
    Window(w.chain, Some(t), Some(Stepped(w.sel.value, n, direction)), k, w.chain[t..t + k])
  }

  /**
   * The window of the match chain shown below the prompt: matchlist (top)
   * and selitem (sel) are positions in the chain, itemarray holds the
   * nitems matches shown from matchlist on, and shown is what its first
   * nitems entries hold.
   */
  class MatchWindow {
    var chain: seq<nat>
    var top: Option<nat>
    var sel: Option<nat>
    var nitems: nat
    const maxitems: nat
    const itemarray: array<nat>
    ghost var shown: seq<nat>

    ghost predicate Valid()
      reads this, itemarray
    {
      itemarray.Length == maxitems && nitems <= maxitems
      && |shown| == nitems && (forall k :: 0 <= k < nitems ==> itemarray[k] == shown[k])
      && (sel.Some? ==> sel.value < |chain|)
      && (top.Some? ==> top.value < |chain|)
      && (maxitems >= 1 && sel.Some? && top.Some? ==> top.value <= sel.value < top.value + maxitems)
    }

    /** setpromptarray: no matches, room for number_items rows. */
    constructor(numberItems: nat)
      ensures Valid() && maxitems == numberItems && fresh(itemarray)
      ensures chain == [] && top == None && sel == None && nitems == 0
    {
      chain := [];
      top := None;
      sel := None;
      nitems := 0;
      maxitems := numberItems;
      itemarray := new nat[numberItems];
      shown := [];
    }

    /** The window as a value. */
    ghost function View(): Window
      reads this
    {
      Window(chain, top, sel, nitems, shown)
    }

    /** prevmatch of the match at position p: None at the first match. */
    function PrevMatch(p: nat): (q: Option<nat>)
    {
      if p > 0 then Some(p - 1) else None
    }

    /** nextmatch of the match at position p: None at the last match. */
    function NextMatch(p: nat): (q: Option<nat>)
      reads this
    {
      if p + 1 < |chain| then Some(p + 1) else None
    }

    /**
     * getmatchlist(prompt, complist): the chain of the items of the list
     * complist that match the word before the cursor, firstmatch,
     * matchlist and selitem all its head.
     */
    method GetMatchList(items: seq<Item>, complist: Option<nat>, text: seq<byte>, cursor: nat, mode: Mode)
      requires Valid() && Forward(items) && InArena(items, complist)
      requires NUL in text && cursor <= Strlen(text)
      modifies this
      ensures Valid() && nitems == old(nitems)
      ensures chain == MatchChain(items, complist, text[WordStart(mode.delims, text, cursor)..cursor], mode)
      ensures top == sel == (if chain == [] then None else Some(0))
    {
      var beg := WordBegin(mode.delims, text, cursor);
      var word := text[beg..cursor];
      var first := LinkPass(items, complist, word, false, mode);
      var second := LinkPass(items, complist, word, true, mode);
      chain := first + second;
      if chain == [] {
        top, sel := None, None;
      } else {
        top, sel := Some(0), Some(0);
      }
    }

    /** The backward scan of getmatchlist for the start of the word the cursor ends. */
    static method WordBegin(delims: seq<byte>, text: seq<byte>, cursor: nat) returns (beg: nat)
      requires cursor <= |text|
      ensures beg == WordStart(delims, text, cursor)
    {
      if cursor == 0 {
        return 0;
      }
      beg := cursor;
      var stop := false;
      while beg > 0 && !stop
        invariant beg <= cursor
        invariant beg < cursor ==> (stop <==> IsDelim(delims, text[beg]))
        invariant !stop ==> WordStart(delims, text, beg) == WordStart(delims, text, cursor)
        invariant stop ==> beg + 1 == WordStart(delims, text, cursor)
      {
        beg := beg - 1;
        stop := IsDelim(delims, text[beg]);
      }
      if IsDelim(delims, text[beg]) {
        beg := beg + 1;
      }
    }

    /** One of the two loops of getmatchlist: the items of the list complist that pass its test, in order. */
    static method LinkPass(items: seq<Item>, complist: Option<nat>, word: seq<byte>, middle: bool, mode: Mode)
      returns (linked: seq<nat>)
      requires Forward(items) && InArena(items, complist)
      ensures linked == Pass(items, Siblings(items, complist), word, middle, mode)
    {
      linked := [];
      var item := complist;
      while item.Some?
        invariant InArena(items, item)
        invariant linked + Pass(items, Siblings(items, item), word, middle, mode)
                  == Pass(items, Siblings(items, complist), word, middle, mode)
        decreases if item.Some? then |items| - item.value else 0
      {
        var k := item.value;
        LinkStep(items, complist, k, linked, word, middle, mode);
        if InPass(items[k], word, middle, mode) {
          linked := linked + [k];
        }
        item := items[k].next;
      }
    }

    /**
     * navmatchlist(prompt, direction): selitem steps along the chain,
     * matchlist pages when the selection leaves the window, and itemarray
     * is refilled with the matches from matchlist on.
     */
    method NavMatchList(direction: int)
      requires Valid() && (sel.Some? ==> top.Some?)
      modifies this, itemarray
      ensures Valid() && chain == old(chain)
      ensures old(sel).None? ==> sel == old(sel) && top == old(top) && nitems == old(nitems)
                                 && shown == old(shown) && itemarray[..] == old(itemarray[..])
      ensures old(sel).Some? ==>
        sel == Some(Stepped(old(sel).value, |chain|, direction))
        && top == Some(Paged(old(top).value, old(sel).value, |chain|, maxitems, direction))
        && nitems == Min(maxitems, |chain| - top.value)
        && shown == chain[top.value..top.value + nitems]
    {
      if sel.None? {
        return;
      }
      var s := sel.value;
      if direction > 0 && s + 1 < |chain| {
        StepForward();
      } else if direction < 0 && s > 0 {
        StepBack();
      }
      FillItems();
    }

    /**
     * The forward branch of navmatchlist: selitem moves to its nextmatch;
     * when the old selection was on the last row, matchlist moves maxitems
     * matches on, or to the new selection when the chain ends sooner.
     */
    method StepForward()
      requires Valid() && sel.Some? && top.Some? && sel.value + 1 < |chain|
      modifies this
      ensures Valid() && chain == old(chain) && nitems == old(nitems)
      ensures sel == Some(old(sel).value + 1)
      ensures top == Some(Paged(old(top).value, old(sel).value, |chain|, maxitems, 1))
    {
      var s, t := sel.value, top.value;
      sel := Some(s + 1);
      var selnum := 0;
      var item := top;
      while selnum < maxitems && item != PrevMatch(s + 1)
        invariant maxitems >= 1 ==> item == Some(t + selnum) && t + selnum <= s
        invariant maxitems == 0 ==> selnum == 0
      {
        selnum := selnum + 1;
        item := NextMatch(item.value);
      }
      if selnum + 1 >= maxitems {
        var i := 0;
        item := top;
        while i < maxitems && item.Some?
          invariant i <= maxitems && item == (if t + i < |chain| then Some(t + i) else None)
        {
          i := i + 1;
          item := NextMatch(item.value);
        }
        top := if item.Some? then item else sel;
      }
    }

    /**
     * The backward branch of navmatchlist: selitem moves to its prevmatch;
     * when that is the match just above the first row, matchlist moves
     * maxitems matches back, or to firstmatch when the chain starts sooner.
     */
    method StepBack()
      requires Valid() && sel.Some? && top.Some? && sel.value > 0
      modifies this
      ensures Valid() && chain == old(chain) && nitems == old(nitems)
      ensures sel == Some(old(sel).value - 1)
      ensures top == Some(Paged(old(top).value, old(sel).value, |chain|, maxitems, -1))
    {
      var s, t := sel.value, top.value;
      sel := Some(s - 1);
      if sel == PrevMatch(t) {
        var i := 0;
        var item := top;
        while i < maxitems && item.Some?
          invariant i <= maxitems && item == (if i <= t then Some(t - i) else None)
        {
          i := i + 1;
          item := PrevMatch(item.value);
        }
        top := if item.Some? then item else Some(0);
      }
    }

    /** The fill loop of navmatchlist: itemarray gets the matches from matchlist on, at most maxitems. */
    method FillItems()
      requires Valid() && top.Some?
      modifies this, itemarray
      ensures chain == old(chain) && top == old(top) && sel == old(sel)
      ensures Valid()
      ensures nitems == Min(maxitems, |chain| - top.value)
      ensures shown == chain[top.value..top.value + nitems]
    {
      var t := top.value;
      var i := 0;
      var item := top;
      while i < maxitems && item.Some?
        modifies itemarray
        invariant i <= maxitems && t + i <= |chain|
        invariant item == (if t + i < |chain| then Some(t + i) else None)
        invariant forall k :: 0 <= k < i ==> itemarray[k] == chain[t + k]
      {
        itemarray[i] := chain[item.value];
        i := i + 1;
        item := NextMatch(item.value);
      }
      nitems := i;
      shown := chain[t..t + i];
    }

    /** delmatchlist: completion is off; nothing is shown, and selitem is left as it was. */
    method DelMatchList()
      requires Valid()
      modifies this
      ensures Valid() && chain == old(chain) && sel == old(sel)
      ensures top == None && nitems == 0
    {
      top := None;
      nitems := 0;
      shown := [];
    }
  }
}
