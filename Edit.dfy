/**
 * The input field: a fixed-capacity byte buffer holding a NUL-terminated
 * string, with the cursor, selection and file-name offsets (struct Prompt,
 * fields text, textsize, cursor, select and file), and the primitives that
 * edit it in place: insert, delselection, delword, insertselitem, the
 * CTRLDELEOL case of keypress and the scan of getfilelist that finds the
 * file name to complete.
 *
 * The whole buffer is modelled, bytes past the terminator included,
 * because memmove carries them along and delselection can bring them back.
 */
module Edit {
  import opened Defs
  import opened CStr
  import opened Utf8
  import opened Defaults

  /** memmove(buf + dst, buf + src, len). */
  function Memmove(buf: seq<byte>, dst: nat, src: nat, len: nat): (r: seq<byte>)
    requires src + len <= |buf| && dst + len <= |buf|
    ensures |r| == |buf|
  {
    buf[..dst] + buf[src..src + len] + buf[dst + len..]
  }

  /** memcpy(buf + dst, s, |s|). */
  function Memcpy(buf: seq<byte>, dst: nat, s: seq<byte>): (r: seq<byte>)
    requires dst + |s| <= |buf|
    ensures |r| == |buf|
  {
    buf[..dst] + s + buf[dst + |s|..]
  }

  /** Byte k after memmove: moved bytes land in [dst, dst + len), the rest stay. */
  lemma {:induction false} MemmoveAt(buf: seq<byte>, dst: nat, src: nat, len: nat, k: nat)
    requires src + len <= |buf| && dst + len <= |buf| && k < |buf|
    ensures Memmove(buf, dst, src, len)[k]
      == if k < dst then buf[k] else if k < dst + len then buf[src + k - dst] else buf[k]
  {
    var a, b := buf[..dst], buf[src..src + len];
    assert Memmove(buf, dst, src, len) == (a + b) + buf[dst + len..];
    if k >= dst + len {
      assert Memmove(buf, dst, src, len)[k] == buf[dst + len..][k - dst - len];
    }
  }

  /** Byte k after memcpy. */
  lemma {:induction false} MemcpyAt(buf: seq<byte>, dst: nat, s: seq<byte>, k: nat)
    requires dst + |s| <= |buf| && k < |buf|
    ensures Memcpy(buf, dst, s)[k]
      == if k < dst then buf[k] else if k < dst + |s| then s[k - dst] else buf[k]
  {
    if k >= dst + |s| {
      assert Memcpy(buf, dst, s)[k] == buf[dst + |s|..][k - dst - |s|];
    }
  }

  /** The capacity guard of insert: the string, lengthened by n, still leaves room for its terminator. */
  predicate Fits(text: seq<byte>, n: int)
    requires NUL in text
  {
    Strlen(text) + n <= |text| - 1
  }

  /**
   * The buffer insert(prompt, str, n) leaves once its guard passed: the
   * bytes from the cursor on move n places, then for n > 0 the first n
   * bytes of str fill the gap.
   */
  function Inserted(text: seq<byte>, cursor: nat, str: seq<byte>, n: int): (r: seq<byte>)
    requires cursor <= |text| && cursor + n >= 0
    requires n > 0 ==> n <= |str| && cursor + n <= |text|
    ensures |r| == |text|
  {
    var moved := Memmove(text, cursor + n, cursor, |text| - cursor - Max(n, 0));
    if n > 0 then Memcpy(moved, cursor, str[..n]) else moved
  }

  /** A buffer whose first |w| bytes are the NUL-free w, followed by a NUL, holds the string w. */
  lemma {:induction false} HoldsString(r: seq<byte>, w: seq<byte>)
    requires |w| < |r| && r[|w|] == NUL
    requires forall k :: 0 <= k < |w| ==> r[k] == w[k] && w[k] != NUL
    ensures NUL in r && Strlen(r) == |w| && Content(r) == w
  {
    assert r[..|w|] == w;
    StrlenIs(r, |w|);
  }

  /** The bytes before strlen are the string's, and none is NUL. */
  lemma {:induction false} BeforeStrlen(s: seq<byte>, k: nat)
    requires NUL in s && k < Strlen(s)
    ensures s[k] == Content(s)[k] && s[k] != NUL
  {
    assert s[..Strlen(s)][k] == s[k];
  }

  /** Every offset up to strlen still sees the terminator ahead of it. */
  lemma {:induction false} NulFrom(s: seq<byte>, i: nat)
    requires NUL in s && i <= Strlen(s)
    ensures NUL in s[i..]
  {
    assert s[i..][Strlen(s) - i] == NUL;
  }

  /** A string seen from an offset inside it: what remains of it. */
  lemma {:induction false} StrlenSuffix(s: seq<byte>, i: nat)
    requires NUL in s && i <= Strlen(s)
    ensures NUL in s[i..] && Strlen(s[i..]) == Strlen(s) - i
    ensures Content(s[i..]) == Content(s)[i..]
  {
    var w := Content(s)[i..];
    forall k | 0 <= k < |w|
      ensures s[i..][k] == w[k] && w[k] != NUL
    {
      BeforeStrlen(s, i + k);
    }
    assert s[i..][|w|] == s[Strlen(s)];
    HoldsString(s[i..], w);
  }

  /** Byte k of the string after inserting the first n bytes of str at the cursor. */
  lemma {:induction false} GrownAt(text: seq<byte>, cursor: nat, str: seq<byte>, n: nat, k: nat)
    requires NUL in text && cursor <= Strlen(text) && 0 < n <= |str| && NUL !in str[..n]
    requires Fits(text, n) && k < Strlen(text) + n
    ensures var w := Content(text)[..cursor] + str[..n] + Content(text)[cursor..];
      k < |w| && Inserted(text, cursor, str, n)[k] == w[k] && w[k] != NUL
  {
    var C := Content(text);
    var moved := Memmove(text, cursor + n, cursor, |text| - cursor - Max(n, 0));
    var w := C[..cursor] + str[..n] + C[cursor..];
    MemcpyAt(moved, cursor, str[..n], k);
    MemmoveAt(text, cursor + n, cursor, |text| - cursor - n, k);
    if k < cursor {
      BeforeStrlen(text, k);
      assert w[k] == C[k];
    } else if k < cursor + n {
      assert w[k] == str[..n][k - cursor];
      assert str[..n][k - cursor] in str[..n];
    } else {
      BeforeStrlen(text, k - n);
      assert w[k] == C[k - n];
    }
  }

  /** After insertion, the string is lengthened by n: str enters at the cursor. */
  lemma {:induction false} InsertedGrows(text: seq<byte>, cursor: nat, str: seq<byte>, n: nat)
    requires NUL in text && cursor <= Strlen(text) && 0 < n <= |str| && NUL !in str[..n]
    requires Fits(text, n)
    ensures var r := Inserted(text, cursor, str, n);
      NUL in r && Strlen(r) == Strlen(text) + n
      && Content(r) == Content(text)[..cursor] + str[..n] + Content(text)[cursor..]
  {
    var L, C := Strlen(text), Content(text);
    var r := Inserted(text, cursor, str, n);
    var moved := Memmove(text, cursor + n, cursor, |text| - cursor - Max(n, 0));
    var w := C[..cursor] + str[..n] + C[cursor..];
    assert forall k :: 0 <= k < |w| ==> r[k] == w[k] && w[k] != NUL by {
      forall k | 0 <= k < |w|
        ensures r[k] == w[k] && w[k] != NUL
      {
        GrownAt(text, cursor, str, n, k);
      }
    }
    assert |w| < |r| && r[|w|] == NUL by {
      assert |w| == L + n;
      MemcpyAt(moved, cursor, str[..n], L + n);
      MemmoveAt(text, cursor + n, cursor, |text| - cursor - n, L + n);
    }
    HoldsString(r, w);
  }

  /**
   * The string insert(prompt, str, n) leaves in the buffer, given the
   * string c before it: n > 0 puts the first n bytes of str at the
   * cursor, n <= 0 drops the -n bytes before it.
   */
  function Spliced(c: seq<byte>, cursor: nat, str: seq<byte>, n: int): (r: seq<byte>)
    requires cursor <= |c| && cursor + n >= 0 && (n > 0 ==> n <= |str|)
    ensures |r| == |c| + n
  {
    if n > 0 then c[..cursor] + str[..n] + c[cursor..] else c[..cursor + n] + c[cursor..]
  }

  /** The buffer insert leaves holds the spliced string, with a string starting at the new cursor. */
  lemma {:induction false} InsertedString(text: seq<byte>, cursor: nat, str: seq<byte>, n: int)
    requires NUL in text && cursor <= Strlen(text) && cursor + n >= 0
    requires n > 0 ==> n <= |str| && NUL !in str[..n]
    requires Fits(text, n)
    ensures var r := Inserted(text, cursor, str, n);
      NUL in r && Content(r) == Spliced(Content(text), cursor, str, n)
      && cursor + n <= Strlen(r) && NUL in r[cursor + n..]
  {
    var r := Inserted(text, cursor, str, n);
    if n > 0 {
      InsertedGrows(text, cursor, str, n);
      assert Content(text)[..cursor] + str[..n] + Content(text)[cursor..] == Spliced(Content(text), cursor, str, n);
    } else {
      InsertedShrinks(text, cursor, str, n);
    }
    NulFrom(r, cursor + n);
  }

  /** Byte k of the string after insert deleted the -n bytes before the cursor. */
  lemma {:induction false} ShrunkAt(text: seq<byte>, cursor: nat, n: int, k: nat)
    requires NUL in text && n <= 0 && 0 <= cursor + n && cursor <= Strlen(text) && k < Strlen(text) + n
    ensures var w := Content(text)[..cursor + n] + Content(text)[cursor..];
      k < |w| && Memmove(text, cursor + n, cursor, |text| - cursor - Max(n, 0))[k] == w[k] && w[k] != NUL
  {
    var C := Content(text);
    var w := C[..cursor + n] + C[cursor..];
    MemmoveAt(text, cursor + n, cursor, |text| - cursor - Max(n, 0), k);
    if k < cursor + n {
      BeforeStrlen(text, k);
      assert w[k] == C[k];
    } else {
      BeforeStrlen(text, k - n);
      assert w[k] == C[k - n];
    }
  }

  /** After insert deleted the -n bytes before the cursor, the string is shortened by -n. */
  lemma {:induction false} InsertedShrinks(text: seq<byte>, cursor: nat, str: seq<byte>, n: int)
    requires NUL in text && cursor <= Strlen(text) && n <= 0 && cursor + n >= 0
    ensures var r := Inserted(text, cursor, str, n);
      NUL in r && Strlen(r) == Strlen(text) + n && Content(r) == Spliced(Content(text), cursor, str, n)
  {
    var L, C := Strlen(text), Content(text);
    var r := Memmove(text, cursor + n, cursor, |text| - cursor - Max(n, 0));
    assert Inserted(text, cursor, str, n) == r;
    var w := C[..cursor + n] + C[cursor..];
    assert forall k :: 0 <= k < |w| ==> r[k] == w[k] && w[k] != NUL by {
      forall k | 0 <= k < |w|
        ensures r[k] == w[k] && w[k] != NUL
      {
        ShrunkAt(text, cursor, n, k);
      }
    }
    assert |w| < |r| && r[|w|] == NUL by {
      MemmoveAt(text, cursor + n, cursor, |text| - cursor - Max(n, 0), L + n);
    }
    HoldsString(r, w);
    assert Spliced(C, cursor, str, n) == w;
  }

  /**
   * The buffer delselection leaves: memmove(text + lo, text + hi,
   * strlen(text + hi) + 1) moves the string that starts at hi, with its
   * terminator, down to lo.
   */
  function Deleted(text: seq<byte>, lo: nat, hi: nat): (r: seq<byte>)
    requires lo <= hi < |text| && NUL in text[hi..]
    ensures |r| == |text|
  {
    Memmove(text, lo, hi, Strlen(text[hi..]) + 1)
  }

  /**
   * The string after delselection is the part before lo followed by
   * whatever string starts at hi, even when hi lies past the terminator.
   */
  lemma {:induction false} DeletedContent(text: seq<byte>, lo: nat, hi: nat)
    requires NUL in text && lo <= Strlen(text) && lo <= hi < |text| && NUL in text[hi..]
    ensures var r := Deleted(text, lo, hi);
      NUL in r && Strlen(r) == lo + Strlen(text[hi..])
      && Content(r) == Content(text)[..lo] + Content(text[hi..])
  {
    var t := text[hi..];
    var len := Strlen(t);
    var C, D := Content(text), Content(t);
    var r := Deleted(text, lo, hi);
    var w := C[..lo] + D;
    assert |w| == lo + len;
    forall k | 0 <= k < |w|
      ensures r[k] == w[k] && w[k] != NUL
    {
      MemmoveAt(text, lo, hi, len + 1, k);
      if k < lo {
        BeforeStrlen(text, k);
        assert w[k] == C[k];
      } else {
        assert t[k - lo] == text[hi + k - lo];
        BeforeStrlen(t, k - lo);
        assert w[k] == D[k - lo];
      }
    }
    MemmoveAt(text, lo, hi, len + 1, lo + len);
    assert t[len] == text[hi + len];
    HoldsString(r, w);
  }

  /** Within the string, delselection removes exactly the bytes [lo, hi). */
  lemma {:induction false} DeletedWithin(text: seq<byte>, lo: nat, hi: nat)
    requires NUL in text && lo <= hi <= Strlen(text)
    ensures NUL in text[hi..]
    ensures var r := Deleted(text, lo, hi);
      NUL in r && Content(r) == Content(text)[..lo] + Content(text)[hi..]
  {
    StrlenSuffix(text, hi);
    DeletedContent(text, lo, hi);
  }

  /** The CTRLDELEOL case of keypress: text[cursor] = '\0'. */
  function TruncatedAt(text: seq<byte>, cursor: nat): (r: seq<byte>)
    requires cursor < |text|
    ensures |r| == |text| && r[cursor] == NUL
  {
    text[cursor := NUL]
  }

  /** Truncation keeps the string before the cursor and nothing after it. */
  lemma {:induction false} TruncatedContent(text: seq<byte>, cursor: nat)
    requires NUL in text && cursor <= Strlen(text)
    ensures var r := TruncatedAt(text, cursor);
      NUL in r && Strlen(r) == cursor && Content(r) == Content(text)[..cursor]
  {
    var r := TruncatedAt(text, cursor);
    var w := Content(text)[..cursor];
    forall k | 0 <= k < |w|
      ensures r[k] == w[k] && w[k] != NUL
    {
      BeforeStrlen(text, k);
    }
    HoldsString(r, w);
  }

  /**
   * CTRLDELEOL leaves select where it was, past the new terminator; a
   * following CTRLDELLEFT then deletes the selection with delselection,
   * which moves the stale bytes beyond the selection back into the string.
   * On "abcdef" with the cursor at 2 and select at 4, the string shrinks to
   * "ab" and then grows back to "abef".
   */
  lemma DelEolResurrects()
    ensures var t: seq<byte> := [97, 98, 99, 100, 101, 102, 0];
      var e := TruncatedAt(t, 2);
      NUL in e && Content(e) == [97, 98] && NUL in e[4..]
      && NUL in Deleted(e, 2, 4) && Content(Deleted(e, 2, 4)) == [97, 98, 101, 102]
  {
    var t: seq<byte> := [97, 98, 99, 100, 101, 102, 0];
    assert Strlen(t[6..]) == 0;
    StrlenIs(t, 6);
    TruncatedContent(t, 2);
    var e := TruncatedAt(t, 2);
    assert e[4..] == [101, 102, 0];
    assert e[4..][2..] == [0];
    StrlenIs(e[4..], 2);
    DeletedContent(e, 2, 4);
  }

  /**
   * Undo, redo and the history keys keep the text after the cursor: with
   * "axbc" in the field and the cursor after "ax", restoring "abc" the
   * way ReplaceHead does leaves "abcbc".
   */
  lemma ReplaceHeadKeepsTail()
    ensures var c: seq<byte> := [97, 120, 98, 99];
      var s: seq<byte> := [97, 98, 99];
      Spliced(Spliced(c, 2, [], -2), 0, s, 3) == [97, 98, 99, 98, 99]
  {
    var c: seq<byte> := [97, 120, 98, 99];
    var s: seq<byte> := [97, 98, 99];
    assert Spliced(c, 2, [], -2) == [98, 99];
    assert Spliced([98, 99], 0, s, 3) == [] + s + [98, 99];
  }

  /**
   * The input field (text, cursor, select) after the text before the
   * cursor of (t, c, sel) is replaced by the string r holds, as undo, redo
   * and the history keys do: that string and the text after the cursor
   * when both fit in the buffer, the text after the cursor alone
   * otherwise, with cursor and select at the end of what went in. No
   * string (None) leaves the field as it was.
   */
  ghost predicate HeadReplaced(r: Option<seq<byte>>, t: seq<byte>, c: nat, sel: nat,
                               text: seq<byte>, cursor: nat, select: nat)
    requires NUL in t && c <= Strlen(t) && NUL in text
  {
    match r
    case None => (text, cursor, select) == (t, c, sel)
    case Some(s) =>
      var tail := Content(t)[c..];
      if |s| + |tail| <= |t| - 1
      then (Content(text), cursor, select) == (s + tail, |s|, |s|)
      else (Content(text), cursor, select) == (tail, 0, 0)
  }

  /** The start of the file name getfilelist scans back to from i: just after the last space. */
  function SpaceBack(text: seq<byte>, i: nat): (b: nat)
    requires i <= |text|
    ensures b <= i && (b > 0 ==> IsSpace(text[b - 1]))
    ensures forall k :: b <= k < i ==> !IsSpace(text[k])
  {
    if i > 0 && !IsSpace(text[i - 1]) then SpaceBack(text, i - 1) else i
  }

  /** The input field. */
  class EditBuffer {
    var text: seq<byte>
    var cursor: nat
    var select: nat
    var file: nat

    /**
     * The buffer holds a string; the cursor lies within it; a string
     * starts at select too, so that strlen(text + select) is defined, though
     * select may lie past the terminator.
     */
    ghost predicate Valid()
      reads this
    {
      NUL in text && cursor <= Strlen(text) && select < |text| && NUL in text[select..]
    }

    /** setpromptinput: an empty string in a buffer of INPUTSIZ bytes, all offsets 0. */
    constructor()
      ensures Valid() && |text| == INPUTSIZ && Content(text) == []
      ensures cursor == 0 && select == 0 && file == 0
    {
      text := seq(INPUTSIZ, _ => NUL);
      cursor, select, file := 0, 0, 0;
      new;
      StrlenIs(text, 0);
    }

    /**
     * insert(prompt, str, n): n > 0 inserts the first n bytes of str at the
     * cursor, n < 0 deletes the -n bytes before it; either way both cursor
     * and select end up after the change. Nothing happens when the longer
     * string would not fit.
     */
    method Insert(str: seq<byte>, n: int)
      requires Valid() && cursor + n >= 0
      requires n > 0 ==> n <= |str| && NUL !in str[..n]
      modifies this
      ensures Valid() && file == old(file) && |text| == |old(text)|
      ensures !Fits(old(text), n) ==> text == old(text) && cursor == old(cursor) && select == old(select)
      ensures Fits(old(text), n) ==>
        text == Inserted(old(text), old(cursor), str, n) && cursor == select == old(cursor) + n
      ensures Fits(old(text), n) ==> Content(text) == Spliced(Content(old(text)), old(cursor), str, n)
    {
      if !Fits(text, n) {
        return;
      }
      InsertedString(text, cursor, str, n);
      text := Inserted(text, cursor, str, n);
      cursor := cursor + n;
      select := cursor;
    }

    /**
     * delselection: when cursor and select differ, the bytes between them
     * go, the string starting at the larger offset moving down to the
     * smaller one, where cursor and select end up.
     */
    method DelSelection()
      requires Valid()
      modifies this
      ensures Valid() && file == old(file) && |text| == |old(text)|
      ensures old(cursor) == old(select) ==> text == old(text) && cursor == old(cursor) && select == old(select)
      ensures old(cursor) != old(select) ==>
        var lo, hi := Min(old(cursor), old(select)), Max(old(cursor), old(select));
        text == Deleted(old(text), lo, hi) && cursor == select == lo
        && Content(text) == Content(old(text))[..lo] + Content(old(text)[hi..])
    {
      if select == cursor {
        return;
      }
      var minpos := Min(cursor, select);
      var maxpos := Max(cursor, select);
      DeletedContent(text, minpos, maxpos);
      text := Deleted(text, minpos, maxpos);
      cursor, select := minpos, minpos;
      NulFrom(text, select);
    }

    /**
     * The CTRLDELEOL case of keypress as written: the string ends at the
     * cursor and select stays where it was.
     */
    method DelEolAsWritten()
      requires Valid()
      modifies this
      ensures Valid() && cursor == old(cursor) && select == old(select) && file == old(file)
      ensures text == TruncatedAt(old(text), cursor) && Content(text) == Content(old(text))[..cursor]
    {
      TruncatedContent(text, cursor);
      ghost var k :| select <= k < |text| && text[k] == NUL;
      text := TruncatedAt(text, cursor);
      assert text[k] == NUL;
      assert text[select..][k - select] == NUL;
    }

    /**
     * The CTRLDELEOL case corrected: the string ends at the cursor and the
     * selection collapses onto it, so no selection reaches past the
     * terminator.
     */
    method DelEol()
      requires Valid()
      modifies this
      ensures Valid() && cursor == old(cursor) && select == cursor && file == old(file)
      ensures text == TruncatedAt(old(text), cursor) && Content(text) == Content(old(text))[..cursor]
    {
      TruncatedContent(text, cursor);
      text := TruncatedAt(text, cursor);
      select := cursor;
      NulFrom(text, select);
    }

    /**
     * delword: deletes the delimiters just before the cursor, then the run
     * of other bytes before those, one rune at a time with insert; the
     * text from the cursor on is kept and the cursor ends at the start of
     * the word, as movewordedge(-1) finds it, having moved whenever it
     * was not at the start of the input.
     */
    method DelWord()
      requires Valid()
      modifies this
      ensures Valid() && file == old(file) && |text| == |old(text)|
      ensures cursor == WordEdge(WordDelimiters, old(text), old(cursor), -1)
      ensures Content(text) == Content(old(text))[..cursor] + Content(old(text))[old(cursor)..]
      ensures old(cursor) > 0 ==> cursor < old(cursor) && select == cursor
      ensures old(cursor) == 0 ==> text == old(text) && select == old(select)
    {
      ghost var t0, c0 := text, cursor;
      assert Content(t0) == Content(t0)[..c0] + Content(t0)[c0..];
      DeleteBackWhile(true, t0, c0);
      DeleteBackWhile(false, t0, c0);
      if c0 > 0 {
        WordEdgeBackMoves(WordDelimiters, t0, c0);
      }
    }

    /**
     * One loop of delword: while the rune before the cursor starts with a
     * delimiter (delim) or with anything else (!delim), delete it with
     * insert. The string is that of t0 with the bytes from the cursor to
     * c0 removed, before and after.
     */
    method DeleteBackWhile(delim: bool, ghost t0: seq<byte>, ghost c0: nat)
      requires Valid() && NUL in t0 && c0 <= Strlen(t0) && cursor <= c0 && |text| == |t0|
      requires Content(text) == Content(t0)[..cursor] + Content(t0)[c0..]
      modifies this
      ensures Valid() && file == old(file) && |text| == |t0|
      ensures cursor == SkipBack(WordDelimiters, t0, old(cursor), delim)
      ensures Content(text) == Content(t0)[..cursor] + Content(t0)[c0..]
      ensures cursor < old(cursor) ==> select == cursor
      ensures cursor == old(cursor) ==> text == old(text) && select == old(select)
    {
      ghost var start := cursor;
      while cursor > 0
        invariant Valid() && file == old(file) && |text| == |t0| && cursor <= start
        invariant Content(text) == Content(t0)[..cursor] + Content(t0)[c0..]
        invariant SkipBack(WordDelimiters, t0, cursor, delim) == SkipBack(WordDelimiters, t0, start, delim)
        invariant cursor == start ==> text == old(text) && select == old(select)
        invariant cursor < start ==> select == cursor
        decreases cursor
      {
        SplicePrefix(text, t0, cursor, c0);
        var p := NextRune(text, cursor, -1);
        BoundaryBackPrefix(text, t0, cursor);
        assert text[p] == text[..cursor][p] == t0[p];
        if IsDelim(WordDelimiters, text[p]) != delim {
          break;
        }
        DeleteBack(p, t0, c0);
      }
    }

    /** One step of delword: insert(prompt, NULL, p - cursor) deletes the bytes from p to the cursor. */
    method DeleteBack(p: nat, ghost t0: seq<byte>, ghost c0: nat)
      requires Valid() && p < cursor <= c0 && NUL in t0 && c0 <= Strlen(t0)
      requires Content(text) == Content(t0)[..cursor] + Content(t0)[c0..]
      modifies this
      ensures Valid() && file == old(file) && |text| == |old(text)|
      ensures cursor == select == p
      ensures Content(text) == Content(t0)[..p] + Content(t0)[c0..]
    {
      ghost var before := Content(text);
      ghost var c := cursor;
      Insert([], p - cursor);
      assert Spliced(before, c, [], p - c) == before[..p] + before[c..];
      Cut(Content(t0), c, c0, p);
    }

    /**
     * The cursor offset insertselitem works from: delword first runs when
     * the byte before the cursor is not a delimiter.
     */
    static function SelItemStart(text: seq<byte>, cursor: nat): (s: nat)
      requires NUL in text && cursor <= Strlen(text)
      ensures s <= cursor
    {
      if cursor > 0 && !IsDelim(WordDelimiters, text[cursor - 1]) then
        WordEdge(WordDelimiters, text, cursor, -1)
      else cursor
    }

    /**
     * insertselitem: the word before the cursor is replaced by the text of
     * the selected item (sel). In a file completion (filecomp), the whole
     * file name from the file offset on is replaced instead, and nothing
     * is inserted when that offset is 0. When the text does not fit, select
     * is where delword left it: at the start of the word when a word went,
     * where it was otherwise.
     */
    method InsertSelItem(sel: seq<byte>, filecomp: bool)
      requires Valid() && NUL !in sel
      requires filecomp && file > 0 ==> file <= SelItemStart(text, cursor)
      modifies this
      ensures Valid() && file == old(file) && |text| == |old(text)|
      ensures var c := Content(old(text));
        var word := SelItemStart(old(text), old(cursor));
        var start := if filecomp then old(file) else word;
        var tail := c[old(cursor)..];
        (!filecomp || old(file) > 0) ==>
          if start + |sel| + |tail| <= |text| - 1
          then Content(text) == c[..start] + sel + tail && cursor == select == start + |sel|
          else Content(text) == c[..start] + tail && cursor == start
               && select == (if word < old(cursor) then word else old(select))
      ensures var word := SelItemStart(old(text), old(cursor));
        filecomp && old(file) == 0 ==>
          Content(text) == Content(old(text))[..word] + Content(old(text))[old(cursor)..]
          && cursor == word && select == (if word < old(cursor) then word else old(select))
    {
      ghost var c := Content(text);
      ghost var c0 := cursor;
      DelWordInside();
      ghost var s := cursor;
      if !filecomp {
        InsertAll(sel, c[..s], c[c0..]);
      } else if file > 0 {
        CutToFile();
        Cut(c, s, c0, file);
        InsertAll(sel, c[..file], c[c0..]);
      }
    }

    /** The first statement of insertselitem: delword, unless the cursor follows a delimiter. */
    method DelWordInside()
      requires Valid()
      modifies this
      ensures Valid() && file == old(file) && |text| == |old(text)|
      ensures cursor == SelItemStart(old(text), old(cursor))
      ensures select == if cursor < old(cursor) then cursor else old(select)
      ensures Content(text) == Content(old(text))[..cursor] + Content(old(text))[old(cursor)..]
    {
      if cursor > 0 && !IsDelim(WordDelimiters, text[cursor - 1]) {
        DelWord();
      } else {
        assert Content(text) == Content(text)[..cursor] + Content(text)[cursor..];
      }
    }

    /** insert(prompt, sel, strlen(sel)) on a string split at the cursor into head and tail. */
    method InsertAll(sel: seq<byte>, ghost head: seq<byte>, ghost tail: seq<byte>)
      requires Valid() && NUL !in sel && Content(text) == head + tail && cursor == |head|
      modifies this
      ensures Valid() && file == old(file) && |text| == |old(text)|
      ensures |head| + |sel| + |tail| <= |text| - 1 ==>
        Content(text) == head + sel + tail && cursor == select == |head| + |sel|
      ensures |head| + |sel| + |tail| > |text| - 1 ==>
        Content(text) == head + tail && cursor == |head| && select == old(select)
    {
      assert sel[..|sel|] == sel;
      ghost var C := Content(text);
      assert C[..cursor] == head && C[cursor..] == tail;
      Insert(sel, |sel|);
    }

    /**
     * The memmove of insertselitem in a file completion: the text from the
     * cursor moves down to the file offset, where the cursor goes.
     */
    method CutToFile()
      requires Valid() && 0 < file <= cursor
      modifies this
      ensures Valid() && file == old(file) && select == old(select) && cursor == file
      ensures |text| == |old(text)| && text == Deleted(old(text), file, old(cursor))
      ensures Content(text) == Content(old(text))[..file] + Content(old(text))[old(cursor)..]
    {
      DeletedWithin(text, file, cursor);
      DeletedKeepsString(text, file, cursor, select);
      text := Deleted(text, file, cursor);
      cursor := file;
      NulFrom(text, cursor);
    }

    /**
     * The idiom undo, redo and the history keys use to put a string s in
     * the input field: insert(prompt, NULL, 0 - cursor) then insert(prompt,
     * s, strlen(s)). The first call deletes only the bytes before the
     * cursor, so whatever followed the cursor stays after s.
     */
    method ReplaceHead(s: seq<byte>)
      requires Valid() && NUL !in s
      modifies this
      ensures Valid() && file == old(file) && |text| == |old(text)|
      ensures HeadReplaced(Some(s), old(text), old(cursor), old(select), text, cursor, select)
    {
      DelBol();
      ghost var tail := Content(text);
      assert tail == [] + tail;
      InsertAll(s, [], tail);
      if |s| + |tail| <= |text| - 1 {
        assert Content(text) == s + tail;
      } else {
        assert Content(text) == tail;
      }
    }

    /** insert(prompt, NULL, 0 - cursor), the CTRLDELBOL case of keypress: the bytes before the cursor go. */
    method DelBol()
      requires Valid()
      modifies this
      ensures Valid() && file == old(file) && |text| == |old(text)|
      ensures Content(text) == Content(old(text))[old(cursor)..] && cursor == select == 0
    {
      ghost var c, c0 := Content(text), cursor;
      assert Fits(text, -(cursor as int));
      Insert([], -(cursor as int));
      assert Spliced(c, c0, [], -(c0 as int)) == c[..0] + c[c0..];
    }

    /**
     * The scan at the head of getfilelist: the file name to complete
     * starts at the file offset when that lies in (0, cursor], otherwise
     * just after the last space before the cursor, which becomes the new
     * file offset. Returns the start and the length, or None when the
     * name with its '*' and terminator would not fit in INPUTSIZ bytes.
     */
    method FileName() returns (r: Option<(nat, nat)>)
      requires Valid()
      modifies this
      ensures Valid() && text == old(text) && cursor == old(cursor) && select == old(select)
      ensures var beg := if 0 < old(file) <= cursor then old(file) else SpaceBack(text, cursor);
        (r.None? <==> cursor - beg >= INPUTSIZ - 2)
        && (r.Some? ==> r.value == (beg, cursor - beg))
      ensures file == (if 0 < old(file) <= cursor || cursor == 0 then old(file) else SpaceBack(text, cursor))
    {
      var beg: nat;
      if file > 0 && file <= cursor {
        beg := file;
      } else {
        beg := cursor;
        if beg > 0 {
          while beg > 0 && !IsSpace(text[beg - 1])
            invariant beg <= cursor
            invariant SpaceBack(text, beg) == SpaceBack(text, cursor)
          {
            beg := beg - 1;
          }
          file := beg;
        }
      }
      var len := cursor - beg;
      if len >= INPUTSIZ - 2 {
        return None;
      }
      return Some((beg, len));
    }
  }


  /**
   * A string made of the first bytes of t0's string followed by some of
   * its last ones shares the buffer's first bytes with t0.
   */
  lemma {:induction false} SplicePrefix(text: seq<byte>, t0: seq<byte>, cursor: nat, c0: nat)
    requires NUL in text && NUL in t0 && cursor <= c0 <= Strlen(t0)
    requires Content(text) == Content(t0)[..cursor] + Content(t0)[c0..]
    ensures cursor <= Strlen(text) && text[..cursor] == t0[..cursor]
  {
    assert text[..cursor] == Content(text)[..cursor];
    assert t0[..cursor] == Content(t0)[..cursor];
  }

  /** Away from the start of the input, movewordedge(-1) always moves the cursor. */
  lemma {:induction false} WordEdgeBackMoves(delims: seq<byte>, text: seq<byte>, pos: nat)
    requires NUL in text && 0 < pos <= Strlen(text)
    ensures WordEdge(delims, text, pos, -1) < pos
  {
    var r := SkipBack(delims, text, pos, true);
    if r == pos {
      var p := Boundary(text, pos, -1);
      BeforeStrlen(text, p);
      assert !IsDelim(delims, text[p]);
    }
  }

  /** The file-name cut of insertselitem, on the string left by delword. */
  lemma {:induction false} Cut(c: seq<byte>, s: nat, c0: nat, f: nat)
    requires f <= s <= c0 <= |c|
    ensures var m := c[..s] + c[c0..]; m[..f] + m[s..] == c[..f] + c[c0..]
  {
    var m := c[..s] + c[c0..];
    assert m[..f] == c[..f];
    assert m[s..] == c[c0..];
  }

  /** A string that started at j before delselection still starts there after it. */
  lemma {:induction false} DeletedKeepsString(text: seq<byte>, lo: nat, hi: nat, j: nat)
    requires NUL in text && lo <= hi <= Strlen(text) && j < |text| && NUL in text[j..]
    ensures NUL in text[hi..] && NUL in Deleted(text, lo, hi)[j..]
  {
    NulFrom(text, hi);
    var len := Strlen(text[hi..]);
    var r := Deleted(text, lo, hi);
    assert NUL in r && Strlen(r) == lo + len by {
      DeletedContent(text, lo, hi);
    }
    if j <= lo + len {
      NulFrom(r, j);
    } else {
      var k := j + Strlen(text[j..]);
      assert text[k] == NUL by {
        assert text[k] == text[j..][k - j];
      }
      MemmoveAt(text, lo, hi, len + 1, k);
      assert r[j..][k - j] == r[k];
    }
  }
}
