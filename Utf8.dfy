/**
 * Rune arithmetic over UTF-8 text held in a NUL-terminated buffer
 * (nextrune, runebytes, runechars, movewordedge) and the decoder of one
 * UTF-8 sequence (getnextutf8char), after section 3 of RFC 3629.
 *
 * Every scan is a method with its loop, proved equal to a recursive
 * function that states the same scan; properties are stated on the
 * functions.
 */
module Utf8 {
  import opened Defs
  import opened CStr

  /** (b & 0xc0) == 0x80: a continuation byte 10xxxxxx. */
  predicate IsCont(b: byte)
  {
    0x80 <= b < 0xC0
  }

  /** The scan of nextrune from n: step by inc while n + inc >= 0 and text[n] continues a rune. */
  function SkipCont(text: seq<byte>, n: nat, inc: int): (r: nat)
    requires NUL in text
    requires inc == 1 || inc == -1
    requires n <= Strlen(text)
    ensures inc == 1 ==> n <= r <= Strlen(text)
    ensures inc == -1 ==> r <= n
    ensures !IsCont(text[r]) || (inc == -1 && r == 0)
    decreases if inc == 1 then Strlen(text) - n else n
  {
    if n + inc >= 0 && IsCont(text[n]) then
      SkipCont(text, n + inc, inc)
    else n
  }

  /** The bytes SkipCont steps over are continuation bytes. */
  lemma {:induction false} SkipContSpans(text: seq<byte>, n: nat, inc: int)
    requires NUL in text
    requires inc == 1 || inc == -1
    requires n <= Strlen(text)
    ensures var r := SkipCont(text, n, inc);
      (inc == 1 ==> forall k :: n <= k < r ==> IsCont(text[k]))
      && (inc == -1 ==> forall k :: r < k <= n ==> IsCont(text[k]))
    decreases if inc == 1 then Strlen(text) - n else n
  {
    if n + inc >= 0 && IsCont(text[n]) {
      SkipContSpans(text, n + inc, inc);
    }
  }

  /**
   * nextrune(text, pos, inc): the next rune boundary after pos (inc = +1,
   * pos before the terminator) or before it (inc = -1, pos > 0).
   */
  function Boundary(text: seq<byte>, pos: nat, inc: int): (r: nat)
    requires NUL in text
    requires inc == 1 || inc == -1
    requires inc == 1 ==> pos < Strlen(text)
    requires inc == -1 ==> 0 < pos <= Strlen(text)
    ensures inc == 1 ==> pos < r <= Strlen(text) && !IsCont(text[r])
    ensures inc == -1 ==> r < pos && (r == 0 || !IsCont(text[r]))
  {
    SkipCont(text, pos + inc, inc)
  }

  /** Every byte strictly between pos and the boundary nextrune finds continues a rune. */
  lemma BoundarySpansRune(text: seq<byte>, pos: nat, inc: int)
    requires NUL in text
    requires inc == 1 || inc == -1
    requires inc == 1 ==> pos < Strlen(text)
    requires inc == -1 ==> 0 < pos <= Strlen(text)
    ensures var r := Boundary(text, pos, inc);
      (inc == 1 ==> forall k :: pos < k < r ==> IsCont(text[k]))
      && (inc == -1 ==> forall k :: r < k < pos ==> IsCont(text[k]))
  {
    SkipContSpans(text, pos + inc, inc);
  }

  /** nextrune: the C loop, proved to compute Boundary. */
  method NextRune(text: seq<byte>, pos: nat, inc: int) returns (r: nat)
    requires NUL in text
    requires inc == 1 || inc == -1
    requires inc == 1 ==> pos < Strlen(text)
    requires inc == -1 ==> 0 < pos <= Strlen(text)
    ensures r == Boundary(text, pos, inc)
    ensures inc == 1 ==> pos < r <= Strlen(text) && !IsCont(text[r])
    ensures inc == -1 ==> r < pos && (r == 0 || !IsCont(text[r]))
  {
    var n: int := pos + inc;
    ghost var len := Strlen(text);
    while n + inc >= 0 && IsCont(text[n])
      invariant 0 <= n <= len
      invariant SkipCont(text, n, inc) == SkipCont(text, pos + inc, inc)
      decreases if inc == 1 then len - n else n
    {
      n := n + inc;
    }
    r := n;
  }

  /** The number of runes from pos to the terminator. */
  function RuneCount(text: seq<byte>, pos: nat): (c: nat)
    requires NUL in text && pos <= Strlen(text)
    decreases Strlen(text) - pos
  {
    if pos == Strlen(text) then 0 else 1 + RuneCount(text, Boundary(text, pos, 1))
  }

  /** The offset n runes to the right of pos. */
  function Advance(text: seq<byte>, pos: nat, n: nat): (r: nat)
    requires NUL in text && pos <= Strlen(text)
    requires n <= RuneCount(text, pos)
    ensures pos <= r <= Strlen(text)
    ensures n > 0 ==> pos < r
    decreases n
  {
    if n == 0 then pos else Advance(text, Boundary(text, pos, 1), n - 1)
  }

  /** The number of runes that must be stepped over from i to reach or pass byte n. */
  function CharsFrom(text: seq<byte>, i: nat, n: nat): (c: nat)
    requires NUL in text && i <= Strlen(text) && n <= Strlen(text)
    ensures c <= n - i || (c == 0 && i >= n)
    decreases n - i
  {
    if i >= n then 0 else 1 + CharsFrom(text, Boundary(text, i, 1), n)
  }

  /** Advancing m + 1 runes is one nextrune step after advancing m. */
  lemma {:induction false} AdvanceSucc(text: seq<byte>, pos: nat, m: nat)
    requires NUL in text && pos <= Strlen(text)
    requires m < RuneCount(text, pos)
    ensures Advance(text, pos, m) < Strlen(text)
    ensures Advance(text, pos, m + 1) == Boundary(text, Advance(text, pos, m), 1)
    decreases m
  {
    if m > 0 {
      AdvanceSucc(text, Boundary(text, pos, 1), m - 1);
    }
  }

  /** runebytes: bytes from the start of text to the n-th rune. */
  method RuneBytes(text: seq<byte>, n: nat) returns (ret: nat)
    requires NUL in text
    requires n <= RuneCount(text, 0)
    ensures ret == Advance(text, 0, n)
  {
    ret := 0;
    var k: nat := n;
    ghost var done: nat := 0;
    while k > 0
      invariant done + k == n
      invariant ret == Advance(text, 0, done)
    {
      AdvanceSucc(text, 0, done);
      ret := NextRune(text, ret, 1);
      k, done := k - 1, done + 1;
    }
  }

  /** runechars: runes from the start of text until byte n is reached or passed. */
  method RuneChars(text: seq<byte>, n: nat) returns (ret: nat)
    requires NUL in text && n <= Strlen(text)
    ensures ret == CharsFrom(text, 0, n)
    ensures ret <= n
  {
    ret := 0;
    var i := 0;
    while i < n
      invariant i <= Strlen(text)
      invariant ret + CharsFrom(text, i, n) == CharsFrom(text, 0, n)
      decreases n - i
    {
      i := NextRune(text, i, 1);
      ret := ret + 1;
    }
  }

  /** Counting the runes up to the n-th rune gives back n: runechars undoes runebytes. */
  lemma {:induction false} CharsOfAdvance(text: seq<byte>, pos: nat, n: nat)
    requires NUL in text && pos <= Strlen(text)
    requires n <= RuneCount(text, pos)
    ensures CharsFrom(text, pos, Advance(text, pos, n)) == n
    decreases n
  {
    if n > 0 {
      var b := Boundary(text, pos, 1);
      CharsOfAdvance(text, b, n - 1);
      CharsFromShift(text, pos, Advance(text, pos, n));
    }
  }

  /** One step of CharsFrom when the target lies beyond pos. */
  lemma CharsFromShift(text: seq<byte>, pos: nat, n: nat)
    requires NUL in text && pos < n <= Strlen(text)
    ensures CharsFrom(text, pos, n) == 1 + CharsFrom(text, Boundary(text, pos, 1), n)
  {
  }

  /** runechars(text, runebytes(text, n)) == n. */
  lemma RuneCharsOfRuneBytes(text: seq<byte>, n: nat)
    requires NUL in text
    requires n <= RuneCount(text, 0)
    ensures CharsFrom(text, 0, Advance(text, 0, n)) == n
  {
    CharsOfAdvance(text, 0, n);
  }

  // ----- word motion -----

  /** Backward scan of movewordedge: step left over runes whose first byte is (not) a delimiter. */
  function SkipBack(delims: seq<byte>, text: seq<byte>, pos: nat, delim: bool): (r: nat)
    requires NUL in text && pos <= Strlen(text)
    ensures r <= pos
    ensures r == 0 || IsDelim(delims, text[Boundary(text, r, -1)]) != delim
    decreases pos
  {
    if pos > 0 && IsDelim(delims, text[Boundary(text, pos, -1)]) == delim then
      SkipBack(delims, text, Boundary(text, pos, -1), delim)
    else pos
  }

  /** Forward scan of movewordedge: step right over runes whose first byte is (not) a delimiter. */
  function SkipFwd(delims: seq<byte>, text: seq<byte>, pos: nat, delim: bool): (r: nat)
    requires NUL in text && pos <= Strlen(text)
    ensures pos <= r <= Strlen(text)
    ensures text[r] == NUL || IsDelim(delims, text[r]) != delim
    decreases Strlen(text) - pos
  {
    if text[pos] != NUL && IsDelim(delims, text[pos]) == delim then
      SkipFwd(delims, text, Boundary(text, pos, 1), delim)
    else pos
  }

  /** movewordedge: start of the previous word (dir < 0) or end of the next word (dir >= 0). */
  function WordEdge(delims: seq<byte>, text: seq<byte>, pos: nat, dir: int): (r: nat)
    requires NUL in text && pos <= Strlen(text)
    ensures dir < 0 ==> r <= pos && (r == 0 || IsDelim(delims, text[Boundary(text, r, -1)]))
    ensures dir >= 0 ==> pos <= r <= Strlen(text) && IsDelim(delims, text[r])
  {
    if dir < 0 then SkipBack(delims, text, SkipBack(delims, text, pos, true), false)
    else SkipFwd(delims, text, SkipFwd(delims, text, pos, true), false)
  }

  /** movewordedge: the two C loops of each direction. */
  method MoveWordEdge(delims: seq<byte>, text: seq<byte>, pos: nat, dir: int) returns (r: nat)
    requires NUL in text && pos <= Strlen(text)
    ensures r == WordEdge(delims, text, pos, dir)
    ensures dir < 0 ==> r <= pos
    ensures dir >= 0 ==> pos <= r <= Strlen(text)
  {
    r := pos;
    if dir < 0 {
      while r > 0
        invariant r <= Strlen(text)
        invariant SkipBack(delims, text, r, true) == SkipBack(delims, text, pos, true)
        decreases r
      {
        var p := NextRune(text, r, -1);
        if !IsDelim(delims, text[p]) { break; }
        r := p;
      }
      ghost var mid := r;
      while r > 0
        invariant r <= Strlen(text)
        invariant SkipBack(delims, text, r, false) == SkipBack(delims, text, mid, false)
        decreases r
      {
        var p := NextRune(text, r, -1);
        if IsDelim(delims, text[p]) { break; }
        r := p;
      }
    } else {
      while text[r] != NUL && IsDelim(delims, text[r])
        invariant r <= Strlen(text)
        invariant SkipFwd(delims, text, r, true) == SkipFwd(delims, text, pos, true)
        decreases Strlen(text) - r
      {
        r := NextRune(text, r, 1);
      }
      ghost var mid := r;
      while text[r] != NUL && !IsDelim(delims, text[r])
        invariant r <= Strlen(text)
        invariant SkipFwd(delims, text, r, false) == SkipFwd(delims, text, mid, false)
        decreases Strlen(text) - r
      {
        r := NextRune(text, r, 1);
      }
    }
  }

  /** A backward boundary depends only on the bytes before pos. */
  lemma BoundaryBackPrefix(a: seq<byte>, b: seq<byte>, pos: nat)
    requires NUL in a && NUL in b
    requires 0 < pos <= Strlen(a) && pos <= Strlen(b)
    requires a[..pos] == b[..pos]
    ensures Boundary(a, pos, -1) == Boundary(b, pos, -1)
  {
    var ra, rb := Boundary(a, pos, -1), Boundary(b, pos, -1);
    BoundarySpansRune(a, pos, -1);
    BoundarySpansRune(b, pos, -1);
    assert forall k :: 0 <= k < pos ==> a[k] == a[..pos][k] == b[..pos][k] == b[k];
  }

  /** The backward word scan depends only on the bytes before pos. */
  lemma {:induction false} SkipBackPrefix(delims: seq<byte>, a: seq<byte>, b: seq<byte>, pos: nat, delim: bool)
    requires NUL in a && NUL in b
    requires pos <= Strlen(a) && pos <= Strlen(b)
    requires a[..pos] == b[..pos]
    ensures SkipBack(delims, a, pos, delim) == SkipBack(delims, b, pos, delim)
    decreases pos
  {
    if pos > 0 {
      BoundaryBackPrefix(a, b, pos);
      var p := Boundary(a, pos, -1);
      assert a[p] == a[..pos][p] == b[..pos][p] == b[p];
      assert a[..p] == a[..pos][..p] == b[..pos][..p] == b[..p];
      SkipBackPrefix(delims, a, b, p, delim);
    }
  }

  // ----- decoding one UTF-8 sequence -----

  /** utfbyte[k] of getnextutf8char. */
  function UtfByte(k: nat): int
  {
    match k
    case 0 => 0x80
    case 1 => 0x00
    case 2 => 0xC0
    case 3 => 0xE0
    case _ => 0xF0
  }

  /** utfmask[k]: the high bits that identify the kind of byte. */
  function UtfMask(k: nat): int
  {
    match k
    case 0 => 0xC0
    case 1 => 0x80
    case 2 => 0xE0
    case 3 => 0xF0
    case _ => 0xF8
  }

  /** utfmin[k]: the least code point a k-byte sequence may encode. */
  function UtfMin(k: nat): int
  {
    match k
    case 0 => 0
    case 1 => 0x00
    case 2 => 0x80
    case 3 => 0x800
    case _ => 0x10000
  }

  /** utfmax[k]: the greatest code point a k-byte sequence may encode. */
  function UtfMax(k: nat): int
  {
    match k
    case 0 => 0
    case 1 => 0x7F
    case 2 => 0x7FF
    case 3 => 0xFFFF
    case _ => 0x10FFFF
  }

  /** U+FFFD REPLACEMENT CHARACTER, returned for every ill-formed sequence. */
  const Unknown: int := 0xFFFD

  /**
   * (b & utfmask[k]) == utfbyte[k]. Each mask is a run of high bits and each
   * utfbyte is aligned below it, so the test is a range test.
   */
  predicate MaskMatches(b: byte, k: nat)
    requires k < 5
  {
    UtfByte(k) <= b as int < UtfByte(k) + (256 - UtfMask(k))
  }

  /** b & ~utfmask[k], for a byte that matches mask k. */
  function LowBits(b: byte, k: nat): (v: int)
    requires k < 5 && MaskMatches(b, k)
    ensures 0 <= v < 256 - UtfMask(k)
  {
    b as int - UtfByte(k)
  }

  /** The first loop of getnextutf8char: the first mask index from k on that b matches, 5 if none. */
  function LeadFrom(b: byte, k: nat): (i: nat)
    requires k <= 5
    ensures k <= i <= 5
    ensures i < 5 ==> MaskMatches(b, i)
    ensures 2 <= i < 5 ==> b >= 0xC0
    decreases 5 - k
  {
    if k == 5 then 5 else if MaskMatches(b, k) then k else LeadFrom(b, k + 1)
  }

  /**
   * The classes the first loop sorts a lead byte into: 1 for ASCII, 0 for a
   * continuation byte, 2, 3, 4 for the lead byte of a sequence of that
   * length, 5 for the bytes 0xF8..0xFF no sequence starts with.
   */
  lemma {:induction false} LeadClasses(b: byte)
    ensures LeadFrom(b, 0) ==
      if b < 0x80 then 1 else if b < 0xC0 then 0 else if b < 0xE0 then 2
      else if b < 0xF0 then 3 else if b < 0xF8 then 4 else 5
  {
    assert LeadFrom(b, 4) == (if b < 0xF0 || b >= 0xF8 then 5 else 4);
    assert LeadFrom(b, 3) == (if 0xE0 <= b < 0xF0 then 3 else LeadFrom(b, 4));
    assert LeadFrom(b, 2) == (if 0xC0 <= b < 0xE0 then 2 else LeadFrom(b, 3));
  }

  /** A Unicode scalar value: at most U+10FFFF and not a UTF-16 surrogate. */
  predicate IsScalar(cp: int)
  {
    0 <= cp <= 0x10FFFF && !Between(cp, 0xD800, 0xDFFF)
  }

  /** The final test of getnextutf8char: the value lies in the range of its length and is no surrogate. */
  predicate InRange(u: int, usize: nat)
  {
    Between(u, UtfMin(usize), UtfMax(usize)) && !Between(u, 0xD800, 0xDFFF)
  }

  /**
   * The second loop of getnextutf8char from continuation byte j on, with
   * the code accumulated so far in u, followed by the final range check.
   * The result pairs the code point with the offset next_ret is left at.
   * With guarded set, a terminator met in place of a continuation byte
   * leaves next_ret on the terminator instead of one past it.
   */
  function DecodeFrom(s: seq<byte>, pos: nat, usize: nat, j: nat, u: int, guarded: bool): (r: (int, nat))
    requires NUL in s
    requires 1 <= j <= usize && 2 <= usize <= 4
    requires pos + j <= Strlen(s)
    ensures pos < r.1 <= pos + usize || (guarded && r.1 == pos + j)
    ensures r.1 <= Strlen(s) + 1 && (guarded ==> r.1 <= Strlen(s))
    ensures r.0 == Unknown || InRange(r.0, usize)
    ensures r.0 != Unknown ==> r.1 == pos + usize
    decreases usize - j
  {
    if j == usize then
      if !InRange(u, usize) then (Unknown, pos + usize) else (u, pos + usize)
    else if s[pos + j] == NUL then (Unknown, if guarded then pos + j else pos + j + 1)
    else if !IsCont(s[pos + j]) then (Unknown, pos + j + 1)
    else DecodeFrom(s, pos, usize, j + 1, u * 64 + (s[pos + j] as int - 0x80), guarded)
  }

  /**
   * getnextutf8char(s + pos, &next): the code point and the offset of
   * next_ret. For a one-byte sequence the second loop does not run and
   * every ASCII value passes the range check.
   */
  function Decode(s: seq<byte>, pos: nat): (r: (int, nat))
    requires NUL in s && pos <= Strlen(s)
    ensures r.0 == Unknown || IsScalar(r.0)
    ensures pos < r.1 <= pos + 4 && r.1 <= Strlen(s) + 1
  {
    var usize := LeadFrom(s[pos], 0);
    if usize == 5 || usize == 0 then (Unknown, pos + 1)
    else if usize == 1 then (LowBits(s[pos], 1), pos + 1)
    else DecodeFrom(s, pos, usize, 1, LowBits(s[pos], usize), false)
  }

  /** A sequence the second loop accepts consists of continuation bytes from j on. */
  lemma {:induction false} DecodeFromBytes(s: seq<byte>, pos: nat, usize: nat, j: nat, u: int, guarded: bool)
    requires NUL in s
    requires 1 <= j <= usize && 2 <= usize <= 4
    requires pos + j <= Strlen(s)
    ensures var r := DecodeFrom(s, pos, usize, j, u, guarded);
      r.0 != Unknown ==> forall k :: pos + j <= k < pos + usize ==> IsCont(s[k])
    decreases usize - j
  {
    if j < usize && s[pos + j] != NUL && IsCont(s[pos + j]) {
      DecodeFromBytes(s, pos, usize, j + 1, u * 64 + (s[pos + j] as int - 0x80), guarded);
    }
  }

  /** A successful decode starts at a byte that is no continuation byte and consumes continuation bytes after it. */
  lemma DecodeBytes(s: seq<byte>, pos: nat)
    requires NUL in s && pos <= Strlen(s)
    ensures var r := Decode(s, pos);
      r.0 != Unknown ==> !IsCont(s[pos]) && forall k :: pos < k < r.1 ==> IsCont(s[k])
  {
    var usize := LeadFrom(s[pos], 0);
    LeadClasses(s[pos]);
    if 2 <= usize <= 4 {
      DecodeFromBytes(s, pos, usize, 1, LowBits(s[pos], usize), false);
    }
  }

  /** The first loop of getnextutf8char: find the mask the lead byte matches. */
  method LeadIndex(b: byte) returns (i: nat)
    ensures i == LeadFrom(b, 0)
  {
    i := 0;
    while i < 5 && !MaskMatches(b, i)
      invariant i <= 5
      invariant LeadFrom(b, i) == LeadFrom(b, 0)
    {
      i := i + 1;
    }
  }

  /** The second loop of getnextutf8char and its range check, from the first continuation byte on. */
  method DecodeTail(s: seq<byte>, pos: nat, usize: nat, u0: int) returns (ucode: int, next: nat)
    requires NUL in s && 2 <= usize <= 4 && pos + 1 <= Strlen(s)
    ensures (ucode, next) == DecodeFrom(s, pos, usize, 1, u0, false)
  {
    ucode, next := u0, pos + 1;
    var p := pos + 1;
    var i := 1;
    while i < usize
      invariant 1 <= i <= usize && p == pos + i && p <= Strlen(s)
      invariant DecodeFrom(s, pos, usize, i, ucode, false) == DecodeFrom(s, pos, usize, 1, u0, false)
      invariant next == pos + i
    {
      next := p + 1;
      if s[p] == NUL || !IsCont(s[p]) {
        return Unknown, next;
      }
      ghost var before := ucode;
      ucode := ucode * 64 + (s[p] as int - 0x80);
      assert DecodeFrom(s, pos, usize, i, before, false) == DecodeFrom(s, pos, usize, i + 1, ucode, false);
      p := p + 1;
      i := i + 1;
    }
    if !InRange(ucode, usize) {
      return Unknown, next;
    }
  }

  /** getnextutf8char: the C loops, proved to compute Decode. */
  method GetNextUtf8Char(s: seq<byte>, pos: nat) returns (ucode: int, next: nat)
    requires NUL in s && pos <= Strlen(s)
    ensures (ucode, next) == Decode(s, pos)
    ensures ucode == Unknown || IsScalar(ucode)
  {
    var usize := LeadIndex(s[pos]);
    if usize == 5 || usize == 0 {
      return Unknown, pos + 1;
    }
    ucode, next := LowBits(s[pos], usize), pos + 1;
    if usize >= 2 {
      ucode, next := DecodeTail(s, pos, usize, ucode);
    }
  }

  /** The encoding of a scalar value, section 3 of RFC 3629. */
  function Encode(cp: int): (b: seq<byte>)
    requires IsScalar(cp)
    ensures 1 <= |b| <= 4
    ensures cp != 0 ==> NUL !in b
  {
    if cp < 0x80 then [cp as byte]
    else if cp < 0x800 then [(0xC0 + cp / 64) as byte, (0x80 + cp % 64) as byte]
    else if cp < 0x10000 then
      [(0xE0 + cp / 4096) as byte, (0x80 + (cp / 64) % 64) as byte, (0x80 + cp % 64) as byte]
    else
      [(0xF0 + cp / 262144) as byte, (0x80 + (cp / 4096) % 64) as byte,
       (0x80 + (cp / 64) % 64) as byte, (0x80 + cp % 64) as byte]
  }

  /** Decoding a two-byte sequence: the five low bits of the lead byte, then six of the continuation byte. */
  lemma DecodeTwo(s: seq<byte>, pos: nat)
    requires pos + 1 < |s| && NUL in s && pos <= Strlen(s)
    requires 0xC0 <= s[pos] < 0xE0 && IsCont(s[pos + 1])
    ensures var u := (s[pos] as int - 0xC0) * 64 + (s[pos + 1] as int - 0x80);
      Decode(s, pos) == (if InRange(u, 2) then u else Unknown, pos + 2)
  {
    LeadClasses(s[pos]);
  }

  /** Decoding a three-byte sequence: four low bits of the lead byte, then six of each continuation byte. */
  lemma DecodeThree(s: seq<byte>, pos: nat)
    requires pos + 2 < |s| && NUL in s && pos <= Strlen(s)
    requires 0xE0 <= s[pos] < 0xF0 && IsCont(s[pos + 1]) && IsCont(s[pos + 2])
    ensures var u := ((s[pos] as int - 0xE0) * 64 + (s[pos + 1] as int - 0x80)) * 64 + (s[pos + 2] as int - 0x80);
      Decode(s, pos) == (if InRange(u, 3) then u else Unknown, pos + 3)
  {
    LeadClasses(s[pos]);
  }

  /** Decoding a four-byte sequence: three low bits of the lead byte, then six of each continuation byte. */
  lemma DecodeFour(s: seq<byte>, pos: nat)
    requires pos + 3 < |s| && NUL in s && pos <= Strlen(s)
    requires 0xF0 <= s[pos] < 0xF8 && IsCont(s[pos + 1]) && IsCont(s[pos + 2]) && IsCont(s[pos + 3])
    ensures var u := (((s[pos] as int - 0xF0) * 64 + (s[pos + 1] as int - 0x80)) * 64
                      + (s[pos + 2] as int - 0x80)) * 64 + (s[pos + 3] as int - 0x80);
      Decode(s, pos) == (if InRange(u, 4) then u else Unknown, pos + 4)
  {
    LeadClasses(s[pos]);
  }

  /** Decoding the encoding of any scalar value gives it back and consumes exactly its bytes. */
  lemma DecodeEncode(cp: int, rest: seq<byte>)
    requires IsScalar(cp) && NUL in rest
    ensures NUL in Encode(cp) + rest
    ensures Decode(Encode(cp) + rest, 0) == (cp, |Encode(cp)|)
  {
    var e := Encode(cp);
    var s := e + rest;
    assert s[|e|..] == rest;
    if cp < 0x80 {
      LeadClasses(s[0]);
    } else if cp < 0x800 {
      DecodeEncodeTwo(cp, s);
    } else if cp < 0x10000 {
      DecodeEncodeThree(cp, s);
    } else {
      DecodeEncodeFour(cp, s);
    }
  }

  /** The two-byte case of DecodeEncode. */
  lemma DecodeEncodeTwo(cp: int, s: seq<byte>)
    requires 0x80 <= cp < 0x800 && 2 < |s| && NUL in s
    requires s[0] as int == 0xC0 + cp / 64 && s[1] as int == 0x80 + cp % 64
    ensures Decode(s, 0) == (cp, 2)
  {
    DecodeTwo(s, 0);
  }

  /** The three-byte case of DecodeEncode: the digits base 64 reassemble cp. */
  lemma DecodeEncodeThree(cp: int, s: seq<byte>)
    requires 0x800 <= cp < 0x10000 && !Between(cp, 0xD800, 0xDFFF) && 3 < |s| && NUL in s
    requires s[0] as int == 0xE0 + cp / 4096 && s[1] as int == 0x80 + (cp / 64) % 64
    requires s[2] as int == 0x80 + cp % 64
    ensures Decode(s, 0) == (cp, 3)
  {
    DecodeThree(s, 0);
    assert (cp / 4096) * 64 + (cp / 64) % 64 == cp / 64;
  }

  /** The four-byte case of DecodeEncode: the digits base 64 reassemble cp. */
  lemma DecodeEncodeFour(cp: int, s: seq<byte>)
    requires 0x10000 <= cp <= 0x10FFFF && 4 < |s| && NUL in s
    requires s[0] as int == 0xF0 + cp / 262144 && s[1] as int == 0x80 + (cp / 4096) % 64
    requires s[2] as int == 0x80 + (cp / 64) % 64 && s[3] as int == 0x80 + cp % 64
    ensures Decode(s, 0) == (cp, 4)
  {
    DecodeFour(s, 0);
    assert (cp / 262144) * 64 + (cp / 4096) % 64 == cp / 4096;
    assert (cp / 4096) * 64 + (cp / 64) % 64 == cp / 64;
  }

  /** Splitting a sum of a multiple of 64 and a remainder below 64. */
  lemma DivMod64(q: int, r: int)
    requires 0 <= r < 64
    ensures (q * 64 + r) / 64 == q && (q * 64 + r) % 64 == r
  {
  }

  /**
   * Only shortest-form encodings decode: every result other than U+FFFD is
   * a scalar value whose encoding is exactly the bytes consumed.
   */
  lemma DecodeCanonical(s: seq<byte>, pos: nat)
    requires NUL in s && pos <= Strlen(s)
    ensures Decode(s, pos).0 != Unknown ==> s[pos..Decode(s, pos).1] == Encode(Decode(s, pos).0)
  {
    var (cp, next) := Decode(s, pos);
    LeadClasses(s[pos]);
    if cp != Unknown && s[pos] >= 0x80 {
      DecodeBytes(s, pos);
      if s[pos] < 0xE0 {
        DecodeTwo(s, pos);
        CanonicalTwo(s[pos..next]);
      } else if s[pos] < 0xF0 {
        DecodeThree(s, pos);
        CanonicalThree(s[pos..next]);
      } else {
        DecodeFour(s, pos);
        CanonicalFour(s[pos..next]);
      }
    }
  }

  /** A well-formed two-byte sequence is the encoding of the value it carries. */
  lemma CanonicalTwo(e: seq<byte>)
    requires |e| == 2 && 0xC0 <= e[0] < 0xE0 && IsCont(e[1])
    requires InRange((e[0] as int - 0xC0) * 64 + (e[1] as int - 0x80), 2)
    ensures var u := (e[0] as int - 0xC0) * 64 + (e[1] as int - 0x80);
      IsScalar(u) && e == Encode(u)
  {
    var b0, b1 := e[0] as int, e[1] as int - 0x80;
    DivMod64(b0 - 0xC0, b1);
  }

  /** A well-formed three-byte sequence is the encoding of the value it carries. */
  lemma CanonicalThree(e: seq<byte>)
    requires |e| == 3 && 0xE0 <= e[0] < 0xF0 && IsCont(e[1]) && IsCont(e[2])
    requires InRange(((e[0] as int - 0xE0) * 64 + (e[1] as int - 0x80)) * 64 + (e[2] as int - 0x80), 3)
    ensures var u := ((e[0] as int - 0xE0) * 64 + (e[1] as int - 0x80)) * 64 + (e[2] as int - 0x80);
      IsScalar(u) && e == Encode(u)
  {
    var b0, b1, b2 := e[0] as int, e[1] as int - 0x80, e[2] as int - 0x80;
    var u1 := (b0 - 0xE0) * 64 + b1;
    DivMod64(u1, b2);
    DivMod64(b0 - 0xE0, b1);
    assert (u1 * 64 + b2) / 4096 == b0 - 0xE0;
  }

  /** A well-formed four-byte sequence is the encoding of the value it carries. */
  lemma CanonicalFour(e: seq<byte>)
    requires |e| == 4 && 0xF0 <= e[0] < 0xF8 && IsCont(e[1]) && IsCont(e[2]) && IsCont(e[3])
    requires InRange((((e[0] as int - 0xF0) * 64 + (e[1] as int - 0x80)) * 64
                      + (e[2] as int - 0x80)) * 64 + (e[3] as int - 0x80), 4)
    ensures var u := (((e[0] as int - 0xF0) * 64 + (e[1] as int - 0x80)) * 64
                      + (e[2] as int - 0x80)) * 64 + (e[3] as int - 0x80);
      IsScalar(u) && e == Encode(u)
  {
    var b0, b1, b2, b3 := e[0] as int, e[1] as int - 0x80, e[2] as int - 0x80, e[3] as int - 0x80;
    var u1 := (b0 - 0xF0) * 64 + b1;
    var u2 := u1 * 64 + b2;
    DivMod64(u2, b3);
    DivMod64(u1, b2);
    DivMod64(b0 - 0xF0, b1);
    assert (u2 * 64 + b3) / 4096 == u1;
    assert (u2 * 64 + b3) / 262144 == b0 - 0xF0;
  }

  /**
   * getnextutf8char with the terminator check corrected: a NUL met where a
   * continuation byte was expected ends the sequence at the NUL, so a
   * decode that starts inside the string never moves past its terminator.
   */
  function DecodeGuarded(s: seq<byte>, pos: nat): (r: (int, nat))
    requires NUL in s && pos <= Strlen(s)
    ensures r.0 == Unknown || IsScalar(r.0)
    ensures pos < Strlen(s) ==> pos < r.1 <= Strlen(s)
  {
    var usize := LeadFrom(s[pos], 0);
    if usize == 5 || usize == 0 then (Unknown, pos + 1)
    else if usize == 1 then (LowBits(s[pos], 1), pos + 1)
    else
      var r := DecodeFrom(s, pos, usize, 1, LowBits(s[pos], usize), true);
      assert r.1 > pos by { LeadClasses(s[pos]); }
      r
  }

  /** The as-written and the corrected decoder agree except that the corrected one stops on a terminator. */
  lemma {:induction false} DecodeFromGuardedAgrees(s: seq<byte>, pos: nat, usize: nat, j: nat, u: int)
    requires NUL in s
    requires 1 <= j <= usize && 2 <= usize <= 4
    requires pos + j <= Strlen(s)
    ensures var a := DecodeFrom(s, pos, usize, j, u, false);
      var b := DecodeFrom(s, pos, usize, j, u, true);
      a.0 == b.0 && (a.1 == b.1 || (a.1 == b.1 + 1 && s[b.1] == NUL))
    decreases usize - j
  {
    if j < usize && s[pos + j] != NUL && IsCont(s[pos + j]) {
      var u' := u * 64 + (s[pos + j] as int - 0x80);
      assert DecodeFrom(s, pos, usize, j, u, false) == DecodeFrom(s, pos, usize, j + 1, u', false);
      assert DecodeFrom(s, pos, usize, j, u, true) == DecodeFrom(s, pos, usize, j + 1, u', true);
      DecodeFromGuardedAgrees(s, pos, usize, j + 1, u');
    }
  }

  /** The corrected decoder returns the same code point and differs only by stopping on the terminator. */
  lemma DecodeGuardedAgrees(s: seq<byte>, pos: nat)
    requires NUL in s && pos <= Strlen(s)
    ensures DecodeGuarded(s, pos).0 == Decode(s, pos).0
    ensures var g := DecodeGuarded(s, pos).1;
      g == Decode(s, pos).1 || (g + 1 == Decode(s, pos).1 && g < |s| && s[g] == NUL)
  {
    var usize := LeadFrom(s[pos], 0);
    if 2 <= usize <= 4 {
      var u := LowBits(s[pos], usize);
      assert Decode(s, pos) == DecodeFrom(s, pos, usize, 1, u, false);
      assert DecodeGuarded(s, pos) == DecodeFrom(s, pos, usize, 1, u, true);
      DecodeFromGuardedAgrees(s, pos, usize, 1, u);
    }
  }

  /**
   * As written, a lead byte followed by the terminator leaves next_ret one
   * past the terminator: for the string "\xC3", next is 2 while the string
   * ends at offset 1.
   */
  lemma DecodeOverrunsTerminator()
    ensures var s: seq<byte> := [0xC3, 0];
      NUL in s && Strlen(s) == 1 && Decode(s, 0) == (Unknown, 2) && DecodeGuarded(s, 0) == (Unknown, 1)
  {
    var s: seq<byte> := [0xC3, 0];
    LeadClasses(s[0]);
    assert s[1..] == [0];
    assert Strlen(s[1..]) == 0;
  }
}
