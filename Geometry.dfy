/**
 * getnum and parsegeometryspec: reading the "WxH" geometry specification
 * with strtol. A byte sequence stands for the C string; the scan stops at
 * a NUL or at the end of the sequence, whichever comes first.
 */
module Geometry {
  import opened Defs
  import opened CStr
  import Defaults

  /** INT_MAX of a 32-bit int. */
  const IntMax: int := 0x7fff_ffff

  predicate IsDigit(c: byte)
  {
    '0' as byte <= c <= '9' as byte
  }

  /** The first position from i on that does not hold a space. */
  function SkipSpace(s: seq<byte>, i: nat): (j: nat)
    requires i <= |s|
    ensures i <= j <= |s| && (j < |s| ==> !IsSpace(s[j]))
    ensures forall k :: i <= k < j ==> IsSpace(s[k])
    decreases |s| - i
  {
    if i < |s| && IsSpace(s[i]) then SkipSpace(s, i + 1) else i
  }

  /** The first position from i on that does not hold a decimal digit. */
  function DigitsEnd(s: seq<byte>, i: nat): (j: nat)
    requires i <= |s|
    ensures i <= j <= |s| && (j < |s| ==> !IsDigit(s[j]))
    ensures forall k :: i <= k < j ==> IsDigit(s[k])
    decreases |s| - i
  {
    if i < |s| && IsDigit(s[i]) then DigitsEnd(s, i + 1) else i
  }

  /** The number the decimal digits s[k..m] denote, the most significant first. */
  function ValueOf(s: seq<byte>, k: nat, m: nat): (v: nat)
    requires k <= m <= |s|
    requires forall i :: k <= i < m ==> IsDigit(s[i])
    decreases m - k
  {
    if m == k then 0
    else
      assert IsDigit(s[m - 1]);
      ValueOf(s, k, m - 1) * 10 + (s[m - 1] as int - '0' as int)
  }

  /** The value strtol computes and the position it leaves endp at. */
  datatype Num = Num(value: int, end: nat)

  /**
   * strtol(s + i, &endp, 10): leading spaces, an optional sign, then
   * decimal digits. Without a digit nothing is consumed and the value is
   * 0. The value is unbounded here; the clamping of strtol to LONG_MIN
   * and LONG_MAX changes nothing getnum decides, since any clamped value
   * lies outside [0, INT_MAX].
   */
  function Strtol(s: seq<byte>, i: nat): (r: Num)
    requires i <= |s|
    ensures i <= r.end <= |s|
    ensures r.end == i ==> r.value == 0
    ensures r.end > i ==> IsDigit(s[r.end - 1]) && (r.end < |s| ==> !IsDigit(s[r.end]))
  {
    var j := SkipSpace(s, i);
    var k := if j < |s| && (s[j] == '+' as byte || s[j] == '-' as byte) then j + 1 else j;
    var m := DigitsEnd(s, k);
    if m == k then Num(0, i)
    else
      var v := ValueOf(s, k, m);
      Num(if s[j] == '-' as byte then -(v as int) else v, m)
  }

  /** getnum(&s, &n): whether it failed, the number read and where s now points. */
  datatype GetNumResult = GetNumResult(error: bool, n: int, end: nat)

  /**
   * getnum: strtol, failing when nothing was read or the value is
   * negative or above INT_MAX. A success reads at least one digit.
   */
  function GetNum(s: seq<byte>, i: nat): (r: GetNumResult)
    requires i <= |s|
    ensures i <= r.end <= |s|
    ensures !r.error ==> 0 <= r.n <= IntMax && i < r.end && IsDigit(s[r.end - 1])
    ensures r.end == i ==> r.error
  {
    var num := Strtol(s, i);
    GetNumResult(num.value > IntMax || num.value < 0 || num.end == i, num.value, num.end)
  }

  /**
   * parsegeometryspec: a number, 'x', a number, then the end of the
   * string; anything else is the fatal "improper geometry specification".
   */
  function ParseGeometrySpec(spec: seq<byte>): (r: Result<(int, int)>)
    ensures r.Success? ==> 0 <= r.value.0 <= IntMax && 0 <= r.value.1 <= IntMax
    ensures r.Success? ==> 'x' as byte in spec
  {
    var w := GetNum(spec, 0);
    if w.error then Failure("improper geometry specification")
    else if !(w.end < |spec| && spec[w.end] == 'x' as byte) then Failure("improper geometry specification")
    else
      var h := GetNum(spec, w.end + 1);
      if h.error then Failure("improper geometry specification")
      else if h.end < |spec| && spec[h.end] != NUL then Failure("improper geometry specification")
      else Success((w.n, h.n))
  }

  /** The decimal digits of n, as printf("%d") writes them. */
  function Decimal(n: nat): (d: seq<byte>)
    ensures 1 <= |d|
    ensures forall k :: 0 <= k < |d| ==> IsDigit(d[k])
  {
    if n < 10 then [(n + '0' as int) as byte]
    else Decimal(n / 10) + [(n % 10 + '0' as int) as byte]
  }

  /** A non-empty run of decimal digits. */
  predicate Digits(d: seq<byte>)
  {
    1 <= |d| && forall k :: 0 <= k < |d| ==> IsDigit(d[k])
  }

  /** Reading back the digits printed for n gives n. */
  lemma {:induction false} DecimalValue(n: nat)
    ensures Digits(Decimal(n)) && ValueOf(Decimal(n), 0, |Decimal(n)|) == n
  {
    var d := Decimal(n);
    if n >= 10 {
      var e := Decimal(n / 10);
      DecimalValue(n / 10);
      assert d[..|e|] == e;
      ValueShift(d, 0, e);
    }
  }

  /** A run of digits has the same value wherever it sits. */
  lemma {:induction false} ValueShift(s: seq<byte>, off: nat, d: seq<byte>)
    requires off + |d| <= |s| && s[off..off + |d|] == d
    requires forall k :: 0 <= k < |d| ==> IsDigit(d[k])
    ensures forall k :: off <= k < off + |d| ==> IsDigit(s[k])
    ensures ValueOf(s, off, off + |d|) == ValueOf(d, 0, |d|)
    decreases |d|
  {
    forall k | off <= k < off + |d|
      ensures IsDigit(s[k])
    {
      assert s[k] == d[k - off];
    }
    if |d| > 0 {
      var e := d[..|d| - 1];
      assert s[off..off + |e|] == e;
      ValueShift(s, off, e);
      ValueShift(d, 0, e);
      assert s[off + |d| - 1] == d[|d| - 1];
    }
  }

  /** The run of digits from i ends at the first non-digit. */
  lemma {:induction false} DigitsEndAt(s: seq<byte>, i: nat, m: nat)
    requires i <= m <= |s|
    requires forall k :: i <= k < m ==> IsDigit(s[k])
    requires m < |s| ==> !IsDigit(s[m])
    ensures DigitsEnd(s, i) == m
    decreases m - i
  {
    if i < m {
      DigitsEndAt(s, i + 1, m);
    }
  }

  /** The run of spaces from i ends at the first byte that is not one. */
  lemma {:induction false} SkipSpaceAt(s: seq<byte>, i: nat, m: nat)
    requires i <= m <= |s|
    requires forall k :: i <= k < m ==> IsSpace(s[k])
    requires m < |s| ==> !IsSpace(s[m])
    ensures SkipSpace(s, i) == m
    decreases m - i
  {
    if i < m {
      SkipSpaceAt(s, i + 1, m);
    }
  }

  /** strtol from i: the spaces end at j, the digits run from k, after any sign, to m. */
  lemma StrtolAt(s: seq<byte>, i: nat, j: nat, k: nat, m: nat)
    requires i <= j < |s| && SkipSpace(s, i) == j && s[j] != '-' as byte
    requires k == (if s[j] == '+' as byte then j + 1 else j) && k < m <= |s| && DigitsEnd(s, k) == m
    ensures Strtol(s, i) == Num(ValueOf(s, k, m), m)
  {
  }

  /**
   * getnum reads the value of a run of digits placed after sp spaces and,
   * when plus is set, a '+', provided what follows it is not a digit.
   */
  lemma GetNumDigits(s: seq<byte>, i: nat, sp: nat, plus: bool, d: seq<byte>, rest: seq<byte>, n: nat)
    requires Digits(d) && ValueOf(d, 0, |d|) == n && n <= IntMax
    requires rest == [] || !IsDigit(rest[0])
    requires var j := i + sp + (if plus then 1 else 0); j <= |s| && s[j..] == d + rest
    requires forall k :: i <= k < i + sp ==> s[k] == ' ' as byte
    requires plus ==> s[i + sp] == '+' as byte
    ensures GetNum(s, i) == GetNumResult(false, n, i + sp + (if plus then 1 else 0) + |d|)
  {
    var j := i + sp + (if plus then 1 else 0);
    RunAt(s, j, d, rest);
    SkipSpaceAt(s, i, i + sp);
    StrtolAt(s, i, i + sp, j, j + |d|);
  }

  /** A run of digits at j that a non-digit, or the end, follows: where it ends and what it is worth. */
  lemma RunAt(s: seq<byte>, j: nat, d: seq<byte>, rest: seq<byte>)
    requires Digits(d) && (rest == [] || !IsDigit(rest[0]))
    requires j <= |s| && s[j..] == d + rest
    ensures j + |d| <= |s| && IsDigit(s[j]) && DigitsEnd(s, j) == j + |d|
    ensures forall k :: j <= k < j + |d| ==> IsDigit(s[k])
    ensures ValueOf(s, j, j + |d|) == ValueOf(d, 0, |d|)
  {
    var m := j + |d|;
    assert s[j..m] == d by {
      assert s[j..m] == s[j..][..|d|];
    }
    assert m < |s| ==> s[m] == rest[0] by {
      if m < |s| {
        assert s[m] == s[j..][|d|];
      }
    }
    assert s[j] == d[0];
    ValueShift(s, j, d);
    DigitsEndAt(s, j, m);
  }

  /** parsegeometryspec succeeds when both getnum calls do, with an 'x' between them and the end after. */
  lemma ParsedAs(spec: seq<byte>, w: int, h: int, m: nat, e: nat)
    requires GetNum(spec, 0) == GetNumResult(false, w, m) && m < |spec| && spec[m] == 'x' as byte
    requires GetNum(spec, m + 1) == GetNumResult(false, h, e) && (e < |spec| ==> spec[e] == NUL)
    ensures ParseGeometrySpec(spec) == Success((w, h))
  {
  }

  /** Two runs of digits joined by 'x', with nothing or a terminator after, parse to their values. */
  lemma ParseDigits(dw: seq<byte>, dh: seq<byte>, tail: seq<byte>, w: nat, h: nat)
    requires Digits(dw) && Digits(dh) && ValueOf(dw, 0, |dw|) == w && ValueOf(dh, 0, |dh|) == h
    requires w <= IntMax && h <= IntMax && (tail == [] || tail[0] == NUL)
    ensures ParseGeometrySpec(dw + (['x' as byte] + (dh + tail))) == Success((w, h))
  {
    var spec := dw + (['x' as byte] + (dh + tail));
    GetNumDigits(spec, 0, 0, false, dw, ['x' as byte] + (dh + tail), w);
    assert spec[|dw|..] == ['x' as byte] + (dh + tail);
    assert spec[|dw| + 1..] == dh + tail by {
      assert spec[|dw| + 1..] == spec[|dw|..][1..];
    }
    GetNumDigits(spec, |dw| + 1, 0, false, dh, tail, h);
    assert |dw| + 1 + |dh| < |spec| ==> spec[|dw| + 1 + |dh|] == tail[0];
    ParsedAs(spec, w, h, |dw|, |dw| + 1 + |dh|);
  }

  /**
   * Printing a width and a height as "WxH" and parsing the result gives
   * them back, whether or not a terminator follows.
   */
  lemma GeometryRoundTrip(w: nat, h: nat, tail: seq<byte>)
    requires w <= IntMax && h <= IntMax
    requires tail == [] || tail[0] == NUL
    ensures ParseGeometrySpec(Decimal(w) + (['x' as byte] + (Decimal(h) + tail))) == Success((w, h))
  {
    DecimalValue(w);
    DecimalValue(h);
    ParseDigits(Decimal(w), Decimal(h), tail, w, h);
  }

  /** The compiled-in "0x0" gives an unset width and height. */
  lemma GeometryDefault()
    ensures ParseGeometrySpec(Defaults.GeometrySpec) == Success((0, 0))
  {
    assert Defaults.GeometrySpec == Decimal(0) + (['x' as byte] + (Decimal(0) + []));
    GeometryRoundTrip(0, 0, []);
  }

  /** strtol lets through a space before the width and a '+' before the height. */
  lemma LenientDigits(dw: seq<byte>, dh: seq<byte>, w: nat, h: nat)
    requires Digits(dw) && Digits(dh) && ValueOf(dw, 0, |dw|) == w && ValueOf(dh, 0, |dh|) == h
    requires w <= IntMax && h <= IntMax
    ensures ParseGeometrySpec([' ' as byte] + (dw + (['x' as byte, '+' as byte] + dh))) == Success((w, h))
  {
    var spec := [' ' as byte] + (dw + (['x' as byte, '+' as byte] + dh));
    assert spec[1..] == dw + (['x' as byte, '+' as byte] + dh);
    GetNumDigits(spec, 0, 1, false, dw, ['x' as byte, '+' as byte] + dh, w);
    assert spec[|dw| + 1..] == ['x' as byte, '+' as byte] + dh by {
      assert spec[|dw| + 1..] == spec[1..][|dw|..];
    }
    assert spec[|dw| + 3..] == dh + [] by {
      assert spec[|dw| + 3..] == spec[|dw| + 1..][2..];
    }
    GetNumDigits(spec, |dw| + 2, 0, true, dh, [], h);
    ParsedAs(spec, w, h, |dw| + 1, |spec|);
  }

  /** The same for a printed width and height. */
  lemma GeometryLenient(w: nat, h: nat)
    requires w <= IntMax && h <= IntMax
    ensures ParseGeometrySpec([' ' as byte] + (Decimal(w) + (['x' as byte, '+' as byte] + Decimal(h)))) == Success((w, h))
  {
    DecimalValue(w);
    DecimalValue(h);
    LenientDigits(Decimal(w), Decimal(h), w, h);
  }

  /** A negative width is refused, whatever follows it. */
  lemma GeometryNegativeRefused(n: nat, rest: seq<byte>)
    requires n > 0
    requires rest == [] || !IsDigit(rest[0])
    ensures ParseGeometrySpec(['-' as byte] + Decimal(n) + rest).Failure?
  {
    var d := Decimal(n);
    var spec := ['-' as byte] + d + rest;
    assert SkipSpace(spec, 0) == 0;
    assert spec[1..1 + |d|] == d;
    DecimalValue(n);
    ValueShift(spec, 1, d);
    DigitsEndAt(spec, 1, 1 + |d|);
  }
}
