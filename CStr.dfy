/**
 * The C string primitives the prompt relies on: strlen over a fixed buffer,
 * byte reads past the end of a string, strchr membership in the delimiter
 * set, and strncmp/strncasecmp equality.
 */
module CStr {
  import opened Defs

  /** strlen: the offset of the first NUL of a buffer that holds one. */
  function Strlen(s: seq<byte>): (n: nat)
    requires NUL in s
    ensures n < |s| && s[n] == NUL && NUL !in s[..n]
  {
    assert s[0..] == s;
    var n := StrlenFrom(s, 0);
    NoNulBefore(s, 0);
    assert forall k :: 0 <= k < n ==> s[..n][k] == s[k];
    n
  }

  /** The scan of strlen from offset i on: it stops at a NUL. */
  function StrlenFrom(s: seq<byte>, i: nat): (n: nat)
    requires i <= |s| && NUL in s[i..]
    ensures i <= n < |s| && s[n] == NUL
    decreases |s| - i
  {
    if s[i] == NUL then i
    else
      assert s[i..] == [s[i]] + s[i + 1..];
      StrlenFrom(s, i + 1)
  }

  /** The scan passes over no NUL before the one it stops at. */
  lemma {:induction false} NoNulBefore(s: seq<byte>, i: nat)
    requires i <= |s| && NUL in s[i..]
    ensures forall k :: i <= k < StrlenFrom(s, i) ==> s[k] != NUL
    decreases |s| - i
  {
    if s[i] != NUL {
      assert s[i..] == [s[i]] + s[i + 1..];
      NoNulBefore(s, i + 1);
    }
  }

  /** The first NUL is unique: any offset that is a NUL with none before it is the length. */
  lemma StrlenIs(s: seq<byte>, n: nat)
    requires n < |s| && s[n] == NUL && NUL !in s[..n]
    ensures Strlen(s) == n
  {
    var m := Strlen(s);
    assert forall i :: 0 <= i < n ==> s[..n][i] == s[i];
    assert forall i :: 0 <= i < m ==> s[..m][i] == s[i];
  }

  /** A NUL-free prefix shifts the length of what follows it. */
  lemma StrlenAfter(a: seq<byte>, b: seq<byte>)
    requires NUL !in a && NUL in b
    ensures Strlen(a + b) == |a| + Strlen(b)
  {
    var k := Strlen(b);
    assert (a + b)[..|a| + k] == a + b[..k];
    StrlenIs(a + b, |a| + k);
  }

  /** A terminator after a non-NUL byte lies further on. */
  lemma NulBeyond(s: seq<byte>, p: nat)
    requires p < |s| && NUL in s[p..] && s[p] != NUL
    ensures NUL in s[p + 1..]
  {
    assert s[p..] == [s[p]] + s[p + 1..];
  }

  /** The text a buffer holds: the bytes before its first NUL. */
  function Content(s: seq<byte>): (c: seq<byte>)
    requires NUL in s
    ensures NUL !in c && |c| < |s| && s[..|c|] == c && s[|c|] == NUL
  {
    s[..Strlen(s)]
  }

  /** Byte i of the NUL-terminated string whose text is s (NUL at and past the end). */
  function At(s: seq<byte>, i: nat): byte
  {
    if i < |s| then s[i] else NUL
  }

  /** Whether c is isspace() in the C locale. */
  predicate IsSpace(c: byte)
  {
    c == 32 || 9 <= c <= 13
  }

  /** strchr(delims, c) != NULL: c is a delimiter, and the terminator always matches. */
  predicate IsDelim(delims: seq<byte>, c: byte)
  {
    c == NUL || c in delims
  }

  /** The byte tolower yields in the C locale when icase is set, the byte itself otherwise. */
  function Fold(icase: bool, c: byte): (r: byte)
    ensures r == NUL <==> c == NUL
    ensures !icase ==> r == c
  {
    if icase && 'A' as int <= c as int <= 'Z' as int then c + 32 else c
  }

  /**
   * (*fstrncmp)(a, b, n) == 0, with fstrncmp strncmp (icase false) or an
   * ASCII strncasecmp (icase true): the first n bytes agree, reading NUL past
   * the end of each string (after a common NUL both read NUL, so agreement
   * there is the early stop of strncmp).
   */
  predicate StrnEq(icase: bool, a: seq<byte>, b: seq<byte>, n: nat)
  {
    forall i :: 0 <= i < n ==> Fold(icase, At(a, i)) == Fold(icase, At(b, i))
  }

  /** w starts the string s, byte for byte up to case folding. */
  predicate HasPrefix(icase: bool, s: seq<byte>, w: seq<byte>)
  {
    |w| <= |s| && forall i :: 0 <= i < |w| ==> Fold(icase, s[i]) == Fold(icase, w[i])
  }

  /** Comparing the |w| bytes of a NUL-free word w is a prefix test. */
  lemma StrnEqIsPrefix(icase: bool, s: seq<byte>, w: seq<byte>)
    requires NUL !in s && NUL !in w
    ensures StrnEq(icase, s, w, |w|) <==> HasPrefix(icase, s, w)
  {
    if StrnEq(icase, s, w, |w|) {
      assert |s| < |w| ==> w[|s|] in w && Fold(icase, At(w, |s|)) != Fold(icase, At(s, |s|));
      forall i | 0 <= i < |w| ensures Fold(icase, s[i]) == Fold(icase, w[i]) {
        assert Fold(icase, At(s, i)) == Fold(icase, At(w, i));
      }
    }
    if HasPrefix(icase, s, w) {
      forall i | 0 <= i < |w| ensures Fold(icase, At(s, i)) == Fold(icase, At(w, i)) {
        assert Fold(icase, s[i]) == Fold(icase, w[i]);
      }
    }
  }
}
