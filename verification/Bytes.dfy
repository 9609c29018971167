/** Bytes, byte strings and the few C-string notions that the hiredis sources share. */
module Bytes {

  type byte = b: int | 0 <= b < 256
  type bytes = seq<byte>

  datatype Option<+T> = None | Some(value: T)

  const NUL: byte := 0
  const BEL: byte := 7
  const BS: byte := 8
  const TAB: byte := 9
  const LF: byte := 10
  const CR: byte := 13
  const SPACE: byte := 32
  const DQUOTE: byte := 34
  const DOLLAR: byte := 36
  const PERCENT: byte := 37
  const SQUOTE: byte := 39
  const STAR: byte := 42
  const PLUS: byte := 43
  const MINUS: byte := 45
  const ZERO: byte := 48
  const COLON: byte := 58
  const BACKSLASH: byte := 92
  const LETTER_B: byte := 98

  const CRLF: bytes := [CR, LF]

  /** All the strings of ss, one after the other. */
  function Concat(ss: seq<bytes>): bytes {
    if ss == [] then [] else ss[0] + Concat(ss[1..])
  }

  lemma {:induction false} ConcatAppend(a: seq<bytes>, b: seq<bytes>)
    ensures Concat(a + b) == Concat(a) + Concat(b)
  {
    if a == [] {
      assert a + b == b;
    } else {
      assert (a + b)[1..] == a[1..] + b;
      ConcatAppend(a[1..], b);
    }
  }

  lemma Assoc<T>(a: seq<T>, b: seq<T>, c: seq<T>)
    ensures a + b + c == a + (b + c)
  {
  }

  /** Cutting twice is cutting once. */
  lemma Slices<T>(s: seq<T>, a: nat, b: nat)
    requires a + b <= |s|
    ensures s[a..][b..] == s[a + b..] && s[a..][..b] == s[a..a + b]
    ensures s[..a + b][a..] == s[a..a + b] && s[..a + b][..a] == s[..a]
  {
  }

  /** Position of the first occurrence of c in s, or |s|. */
  function IndexOf(s: bytes, c: byte): (n: nat)
    ensures n <= |s| && c !in s[..n]
    ensures n < |s| ==> s[n] == c
  {
    if s == [] || s[0] == c then 0 else
      var n := 1 + IndexOf(s[1..], c);
      assert s[..n] == [s[0]] + s[1..][..n - 1];
      n
  }

  /** The C string held in s: everything before the first NUL byte. */
  function CString(s: bytes): bytes {
    s[..IndexOf(s, NUL)]
  }

  lemma {:induction false} NulAt(a: bytes, behind: bytes)
    requires 0 !in a && (behind == [] || behind[0] == 0)
    ensures IndexOf(a + behind, NUL) == |a|
  {
    if a == [] {
      assert a + behind == behind;
    } else {
      assert (a + behind)[0] == a[0] && (a + behind)[1..] == a[1..] + behind;
      NulAt(a[1..], behind);
    }
  }

  /** It is the bytes themselves, if none of them is NUL, whatever stands behind a NUL. */
  lemma CStringIs(a: bytes, behind: bytes)
    requires 0 !in a && (behind == [] || behind[0] == 0)
    ensures CString(a + behind) == a
  {
    NulAt(a, behind);
  }

  /** isspace() in the C locale. */
  predicate IsSpace(c: byte) {
    c == SPACE || TAB <= c <= CR
  }

  /** tolower() in the C locale. */
  function ToLower(c: byte): byte {
    if 65 <= c <= 90 then c + 32 else c
  }

  function Lower(s: bytes): (r: bytes)
    ensures |r| == |s| && forall i :: 0 <= i < |s| ==> r[i] == ToLower(s[i])
  {
    seq(|s|, i requires 0 <= i < |s| => ToLower(s[i]))
  }

  /** The letters of w, each in either case. */
  predicate SameLetters(s: bytes, w: bytes) {
    |s| == |w| && forall i :: 0 <= i < |s| ==> s[i] == w[i] || s[i] as int + 32 == w[i] as int
  }

  lemma LowerMeans(s: bytes, w: bytes)
    requires forall i :: 0 <= i < |w| ==> 97 <= w[i] <= 122
    ensures Lower(s) == w <==> SameLetters(s, w)
  {
    assert Lower(s) == w ==> forall i :: 0 <= i < |s| ==> ToLower(s[i]) == w[i];
  }
}
