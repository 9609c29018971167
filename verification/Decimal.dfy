/** Decimal numerals: how the library prints them, measures them and reads them back. */
module Decimal {
  import opened Bytes

  const LLONG_MAX := 0x7fff_ffff_ffff_ffff
  const SDS_LLSTR_SIZE := 21

  /** The decimal numeral of n, most significant digit first. */
  function Digits(n: nat): (r: bytes)
    ensures |r| >= 1 && forall i :: 0 <= i < |r| ==> IsDigit(r[i])
  {
    if n < 10 then [ZERO + n] else Digits(n / 10) + [ZERO + n % 10]
  }

  /** What "%d" prints. */
  function Numeral(v: int): bytes {
    if v < 0 then [MINUS] + Digits(-v) else Digits(v)
  }

  predicate IsDigit(c: byte) {
    ZERO <= c <= ZERO + 9
  }

  /** The value of the digits of s up to its first CR, on top of v; None on any other byte. */
  function Accumulate(s: bytes, v: int): Option<int> {
    if s == [] || s[0] == CR then Some(v)
    else if IsDigit(s[0]) then Accumulate(s[1..], 10 * v + (s[0] - ZERO))
    else None
  }

  /** The number a CR-terminated line denotes; -1 stands for unexpected input as well. */
  function LongLong(s: bytes): int {
    var signed := s != [] && (s[0] == MINUS || s[0] == PLUS);
    var mult := if signed && s[0] == MINUS then -1 else 1;
    match Accumulate(if signed then s[1..] else s, 0)
    case Some(v) => mult * v
    case None => -1
  }

  lemma {:induction false} AccumulateStops(s: bytes, rest: bytes, v: int)
    ensures Accumulate(s + [CR] + rest, v) == Accumulate(s, v)
  {
    var t := s + [CR] + rest;
    if s == [] {
      assert t[0] == CR;
    } else {
      assert t[0] == s[0] && t[1..] == s[1..] + [CR] + rest;
      if s[0] != CR && IsDigit(s[0]) {
        AccumulateStops(s[1..], rest, 10 * v + (s[0] - ZERO));
      }
    }
  }

  /** Reading a number looks no further than the CR that ends its line. */
  lemma LongLongStops(s: bytes, rest: bytes)
    ensures LongLong(s + [CR] + rest) == LongLong(s)
  {
    var t := s + [CR] + rest;
    if s != [] {
      assert t[0] == s[0] && t[1..] == s[1..] + [CR] + rest;
      AccumulateStops(s[1..], rest, 0);
    }
    AccumulateStops(s, rest, 0);
  }

  lemma {:induction false} AccumulateAppend(a: bytes, d: byte, v: int)
    requires forall i :: 0 <= i < |a| ==> IsDigit(a[i])
    requires IsDigit(d)
    ensures Accumulate(a, v).Some?
    ensures Accumulate(a + [d], v) == Some(10 * Accumulate(a, v).value + (d - ZERO))
  {
    if a == [] {
      assert Accumulate([d], v) == Accumulate([d][1..], 10 * v + (d - ZERO));
    } else {
      assert (a + [d])[1..] == a[1..] + [d];
      AccumulateAppend(a[1..], d, 10 * v + (a[0] - ZERO));
    }
  }

  lemma {:induction false} AccumulateDigits(n: nat)
    ensures Accumulate(Digits(n), 0) == Some(n)
  {
    if n < 10 {
      assert Digits(n)[1..] == [];
    } else {
      AccumulateDigits(n / 10);
      AccumulateAppend(Digits(n / 10), ZERO + n % 10, 0);
    }
  }

  /** Printing and reading back are inverse, for every integer. */
  lemma NumeralRoundTrip(v: int)
    ensures LongLong(Numeral(v)) == v
  {
    if v < 0 {
      assert Numeral(v)[1..] == Digits(-v);
      AccumulateDigits(-v);
    } else {
      AccumulateDigits(v);
    }
  }

  function Pow10(k: nat): nat {
    if k == 0 then 1 else 10 * Pow10(k - 1)
  }

  /** A numeral of k digits denotes less than 10^k, so bounded values have bounded numerals. */
  lemma {:induction false} DigitsBound(n: nat, k: nat)
    requires k >= 1 && n < Pow10(k)
    ensures |Digits(n)| <= k
  {
    if n >= 10 {
      DigitsBound(n / 10, k - 1);
    }
  }

  lemma LongLongFits(n: nat)
    requires n <= LLONG_MAX + 1
    ensures |Digits(n)| <= 19
  {
    assert Pow10(5) == 100000;
    assert Pow10(10) == 100000 * Pow10(5);
    assert Pow10(15) == 100000 * Pow10(10);
    assert Pow10(19) == 10000 * Pow10(15);
    DigitsBound(n, 19);
  }

  /** intlen(): the length of the numeral of i, by repeated division. */
  method IntLen(i: int) returns (len: nat)
    ensures len == |Numeral(i)|
  {
    var n := i;
    len := 0;
    if n < 0 {
      len := len + 1;
      n := -n;
    }
    len := len + 1;
    n := n / 10;
    while n != 0
      invariant n >= 0
      invariant len + (if n == 0 then 0 else |Digits(n)|) == |Numeral(i)|
    {
      len := len + 1;
      n := n / 10;
    }
  }

  /** readLongLong(): reads from position p up to the next CR. */
  method ReadLongLong(s: bytes, p: nat) returns (r: int)
    requires p <= |s| && CR in s[p..]
    ensures r == LongLong(s[p..])
  {
    var i := p;
    var v, mult := 0, 1;
    if s[i] == MINUS {
      mult := -1;
      i := i + 1;
      assert s[i..] == s[p..][1..];
    } else if s[i] == PLUS {
      i := i + 1;
      assert s[i..] == s[p..][1..];
    }
    while s[i] != CR
      invariant p <= i < |s| && CR in s[i..]
      invariant LongLong(s[p..]) ==
                match Accumulate(s[i..], v) case Some(x) => mult * x case None => -1
      decreases |s| - i
    {
      assert s[i..][1..] == s[i + 1..];
      if IsDigit(s[i]) {
        v := 10 * v + (s[i] - ZERO);
      } else {
        return -1;
      }
      i := i + 1;
    }
    r := mult * v;
  }

  function Reversed(s: bytes): (r: bytes)
    ensures |r| == |s| && forall i :: 0 <= i < |s| ==> r[i] == s[|s| - 1 - i]
  {
    seq(|s|, i requires 0 <= i < |s| => s[|s| - 1 - i])
  }

  /** The first half of sdsll2str(): the digits of v, least significant first. */
  method WriteBackwards(s: array<byte>, value: nat) returns (p: nat)
    requires |Digits(value)| <= s.Length
    modifies s
    ensures p == |Digits(value)| && Reversed(s[..p]) == Digits(value)
    ensures forall i :: p <= i < s.Length ==> s[i] == old(s[i])
  {
    var v := value;
    p := 0;
    s[p] := ZERO + v % 10;
    p, v := p + 1, v / 10;
    while v != 0
      invariant 1 <= p <= |Digits(value)|
      invariant Digits(value) == (if v == 0 then [] else Digits(v)) + Reversed(s[..p])
      invariant forall i :: p <= i < s.Length ==> s[i] == old(s[i])
    {
      ghost var before := s[..p];
      ghost var d := ZERO + v % 10;
      s[p] := ZERO + v % 10;
      assert s[..p + 1] == before + [d];
      assert Reversed(s[..p + 1]) == [d] + Reversed(before);
      p, v := p + 1, v / 10;
    }
  }

  /** The second half: the l bytes at the start of s are reversed by swapping from both ends. */
  method ReverseInPlace(s: array<byte>, l: nat)
    requires l <= s.Length
    modifies s
    ensures s[..l] == Reversed(old(s[..l]))
    ensures forall i :: l <= i < s.Length ==> s[i] == old(s[i])
  {
    var q, p := 0, l - 1;
    while q < p
      invariant 0 <= q <= l && p == l - 1 - q
      invariant forall i :: 0 <= i < q ==> s[i] == old(s[l - 1 - i]) && s[l - 1 - i] == old(s[i])
      invariant forall i :: q <= i < l - q ==> s[i] == old(s[i])
      invariant forall i :: l <= i < s.Length ==> s[i] == old(s[i])
    {
      s[q], s[p] := s[p], s[q];
      q, p := q + 1, p - 1;
    }
  }

  /**
   sdsll2str(): digits are produced backwards, then sign and NUL, then reversed in place. The
   negation of the least value wraps to itself, which is its absolute value once unsigned.
   */
  method Ll2Str(s: array<byte>, value: int) returns (l: nat)
    requires -LLONG_MAX - 1 <= value <= LLONG_MAX
    requires s.Length >= SDS_LLSTR_SIZE
    modifies s
    ensures l == |Numeral(value)| < SDS_LLSTR_SIZE
    ensures s[..l] == Numeral(value) && s[l] == NUL
    ensures forall i :: l < i < s.Length ==> s[i] == old(s[i])
  {
    var v: nat := if value < 0 then -value else value;
    LongLongFits(v);
    l := WriteBackwards(s, v);
    ghost var back := s[..l];
    if value < 0 {
      s[l] := MINUS;
      l := l + 1;
      assert s[..l] == back + [MINUS];
      assert Reversed(s[..l]) == [MINUS] + Reversed(back);
    }
    s[l] := NUL;
    assert s[..l] == if value < 0 then back + [MINUS] else back;
    ReverseInPlace(s, l);
  }
}
