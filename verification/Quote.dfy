/** Quoted representations of byte strings, and splitting a line of them into arguments. */
module Quoting {
  import opened Bytes

  const LETTER_A: byte := 97
  const LETTER_N: byte := 110
  const LETTER_R: byte := 114
  const LETTER_T: byte := 116
  const LETTER_X: byte := 120

  /** isprint() in the C locale. */
  predicate IsPrint(c: byte) {
    SPACE <= c < 127
  }

  // ----- Quoting -----

  /** A digit of "%02x". */
  function HexDigit(n: nat): byte
    requires n < 16
  {
    if n < 10 then ZERO + n else LETTER_A + (n - 10)
  }

  predicate IsHexDigit(c: byte) {
    48 <= c <= 57 || 97 <= c <= 102 || 65 <= c <= 70
  }

  /** hex_digit_to_int() */
  function HexDigitToInt(c: byte): nat {
    if 48 <= c <= 57 then c - 48
    else if 97 <= c <= 102 then c - 97 + 10
    else if 65 <= c <= 70 then c - 65 + 10
    else 0
  }

  /** What one byte looks like between quotes. */
  function Escape(c: byte): bytes {
    if c == BACKSLASH || c == DQUOTE then [BACKSLASH, c]
    else if c == LF then [BACKSLASH, LETTER_N]
    else if c == CR then [BACKSLASH, LETTER_R]
    else if c == TAB then [BACKSLASH, LETTER_T]
    else if c == BEL then [BACKSLASH, LETTER_A]
    else if c == BS then [BACKSLASH, LETTER_B]
    else if IsPrint(c) then [c]
    else [BACKSLASH, LETTER_X, HexDigit(c / 16), HexDigit(c % 16)]
  }

  function EscapeAll(s: bytes): bytes {
    if s == [] then [] else Escape(s[0]) + EscapeAll(s[1..])
  }

  function Repr(s: bytes): bytes {
    [DQUOTE] + EscapeAll(s) + [DQUOTE]
  }

  /** sdscatrepr(): appends the representation of p to s, byte by byte. */
  method CatRepr(s: bytes, p: bytes) returns (r: bytes)
    ensures r == s + Repr(p)
  {
    r := s + [DQUOTE];
    var i := 0;
    while i < |p|
      invariant 0 <= i <= |p|
      invariant r + EscapeAll(p[i..]) == s + [DQUOTE] + EscapeAll(p)
    {
      var c := p[i];
      assert p[i..][1..] == p[i + 1..];
      Assoc(r, Escape(c), EscapeAll(p[i + 1..]));
      r := r + Escape(c);
      i := i + 1;
    }
    assert r == s + [DQUOTE] + EscapeAll(p);
    r := r + [DQUOTE];
  }

  // ----- Splitting -----

  datatype Mode = Plain | InQuotes | InSingleQuotes

  /** A C string can be read one past its end, where it has a NUL. */
  function Peek(s: bytes, i: nat): byte {
    if i < |s| then s[i] else NUL
  }

  /** A token, read up to and including the byte that ends it; None where quotes do not match. */
  datatype Token = Token(text: bytes, rest: bytes)

  /** The escape at the start of s inside double quotes: the byte it stands for and its length. */
  function Unescape(s: bytes): (r: (byte, nat))
    requires |s| >= 2 && s[0] == BACKSLASH
    ensures 2 <= r.1 <= |s|
  {
    if |s| >= 4 && s[1] == LETTER_X && IsHexDigit(s[2]) && IsHexDigit(s[3]) then
      (16 * HexDigitToInt(s[2]) + HexDigitToInt(s[3]), 4)
    else
      (if s[1] == LETTER_N then LF
       else if s[1] == LETTER_R then CR
       else if s[1] == LETTER_T then TAB
       else if s[1] == LETTER_B then BS
       else if s[1] == LETTER_A then BEL
       else s[1], 2)
  }

  /** The rest of a token of which current has been read already. */
  function ReadToken(s: bytes, mode: Mode, current: bytes): (r: Option<Token>)
    ensures r.Some? ==> |r.value.rest| <= |s| && (s != [] ==> |r.value.rest| < |s|)
    decreases |s|
  {
    match mode
    case InQuotes =>
      if s == [] then None
      else if s[0] == BACKSLASH && |s| >= 2 then
        var (c, n) := Unescape(s);
        ReadToken(s[n..], mode, current + [c])
      else if s[0] == DQUOTE then
        if |s| > 1 && !IsSpace(s[1]) then None else Some(Token(current, s[1..]))
      else ReadToken(s[1..], mode, current + [s[0]])
    case InSingleQuotes =>
      if s == [] then None
      else if s[0] == BACKSLASH && |s| >= 2 && s[1] == SQUOTE then
        ReadToken(s[2..], mode, current + [SQUOTE])
      else if s[0] == SQUOTE then
        if |s| > 1 && !IsSpace(s[1]) then None else Some(Token(current, s[1..]))
      else ReadToken(s[1..], mode, current + [s[0]])
    case Plain =>
      if s == [] then Some(Token(current, s))
      else if s[0] in {SPACE, LF, CR, TAB} then Some(Token(current, s[1..]))
      else if s[0] == DQUOTE then ReadToken(s[1..], InQuotes, current)
      else if s[0] == SQUOTE then ReadToken(s[1..], InSingleQuotes, current)
      else ReadToken(s[1..], Plain, current + [s[0]])
  }

  /** The arguments on a line, after those found already. */
  function Split(s: bytes, found: seq<bytes>): Option<seq<bytes>>
    decreases |s|
  {
    if s == [] then Some(found)
    else if IsSpace(s[0]) then Split(s[1..], found)
    else
      match ReadToken(s, Plain, [])
      case None => None
      case Some(t) => Split(t.rest, found + [t.text])
  }

  /** What one turn of the token loop does: it goes on, ends the token or finds it malformed. */
  datatype Turn = Continue | Done | Fail

  /** The turn leads from the left-hand to the right-hand state of the reference reader. */
  ghost predicate Follows(s: bytes, mode: Mode, current: bytes, turn: Turn, s': bytes, mode': Mode, current': bytes) {
    match turn
    case Continue => |s'| < |s| && ReadToken(s, mode, current) == ReadToken(s', mode', current')
    case Done => ReadToken(s, mode, current) == Some(Token(current', s'))
    case Fail => ReadToken(s, mode, current) == None
  }

  method TurnInQuotes(line: bytes, start: nat, before: bytes) returns (turn: Turn, p: nat, current: bytes)
    requires NUL !in line && start <= |line|
    ensures start <= p <= |line| && Follows(line[start..], InQuotes, before, turn, line[p..], InQuotes, current)
  {
    p, current, turn := start, before, Continue;
    ghost var s := line[p..];
    if Peek(line, p) == BACKSLASH && Peek(line, p + 1) == LETTER_X
       && IsHexDigit(Peek(line, p + 2)) && IsHexDigit(Peek(line, p + 3)) {
      var b := HexDigitToInt(Peek(line, p + 2)) * 16 + HexDigitToInt(Peek(line, p + 3));
      current, p := current + [b], p + 3;
      assert s[4..] == line[p + 1..];
    } else if Peek(line, p) == BACKSLASH && Peek(line, p + 1) != NUL {
      p := p + 1;
      var c := if line[p] == LETTER_N then LF
               else if line[p] == LETTER_R then CR
               else if line[p] == LETTER_T then TAB
               else if line[p] == LETTER_B then BS
               else if line[p] == LETTER_A then BEL
               else line[p];
      current := current + [c];
      assert s[2..] == line[p + 1..];
    } else if Peek(line, p) == DQUOTE {
      if Peek(line, p + 1) != NUL && !IsSpace(Peek(line, p + 1)) {
        return Fail, p, current;
      }
      turn := Done;
      assert s[1..] == line[p + 1..];
    } else if Peek(line, p) == NUL {
      return Fail, p, current;
    } else {
      current := current + [line[p]];
      assert s[1..] == line[p + 1..];
    }
    p := p + 1;
  }

  method TurnInSingleQuotes(line: bytes, start: nat, before: bytes) returns (turn: Turn, p: nat, current: bytes)
    requires NUL !in line && start <= |line|
    ensures start <= p <= |line|
    ensures Follows(line[start..], InSingleQuotes, before, turn, line[p..], InSingleQuotes, current)
  {
    p, current, turn := start, before, Continue;
    ghost var s := line[p..];
    if Peek(line, p) == BACKSLASH && Peek(line, p + 1) == SQUOTE {
      p := p + 1;
      current := current + [SQUOTE];
      assert s[2..] == line[p + 1..];
    } else if Peek(line, p) == SQUOTE {
      if Peek(line, p + 1) != NUL && !IsSpace(Peek(line, p + 1)) {
        return Fail, p, current;
      }
      turn := Done;
      assert s[1..] == line[p + 1..];
    } else if Peek(line, p) == NUL {
      return Fail, p, current;
    } else {
      current := current + [line[p]];
      assert s[1..] == line[p + 1..];
    }
    p := p + 1;
  }

  method TurnPlain(line: bytes, start: nat, before: bytes) returns (turn: Turn, p: nat, mode: Mode, current: bytes)
    requires NUL !in line && start <= |line|
    ensures start <= p <= |line| && Follows(line[start..], Plain, before, turn, line[p..], mode, current)
  {
    p, current, turn, mode := start, before, Continue, Plain;
    ghost var s := line[p..];
    var c := Peek(line, p);
    if c in {SPACE, LF, CR, TAB, NUL} {
      turn := Done;
    } else if c == DQUOTE {
      mode := InQuotes;
    } else if c == SQUOTE {
      mode := InSingleQuotes;
    } else {
      current := current + [c];
    }
    if c != NUL {
      assert s[1..] == line[p + 1..];
      p := p + 1;
    }
  }

  /** The inner loop of sdssplitargs(): one token, starting at start. */
  method GetToken(line: bytes, start: nat) returns (token: Option<bytes>, p: nat)
    requires NUL !in line && start <= |line|
    ensures start <= p <= |line|
    ensures match ReadToken(line[start..], Plain, [])
            case None => token == None
            case Some(t) => token == Some(t.text) && line[p..] == t.rest
  {
    p := start;
    var current: bytes, mode, turn := [], Plain, Continue;
    while turn == Continue
      invariant start <= p <= |line|
      invariant match turn
                case Continue => ReadToken(line[start..], Plain, []) == ReadToken(line[p..], mode, current)
                case Done => ReadToken(line[start..], Plain, []) == Some(Token(current, line[p..]))
                case Fail => ReadToken(line[start..], Plain, []) == None
      decreases turn == Continue, |line| - p
    {
      match mode
      case InQuotes => turn, p, current := TurnInQuotes(line, p, current);
      case InSingleQuotes => turn, p, current := TurnInSingleQuotes(line, p, current);
      case Plain => turn, p, mode, current := TurnPlain(line, p, current);
    }
    token := if turn == Done then Some(current) else None;
  }

  /** sdssplitargs() */
  method SplitArgs(line: bytes) returns (vector: Option<seq<bytes>>)
    requires NUL !in line
    ensures vector == Split(line, [])
  {
    var p := 0;
    var found: seq<bytes> := [];
    assert line[0..] == line;
    while true
      invariant 0 <= p <= |line| && Split(line, []) == Split(line[p..], found)
      decreases |line| - p
    {
      while p < |line| && IsSpace(line[p])
        invariant 0 <= p <= |line| && Split(line, []) == Split(line[p..], found)
      {
        assert line[p..][1..] == line[p + 1..];
        p := p + 1;
      }
      if p == |line| {
        return Some(found);
      }
      var token, next := GetToken(line, p);
      if token.None? {
        return None;
      }
      p, found := next, found + [token.value];
    }
  }

  // ----- Quoting and splitting are inverse -----

  lemma HexRoundTrip(n: nat)
    requires n < 16
    ensures IsHexDigit(HexDigit(n)) && HexDigitToInt(HexDigit(n)) == n
  {
  }

  /** Between quotes, the escape of a byte is read as that byte. */
  lemma EscapeRead(c: byte, rest: bytes, current: bytes)
    ensures ReadToken(Escape(c) + rest, InQuotes, current) == ReadToken(rest, InQuotes, current + [c])
  {
    var s := Escape(c) + rest;
    assert s[|Escape(c)|..] == rest;
    if |Escape(c)| == 4 {
      HexRoundTrip(c / 16);
      HexRoundTrip(c % 16);
      assert Unescape(s) == (c, 4);
    } else if |Escape(c)| == 2 {
      assert s[0] == BACKSLASH && s[1] == Escape(c)[1] != LETTER_X;
      assert Unescape(s) == (c, 2);
    }
  }

  /** Nothing but the end of the line, or a blank, may follow a closing quote. */
  predicate EndsToken(rest: bytes) {
    rest == [] || IsSpace(rest[0])
  }

  lemma QuoteCloses(rest: bytes, current: bytes)
    requires EndsToken(rest)
    ensures ReadToken([DQUOTE] + rest, InQuotes, current) == Some(Token(current, rest))
  {
    var s := [DQUOTE] + rest;
    assert s[1..] == rest;
  }

  /** A reader that takes the escape of any byte for that byte takes all the escapes of p for p. */
  lemma {:induction false} EscapesFold(read: (bytes, bytes) -> Option<Token>, p: bytes, rest: bytes, current: bytes)
    requires forall c, tail, cur {:trigger read(Escape(c) + tail, cur)} ::
               read(Escape(c) + tail, cur) == read(tail, cur + [c])
    ensures read(EscapeAll(p) + rest, current) == read(rest, current + p)
  {
    if p == [] {
      assert EscapeAll(p) + rest == rest && current + p == current;
    } else {
      var tail := EscapeAll(p[1..]) + rest;
      Assoc(Escape(p[0]), EscapeAll(p[1..]), rest);
      assert read(Escape(p[0]) + tail, current) == read(tail, current + [p[0]]);
      EscapesFold(read, p[1..], rest, current + [p[0]]);
      assert current + [p[0]] + p[1..] == current + p;
    }
  }

  /** Between quotes, the escapes of p and a closing quote are read as p. */
  lemma EscapesRead(p: bytes, rest: bytes, current: bytes)
    requires EndsToken(rest)
    ensures ReadToken(EscapeAll(p) + ([DQUOTE] + rest), InQuotes, current) == Some(Token(current + p, rest))
  {
    var read := (s: bytes, cur: bytes) => ReadToken(s, InQuotes, cur);
    forall c, tail, cur ensures read(Escape(c) + tail, cur) == read(tail, cur + [c]) {
      EscapeRead(c, tail, cur);
    }
    EscapesFold(read, p, [DQUOTE] + rest, current);
    QuoteCloses(rest, current + p);
  }

  lemma QuoteOpens(s: bytes)
    requires s != [] && s[0] == DQUOTE
    ensures ReadToken(s, Plain, []) == ReadToken(s[1..], InQuotes, [])
  {
  }

  /** A representation at the start of a line becomes the next argument. */
  lemma SplitRepr(p: bytes, rest: bytes, found: seq<bytes>)
    requires EndsToken(rest)
    ensures Split(Repr(p) + rest, found) == Split(rest, found + [p])
  {
    var s := Repr(p) + rest;
    assert s[0] == DQUOTE && s[1..] == EscapeAll(p) + ([DQUOTE] + rest);
    assert ReadToken(s, Plain, []) == Some(Token(p, rest)) by {
      QuoteOpens(s);
      EscapesRead(p, rest, []);
      assert [] + p == p;
    }
  }

  /** The representations of args on a line, with spaces between them. */
  function Line(args: seq<bytes>): bytes {
    if args == [] then []
    else Repr(args[0]) + if |args| == 1 then [] else [SPACE] + Line(args[1..])
  }

  /** Splitting a line of representations gives back the byte strings, whatever is in them. */
  lemma {:induction false} QuoteRoundTrip(args: seq<bytes>, line: bytes, found: seq<bytes>)
    requires line == Line(args)
    ensures Split(line, found) == Some(found + args)
  {
    if args == [] {
      assert found + args == found;
    } else {
      var tail := Line(args[1..]);
      var rest := if |args| == 1 then [] else [SPACE] + tail;
      assert line == Repr(args[0]) + rest;
      SplitRepr(args[0], rest, found);
      SkipSpace(tail, found + [args[0]]);
      QuoteRoundTrip(args[1..], tail, found + [args[0]]);
      assert found + [args[0]] + args[1..] == found + args;
    }
  }

  lemma SkipSpace(s: bytes, found: seq<bytes>)
    ensures Split([SPACE] + s, found) == Split(s, found)
  {
    assert ([SPACE] + s)[1..] == s;
  }

  /** Such a line is a C string, so sdssplitargs() sees all of it. */
  lemma {:induction false} NoNul(args: seq<bytes>)
    ensures NUL !in Line(args)
  {
    if args != [] {
      EscapesHaveNoNul(args[0]);
      NoNul(args[1..]);
    }
  }

  lemma {:induction false} EscapesHaveNoNul(p: bytes)
    ensures NUL !in EscapeAll(p)
  {
    if p != [] {
      EscapesHaveNoNul(p[1..]);
    }
  }
}
