/**
 The reply half of the Redis serialization protocol as a recursive grammar, with the
 quirks of the reader: unexpected digits read as -1, the two bytes after a bulk string
 are not looked at, and an array marker below eight enclosing arrays is an error.
 */
module Resp {
  import opened Bytes
  import opened Decimal

  /** A finished reply. An array keeps the count that was announced for it. */
  datatype Reply =
    | Str(text: bytes)
    | Arr(count: int, elems: seq<Reply>)
    | Integer(n: int)
    | Nil
    | Status(text: bytes)
    | Error(text: bytes)

  datatype ProtocolError = BadTypeByte(b: byte) | TooDeep

  /** The outcome of parsing a byte string that may go on later. */
  datatype Parse =
    | Done(reply: Reply, rest: bytes)
    | More
    | Bad(error: ProtocolError)

  datatype Kind = KString | KArray | KInteger | KStatus | KError

  const MAX_DEPTH := 8

  function KindOf(b: byte): Option<Kind> {
    if b == MINUS then Some(KError)
    else if b == PLUS then Some(KStatus)
    else if b == COLON then Some(KInteger)
    else if b == DOLLAR then Some(KString)
    else if b == STAR then Some(KArray)
    else None
  }

  predicate CrlfAt(s: bytes, i: int) {
    0 <= i < |s| - 1 && s[i] == CR && s[i + 1] == LF
  }

  /** Position of the first CR LF of s, or -1. */
  function Crlf(s: bytes): (r: int)
    ensures -1 <= r && (r >= 0 ==> CrlfAt(s, r))
    ensures forall i :: 0 <= i < (if r < 0 then |s| else r) ==> !CrlfAt(s, i)
  {
    if |s| < 2 then -1
    else if CrlfAt(s, 0) then 0
    else
      var t := s[1..];
      var r := Crlf(t);
      assert forall i :: 0 < i < |s| ==> CrlfAt(s, i) == CrlfAt(t, i - 1);
      if r < 0 then -1 else r + 1
  }

  /** The first CR LF is determined by what it is, and later input does not move it. */
  lemma CrlfUnique(s: bytes, x: bytes, i: nat)
    requires CrlfAt(s, i) && forall j :: 0 <= j < i ==> !CrlfAt(s, j)
    ensures Crlf(s) == i == Crlf(s + x)
  {
    assert CrlfAt(s + x, i);
    assert forall j :: 0 <= j < i ==> CrlfAt(s + x, j) == CrlfAt(s, j);
  }

  function LineOf(kind: Kind, line: bytes): Reply
    requires kind.KInteger? || kind.KStatus? || kind.KError?
  {
    match kind
    case KInteger => Integer(LongLong(line))
    case KStatus => Status(line)
    case _ => Error(line)
  }

  /** One reply at the given nesting depth. */
  function ParseReply(s: bytes, depth: nat): (p: Parse)
    ensures p.Done? ==> |p.rest| < |s|
    decreases |s|, 0
  {
    if s == [] then More
    else match KindOf(s[0])
      case None => Bad(BadTypeByte(s[0]))
      case Some(kind) => ParseItem(kind, s[1..], depth)
  }

  /** What follows a type byte. */
  function ParseItem(kind: Kind, s: bytes, depth: nat): (p: Parse)
    ensures p.Done? ==> |p.rest| < |s|
    decreases |s|, 0
  {
    if kind.KArray? && depth >= MAX_DEPTH then Bad(TooDeep) else
    var i := Crlf(s);
    if i < 0 then More else
    var line, rest := s[..i], s[i + 2..];
    match kind
    case KString =>
      var n := LongLong(line);
      if n < 0 then Done(Nil, rest)
      else if |rest| < n + 2 then More
      else Done(Str(rest[..n]), rest[n + 2..])
    case KArray =>
      var n := LongLong(line);
      if n == -1 then Done(Nil, rest)
      else if n <= 0 then Done(Arr(n, []), rest)
      else ParseElems(rest, n, [], depth + 1)
    case _ => Done(LineOf(kind, line), rest)
  }

  /** The elements that an array of the given count still lacks, after those already done. */
  function ParseElems(s: bytes, count: nat, done: seq<Reply>, depth: nat): (p: Parse)
    ensures p.Done? ==> |p.rest| <= |s|
    decreases |s|, 1
  {
    if |done| >= count then Done(Arr(count, done), s)
    else match ParseReply(s, depth)
      case Done(r, rest) => ParseElems(rest, count, done + [r], depth)
      case p => p
  }

  // ----- Later input never changes an answer already given -----

  /** What p becomes when x is appended to the input it was given for. */
  predicate Extends(p: Parse, q: Parse, x: bytes) {
    match p
    case Done(r, rest) => q == Done(r, rest + x)
    case More => true
    case Bad(_) => q == p
  }

  lemma {:induction false} ReplyStable(s: bytes, x: bytes, depth: nat)
    ensures Extends(ParseReply(s, depth), ParseReply(s + x, depth), x)
    decreases |s|, 0
  {
    if s != [] {
      assert (s + x)[0] == s[0] && (s + x)[1..] == s[1..] + x;
      if KindOf(s[0]).Some? {
        ItemStable(KindOf(s[0]).value, s[1..], x, depth);
      }
    }
  }

  lemma {:induction false} ItemStable(kind: Kind, s: bytes, x: bytes, depth: nat)
    ensures Extends(ParseItem(kind, s, depth), ParseItem(kind, s + x, depth), x)
    decreases |s|, 0
  {
    var i := Crlf(s);
    if i >= 0 && !(kind.KArray? && depth >= MAX_DEPTH) {
      CrlfUnique(s, x, i);
      var line, rest := s[..i], s[i + 2..];
      assert (s + x)[..i] == line && (s + x)[i + 2..] == rest + x;
      var n := LongLong(line);
      if kind.KString? && 0 <= n <= |rest| - 2 {
        assert (rest + x)[..n] == rest[..n] && (rest + x)[n + 2..] == rest[n + 2..] + x;
      } else if kind.KArray? && n > 0 {
        ElemsStable(rest, x, n, [], depth + 1);
      }
    }
  }

  lemma {:induction false} ElemsStable(s: bytes, x: bytes, count: nat, done: seq<Reply>, depth: nat)
    ensures Extends(ParseElems(s, count, done, depth), ParseElems(s + x, count, done, depth), x)
    decreases |s|, 1
  {
    if |done| < count {
      ReplyStable(s, x, depth);
      var p := ParseReply(s, depth);
      if p.Done? {
        ElemsStable(p.rest, x, count, done + [p.reply], depth);
      }
    }
  }

  /** What a reply leaves over is a suffix of its input. */
  lemma {:induction false} ReplyLeavesSuffix(s: bytes, depth: nat)
    requires ParseReply(s, depth).Done?
    ensures var rest := ParseReply(s, depth).rest; s == s[..|s| - |rest|] + rest
    decreases |s|, 0
  {
    ItemLeavesSuffix(KindOf(s[0]).value, s[1..], depth);
  }

  lemma {:induction false} ItemLeavesSuffix(kind: Kind, s: bytes, depth: nat)
    requires ParseItem(kind, s, depth).Done?
    ensures var rest := ParseItem(kind, s, depth).rest; s == s[..|s| - |rest|] + rest
    decreases |s|, 0
  {
    var i := Crlf(s);
    var n := LongLong(s[..i]);
    if kind.KArray? && n > 0 {
      ElemsLeaveSuffix(s[i + 2..], n, [], depth + 1);
    }
  }

  lemma {:induction false} ElemsLeaveSuffix(s: bytes, count: nat, done: seq<Reply>, depth: nat)
    requires ParseElems(s, count, done, depth).Done?
    ensures var rest := ParseElems(s, count, done, depth).rest; s == s[..|s| - |rest|] + rest
    decreases |s|, 1
  {
    if |done| < count {
      ReplyLeavesSuffix(s, depth);
      var p := ParseReply(s, depth);
      ElemsLeaveSuffix(p.rest, count, done + [p.reply], depth);
    }
  }

  /** A reply is recognised at its last byte and not before: every shorter prefix asks for more. */
  lemma NoEarlyReply(s: bytes, depth: nat, k: nat)
    requires ParseReply(s, depth).Done?
    requires k < |s| - |ParseReply(s, depth).rest|
    ensures ParseReply(s[..k], depth) == More
  {
    assert s == s[..k] + s[k..];
    ReplyStable(s[..k], s[k..], depth);
  }

  /** ... and what was recognised does not depend on anything after that byte. */
  lemma ReplyIsItsOwnBytes(s: bytes, depth: nat)
    requires ParseReply(s, depth).Done?
    ensures var p := ParseReply(s, depth); ParseReply(s[..|s| - |p.rest|], depth) == Done(p.reply, [])
  {
    var p := ParseReply(s, depth);
    var own := s[..|s| - |p.rest|];
    ReplyLeavesSuffix(s, depth);
    ReplyStable(own, p.rest, depth);
    var q := ParseReply(own, depth);
    if q.More? {
      NotMore(own, p.rest, depth);
    }
  }

  /** If a string asks for more, a longer one finishes strictly inside what was added. */
  lemma {:induction false} NotMore(s: bytes, x: bytes, depth: nat)
    requires ParseReply(s, depth).More? && ParseReply(s + x, depth).Done?
    ensures |ParseReply(s + x, depth).rest| < |x|
    decreases |s|, 0
  {
    if s == [] {
      assert s + x == x;
    } else {
      assert (s + x)[0] == s[0] && (s + x)[1..] == s[1..] + x;
      NotMoreItem(KindOf(s[0]).value, s[1..], x, depth);
    }
  }

  lemma {:induction false} NotMoreItem(kind: Kind, s: bytes, x: bytes, depth: nat)
    requires ParseItem(kind, s, depth).More? && ParseItem(kind, s + x, depth).Done?
    ensures |ParseItem(kind, s + x, depth).rest| < |x|
    decreases |s|, 0
  {
    var i, j := Crlf(s), Crlf(s + x);
    if i < 0 {
      if j < |s| - 1 {
        assert CrlfAt(s, j);
      }
      if kind.KArray? && LongLong((s + x)[..j]) > 0 {
        assert |(s + x)[j + 2..]| < |x|;
      }
    } else {
      CrlfUnique(s, x, i);
      assert (s + x)[..i] == s[..i] && (s + x)[i + 2..] == s[i + 2..] + x;
      if kind.KArray? {
        NotMoreElems(s[i + 2..], x, LongLong(s[..i]), [], depth + 1);
      }
    }
  }

  lemma {:induction false} NotMoreElems(s: bytes, x: bytes, count: nat, done: seq<Reply>, depth: nat)
    requires ParseElems(s, count, done, depth).More? && ParseElems(s + x, count, done, depth).Done?
    ensures |ParseElems(s + x, count, done, depth).rest| < |x|
    decreases |s|, 1
  {
    var p := ParseReply(s, depth);
    if p.More? {
      NotMore(s, x, depth);
    } else {
      ReplyStable(s, x, depth);
      NotMoreElems(p.rest, x, count, done + [p.reply], depth);
    }
  }

  // ----- What an array holds -----

  /** Every array in r has exactly the announced elements; none were announced below -1. */
  predicate Filled(r: Reply) {
    r.Arr? ==>
      && r.count != -1
      && |r.elems| == (if r.count < 0 then 0 else r.count)
      && forall i :: 0 <= i < |r.elems| ==> Filled(r.elems[i])
  }

  lemma {:induction false} ReplyFilled(s: bytes, depth: nat)
    ensures ParseReply(s, depth).Done? ==> Filled(ParseReply(s, depth).reply)
    decreases |s|, 0
  {
    if s != [] && KindOf(s[0]).Some? {
      ItemFilled(KindOf(s[0]).value, s[1..], depth);
    }
  }

  lemma {:induction false} ItemFilled(kind: Kind, s: bytes, depth: nat)
    ensures ParseItem(kind, s, depth).Done? ==> Filled(ParseItem(kind, s, depth).reply)
    decreases |s|, 0
  {
    var i := Crlf(s);
    if kind.KArray? && depth < MAX_DEPTH && i >= 0 && LongLong(s[..i]) > 0 {
      ElemsFilled(s[i + 2..], LongLong(s[..i]), [], depth + 1);
    }
  }

  lemma {:induction false} ElemsFilled(s: bytes, count: nat, done: seq<Reply>, depth: nat)
    requires |done| <= count && forall i :: 0 <= i < |done| ==> Filled(done[i])
    ensures ParseElems(s, count, done, depth).Done? ==> Filled(ParseElems(s, count, done, depth).reply)
    decreases |s|, 1
  {
    if |done| < count {
      ReplyFilled(s, depth);
      var p := ParseReply(s, depth);
      if p.Done? {
        ElemsFilled(p.rest, count, done + [p.reply], depth);
      }
    }
  }

  /** Nesting of arrays in a reply. */
  ghost predicate DepthAtMost(r: Reply, d: int) {
    r.Arr? ==> d > 0 && forall i :: 0 <= i < |r.elems| ==> DepthAtMost(r.elems[i], d - 1)
  }

  /** No reply nests arrays more than MAX_DEPTH deep. */
  lemma {:induction false} ReplyDepth(s: bytes, depth: nat)
    ensures ParseReply(s, depth).Done? ==> DepthAtMost(ParseReply(s, depth).reply, MAX_DEPTH - depth)
    decreases |s|, 0
  {
    if s != [] && KindOf(s[0]).Some? {
      ItemDepth(KindOf(s[0]).value, s[1..], depth);
    }
  }

  lemma {:induction false} ItemDepth(kind: Kind, s: bytes, depth: nat)
    ensures ParseItem(kind, s, depth).Done? ==> DepthAtMost(ParseItem(kind, s, depth).reply, MAX_DEPTH - depth)
    decreases |s|, 0
  {
    var i := Crlf(s);
    if kind.KArray? && depth < MAX_DEPTH && i >= 0 && LongLong(s[..i]) > 0 {
      ElemsDepth(s[i + 2..], LongLong(s[..i]), [], depth + 1);
    }
  }

  lemma {:induction false} ElemsDepth(s: bytes, count: nat, done: seq<Reply>, depth: nat)
    requires 1 <= depth <= MAX_DEPTH
    requires forall i :: 0 <= i < |done| ==> DepthAtMost(done[i], MAX_DEPTH - depth)
    ensures var p := ParseElems(s, count, done, depth);
            p.Done? ==> DepthAtMost(p.reply, MAX_DEPTH - depth + 1)
    decreases |s|, 1
  {
    if |done| < count {
      ReplyDepth(s, depth);
      var p := ParseReply(s, depth);
      if p.Done? {
        ElemsDepth(p.rest, count, done + [p.reply], depth);
      }
    }
  }

  // ----- The grammar read the other way: serializing -----

  /** Replies a server can send: line texts without CR LF, counts equal to the contents. */
  predicate Sendable(r: Reply) {
    match r
    case Arr(count, elems) => count == |elems| && forall i :: 0 <= i < |elems| ==> Sendable(elems[i])
    case Status(text) => Crlf(text) < 0
    case Error(text) => Crlf(text) < 0
    case _ => true
  }

  function Header(tag: byte, n: int): bytes {
    [tag] + Numeral(n) + CRLF
  }

  function Wire(r: Reply): bytes
    decreases r, 0
  {
    match r
    case Str(text) => Header(DOLLAR, |text|) + text + CRLF
    case Arr(count, elems) => Header(STAR, count) + WireAll(elems)
    case Integer(n) => Header(COLON, n)
    case Nil => Header(DOLLAR, -1)
    case Status(text) => [PLUS] + text + CRLF
    case Error(text) => [MINUS] + text + CRLF
  }

  function WireAll(rs: seq<Reply>): bytes
    decreases rs, 1
  {
    if rs == [] then [] else Wire(rs[0]) + WireAll(rs[1..])
  }

  /** A line is found whole when its text holds no CR LF of its own. */
  lemma LineFound(text: bytes, x: bytes)
    requires Crlf(text) < 0
    ensures var s := text + CRLF + x;
            Crlf(s) == |text| && s[..|text|] == text && s[|text| + 2..] == x
  {
    var s := text + CRLF;
    assert CrlfAt(s, |text|);
    forall j | 0 <= j < |text| ensures !CrlfAt(s, j) {
      if j < |text| - 1 {
        assert CrlfAt(s, j) == CrlfAt(text, j);
      }
    }
    CrlfUnique(s, x, |text|);
  }

  lemma NumeralLine(n: int, x: bytes)
    ensures var s := Numeral(n) + CRLF + x;
            && Crlf(s) == |Numeral(n)| && LongLong(s[..|Numeral(n)|]) == n
            && s[|Numeral(n)| + 2..] == x
  {
    var text := Numeral(n);
    assert forall i :: 0 <= i < |text| ==> text[i] != CR;
    LineFound(text, x);
    NumeralRoundTrip(n);
  }

  lemma HeaderTail(tag: byte, n: int, x: bytes)
    ensures (Header(tag, n) + x)[0] == tag && (Header(tag, n) + x)[1..] == Numeral(n) + CRLF + x
  {
  }

  /** A header line is parsed by its type and its number. */
  lemma HeaderParsed(tag: byte, n: int, x: bytes, depth: nat)
    requires KindOf(tag).Some? && (tag == STAR ==> depth < MAX_DEPTH)
    ensures tag == COLON ==> ParseReply(Header(tag, n) + x, depth) == Done(Integer(n), x)
    ensures tag == DOLLAR && n < 0 ==> ParseReply(Header(tag, n) + x, depth) == Done(Nil, x)
    ensures tag == DOLLAR && 0 <= n <= |x| - 2 ==>
              ParseReply(Header(tag, n) + x, depth) == Done(Str(x[..n]), x[n + 2..])
    ensures tag == STAR && n == 0 ==> ParseReply(Header(tag, n) + x, depth) == Done(Arr(0, []), x)
    ensures tag == STAR && n > 0 ==>
              ParseReply(Header(tag, n) + x, depth) == ParseElems(x, n, [], depth + 1)
  {
    HeaderTail(tag, n, x);
    NumeralLine(n, x);
  }

  lemma LineParsed(tag: byte, text: bytes, x: bytes, depth: nat)
    requires (tag == PLUS || tag == MINUS) && Crlf(text) < 0
    ensures ParseReply([tag] + text + CRLF + x, depth) ==
            Done(if tag == PLUS then Status(text) else Error(text), x)
  {
    var s := [tag] + text + CRLF + x;
    assert s[0] == tag && s[1..] == text + CRLF + x;
    LineFound(text, x);
  }

  lemma BulkParsed(text: bytes, x: bytes, depth: nat)
    ensures ParseReply(Wire(Str(text)) + x, depth) == Done(Str(text), x)
  {
    var rest := text + CRLF + x;
    assert Wire(Str(text)) + x == Header(DOLLAR, |text|) + rest;
    assert rest[..|text|] == text && rest[|text| + 2..] == x;
    HeaderParsed(DOLLAR, |text|, rest, depth);
  }

  lemma ArrayParsed(elems: seq<Reply>, x: bytes, depth: nat)
    requires depth < MAX_DEPTH
    ensures ParseReply(Wire(Arr(|elems|, elems)) + x, depth) ==
            if elems == [] then Done(Arr(0, []), x) else ParseElems(WireAll(elems) + x, |elems|, [], depth + 1)
  {
    var rest := WireAll(elems) + x;
    Assoc(Header(STAR, |elems|), WireAll(elems), x);
    HeaderParsed(STAR, |elems|, rest, depth);
    assert elems == [] ==> rest == x;
  }

  /** Parsing undoes serializing, whatever follows: every server reply is read back as sent. */
  lemma {:induction false} WireRoundTrip(r: Reply, x: bytes, depth: nat)
    requires Sendable(r) && DepthAtMost(r, MAX_DEPTH - depth)
    ensures ParseReply(Wire(r) + x, depth) == Done(r, x)
    decreases r, 0
  {
    match r
    case Str(text) => BulkParsed(text, x, depth);
    case Arr(count, elems) =>
      ArrayParsed(elems, x, depth);
      if elems != [] {
        WireAllRoundTrip(elems, x, count, [], depth + 1);
        assert [] + elems == elems;
      }
    case Integer(n) => HeaderParsed(COLON, n, x, depth);
    case Nil => HeaderParsed(DOLLAR, -1, x, depth);
    case Status(text) => LineParsed(PLUS, text, x, depth);
    case Error(text) => LineParsed(MINUS, text, x, depth);
  }

  /** One element read is one element fewer to go. */
  lemma ElemsStep(r: Reply, s: bytes, rest: bytes, count: nat, done: seq<Reply>, depth: nat)
    requires |done| < count && ParseReply(s, depth) == Done(r, rest)
    ensures ParseElems(s, count, done, depth) == ParseElems(rest, count, done + [r], depth)
  {
  }

  lemma {:induction false} WireAllRoundTrip(rs: seq<Reply>, x: bytes, count: nat, done: seq<Reply>, depth: nat)
    requires |done| + |rs| == count
    requires forall i :: 0 <= i < |rs| ==> Sendable(rs[i]) && DepthAtMost(rs[i], MAX_DEPTH - depth)
    ensures ParseElems(WireAll(rs) + x, count, done, depth) == Done(Arr(count, done + rs), x)
    decreases rs, 1
  {
    if rs == [] {
      assert WireAll(rs) + x == x && done + rs == done;
    } else {
      var r, tail := rs[0], rs[1..];
      var rest := WireAll(tail) + x;
      assert WireAll(rs) + x == Wire(r) + rest;
      WireRoundTrip(r, rest, depth);
      ElemsStep(r, Wire(r) + rest, rest, count, done, depth);
      forall i | 0 <= i < |tail| ensures Sendable(tail[i]) && DepthAtMost(tail[i], MAX_DEPTH - depth) {
        assert tail[i] == rs[i + 1];
      }
      WireAllRoundTrip(tail, x, count, done + [r], depth);
      assert done + [r] + tail == done + rs;
    }
  }

  /** A reply that nests deeper is an error, so exactly the others are read back. */
  lemma {:induction false} WireTooDeep(r: Reply, x: bytes, depth: nat)
    requires Sendable(r) && depth <= MAX_DEPTH && !DepthAtMost(r, MAX_DEPTH - depth)
    ensures ParseReply(Wire(r) + x, depth) == Bad(TooDeep)
    decreases r, 0
  {
    var rest := WireAll(r.elems) + x;
    assert Wire(r) + x == Header(STAR, r.count) + rest;
    if depth == MAX_DEPTH {
      HeaderTail(STAR, r.count, rest);
    } else {
      HeaderParsed(STAR, r.count, rest, depth);
      WireAllTooDeep(r.elems, x, r.count, [], depth + 1);
    }
  }

  lemma {:induction false} WireAllTooDeep(rs: seq<Reply>, x: bytes, count: nat, done: seq<Reply>, depth: nat)
    requires |done| + |rs| == count && depth <= MAX_DEPTH
    requires forall i :: 0 <= i < |rs| ==> Sendable(rs[i])
    requires exists i :: 0 <= i < |rs| && !DepthAtMost(rs[i], MAX_DEPTH - depth)
    ensures ParseElems(WireAll(rs) + x, count, done, depth) == Bad(TooDeep)
    decreases rs, 1
  {
    var r, tail := rs[0], rs[1..];
    var rest := WireAll(tail) + x;
    assert WireAll(rs) + x == Wire(r) + rest;
    if DepthAtMost(r, MAX_DEPTH - depth) {
      WireRoundTrip(r, rest, depth);
      ElemsStep(r, Wire(r) + rest, rest, count, done, depth);
      assert exists i :: 0 <= i < |tail| && tail[i] == rs[i + 1] && !DepthAtMost(tail[i], MAX_DEPTH - depth);
      WireAllTooDeep(tail, x, count, done + [r], depth);
    } else {
      WireTooDeep(r, rest, depth);
    }
  }

  // ----- Streams of replies -----

  /** s consists of the given replies followed by u. */
  ghost predicate Yields(s: bytes, replies: seq<Reply>, u: bytes)
    decreases |replies|
  {
    if replies == [] then s == u
    else
      var p := ParseReply(s, 0);
      p.Done? && p.reply == replies[0] && Yields(p.rest, replies[1..], u)
  }

  /** Everything that can be read from s: the replies, what is left over, and how it ended. */
  datatype Stream = Stream(replies: seq<Reply>, leftover: bytes, error: Option<ProtocolError>)

  function ReadStream(s: bytes): Stream
    decreases |s|
  {
    match ParseReply(s, 0)
    case More => Stream([], s, None)
    case Bad(e) => Stream([], s, Some(e))
    case Done(r, rest) =>
      var t := ReadStream(rest);
      Stream([r] + t.replies, t.leftover, t.error)
  }

  lemma {:induction false} YieldsAppend(s: bytes, replies: seq<Reply>, u: bytes, x: bytes)
    requires Yields(s, replies, u)
    ensures Yields(s + x, replies, u + x)
    decreases |replies|
  {
    if replies != [] {
      ReplyStable(s, x, 0);
      YieldsAppend(ParseReply(s, 0).rest, replies[1..], u, x);
    }
  }

  lemma {:induction false} YieldsNext(s: bytes, replies: seq<Reply>, u: bytes)
    requires Yields(s, replies, u) && ParseReply(u, 0).Done?
    ensures var p := ParseReply(u, 0); Yields(s, replies + [p.reply], p.rest)
    decreases |replies|
  {
    var p := ParseReply(u, 0);
    var all := replies + [p.reply];
    if replies == [] {
      assert all[1..] == [];
    } else {
      assert all[0] == replies[0] && all[1..] == replies[1..] + [p.reply];
      YieldsNext(ParseReply(s, 0).rest, replies[1..], u);
    }
  }

  /** The replies of a partial reading are the first ones of the whole stream. */
  lemma {:induction false} YieldsStream(s: bytes, replies: seq<Reply>, u: bytes)
    requires Yields(s, replies, u)
    ensures var t := ReadStream(u);
            ReadStream(s) == Stream(replies + t.replies, t.leftover, t.error)
    decreases |replies|
  {
    if replies == [] {
      assert replies + ReadStream(u).replies == ReadStream(u).replies;
    } else {
      YieldsStream(ParseReply(s, 0).rest, replies[1..], u);
      assert replies + ReadStream(u).replies == [replies[0]] + (replies[1..] + ReadStream(u).replies);
    }
  }

  lemma {:induction false} StreamYields(s: bytes)
    ensures var t := ReadStream(s);
            Yields(s, t.replies, t.leftover) && ReadStream(t.leftover) == Stream([], t.leftover, t.error)
    decreases |s|
  {
    var p := ParseReply(s, 0);
    if p.Done? {
      StreamYields(p.rest);
      assert ReadStream(s).replies[1..] == ReadStream(p.rest).replies;
    }
  }

  /** A concatenation of serialized replies is read as exactly those replies. */
  lemma {:induction false} WireStream(rs: seq<Reply>)
    requires forall i :: 0 <= i < |rs| ==> Sendable(rs[i]) && DepthAtMost(rs[i], MAX_DEPTH)
    ensures ReadStream(WireAll(rs)) == Stream(rs, [], None)
  {
    if rs != [] {
      WireRoundTrip(rs[0], WireAll(rs[1..]), 0);
      WireStream(rs[1..]);
    }
  }

  /**
   Reading is independent of where the stream is cut: what x adds is read from what s
   left over, and an error is final.
   */
  lemma StreamSplit(s: bytes, x: bytes)
    ensures var a := ReadStream(s); var b := ReadStream(a.leftover + x);
            && ReadStream(s + x) == Stream(a.replies + b.replies, b.leftover, b.error)
            && (a.error.Some? ==> b.replies == [] && b.error == a.error)
  {
    var a := ReadStream(s);
    StreamYields(s);
    YieldsAppend(s, a.replies, a.leftover, x);
    YieldsStream(s + x, a.replies, a.leftover + x);
    ReplyStable(a.leftover, x, 0);
  }
}
