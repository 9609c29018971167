/** Numbers and replies in the bytes of the protocol: what each type byte announces, and what starts no reply. */
module RespLaws {
  import opened Bytes
  import opened Decimal
  import opened Resp

  // ----- What numbers mean -----

  /** The number that decimal digits stand for. */
  function Value(ds: bytes): int
    requires forall i :: 0 <= i < |ds| ==> 48 <= ds[i] <= 57
    decreases |ds|
  {
    if ds == [] then 0 else 10 * Value(ds[..|ds| - 1]) + (ds[|ds| - 1] - 48)
  }

  lemma {:induction false} AccumulateMeans(ds: bytes, rest: bytes, v: int)
    requires forall i :: 0 <= i < |ds| ==> 48 <= ds[i] <= 57
    requires rest != [] && !(48 <= rest[0] <= 57)
    ensures v == 0 ==> Accumulate(ds + rest, v) == if rest[0] == 13 then Some(Value(ds)) else None
    ensures (Accumulate(ds + rest, v) == None) <==> rest[0] != 13
    decreases |ds|
  {
    if ds == [] {
      assert ds + rest == rest;
    } else {
      var before, d := ds[..|ds| - 1], ds[|ds| - 1];
      assert (ds + rest)[1..] == ds[1..] + rest;
      AccumulateMeans(ds[1..], rest, 10 * v + (ds[0] - 48));
      assert forall i :: 0 <= i < |before| ==> IsDigit(before[i]);
      assert ds == before + [d];
      if v == 0 && rest[0] == 13 {
        AccumulateMeans(before, [13], 0);
        AccumulateStops(ds, rest[1..], 0);
        AccumulateStops(before, [], 0);
        AccumulateAppend(before, d, 0);
        assert ds + rest == ds + [13] + rest[1..] && before + [13] + [] == before + [13];
      }
    }
  }

  /** Nothing, a plus or a minus. */
  predicate IsSign(sign: bytes) {
    sign == [] || (|sign| == 1 && (sign[0] == 43 || sign[0] == 45))
  }

  lemma Unsigned(ds: bytes, rest: bytes)
    requires forall i :: 0 <= i < |ds| ==> 48 <= ds[i] <= 57
    requires rest != [] && !(48 <= rest[0] <= 57) && (ds == [] ==> rest[0] != 43 && rest[0] != 45)
    ensures LongLong(ds + rest) == if rest[0] != 13 then -1 else Value(ds)
  {
    AccumulateMeans(ds, rest, 0);
    assert (ds + rest)[0] == if ds == [] then rest[0] else ds[0];
  }

  lemma SignRead(c: byte, s: bytes)
    requires c == 43 || c == 45
    ensures var a := Accumulate(s, 0);
            LongLong([c] + s) == if a.None? then -1 else if c == 45 then -a.value else a.value
  {
    assert ([c] + s)[1..] == s;
  }

  lemma Signed(c: byte, ds: bytes, rest: bytes)
    requires (c == 43 || c == 45) && forall i :: 0 <= i < |ds| ==> 48 <= ds[i] <= 57
    requires rest != [] && !(48 <= rest[0] <= 57)
    ensures LongLong([c] + (ds + rest)) == if rest[0] != 13 then -1 else if c == 45 then -Value(ds) else Value(ds)
  {
    SignRead(c, ds + rest);
    AccumulateMeans(ds, rest, 0);
  }

  /** A sign, digits and a CR are the number of the digits with that sign; any other byte among them gives -1. */
  lemma NumberMeans(sign: bytes, ds: bytes, rest: bytes)
    requires IsSign(sign) && forall i :: 0 <= i < |ds| ==> 48 <= ds[i] <= 57
    requires rest != [] && !(48 <= rest[0] <= 57)
    requires sign == [] && ds == [] ==> rest[0] != 43 && rest[0] != 45
    ensures LongLong(sign + ds + rest) ==
            if rest[0] != 13 then -1 else if sign != [] && sign[0] == 45 then -Value(ds) else Value(ds)
  {
    if sign == [] {
      assert sign + ds == ds;
      Unsigned(ds, rest);
    } else {
      assert sign == [sign[0]];
      Assoc(sign, ds, rest);
      Signed(sign[0], ds, rest);
    }
  }

  /** Numerals are printed without leading zeros. */
  lemma {:induction false} NoLeadingZero(n: nat)
    ensures n > 0 ==> Digits(n)[0] != 48
    ensures Digits(0) == [48]
  {
    if n >= 10 {
      NoLeadingZero(n / 10);
    }
  }

  // ----- Lines -----

  /** Simple replies: the text up to the CR LF, as it is. */
  lemma LineReplies(text: bytes, x: bytes, depth: nat)
    requires forall i :: 0 <= i < |text| - 1 ==> text[i] != 13 || text[i + 1] != 10
    ensures ParseReply([43] + text + [13, 10] + x, depth) == Done(Status(text), x)
    ensures ParseReply([45] + text + [13, 10] + x, depth) == Done(Error(text), x)
  {
    assert Crlf(text) >= 0 ==> CrlfAt(text, Crlf(text));
    LineParsed(43, text, x, depth);
    LineParsed(45, text, x, depth);
  }

  /** A line that holds a number: a sign, digits, and perhaps a byte that is no digit and what else there is. */
  ghost predicate NumberLine(sign: bytes, ds: bytes, junk: bytes) {
    && IsSign(sign) && (forall i :: 0 <= i < |ds| ==> 48 <= ds[i] <= 57) && 13 !in junk
    && (junk != [] ==> !(48 <= junk[0] <= 57) && (sign == [] && ds == [] ==> junk[0] != 43 && junk[0] != 45))
  }

  /** The number that the line is read as; anything unexpected makes it -1. */
  function Reading(sign: bytes, ds: bytes, junk: bytes): int
    requires NumberLine(sign, ds, junk)
  {
    if junk != [] then -1 else if sign != [] && sign[0] == 45 then -Value(ds) else Value(ds)
  }

  lemma NumberIsRead(sign: bytes, ds: bytes, junk: bytes, x: bytes)
    requires NumberLine(sign, ds, junk)
    ensures var line := sign + ds + junk; var s := line + [13, 10] + x;
            Crlf(s) == |line| && LongLong(s[..|line|]) == Reading(sign, ds, junk) && s[|line| + 2..] == x
  {
    var line := sign + ds + junk;
    assert Crlf(line) < 0 by {
      assert forall i :: 0 <= i < |line| ==> line[i] != 13;
    }
    assert [13, 10] == CRLF;
    LineFound(line, x);
    LongLongStops(line, []);
    assert line + [13] + [] == sign + ds + (junk + [13]);
    NumberMeans(sign, ds, junk + [13]);
  }

  lemma TypeAndLine(b: byte, line: bytes, x: bytes)
    ensures var s := [b] + line + [13, 10] + x; s[0] == b && s[1..] == line + [13, 10] + x
  {
  }

  /** Integers: any line is one. */
  lemma IntegerReplies(sign: bytes, ds: bytes, junk: bytes, x: bytes, depth: nat)
    requires NumberLine(sign, ds, junk)
    ensures ParseReply([58] + (sign + ds + junk) + [13, 10] + x, depth) == Done(Integer(Reading(sign, ds, junk)), x)
  {
    NumberIsRead(sign, ds, junk, x);
    TypeAndLine(58, sign + ds + junk, x);
  }

  lemma BulkHeader(sign: bytes, ds: bytes, junk: bytes, x: bytes, depth: nat)
    requires NumberLine(sign, ds, junk)
    ensures var n := Reading(sign, ds, junk);
            ParseReply([36] + (sign + ds + junk) + [13, 10] + x, depth) ==
            if n < 0 then Done(Nil, x) else if |x| < n + 2 then More else Done(Str(x[..n]), x[n + 2..])
  {
    NumberIsRead(sign, ds, junk, x);
    TypeAndLine(36, sign + ds + junk, x);
  }

  /** Bulk strings: every negative or unreadable length is nil; else the text is followed by two bytes, whichever. */
  lemma BulkReplies(sign: bytes, ds: bytes, junk: bytes, text: bytes, end: bytes, x: bytes, depth: nat)
    requires NumberLine(sign, ds, junk) && |end| == 2
    ensures var n, head := Reading(sign, ds, junk), [36] + (sign + ds + junk) + [13, 10];
            && (n < 0 ==> ParseReply(head + x, depth) == Done(Nil, x))
            && (n == |text| ==> ParseReply(head + (text + end + x), depth) == Done(Str(text), x))
            && (n > |text| ==> ParseReply(head + text, depth) == More)
  {
    var rest := text + end + x;
    assert rest[..|text|] == text && rest[|text| + 2..] == x;
    BulkHeader(sign, ds, junk, x, depth);
    BulkHeader(sign, ds, junk, rest, depth);
    BulkHeader(sign, ds, junk, text, depth);
  }

  /** Arrays: -1, and every line that is no number, is nil; other counts below 1 make an array without elements. */
  lemma ArrayReplies(sign: bytes, ds: bytes, junk: bytes, x: bytes, depth: nat)
    requires NumberLine(sign, ds, junk)
    ensures var n, s := Reading(sign, ds, junk), [42] + (sign + ds + junk) + [13, 10] + x;
            ParseReply(s, depth) == if depth >= 8 then Bad(TooDeep)
                                    else if n == -1 then Done(Nil, x)
                                    else if n < 1 then Done(Arr(n, []), x)
                                    else ParseElems(x, n, [], depth + 1)
  {
    NumberIsRead(sign, ds, junk, x);
    TypeAndLine(42, sign + ds + junk, x);
  }

  // ----- Bytes that start no reply -----

  ghost predicate Legal(rs: seq<Reply>, d: int) {
    forall i :: 0 <= i < |rs| ==> Sendable(rs[i]) && DepthAtMost(rs[i], d)
  }

  lemma LegalTail(rs: seq<Reply>, d: int)
    requires Legal(rs, d) && rs != []
    ensures Sendable(rs[0]) && DepthAtMost(rs[0], d) && Legal(rs[1..], d)
  {
    forall i | 0 <= i < |rs| - 1 ensures Sendable(rs[1..][i]) && DepthAtMost(rs[1..][i], d) {
      assert rs[1..][i] == rs[i + 1];
    }
  }

  /** An array that has begun: its count and the elements read so far. */
  datatype Level = Level(count: nat, done: seq<Reply>)

  /** The bytes of arrays that have begun, each inside the one before. */
  function Opened(levels: seq<Level>): bytes {
    if levels == [] then []
    else Header(42, levels[0].count) + WireAll(levels[0].done) + Opened(levels[1..])
  }

  /** Every array still lacks an element, and those it has are within the depth limit of eight arrays. */
  ghost predicate Begun(levels: seq<Level>, depth: nat) {
    && depth + |levels| <= 8
    && forall i :: 0 <= i < |levels| ==>
         |levels[i].done| < levels[i].count && Legal(levels[i].done, 8 - depth - i - 1)
  }

  /** Elements that are there are read, and the array goes on with what follows. */
  lemma {:induction false} SomeElements(rs: seq<Reply>, x: bytes, count: nat, done: seq<Reply>, depth: nat)
    requires |done| + |rs| <= count
    requires Legal(rs, 8 - depth)
    ensures ParseElems(WireAll(rs) + x, count, done, depth) == ParseElems(x, count, done + rs, depth)
    decreases |rs|
  {
    if rs == [] {
      assert WireAll(rs) + x == x && done + rs == done;
    } else {
      var r, rest := rs[0], WireAll(rs[1..]) + x;
      Assoc(Wire(r), WireAll(rs[1..]), x);
      LegalTail(rs, 8 - depth);
      WireRoundTrip(r, rest, depth);
      ElemsStep(r, Wire(r) + rest, rest, count, done, depth);
      SomeElements(rs[1..], x, count, done + [r], depth);
      Assoc(done, [r], rs[1..]);
      assert [r] + rs[1..] == rs;
    }
  }

  lemma LevelRead(l: Level, rest: bytes, depth: nat)
    requires depth < 8 && |l.done| < l.count && Legal(l.done, 8 - depth - 1)
    ensures ParseReply(Header(42, l.count) + (WireAll(l.done) + rest), depth) ==
            ParseElems(rest, l.count, l.done, depth + 1)
  {
    HeaderParsed(42, l.count, WireAll(l.done) + rest, depth);
    SomeElements(l.done, rest, l.count, [], depth + 1);
    assert [] + l.done == l.done;
  }

  /** What makes an element bad makes the array bad. */
  lemma {:induction false} BadInside(levels: seq<Level>, s: bytes, depth: nat)
    requires Begun(levels, depth) && ParseReply(s, depth + |levels|).Bad?
    ensures ParseReply(Opened(levels) + s, depth) == ParseReply(s, depth + |levels|)
    decreases |levels|
  {
    if levels == [] {
      assert Opened(levels) + s == s;
    } else {
      var l, inner := levels[0], levels[1..];
      var rest := Opened(inner) + s;
      assert Begun(inner, depth + 1) by {
        assert forall i :: 0 <= i < |inner| ==> inner[i] == levels[i + 1];
      }
      BadInside(inner, s, depth + 1);
      assert Opened(levels) + s == Header(42, l.count) + (WireAll(l.done) + rest);
      LevelRead(l, rest, depth);
    }
  }

  /** Replies that are there are read, */
  lemma {:induction false} RepliesAreRead(rs: seq<Reply>, x: bytes)
    requires Legal(rs, 8)
    ensures Yields(WireAll(rs) + x, rs, x)
    decreases |rs|
  {
    if rs == [] {
      assert WireAll(rs) + x == x;
    } else {
      var rest := WireAll(rs[1..]) + x;
      assert WireAll(rs) + x == Wire(rs[0]) + rest;
      LegalTail(rs, 8);
      WireRoundTrip(rs[0], rest, 0);
      RepliesAreRead(rs[1..], x);
    }
  }

  /** ... and the stream goes on with what follows. */
  lemma SomeReplies(rs: seq<Reply>, x: bytes)
    requires Legal(rs, 8)
    ensures var t := ReadStream(x); ReadStream(WireAll(rs) + x) == Stream(rs + t.replies, t.leftover, t.error)
  {
    RepliesAreRead(rs, x);
    YieldsStream(WireAll(rs) + x, rs, x);
  }

  /**
   A stream of replies ends with an error at any byte that is none of + - : $ *, in place of a
   reply or, at any depth, of an array's element: the replies before are read, and nothing after.
   */
  lemma BadByteEnds(rs: seq<Reply>, levels: seq<Level>, b: byte, x: bytes)
    requires Legal(rs, 8)
    requires Begun(levels, 0) && b !in {43, 45, 58, 36, 42}
    ensures var s := Opened(levels) + ([b] + x);
            ReadStream(WireAll(rs) + s) == Stream(rs, s, Some(BadTypeByte(b)))
  {
    BadInside(levels, [b] + x, 0);
    SomeReplies(rs, Opened(levels) + ([b] + x));
    assert rs + [] == rs;
  }

  /** In the same way an array that begins inside eight others ends the stream. */
  lemma NinthArrayEnds(rs: seq<Reply>, levels: seq<Level>, x: bytes)
    requires Legal(rs, 8)
    requires Begun(levels, 0) && |levels| == 8
    ensures var s := Opened(levels) + ([42] + x);
            ReadStream(WireAll(rs) + s) == Stream(rs, s, Some(TooDeep))
  {
    BadInside(levels, [42] + x, 0);
    SomeReplies(rs, Opened(levels) + ([42] + x));
    assert rs + [] == rs;
  }
}
