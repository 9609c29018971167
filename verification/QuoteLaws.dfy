/** What lines of arguments mean: plain text, quoted text, and blanks between them; and which lines are refused. */
module QuoteLaws {
  import opened Bytes
  import opened Quoting

  // ----- Arguments -----

  /** What stands between double quotes: a byte, a backslash and a byte, or \x and two digits. */
  datatype Bit = Raw(c: byte) | Named(c: byte) | Hex(hi: byte, lo: byte)

  /** An argument is plain text, after which quoted text may end it. */
  datatype Tail = Bare | Double(bits: seq<Bit>) | Single(text: bytes)

  datatype Argument = Argument(plain: bytes, tail: Tail)

  /** The blanks: space, and \t \n \v \f \r. */
  predicate Blank(c: byte) {
    c == 32 || 9 <= c <= 13
  }

  predicate IsHex(c: byte) {
    48 <= c <= 57 || 65 <= c <= 70 || 97 <= c <= 102
  }

  function HexValue(c: byte): nat
    requires IsHex(c)
  {
    if c <= 57 then c - 48 else if c <= 70 then c - 55 else c - 87
  }

  function SpellBit(b: Bit): bytes {
    match b
    case Raw(c) => [c]
    case Named(c) => [92, c]
    case Hex(hi, lo) => [92, 120, hi, lo]
  }

  predicate LegalBit(b: Bit) {
    match b
    case Raw(c) => c != 92 && c != 34 && c != 0
    case Named(c) => c != 0
    case Hex(hi, lo) => IsHex(hi) && IsHex(lo)
  }

  /** \n \r \t \b and \a are control bytes, any other byte behind a backslash is itself. */
  function MeanBit(b: Bit): byte
    requires LegalBit(b)
  {
    match b
    case Raw(c) => c
    case Named(c) => if c == 110 then 10 else if c == 114 then 13 else if c == 116 then 9
                     else if c == 98 then 8 else if c == 97 then 7 else c
    case Hex(hi, lo) => 16 * HexValue(hi) + HexValue(lo)
  }

  function SpellBits(bs: seq<Bit>): bytes {
    if bs == [] then [] else SpellBit(bs[0]) + SpellBits(bs[1..])
  }

  /** \x is only itself if no two digits follow. */
  predicate LegalBits(bs: seq<Bit>) {
    bs != [] ==>
      && LegalBit(bs[0]) && LegalBits(bs[1..])
      && (bs[0] == Named(120) ==>
            var s := SpellBits(bs[1..]); |s| < 2 || !IsHex(s[0]) || !IsHex(s[1]))
  }

  function MeanBits(bs: seq<Bit>): bytes
    requires LegalBits(bs)
  {
    if bs == [] then [] else [MeanBit(bs[0])] + MeanBits(bs[1..])
  }

  /** Between single quotes only the quote itself is escaped. */
  function SpellSingle(text: bytes): bytes {
    if text == [] then [] else SpellOne(text[0]) + SpellSingle(text[1..])
  }

  function SpellOne(c: byte): bytes {
    if c == 39 then [92, 39] else [c]
  }

  function SpellTail(t: Tail): bytes {
    match t
    case Bare => []
    case Double(bits) => [34] + SpellBits(bits) + [34]
    case Single(text) => [39] + SpellSingle(text) + [39]
  }

  function Spell(a: Argument): bytes {
    a.plain + SpellTail(a.tail)
  }

  /** Plain text has no quotes, none of space, \t, \n and \r, and does not begin with another blank. */
  predicate LegalPlain(plain: bytes) {
    (forall i :: 0 <= i < |plain| ==> plain[i] !in {0, 9, 10, 13, 32, 34, 39}) && (plain != [] ==> !Blank(plain[0]))
  }

  predicate LegalTail(t: Tail) {
    match t
    case Bare => true
    case Double(bits) => LegalBits(bits)
    case Single(text) => 0 !in text && (text != [] ==> text[|text| - 1] != 92)
  }

  predicate LegalArgument(a: Argument) {
    LegalPlain(a.plain) && LegalTail(a.tail) && (a.tail.Bare? ==> a.plain != [])
  }

  /** Plain and quoted text are joined. */
  function Meaning(a: Argument): bytes
    requires LegalArgument(a)
  {
    match a.tail
    case Bare => a.plain
    case Double(bits) => a.plain + MeanBits(bits)
    case Single(text) => a.plain + text
  }

  // ----- Reading an argument -----

  lemma {:induction false} PlainRead(plain: bytes, rest: bytes, current: bytes)
    requires forall i :: 0 <= i < |plain| ==> plain[i] !in {0, 9, 10, 13, 32, 34, 39}
    ensures ReadToken(plain + rest, Plain, current) == ReadToken(rest, Plain, current + plain)
    decreases |plain|
  {
    if plain == [] {
      assert plain + rest == rest && current + plain == current;
    } else {
      assert (plain + rest)[0] == plain[0] && (plain + rest)[1..] == plain[1..] + rest;
      PlainRead(plain[1..], rest, current + [plain[0]]);
      assert current + [plain[0]] + plain[1..] == current + plain;
    }
  }

  lemma RawRead(c: byte, rest: bytes, current: bytes)
    requires c != 92 && c != 34
    ensures ReadToken([c] + rest, InQuotes, current) == ReadToken(rest, InQuotes, current + [c])
  {
    assert ([c] + rest)[1..] == rest;
  }

  lemma NamedRead(c: byte, rest: bytes, current: bytes)
    requires c != 0 && (c == 120 ==> |rest| < 2 || !IsHex(rest[0]) || !IsHex(rest[1]))
    ensures ReadToken([92, c] + rest, InQuotes, current) == ReadToken(rest, InQuotes, current + [MeanBit(Named(c))])
  {
    var s := [92, c] + rest;
    assert s[0] == 92 && s[1] == c && s[2..] == rest;
    assert |s| >= 4 ==> s[2] == rest[0] && s[3] == rest[1];
  }

  lemma HexRead(hi: byte, lo: byte, rest: bytes, current: bytes)
    requires IsHex(hi) && IsHex(lo)
    ensures ReadToken([92, 120, hi, lo] + rest, InQuotes, current)
            == ReadToken(rest, InQuotes, current + [16 * HexValue(hi) + HexValue(lo)])
  {
    var s := [92, 120, hi, lo] + rest;
    assert s[0] == 92 && s[1] == 120 && s[2] == hi && s[3] == lo && s[4..] == rest;
    assert HexDigitToInt(hi) == HexValue(hi) && HexDigitToInt(lo) == HexValue(lo);
  }

  lemma BitRead(b: Bit, rest: bytes, current: bytes)
    requires LegalBit(b) && (b == Named(120) ==> |rest| < 2 || !IsHex(rest[0]) || !IsHex(rest[1]))
    ensures ReadToken(SpellBit(b) + rest, InQuotes, current) == ReadToken(rest, InQuotes, current + [MeanBit(b)])
  {
    match b {
      case Raw(c) => RawRead(c, rest, current);
      case Named(c) => NamedRead(c, rest, current);
      case Hex(hi, lo) => HexRead(hi, lo, rest, current);
    }
  }

  lemma {:induction false} BitsRead(bs: seq<Bit>, rest: bytes, current: bytes)
    requires LegalBits(bs) && (rest == [] || !IsHex(rest[0]))
    ensures ReadToken(SpellBits(bs) + rest, InQuotes, current) == ReadToken(rest, InQuotes, current + MeanBits(bs))
    decreases |bs|
  {
    if bs == [] {
      assert SpellBits(bs) + rest == rest && current + MeanBits(bs) == current;
    } else {
      var tail := SpellBits(bs[1..]);
      Assoc(SpellBit(bs[0]), tail, rest);
      assert |tail + rest| >= 2 ==> (tail + rest)[0] == (if tail == [] then rest[0] else tail[0]);
      assert |tail| == 1 && rest != [] ==> (tail + rest)[1] == rest[0];
      assert |tail| >= 2 ==> (tail + rest)[1] == tail[1];
      BitRead(bs[0], tail + rest, current);
      BitsRead(bs[1..], rest, current + [MeanBit(bs[0])]);
      Assoc(current, [MeanBit(bs[0])], MeanBits(bs[1..]));
    }
  }

  lemma OneRead(c: byte, rest: bytes, current: bytes)
    requires c == 92 && rest != [] ==> rest[0] != 39
    ensures ReadToken(SpellOne(c) + rest, InSingleQuotes, current) == ReadToken(rest, InSingleQuotes, current + [c])
  {
    var s := SpellOne(c) + rest;
    assert s[|SpellOne(c)|..] == rest && s[0] == SpellOne(c)[0];
    assert c == 39 ==> s[1] == 39;
    assert c == 92 && rest != [] ==> s[1] == rest[0];
  }

  lemma {:induction false} SingleRead(text: bytes, rest: bytes, current: bytes)
    requires text != [] && rest != [] && rest[0] == 39 ==> text[|text| - 1] != 92
    ensures ReadToken(SpellSingle(text) + rest, InSingleQuotes, current)
            == ReadToken(rest, InSingleQuotes, current + text)
    decreases |text|
  {
    if text == [] {
      assert SpellSingle(text) + rest == rest && current + text == current;
    } else {
      var c, tail := text[0], SpellSingle(text[1..]);
      Assoc(SpellOne(c), tail, rest);
      assert |text| > 1 ==> (tail + rest)[0] == SpellOne(text[1])[0];
      assert |text| == 1 ==> tail + rest == rest;
      OneRead(c, tail + rest, current);
      SingleRead(text[1..], rest, current + [c]);
      Assoc(current, [c], text[1..]);
      assert [c] + text[1..] == text;
    }
  }

  /** An argument ends at the end of the line or at a blank; behind plain text \v and \f are none. */
  predicate Ends(a: Argument, rest: bytes) {
    rest == [] || (Blank(rest[0]) && (a.tail.Bare? ==> rest[0] != 11 && rest[0] != 12))
  }

  lemma Quoted(plain: bytes, quote: byte, s: bytes)
    requires LegalPlain(plain) && (quote == 34 || quote == 39)
    ensures ReadToken(plain + ([quote] + s), Plain, []) ==
            ReadToken(s, if quote == 34 then InQuotes else InSingleQuotes, plain)
  {
    PlainRead(plain, [quote] + s, []);
    assert ([quote] + s)[1..] == s && [] + plain == plain;
  }

  lemma Nested(plain: bytes, quote: byte, s: bytes, rest: bytes)
    ensures plain + ([quote] + s + [quote]) + rest == plain + ([quote] + (s + ([quote] + rest)))
  {
    Assoc(plain, [quote] + s + [quote], rest);
    Assoc([quote] + s, [quote], rest);
    Assoc([quote], s, [quote] + rest);
  }

  lemma DoubleTail(plain: bytes, bits: seq<Bit>, rest: bytes)
    requires LegalPlain(plain) && LegalBits(bits)
    ensures ReadToken(plain + ([34] + SpellBits(bits) + [34]) + rest, Plain, []) ==
            ReadToken([34] + rest, InQuotes, plain + MeanBits(bits))
  {
    Quoted(plain, 34, SpellBits(bits) + ([34] + rest));
    Nested(plain, 34, SpellBits(bits), rest);
    BitsRead(bits, [34] + rest, plain);
  }

  lemma SingleTail(plain: bytes, text: bytes, rest: bytes)
    requires LegalPlain(plain) && (text != [] ==> text[|text| - 1] != 92)
    ensures ReadToken(plain + ([39] + SpellSingle(text) + [39]) + rest, Plain, []) ==
            ReadToken([39] + rest, InSingleQuotes, plain + text)
  {
    Quoted(plain, 39, SpellSingle(text) + ([39] + rest));
    Nested(plain, 39, SpellSingle(text), rest);
    SingleRead(text, [39] + rest, plain);
  }

  lemma BareEnds(a: Argument, rest: bytes)
    requires LegalArgument(a) && a.tail.Bare? && Ends(a, rest)
    ensures ReadToken(Spell(a) + rest, Plain, []) == Some(Token(a.plain, if rest == [] then [] else rest[1..]))
  {
    PlainRead(a.plain, rest, []);
    assert Spell(a) == a.plain && [] + a.plain == a.plain;
  }

  lemma QuotedEnds(a: Argument, rest: bytes)
    requires LegalArgument(a) && !a.tail.Bare?
    ensures ReadToken(Spell(a) + rest, Plain, []) == if Ends(a, rest) then Some(Token(Meaning(a), rest)) else None
  {
    match a.tail {
      case Double(bits) =>
        DoubleTail(a.plain, bits, rest);
        assert ([34] + rest)[1..] == rest;
      case Single(text) =>
        SingleTail(a.plain, text, rest);
        assert ([39] + rest)[1..] == rest;
    }
  }

  lemma SpellingStarts(a: Argument, rest: bytes)
    requires LegalArgument(a)
    ensures Spell(a) + rest != [] && !IsSpace((Spell(a) + rest)[0])
  {
  }

  /** One argument is taken off a line. */
  lemma OneArgument(a: Argument, rest: bytes, found: seq<bytes>)
    requires LegalArgument(a) && Ends(a, rest)
    ensures Split(Spell(a) + rest, found) == Split(rest, found + [Meaning(a)])
  {
    SpellingStarts(a, rest);
    if a.tail.Bare? {
      BareEnds(a, rest);
    } else {
      QuotedEnds(a, rest);
    }
  }

  // ----- Lines -----

  /** An argument and the blanks before it. */
  datatype Spaced = Spaced(gap: bytes, arg: Argument)

  function LineOf(ws: seq<Spaced>, end: bytes): bytes {
    if ws == [] then end else ws[0].gap + Spell(ws[0].arg) + LineOf(ws[1..], end)
  }

  predicate Blanks(s: bytes) {
    forall i :: 0 <= i < |s| ==> Blank(s[i])
  }

  /** Blanks stand between arguments, and after the last one if the line goes on. */
  predicate LegalLine(ws: seq<Spaced>, end: bytes, goesOn: bool) {
    if ws == [] then Blanks(end)
    else
      var next := if |ws| > 1 then ws[1].gap else end;
      && Blanks(ws[0].gap) && LegalArgument(ws[0].arg) && Ends(ws[0].arg, next)
      && (|ws| > 1 || goesOn ==> next != []) && LegalLine(ws[1..], end, goesOn)
  }

  function Meanings(ws: seq<Spaced>, end: bytes, goesOn: bool): seq<bytes>
    requires LegalLine(ws, end, goesOn)
  {
    if ws == [] then [] else [Meaning(ws[0].arg)] + Meanings(ws[1..], end, goesOn)
  }

  lemma {:induction false} BlanksSkipped(gap: bytes, x: bytes, found: seq<bytes>)
    requires Blanks(gap)
    ensures Split(gap + x, found) == Split(x, found)
    decreases |gap|
  {
    if gap == [] {
      assert gap + x == x;
    } else {
      assert (gap + x)[0] == gap[0] && (gap + x)[1..] == gap[1..] + x;
      BlanksSkipped(gap[1..], x, found);
    }
  }

  lemma LineStarts(ws: seq<Spaced>, end: bytes, x: bytes)
    ensures var next := if ws == [] then end else ws[0].gap;
            next != [] ==> LineOf(ws, end) + x != [] && (LineOf(ws, end) + x)[0] == next[0]
    ensures ws == [] && end == [] && x == [] ==> LineOf(ws, end) + x == []
  {
  }

  lemma {:induction false} ArgumentsRead(ws: seq<Spaced>, end: bytes, x: bytes, found: seq<bytes>)
    requires LegalLine(ws, end, x != [])
    ensures Split(LineOf(ws, end) + x, found) == Split(x, found + Meanings(ws, end, x != []))
    decreases |ws|
  {
    if ws == [] {
      BlanksSkipped(end, x, found);
      assert found + [] == found;
    } else {
      var w, rest := ws[0], LineOf(ws[1..], end) + x;
      Assoc(w.gap + Spell(w.arg), LineOf(ws[1..], end), x);
      Assoc(w.gap, Spell(w.arg), rest);
      BlanksSkipped(w.gap, Spell(w.arg) + rest, found);
      LineStarts(ws[1..], end, x);
      OneArgument(w.arg, rest, found);
      ArgumentsRead(ws[1..], end, x, found + [Meaning(w.arg)]);
      Assoc(found, [Meaning(w.arg)], Meanings(ws[1..], end, x != []));
    }
  }

  /** A line of arguments is split into what they stand for. */
  lemma LineMeans(ws: seq<Spaced>, end: bytes)
    requires LegalLine(ws, end, false)
    ensures Split(LineOf(ws, end), []) == Some(Meanings(ws, end, false))
  {
    ArgumentsRead(ws, end, [], []);
    assert LineOf(ws, end) + [] == LineOf(ws, end);
    assert [] + Meanings(ws, end, false) == Meanings(ws, end, false);
  }

  /** A line is refused if a byte that is no blank, be it another quote, follows a closing quote, */
  lemma GluedFails(ws: seq<Spaced>, end: bytes, a: Argument, rest: bytes)
    requires LegalLine(ws, end, true) && LegalArgument(a) && !a.tail.Bare? && rest != [] && !Blank(rest[0])
    ensures Split(LineOf(ws, end) + (Spell(a) + rest), []) == None
  {
    SpellingStarts(a, rest);
    ArgumentsRead(ws, end, Spell(a) + rest, []);
    QuotedEnds(a, rest);
  }

  /** ... or if a quote is left open, */
  lemma OpenFails(ws: seq<Spaced>, end: bytes, plain: bytes, bits: seq<Bit>, text: bytes)
    requires LegalLine(ws, end, true) && LegalPlain(plain) && LegalBits(bits)
    ensures Split(LineOf(ws, end) + (plain + ([34] + SpellBits(bits))), []) == None
    ensures Split(LineOf(ws, end) + (plain + ([39] + SpellSingle(text))), []) == None
  {
    var one, two := [34] + SpellBits(bits), [39] + SpellSingle(text);
    ArgumentsRead(ws, end, plain + one, []);
    Quoted(plain, 34, SpellBits(bits));
    BitsRead(bits, [], plain);
    assert SpellBits(bits) + [] == SpellBits(bits);
    ArgumentsRead(ws, end, plain + two, []);
    Quoted(plain, 39, SpellSingle(text));
    SingleRead(text, [], plain);
    assert SpellSingle(text) + [] == SpellSingle(text);
    assert !IsSpace((plain + one)[0]) && !IsSpace((plain + two)[0]);
  }

  // ----- Escapes -----

  /** What the quoted form writes for a byte. */
  lemma EscapeMeans(c: byte)
    ensures (c == 34 || c == 92) ==> Escape(c) == [92, c]
    ensures Escape(10) == [92, 110] && Escape(13) == [92, 114] && Escape(9) == [92, 116]
    ensures Escape(7) == [92, 97] && Escape(8) == [92, 98]
    ensures 32 <= c <= 126 && c != 34 && c != 92 ==> Escape(c) == [c]
    ensures !(32 <= c <= 126) && !(7 <= c <= 10) && c != 13 ==>
              exists hi, lo: byte {:trigger Hex(hi, lo)} ::
                && IsHex(hi) && IsHex(lo) && !(65 <= hi <= 70) && !(65 <= lo <= 70)
                && Escape(c) == [92, 120, hi, lo] && 16 * HexValue(hi) + HexValue(lo) == c
  {
    var hi, lo := HexDigit(c / 16), HexDigit(c % 16);
    assert Hex(hi, lo).hi == hi;
    assert HexValue(hi) == c / 16 && HexValue(lo) == c % 16;
  }
}
