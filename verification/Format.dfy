/** Commands on the wire: formatting argument vectors and format strings, and walking over the result. */
module Format {
  import opened Bytes
  import opened Decimal
  import opened Resp
  import Strings = SdsStrings

  // ----- Argument vectors -----

  function Texts(argv: seq<bytes>): (r: seq<Reply>)
    ensures |r| == |argv| && forall i :: 0 <= i < |r| ==> r[i] == Str(argv[i])
  {
    seq(|argv|, i requires 0 <= i < |argv| => Str(argv[i]))
  }

  /** A command is an array of bulk strings. */
  function Command(argv: seq<bytes>): Reply {
    Arr(|argv|, Texts(argv))
  }

  function Encode(argv: seq<bytes>): bytes {
    Wire(Command(argv))
  }

  function Bulk(arg: bytes): bytes {
    Wire(Str(arg))
  }

  function Bulks(argv: seq<bytes>): bytes {
    WireAll(Texts(argv))
  }

  lemma BulksUnfold(argv: seq<bytes>)
    requires argv != []
    ensures Bulks(argv) == Bulk(argv[0]) + Bulks(argv[1..])
  {
    assert Texts(argv)[1..] == Texts(argv[1..]);
  }

  lemma {:induction false} BulksAppend(argv: seq<bytes>, arg: bytes)
    ensures Bulks(argv + [arg]) == Bulks(argv) + Bulk(arg)
  {
    BulksUnfold(argv + [arg]);
    if argv == [] {
      assert (argv + [arg])[1..] == [];
    } else {
      BulksUnfold(argv);
      assert (argv + [arg])[1..] == argv[1..] + [arg];
      BulksAppend(argv[1..], arg);
    }
  }

  lemma TakeNext(argv: seq<bytes>, j: nat)
    requires j < |argv|
    ensures Bulks(argv[..j + 1]) == Bulks(argv[..j]) + Bulk(argv[j])
  {
    assert argv[..j + 1] == argv[..j] + [argv[j]];
    BulksAppend(argv[..j], argv[j]);
  }

  /** bulklen() */
  method BulkLen(arg: bytes) returns (n: nat)
    ensures n == |Bulk(arg)|
  {
    var l := IntLen(|arg|);
    n := 1 + l + 2 + |arg| + 2;
  }

  /** sprintf(): the text and a NUL after it. */
  method Print(cmd: array<byte>, pos: nat, text: bytes)
    requires pos + |text| < cmd.Length
    modifies cmd
    ensures cmd[..pos + |text|] == old(cmd[..pos]) + text
  {
    Strings.CopyInto(cmd, pos, text);
    cmd[pos + |text|] := NUL;
  }

  /** One argument: header, bytes and line end, each at the moving position. */
  method PrintBulk(cmd: array<byte>, at: nat, arg: bytes) returns (pos: nat)
    requires at + |Bulk(arg)| < cmd.Length
    modifies cmd
    ensures pos == at + |Bulk(arg)| && cmd[..pos] == old(cmd[..at]) + Bulk(arg)
  {
    Print(cmd, at, Header(DOLLAR, |arg|));
    pos := at + |Header(DOLLAR, |arg|)|;
    Print(cmd, pos, arg);
    pos := pos + |arg|;
    Print(cmd, pos, CRLF);
    pos := pos + 2;
  }

  /** The building half of both formatters, into a buffer of the length computed beforehand. */
  method Build(argv: seq<bytes>, totlen: nat) returns (cmd: array<byte>)
    requires totlen == |Encode(argv)|
    ensures fresh(cmd) && cmd.Length == totlen + 1
    ensures cmd[..totlen] == Encode(argv) && cmd[totlen] == NUL
  {
    cmd := new byte[totlen + 1];
    var head := Header(STAR, |argv|);
    Print(cmd, 0, head);
    var pos: nat := |head|;
    assert head + Bulks(argv[..0]) == head;
    for j := 0 to |argv|
      invariant pos == |head + Bulks(argv[..j])| <= totlen && cmd[..pos] == head + Bulks(argv[..j])
    {
      PrintNext(head, argv, j);
      pos := PrintBulk(cmd, pos, argv[j]);
    }
    assert argv[..|argv|] == argv;
    cmd[pos] := NUL;
  }

  /** What is printed next, and that there is room for it. */
  lemma PrintNext(head: bytes, argv: seq<bytes>, j: nat)
    requires j < |argv|
    ensures head + Bulks(argv[..j + 1]) == head + Bulks(argv[..j]) + Bulk(argv[j])
    ensures |head + Bulks(argv[..j + 1])| <= |head + Bulks(argv)|
  {
    TakeNext(argv, j);
    BulksPrefix(argv, j + 1);
    Assoc(head, Bulks(argv[..j]), Bulk(argv[j]));
  }

  lemma {:induction false} BulksPrefix(argv: seq<bytes>, j: nat)
    requires j <= |argv|
    ensures |Bulks(argv[..j])| <= |Bulks(argv)|
    decreases |argv| - j
  {
    if j == |argv| {
      assert argv[..j] == argv;
    } else {
      TakeNext(argv, j);
      BulksPrefix(argv, j + 1);
    }
  }

  /** redisFormatCommandArgv() */
  method FormatCommandArgv(argv: seq<bytes>) returns (cmd: array<byte>, totlen: nat)
    ensures fresh(cmd) && cmd.Length == totlen + 1
    ensures cmd[..totlen] == Encode(argv) && cmd[totlen] == NUL
  {
    var l := IntLen(|argv|);
    totlen := 1 + l + 2;
    assert argv[..|argv|] == argv;
    for j := 0 to |argv|
      invariant totlen == |Header(STAR, |argv|)| + |Bulks(argv[..j])|
    {
      TakeNext(argv, j);
      var n := BulkLen(argv[j]);
      totlen := totlen + n;
    }
    cmd := Build(argv, totlen);
  }

  /** The reader gets back every argument vector of a pipeline, whatever bytes are in it. */
  lemma PipelineRoundTrip(cmds: seq<seq<bytes>>)
    ensures var sent := seq(|cmds|, i requires 0 <= i < |cmds| => Encode(cmds[i]));
            var got := seq(|cmds|, i requires 0 <= i < |cmds| => Command(cmds[i]));
            ReadStream(Concat(sent)) == Stream(got, [], None)
  {
    var sent := seq(|cmds|, i requires 0 <= i < |cmds| => Encode(cmds[i]));
    var got := seq(|cmds|, i requires 0 <= i < |cmds| => Command(cmds[i]));
    WireStream(got);
    ConcatIsWireAll(sent, got);
  }

  lemma {:induction false} ConcatIsWireAll(sent: seq<bytes>, rs: seq<Reply>)
    requires |sent| == |rs| && forall i :: 0 <= i < |rs| ==> sent[i] == Wire(rs[i])
    ensures Concat(sent) == WireAll(rs)
  {
    if rs != [] {
      ConcatIsWireAll(sent[1..], rs[1..]);
    }
  }

  // ----- Walking over a formatted command -----

  /** strchr(): the first c before the first NUL, or -1. */
  function StrChr(s: bytes, c: byte): (r: int)
    ensures -1 <= r < |s| && (r >= 0 ==> s[r] == c && c !in s[..r] && NUL !in s[..r])
  {
    var i := IndexOf(s, c);
    if i < |s| && NUL !in s[..i] then i else -1
  }

  /** The digits at the start of s, on top of v. */
  function DigitsValue(s: bytes, v: int): int {
    if s == [] || !IsDigit(s[0]) then v else DigitsValue(s[1..], 10 * v + (s[0] - ZERO))
  }

  /** strtol() in base 10. */
  function StrTol(s: bytes): int {
    if s == [] then 0
    else if IsSpace(s[0]) then StrTol(s[1..])
    else if s[0] == MINUS then -DigitsValue(s[1..], 0)
    else if s[0] == PLUS then DigitsValue(s[1..], 0)
    else DigitsValue(s, 0)
  }

  /** An argument as nextArgument() sees it: text is the memory it starts at, rest what comes next. */
  datatype NextArg =
    | NoArg
    | Malformed
    | Arg(text: bytes, len: nat, rest: bytes)

  /** The argument whose '$' s starts with. */
  function ArgumentAt(s: bytes): (r: NextArg)
    requires s != []
    ensures r.Arg? ==> r.len <= |r.text| && |r.rest| < |s|
  {
    var j := StrChr(s, CR);
    if j < 0 || j + 2 > |s| then Malformed else
    var len, text := StrTol(s[1..]), s[j + 2..];
    if len < 0 || len + 2 > |text| then Malformed else Arg(text, len, text[len + 2..])
  }

  /** nextArgument() at a pointer to s; Malformed where the source asserts or leaves the buffer. */
  function NextArgument(s: bytes): (r: NextArg)
    ensures r.Arg? ==> r.len <= |r.text| && |r.rest| < |s|
  {
    var i := if s != [] && s[0] == DOLLAR then 0 else StrChr(s, DOLLAR);
    if i < 0 then NoArg else ArgumentAt(s[i..])
  }

  /** All the arguments found by calling nextArgument() again and again, and how the walk ends. */
  function Walk(s: bytes): (seq<bytes>, NextArg)
    decreases |s|
  {
    match NextArgument(s)
    case Arg(text, len, rest) => var (args, end) := Walk(rest); ([text[..len]] + args, end)
    case end => ([], end)
  }

  lemma {:induction false} DigitsValueIsAccumulate(s: bytes, rest: bytes, v: int)
    requires forall i :: 0 <= i < |s| ==> IsDigit(s[i])
    ensures Accumulate(s, v) == Some(DigitsValue(s + [CR] + rest, v))
  {
    var t := s + [CR] + rest;
    if s != [] {
      assert t[1..] == s[1..] + [CR] + rest;
      DigitsValueIsAccumulate(s[1..], rest, 10 * v + (s[0] - ZERO));
    }
  }

  lemma StrTolNumeral(n: nat, rest: bytes)
    ensures StrTol(Numeral(n) + [CR] + rest) == n
  {
    DigitsValueIsAccumulate(Digits(n), rest, 0);
    AccumulateDigits(n);
    assert IsDigit((Numeral(n) + [CR] + rest)[0]);
  }

  lemma {:induction false} IndexOfAppend(s: bytes, c: byte, rest: bytes)
    requires c !in s
    ensures IndexOf(s + [c] + rest, c) == |s|
  {
    if s != [] {
      assert (s + [c] + rest)[1..] == s[1..] + [c] + rest;
      IndexOfAppend(s[1..], c, rest);
    }
  }

  /** What comes before the first '$' of an argument does not matter. */
  lemma SkipToDollar(pre: bytes, s: bytes)
    requires DOLLAR !in pre && NUL !in pre && s != [] && s[0] == DOLLAR
    ensures NextArgument(pre + s) == NextArgument(s)
  {
    var t := pre + s;
    if pre != [] {
      assert t == pre + [DOLLAR] + s[1..];
      IndexOfAppend(pre, DOLLAR, s[1..]);
      assert t[..|pre|] == pre && t[|pre|..] == s;
    } else {
      assert t == s;
    }
    assert s[0..] == s;
  }

  /** The header of a bulk string is taken apart. */
  lemma NextArgumentAt(n: nat, text: bytes)
    requires n + 2 <= |text|
    ensures NextArgument([DOLLAR] + Numeral(n) + [CR] + ([LF] + text)) == Arg(text, n, text[n + 2..])
  {
    var num := Numeral(n);
    var s := [DOLLAR] + num + [CR] + ([LF] + text);
    IndexOfAppend([DOLLAR] + num, CR, [LF] + text);
    assert s[..|num| + 1] == [DOLLAR] + num && s[0..] == s;
    assert s[1..] == num + [CR] + ([LF] + text);
    StrTolNumeral(n, [LF] + text);
    assert s[|num| + 3..] == text;
  }

  lemma BulkShape(arg: bytes, post: bytes)
    ensures Bulk(arg) + post == [DOLLAR] + Numeral(|arg|) + [CR] + ([LF] + (arg + CRLF + post))
  {
    var n := Numeral(|arg|);
    assert Bulk(arg) == [DOLLAR] + n + CRLF + arg + CRLF;
    assert CRLF == [CR] + [LF];
    Assoc([DOLLAR] + n + [CR], [LF], arg + CRLF + post);
  }

  /** An argument is found whole. */
  lemma NextArgumentFound(arg: bytes, post: bytes)
    ensures NextArgument(Bulk(arg) + post) == Arg(arg + CRLF + post, |arg|, post)
  {
    var text := arg + CRLF + post;
    NextArgumentAt(|arg|, text);
    BulkShape(arg, post);
    assert text[|arg| + 2..] == post;
  }

  /** A walk goes through one more argument. */
  lemma WalkStep(s: bytes, arg: bytes, post: bytes)
    requires NextArgument(s) == Arg(arg + CRLF + post, |arg|, post)
    ensures Walk(s) == ([arg] + Walk(post).0, Walk(post).1)
  {
    assert (arg + CRLF + post)[..|arg|] == arg;
  }

  lemma FirstOfBulks(argv: seq<bytes>)
    requires argv != []
    ensures var post := Bulks(argv[1..]) + [NUL];
            NextArgument(Bulks(argv) + [NUL]) == Arg(argv[0] + CRLF + post, |argv[0]|, post)
  {
    var post := Bulks(argv[1..]) + [NUL];
    BulksUnfold(argv);
    assert Bulks(argv) + [NUL] == Bulk(argv[0]) + post;
    NextArgumentFound(argv[0], post);
  }

  lemma {:induction false} WalkBulks(argv: seq<bytes>, s: bytes)
    requires s == Bulks(argv) + [NUL]
    ensures Walk(s) == (argv, NoArg)
  {
    if argv == [] {
      assert s == [NUL] && Walk(s) == ([], NoArg);
    } else {
      var post := Bulks(argv[1..]) + [NUL];
      FirstOfBulks(argv);
      WalkStep(s, argv[0], post);
      WalkBulks(argv[1..], post);
      assert argv == [argv[0]] + argv[1..];
    }
  }

  /** The first step over a formatted command skips its header line. */
  lemma SkipHeader(argv: seq<bytes>)
    requires argv != []
    ensures NextArgument(Encode(argv) + [NUL]) == NextArgument(Bulks(argv) + [NUL])
  {
    var head := Header(STAR, |argv|);
    BulksUnfold(argv);
    assert Encode(argv) + [NUL] == head + (Bulks(argv) + [NUL]);
    SkipToDollar(head, Bulks(argv) + [NUL]);
  }

  lemma NothingToWalk()
    ensures Walk(Encode([]) + [NUL]) == ([], NoArg)
  {
    var s := Encode([]) + [NUL];
    assert Texts([]) == [] && Encode([]) == Header(STAR, 0) + [];
    assert DOLLAR !in s;
  }

  /** The arguments found in a formatted command are the ones it was made of. */
  lemma WalkRoundTrip(argv: seq<bytes>)
    ensures Walk(Encode(argv) + [NUL]) == (argv, NoArg)
  {
    if argv == [] {
      NothingToWalk();
    } else {
      SkipHeader(argv);
      WalkBulks(argv, Bulks(argv) + [NUL]);
    }
  }

  // ----- Format strings -----

  const LETTER_S: byte := 115

  /** Only %s, %b and %% occur, except that a '%' may end the format. */
  predicate Supported(f: bytes) {
    f == [] ||
    if f[0] == PERCENT && |f| > 1 then f[1] in {LETTER_S, LETTER_B, PERCENT} && Supported(f[2..])
    else Supported(f[1..])
  }

  /** How many arguments the format takes. */
  function Slots(f: bytes): nat {
    if f == [] then 0
    else if f[0] == PERCENT && |f| > 1 then (if f[1] == PERCENT then 0 else 1) + Slots(f[2..])
    else Slots(f[1..])
  }

  /** The word f with its arguments filled in; %s takes a C string, %b a string of any bytes. */
  function Fill(f: bytes, args: seq<bytes>): bytes
    requires Slots(f) <= |args|
  {
    if f == [] then []
    else if f[0] == PERCENT && |f| > 1 then
      if f[1] == PERCENT then [PERCENT] + Fill(f[2..], args)
      else (if f[1] == LETTER_S then CString(args[0]) else args[0]) + Fill(f[2..], args[1..])
    else [f[0]] + Fill(f[1..], args)
  }

  /** The first word of f, up to a space. */
  function Word(f: bytes): bytes {
    f[..IndexOf(f, SPACE)]
  }

  lemma {:induction false} IndexOfSkip(a: bytes, s: bytes, c: byte)
    requires c !in a
    ensures IndexOf(a + s, c) == |a| + IndexOf(s, c)
  {
    if a == [] {
      assert a + s == s;
    } else {
      assert (a + s)[1..] == a[1..] + s;
      IndexOfSkip(a[1..], s, c);
    }
  }

  /** The reference: the format is split at spaces first, and every word is filled in by itself. */
  function FillWords(f: bytes, args: seq<bytes>): seq<bytes>
    requires Supported(f) && Slots(f) <= |args|
    decreases |f|
  {
    if f == [] then []
    else if f[0] == SPACE then FillWords(f[1..], args)
    else
      WordSlots(f);
      var w := Word(f);
      [Fill(w, args[..Slots(w)])] + FillWords(f[|w|..], args[Slots(w)..])
  }

  /** The same for a formatter that is in the middle of a word, cur being its beginning. */
  function FillFrom(cur: bytes, touched: bool, f: bytes, args: seq<bytes>): seq<bytes>
    requires Supported(f) && Slots(f) <= |args|
  {
    WordSlots(f);
    var w := Word(f);
    var rest := FillWords(f[|w|..], args[Slots(w)..]);
    if touched || w != [] then [cur + Fill(w, args[..Slots(w)])] + rest else rest
  }

  lemma FillFresh(f: bytes, args: seq<bytes>)
    requires Supported(f) && Slots(f) <= |args|
    ensures FillFrom([], false, f, args) == FillWords(f, args)
  {
    WordSlots(f);
    assert f[0..] == f && args[0..] == args;
    if f != [] && f[0] != SPACE {
      var w := Word(f);
      assert [] + Fill(w, args[..Slots(w)]) == Fill(w, args[..Slots(w)]);
    }
  }

  /** A space ends the word, if there is one. */
  lemma FillSpace(cur: bytes, touched: bool, f: bytes, args: seq<bytes>)
    requires Supported(f) && Slots(f) <= |args| && f != [] && f[0] == SPACE
    ensures FillFrom(cur, touched, f, args) ==
            (if touched then [cur] else []) + FillFrom([], false, f[1..], args)
  {
    WordSlots(f);
    FillFresh(f[1..], args);
    assert f[0..] == f && args[0..] == args && cur + [] == cur;
  }

  /** Reading on by one literal character or one conversion. */
  function Unit(f: bytes): (n: nat)
    requires f != [] && f[0] != SPACE
    ensures 1 <= n <= 2 && n <= |f|
  {
    if f[0] == PERCENT && |f| > 1 then 2 else 1
  }

  function UnitSlots(f: bytes): nat
    requires f != [] && f[0] != SPACE
  {
    if f[0] == PERCENT && |f| > 1 && f[1] != PERCENT then 1 else 0
  }

  lemma WordSplit(f: bytes, n: nat)
    requires n <= |f| && SPACE !in f[..n]
    ensures var w, v := Word(f), Word(f[n..]);
            w == f[..n] + v && f[|w|..] == f[n..][|v|..] && w[n..] == v
  {
    assert f == f[..n] + f[n..];
    IndexOfSkip(f[..n], f[n..], SPACE);
    var k := |Word(f[n..])|;
    Slices(f, n, k);
  }

  lemma WordUnit(f: bytes)
    requires Supported(f) && f != [] && f[0] != SPACE
    ensures var n, m := Unit(f), UnitSlots(f); var t := f[n..]; var w, v := Word(f), Word(t);
            && Supported(t) && Slots(f) == m + Slots(t)
            && w == f[..n] + v && f[|w|..] == t[|v|..] && w[n..] == v
  {
    WordSplit(f, Unit(f));
  }

  lemma {:induction false} WordSlots(f: bytes)
    requires Supported(f)
    ensures var w := Word(f);
            Supported(w) && Supported(f[|w|..]) && Slots(f) == Slots(w) + Slots(f[|w|..])
  {
    var w := Word(f);
    if f == [] || f[0] == SPACE {
      assert f[0..] == f;
    } else {
      WordUnit(f);
      WordSlots(f[Unit(f)..]);
    }
  }

  /** The text of the first literal character or conversion. */
  function Filler(f: bytes, args: seq<bytes>): bytes
    requires f != [] && f[0] != SPACE && UnitSlots(f) <= |args|
  {
    if Unit(f) == 1 then [f[0]]
    else if f[1] == PERCENT then [PERCENT]
    else if f[1] == LETTER_S then CString(args[0])
    else args[0]
  }

  lemma FillHead(f: bytes, args: seq<bytes>)
    requires f != [] && f[0] != SPACE && Slots(f) <= |args|
    ensures UnitSlots(f) <= |args| && Slots(f[Unit(f)..]) == Slots(f) - UnitSlots(f)
    ensures Fill(f, args) == Filler(f, args) + Fill(f[Unit(f)..], args[UnitSlots(f)..])
  {
    assert args[0..] == args;
  }

  lemma UnitStays(f: bytes, w: bytes)
    requires f != [] && f[0] != SPACE && |w| >= Unit(f) && w[..Unit(f)] == f[..Unit(f)]
    requires Unit(f) == 1 ==> f[0] != PERCENT || |w| == 1
    ensures w[0] == f[0] && Unit(w) == Unit(f) && UnitSlots(w) == UnitSlots(f) && (Unit(f) == 2 ==> w[1] == f[1])
  {
    assert w[..Unit(f)][0] == w[0] && f[..Unit(f)][0] == f[0];
    if Unit(f) == 2 {
      assert w[..2][1] == w[1] && f[..2][1] == f[1];
    }
  }

  lemma HeadAlone(f: bytes, args: seq<bytes>)
    requires f != [] && f[0] != SPACE && UnitSlots(f) <= |args|
    ensures var g, m := f[..Unit(f)], UnitSlots(f); Slots(g) == m && Fill(g, args[..m]) == Filler(f, args)
  {
    var n, m := Unit(f), UnitSlots(f);
    var g := f[..n];
    UnitStays(f, g);
    assert g[n..] == [] && Slots(g[n..]) == 0;
    FillHead(g, args[..m]);
    assert Filler(g, args[..m]) + [] == Filler(g, args[..m]);
  }

  lemma FillUnit(f: bytes, v: bytes, args: seq<bytes>)
    requires Supported(f) && f != [] && f[0] != SPACE
    requires var w := f[..Unit(f)] + v; Slots(w) <= |args| && Slots(w) == UnitSlots(f) + Slots(v) && w[Unit(f)..] == v
    requires Unit(f) == 1 ==> f[0] != PERCENT || v == []
    ensures var n, m := Unit(f), UnitSlots(f);
            Slots(f[..n]) == m && Fill(f[..n] + v, args) == Fill(f[..n], args[..m]) + Fill(v, args[m..])
  {
    var w := f[..Unit(f)] + v;
    UnitStays(f, w);
    HeadAlone(f, args);
    FillHead(w, args);
  }

  /** Any literal character or conversion joins the word, the latter with the argument it takes. */
  lemma FillJoins(cur: bytes, touched: bool, f: bytes, args: seq<bytes>)
    requires Supported(f) && Slots(f) <= |args| && f != [] && f[0] != SPACE
    ensures var n, m := Unit(f), UnitSlots(f);
            && Supported(f[n..]) && Slots(f[n..]) + m == Slots(f) && Slots(f[..n]) == m
            && FillFrom(cur, touched, f, args) ==
               FillFrom(cur + Fill(f[..n], args[..m]), true, f[n..], args[m..])
  {
    var n, m := Unit(f), UnitSlots(f);
    var t := f[n..];
    WordUnit(f);
    WordSlots(f);
    WordSlots(t);
    var w, v := Word(f), Word(t);
    var mine := args[..Slots(w)];
    assert Unit(f) == 1 && f[0] == PERCENT ==> v == [];
    assert Slots(w) == m + Slots(v);
    FillUnit(f, v, mine);
    Slices(args, m, Slots(v));
    Assoc(cur, Fill(f[..n], args[..m]), Fill(v, mine[m..]));
  }

  /** What one conversion or literal character of redisvFormatCommand() appends. */
  method Append(f: bytes, args: seq<bytes>, curarg: bytes) returns (newarg: bytes)
    requires Supported(f) && Slots(f) <= |args| && f != [] && f[0] != SPACE
    ensures UnitSlots(f) <= |args| && Slots(f[..Unit(f)]) <= UnitSlots(f)
    ensures newarg == curarg + Fill(f[..Unit(f)], args[..UnitSlots(f)])
  {
    FillJoins([], true, f, args);
    if f[0] != PERCENT || |f| == 1 {
      newarg := curarg + [f[0]];
    } else if f[1] == PERCENT {
      newarg := curarg + [PERCENT];
    } else {
      var arg := if f[1] == LETTER_S then CString(args[0]) else args[0];
      newarg := if |arg| > 0 then curarg + arg else curarg;
    }
  }

  /** The current argument joins the vector and its length the total. */
  method EndArgument(curargv: seq<bytes>, totlen: nat, curarg: bytes) returns (argv: seq<bytes>, len: nat)
    requires totlen == |Bulks(curargv)|
    ensures argv == curargv + [curarg] && len == |Bulks(argv)|
  {
    BulksAppend(curargv, curarg);
    var n := BulkLen(curarg);
    argv, len := curargv + [curarg], totlen + n;
  }

  /** The vector whole is argv, then what the rest f of the format makes of the word cur and args. */
  ghost predicate Remains(whole: seq<bytes>, argv: seq<bytes>, cur: bytes, touched: bool, f: bytes, args: seq<bytes>) {
    && Supported(f) && Slots(f) <= |args|
    && (!touched ==> cur == [])
    && whole == argv + FillFrom(cur, touched, f, args)
  }

  lemma Regroup(whole: seq<bytes>, argv: seq<bytes>, cur: bytes, touched: bool, a: seq<bytes>, b: seq<bytes>)
    requires whole == argv + a && a == (if touched then [cur] else []) + b
    ensures whole == (if touched then argv + [cur] else argv) + b
  {
  }

  lemma SpaceStep(whole: seq<bytes>, argv: seq<bytes>, cur: bytes, touched: bool, f: bytes, args: seq<bytes>)
    requires Remains(whole, argv, cur, touched, f, args) && f != [] && f[0] == SPACE
    ensures Remains(whole, if touched then argv + [cur] else argv, [], false, f[1..], args)
  {
    FillSpace(cur, touched, f, args);
    Regroup(whole, argv, cur, touched, FillFrom(cur, touched, f, args), FillFrom([], false, f[1..], args));
  }

  lemma JoinStep(whole: seq<bytes>, argv: seq<bytes>, cur: bytes, touched: bool, f: bytes, args: seq<bytes>)
    requires Remains(whole, argv, cur, touched, f, args) && f != [] && f[0] != SPACE
    ensures var n, m := Unit(f), UnitSlots(f);
            && m <= |args| && Slots(f[..n]) <= m
            && Remains(whole, argv, cur + Fill(f[..n], args[..m]), true, f[n..], args[m..])
  {
    FillJoins(cur, touched, f, args);
  }

  lemma SpaceAt(whole: seq<bytes>, argv: seq<bytes>, cur: bytes, touched: bool, f: bytes, c: nat, args: seq<bytes>)
    requires c < |f| && f[c] == SPACE && Remains(whole, argv, cur, touched, f[c..], args)
    ensures Remains(whole, if touched then argv + [cur] else argv, [], false, f[c + 1..], args)
  {
    SpaceStep(whole, argv, cur, touched, f[c..], args);
    Slices(f, c, 1);
  }

  lemma JoinAt(whole: seq<bytes>, argv: seq<bytes>, cur: bytes, touched: bool, f: bytes, c: nat, args: seq<bytes>,
               k: nat)
    requires c < |f| && f[c] != SPACE && k <= |args| && Remains(whole, argv, cur, touched, f[c..], args[k..])
    ensures var g, rest := f[c..], args[k..]; var n, m := Unit(g), UnitSlots(g);
            && m <= |rest| && Slots(g[..n]) <= m
            && Remains(whole, argv, cur + Fill(g[..n], rest[..m]), true, f[c + n..], args[k + m..])
  {
    var g, rest := f[c..], args[k..];
    JoinStep(whole, argv, cur, touched, g, rest);
    Slices(f, c, Unit(g));
    Slices(args, k, UnitSlots(g));
  }

  lemma EndStep(whole: seq<bytes>, argv: seq<bytes>, cur: bytes, touched: bool, args: seq<bytes>)
    requires Remains(whole, argv, cur, touched, [], args)
    ensures whole == if touched then argv + [cur] else argv
  {
    assert cur + [] == cur;
    assert Word([]) == [] && FillWords([], args) == [];
    assert FillFrom(cur, touched, [], args) == if touched then [cur] else [];
  }

  /** Where the scan is: at c in the format, k of the arguments used up. */
  ghost predicate Scanned(whole: seq<bytes>, argv: seq<bytes>, totlen: nat, cur: bytes, touched: bool,
                          f: bytes, c: nat, args: seq<bytes>, k: nat)
  {
    && c <= |f| && k <= |args| && totlen == |Bulks(argv)|
    && Remains(whole, argv, cur, touched, f[c..], args[k..])
  }

  lemma ScanStarts(f: bytes, args: seq<bytes>)
    requires Supported(f) && Slots(f) <= |args|
    ensures Scanned(FillWords(f, args), [], 0, [], false, f, 0, args, 0)
  {
    FillFresh(f, args);
    assert f[0..] == f && args[0..] == args;
    assert Bulks([]) == [];
  }

  /** One conversion or literal character is added to the current argument. */
  method Join(format: bytes, at: nat, args: seq<bytes>, used: nat, curarg: bytes,
              ghost whole: seq<bytes>, ghost curargv: seq<bytes>, ghost totlen: nat, ghost touched: bool)
    returns (newarg: bytes, c: nat, k: nat)
    requires at < |format| && format[at] != SPACE
    requires Scanned(whole, curargv, totlen, curarg, touched, format, at, args, used)
    ensures c > at && Scanned(whole, curargv, totlen, newarg, true, format, c, args, k)
  {
    var f, rest := format[at..], args[used..];
    JoinAt(whole, curargv, curarg, touched, format, at, args, used);
    newarg := Append(f, rest, curarg);
    c, k := at + Unit(f), used + UnitSlots(f);
  }

  /** A space ends the current argument, if there is one. */
  method Gap(curargv: seq<bytes>, totlen: nat, curarg: bytes, touched: bool,
             ghost whole: seq<bytes>, ghost f: bytes, ghost c: nat, ghost args: seq<bytes>, ghost k: nat)
    returns (argv: seq<bytes>, len: nat)
    requires c < |f| && f[c] == SPACE && Scanned(whole, curargv, totlen, curarg, touched, f, c, args, k)
    ensures Scanned(whole, argv, len, [], false, f, c + 1, args, k)
  {
    SpaceAt(whole, curargv, curarg, touched, f, c, args[k..]);
    argv, len := curargv, totlen;
    if touched {
      argv, len := EndArgument(curargv, totlen, curarg);
    }
  }

  /** The end of the format ends it too. */
  method Finish(curargv: seq<bytes>, totlen: nat, curarg: bytes, touched: bool,
                ghost whole: seq<bytes>, ghost f: bytes, ghost args: seq<bytes>, ghost k: nat)
    returns (argv: seq<bytes>, len: nat)
    requires Scanned(whole, curargv, totlen, curarg, touched, f, |f|, args, k)
    ensures argv == whole && len == |Bulks(argv)|
  {
    assert f[|f|..] == [];
    EndStep(whole, curargv, curarg, touched, args[k..]);
    argv, len := curargv, totlen;
    if touched {
      argv, len := EndArgument(curargv, totlen, curarg);
    }
  }

  /** The scanning half of redisvFormatCommand(), for literals, spaces, %s, %b and %%. */
  method Scan(format: bytes, args: seq<bytes>) returns (curargv: seq<bytes>, totlen: nat)
    requires Supported(format) && Slots(format) <= |args|
    ensures curargv == FillWords(format, args) && totlen == |Bulks(curargv)|
  {
    ghost var whole := FillWords(format, args);
    var c, k: nat := 0, 0;
    var curarg: bytes, touched := [], false;
    curargv, totlen := [], 0;
    ScanStarts(format, args);
    while c < |format|
      invariant Scanned(whole, curargv, totlen, curarg, touched, format, c, args, k)
    {
      if format[c] == SPACE {
        curargv, totlen := Gap(curargv, totlen, curarg, touched, whole, format, c, args, k);
        curarg, touched, c := [], false, c + 1;
      } else {
        curarg, c, k := Join(format, c, args, k, curarg, whole, curargv, totlen, touched);
        touched := true;
      }
    }
    curargv, totlen := Finish(curargv, totlen, curarg, touched, whole, format, args, k);
  }

  /** redisvFormatCommand(); the format is a C string. */
  method FormatCommand(format: bytes, args: seq<bytes>) returns (cmd: array<byte>, totlen: nat)
    requires Supported(CString(format)) && Slots(CString(format)) <= |args|
    ensures fresh(cmd) && cmd.Length == totlen + 1
    ensures cmd[..totlen] == Encode(FillWords(CString(format), args)) && cmd[totlen] == NUL
  {
    var argv;
    argv, totlen := Scan(CString(format), args);
    var l := IntLen(|argv|);
    totlen := totlen + 1 + l + 2;
    cmd := Build(argv, totlen);
  }

  /** Interpolated bytes never split or drop an argument: only the format decides how many there are. */
  lemma {:induction false} ArgcIsTheFormats(f: bytes, a: seq<bytes>, b: seq<bytes>)
    requires Supported(f) && Slots(f) <= |a| && Slots(f) <= |b|
    ensures |FillWords(f, a)| == |FillWords(f, b)|
    decreases |f|
  {
    if f != [] {
      WordSlots(f);
      var w := Word(f);
      if f[0] == SPACE {
        ArgcIsTheFormats(f[1..], a, b);
      } else {
        ArgcIsTheFormats(f[|w|..], a[Slots(w)..], b[Slots(w)..]);
      }
    }
  }

  /** The format "%b %b ... %b", one conversion for each of n arguments. */
  function Binaries(n: nat): bytes {
    if n == 0 then [] else [PERCENT, LETTER_B, SPACE] + Binaries(n - 1)
  }

  lemma FirstBinary(n: nat)
    requires n > 0
    ensures Word(Binaries(n)) == [PERCENT, LETTER_B] && Binaries(n)[2..] == [SPACE] + Binaries(n - 1)
  {
    var rest := [SPACE] + Binaries(n - 1);
    assert Binaries(n) == [PERCENT, LETTER_B] + rest;
    IndexOfSkip([PERCENT, LETTER_B], rest, SPACE);
  }

  lemma {:induction false} BinariesSupported(n: nat)
    ensures Supported(Binaries(n)) && Slots(Binaries(n)) == n
  {
    if n > 0 {
      FirstBinary(n);
      BinariesSupported(n - 1);
      assert ([SPACE] + Binaries(n - 1))[1..] == Binaries(n - 1);
    }
  }

  /** With it the two formatters agree, for any arguments. */
  lemma {:induction false} BinariesFormatArgv(argv: seq<bytes>)
    ensures Supported(Binaries(|argv|)) && Slots(Binaries(|argv|)) <= |argv|
    ensures FillWords(Binaries(|argv|), argv) == argv
  {
    BinariesSupported(|argv|);
    if argv != [] {
      var f, rest := Binaries(|argv|), [SPACE] + Binaries(|argv| - 1);
      FirstBinary(|argv|);
      WordSlots(f);
      BinariesFormatArgv(argv[1..]);
      assert rest[1..] == Binaries(|argv[1..]|);
      assert FillWords(rest, argv[1..]) == argv[1..];
      assert Slots([PERCENT, LETTER_B]) == 1 && argv[..1] == [argv[0]];
      assert Fill([PERCENT, LETTER_B], argv[..1]) == argv[0];
    }
  }
}
