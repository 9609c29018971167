/** Formatted commands as the asynchronous API takes them apart again. */
module Commands {
  import opened Bytes
  import opened Resp
  import Format
  import A = Async

  const SUBSCRIBE: bytes := [115, 117, 98, 115, 99, 114, 105, 98, 101]
  const MONITOR: bytes := [109, 111, 110, 105, 116, 111, 114]

  /** strncasecmp() of s and the lower-case word w, over the length of w. */
  predicate StartsWith(s: bytes, w: bytes) {
    |s| >= |w| && Lower(s[..|w|]) == w
  }

  /** A name without the p that marks the variants on patterns. */
  function Stripped(arg: bytes): bytes {
    if A.IsPattern(arg) then arg[1..] else arg
  }

  /** What the source reads off the memory at the first argument; more tells whether another one follows. */
  function Classify(text: bytes, more: bool): A.CommandKind {
    var name := Stripped(text);
    if more && StartsWith(name, SUBSCRIBE + CRLF) then A.Subscribe(A.IsPattern(text))
    else if StartsWith(name, A.UNSUBSCRIBE + CRLF) then A.Unsubscribe
    else if StartsWith(name, MONITOR + CRLF) then A.Monitor
    else A.Regular
  }

  /** The memory from the first argument of a formatted command on, up to the NUL byte that ends it. */
  function FirstText(argv: seq<bytes>): bytes
    requires argv != []
  {
    argv[0] + CRLF + (Format.Bulks(argv[1..]) + [NUL])
  }

  /** The command that an argument vector stands for; __redisAsyncCommand() asserts that there is an argument. */
  function CommandOf(argv: seq<bytes>): A.Command
    requires argv != []
  {
    A.Command(Classify(FirstText(argv), |argv| > 1), argv[1..], Format.Encode(argv))
  }

  // ----- What the kinds mean -----

  /** The text of an argument before its first CR LF; in a command one always follows. */
  function FirstLine(arg: bytes): (line: bytes)
    ensures line <= arg && forall i :: 0 <= i < |line| ==> !CrlfAt(line, i)
  {
    var i := Crlf(arg);
    if i < 0 then arg else
      assert forall j :: 0 <= j < i ==> CrlfAt(arg[..i], j) ==> CrlfAt(arg, j);
      arg[..i]
  }

  /** What stands behind it. */
  lemma FirstLineEnds(arg: bytes, rest: bytes) returns (x: bytes)
    ensures arg + CRLF + rest == FirstLine(arg) + CRLF + x
  {
    var i := Crlf(arg);
    if i < 0 {
      x := rest;
    } else {
      x := arg[i + 2..] + CRLF + rest;
      assert arg == arg[..i] + CRLF + arg[i + 2..];
    }
  }

  /** A word followed by CR LF is recognised exactly when the text before the first CR LF is that word in any case. */
  lemma WordRecognised(line: bytes, rest: bytes, w: bytes)
    requires CR !in w && forall i :: 0 <= i < |line| ==> !CrlfAt(line, i)
    ensures StartsWith(line + CRLF + rest, w + CRLF) <==> Lower(line) == w
  {
    var s, n := line + CRLF + rest, |w| + 2;
    if |s| >= n {
      var l := Lower(s[..n]);
      assert |line| < n ==> l[|line|] == ToLower(s[|line|]) == CR;
      assert (w + CRLF)[..|w|] == w && (w + CRLF)[|w|] == CR && (w + CRLF)[|w| + 1] == LF;
      assert forall i :: 0 <= i < |w| ==> (w + CRLF)[i] != CR;
      assert |w| < |line| ==> l[|w|] == ToLower(s[|w|]) && l[|w| + 1] == ToLower(s[|w| + 1]) && s[|w|] == line[|w|];
      assert |w| + 1 < |line| ==> s[|w| + 1] == line[|w| + 1] && !CrlfAt(line, |w|);
      assert |w| == |line| ==> s[..n] == line + CRLF && l == Lower(line) + Lower(CRLF) && Lower(CRLF) == CRLF;
      assert |w| == |line| ==> l[..|w|] == Lower(line);
    }
  }

  /** The word w, with a p before it for the variants on patterns. */
  predicate IsWord(arg: bytes, w: bytes) {
    Lower(arg) == w || Lower(arg) == [112] + w
  }

  lemma StripWord(arg: bytes, w: bytes)
    requires w != [] && w[0] != 112
    ensures Lower(Stripped(arg)) == w <==> IsWord(arg, w)
    ensures Lower(Stripped(arg)) == w ==> (A.IsPattern(arg) <==> Lower(arg) == [112] + w)
  {
    if A.IsPattern(arg) {
      assert Lower(arg) == [112] + Lower(arg[1..]);
      assert Lower(arg)[1..] == Lower(arg[1..]);
      assert ([112] + w)[1..] == w;
    } else if arg != [] {
      assert Lower(arg)[0] != 112;
    }
  }

  lemma WordMeans(line: bytes, rest: bytes, w: bytes)
    requires CR !in w && w != [] && w[0] != 112 && forall i :: 0 <= i < |line| ==> !CrlfAt(line, i)
    ensures var text := line + CRLF + rest;
            StartsWith(Stripped(text), w + CRLF) <==> IsWord(line, w)
    ensures A.IsPattern(line + CRLF + rest) == A.IsPattern(line)
    ensures IsWord(line, w) ==> (A.IsPattern(line) <==> Lower(line) == [112] + w)
  {
    assert line != [] ==> (line + CRLF + rest)[0] == line[0];
    assert Stripped(line + CRLF + rest) == Stripped(line) + CRLF + rest;
    StrippedLine(line);
    WordRecognised(Stripped(line), rest, w);
    StripWord(line, w);
  }

  lemma StrippedLine(line: bytes)
    requires forall i :: 0 <= i < |line| ==> !CrlfAt(line, i)
    ensures forall i :: 0 <= i < |Stripped(line)| ==> !CrlfAt(Stripped(line), i)
  {
    if A.IsPattern(line) {
      assert forall i :: 0 <= i < |line| - 1 ==> CrlfAt(line[1..], i) == CrlfAt(line, i + 1);
    }
  }

  /** Each kind is a word, in any case, before the first CR LF of the first argument. */
  lemma KindsMean(argv: seq<bytes>)
    requires argv != []
    ensures var k, line := CommandOf(argv).kind, FirstLine(argv[0]);
            && (k.Subscribe? <==> |argv| > 1 && IsWord(line, SUBSCRIBE))
            && (k.Subscribe? ==> (k.pattern <==> Lower(line) == [112] + SUBSCRIBE))
            && (k.Unsubscribe? <==> IsWord(line, A.UNSUBSCRIBE))
            && (k.Monitor? <==> IsWord(line, MONITOR))
  {
    var line, rest := FirstLine(argv[0]), Format.Bulks(argv[1..]) + [NUL];
    var x := FirstLineEnds(argv[0], rest);
    WordMeans(line, x, SUBSCRIBE);
    WordMeans(line, x, A.UNSUBSCRIBE);
    WordMeans(line, x, MONITOR);
    WordsDiffer(line);
  }

  /** The same in letters: subscribe, psubscribe, unsubscribe, punsubscribe, monitor and pmonitor. */
  lemma KindsInLetters(argv: seq<bytes>)
    requires argv != []
    ensures var k, line := CommandOf(argv).kind, FirstLine(argv[0]);
            var sub := [115, 117, 98, 115, 99, 114, 105, 98, 101];
            var psub := [112, 115, 117, 98, 115, 99, 114, 105, 98, 101];
            && (k.Subscribe? <==> |argv| > 1 && (SameLetters(line, sub) || SameLetters(line, psub)))
            && (k.Subscribe? ==> (k.pattern <==> SameLetters(line, psub)))
            && (k.Unsubscribe? <==> SameLetters(line, [117, 110] + sub) || SameLetters(line, [112, 117, 110] + sub))
            && (k.Monitor? <==> SameLetters(line, [109, 111, 110, 105, 116, 111, 114])
                                || SameLetters(line, [112, 109, 111, 110, 105, 116, 111, 114]))
  {
    var line := FirstLine(argv[0]);
    KindsMean(argv);
    InLetters(line, SUBSCRIBE);
    InLetters(line, A.UNSUBSCRIBE);
    InLetters(line, MONITOR);
    assert [112, 115, 117, 98, 115, 99, 114, 105, 98, 101] == [112] + SUBSCRIBE;
    assert [117, 110] + SUBSCRIBE == A.UNSUBSCRIBE && [112, 117, 110] + SUBSCRIBE == [112] + A.UNSUBSCRIBE;
    assert [112, 109, 111, 110, 105, 116, 111, 114] == [112] + MONITOR;
  }

  lemma InLetters(line: bytes, w: bytes)
    requires forall i :: 0 <= i < |w| ==> 97 <= w[i] <= 122
    ensures IsWord(line, w) <==> SameLetters(line, w) || SameLetters(line, [112] + w)
    ensures Lower(line) == [112] + w <==> SameLetters(line, [112] + w)
  {
    LowerMeans(line, w);
    LowerMeans(line, [112] + w);
  }

  lemma WordsDiffer(arg: bytes)
    ensures !(IsWord(arg, SUBSCRIBE) && IsWord(arg, A.UNSUBSCRIBE)) && !(IsWord(arg, SUBSCRIBE) && IsWord(arg, MONITOR))
    ensures !(IsWord(arg, A.UNSUBSCRIBE) && IsWord(arg, MONITOR))
  {
    assert |SUBSCRIBE| == 9 && |A.UNSUBSCRIBE| == 11 && |MONITOR| == 7;
  }

  // ----- Finding the arguments again -----

  /** The first call of nextArgument() on a formatted command, and what is left for the others. */
  lemma FirstArgument(argv: seq<bytes>)
    requires argv != []
    ensures var s, post := Format.Encode(argv) + [NUL], Format.Bulks(argv[1..]) + [NUL];
            && Format.NextArgument(s) == Format.Arg(FirstText(argv), |argv[0]|, post)
            && (post[0] == DOLLAR <==> |argv| > 1)
  {
    var post := Format.Bulks(argv[1..]) + [NUL];
    Format.SkipHeader(argv);
    Format.FirstOfBulks(argv);
    if |argv| > 1 {
      Format.BulksUnfold(argv[1..]);
    } else {
      assert post == [NUL];
    }
  }

  /** What is left of a formatted command before its last arguments, those of names from the k-th on. */
  ghost predicate Left(p: bytes, names: seq<bytes>, k: nat) {
    k <= |names| && p == Format.Bulks(names[k..]) + [NUL]
  }

  /** The k-th of the names was found, if there is one. */
  ghost predicate Found(name: Option<bytes>, rest: bytes, names: seq<bytes>, k: nat) {
    if k < |names| then name == Some(names[k]) && Left(rest, names, k + 1) else name == None
  }

  /** One more call of nextArgument(). */
  method NextName(p: bytes, ghost names: seq<bytes>, ghost k: nat) returns (name: Option<bytes>, rest: bytes)
    requires Left(p, names, k)
    ensures Found(name, rest, names, k)
  {
    if k == |names| {
      assert p == [NUL] && Format.NextArgument(p) == Format.NoArg;
    } else {
      Format.FirstOfBulks(names[k..]);
      assert names[k..][1..] == names[k + 1..];
    }
    var next := Format.NextArgument(p);
    if next.Arg? {
      assert next.text[..next.len] == names[k];
      return Some(next.text[..next.len]), next.rest;
    }
    return None, p;
  }

  /** The kind of a formatted command, and where its further arguments are. */
  method Inspect(cmd: bytes, ghost argv: seq<bytes>) returns (kind: A.CommandKind, rest: bytes)
    requires argv != [] && cmd == Format.Encode(argv)
    ensures kind == CommandOf(argv).kind && Left(rest, argv[1..], 0)
  {
    FirstArgument(argv);
    var first := Format.NextArgument(cmd + [NUL]);
    rest := first.rest;
    assert argv[1..][0..] == argv[1..];
    kind := Classify(first.text, rest[0] == DOLLAR);
  }
}
