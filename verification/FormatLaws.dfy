/** What formats mean: words of literal text and conversions, with any number of spaces between them. */
module FormatLaws {
  import opened Bytes
  import opened Decimal
  import opened Format

  // ----- Pieces -----

  /** Part of a word; Str passes a C string and what stands behind it, Lone is a % that ends the format. */
  datatype Piece =
    | Literal(text: bytes)
    | Str(text: bytes, behind: bytes)
    | Bin(text: bytes)
    | Percent
    | Lone

  /** Literal text has no space, no % and no NUL; a C string has no NUL but the one behind it. */
  predicate LegalPiece(p: Piece) {
    match p
    case Literal(text) => 32 !in text && 37 !in text && 0 !in text
    case Str(text, behind) => 0 !in text && (behind == [] || behind[0] == 0)
    case _ => true
  }

  /** How a piece is written in the format, */
  function Spelling(p: Piece): bytes {
    match p
    case Literal(text) => text
    case Str(_, _) => [37, 115]
    case Bin(_) => [37, 98]
    case Percent => [37, 37]
    case Lone => [37]
  }

  /** ... what is passed for it, */
  function Passed(p: Piece): seq<bytes> {
    match p
    case Str(text, behind) => [text + behind]
    case Bin(text) => [text]
    case _ => []
  }

  /** ... and what it stands for. */
  function Meaning(p: Piece): bytes {
    match p
    case Literal(text) => text
    case Str(text, _) => text
    case Bin(text) => text
    case _ => [37]
  }

  function SpellAll(ps: seq<Piece>): bytes {
    if ps == [] then [] else Spelling(ps[0]) + SpellAll(ps[1..])
  }

  function PassAll(ps: seq<Piece>): seq<bytes> {
    if ps == [] then [] else Passed(ps[0]) + PassAll(ps[1..])
  }

  function MeanAll(ps: seq<Piece>): bytes {
    if ps == [] then [] else Meaning(ps[0]) + MeanAll(ps[1..])
  }

  /** Only the last piece of a format can be a lone %. */
  predicate LegalPieces(ps: seq<Piece>, final: bool) {
    ps == [] || (LegalPiece(ps[0]) && (ps[0].Lone? ==> final && |ps| == 1) && LegalPieces(ps[1..], final))
  }

  lemma {:induction false} LiteralFilled(text: bytes, f: bytes, args: seq<bytes>)
    requires 32 !in text && 37 !in text && Supported(f) && Slots(f) <= |args|
    ensures Supported(text + f) && Slots(text + f) == Slots(f) && Fill(text + f, args) == text + Fill(f, args)
    decreases |text|
  {
    if text == [] {
      assert text + f == f && text + Fill(f, args) == Fill(f, args);
    } else {
      assert (text + f)[0] == text[0] && (text + f)[1..] == text[1..] + f;
      LiteralFilled(text[1..], f, args);
      assert [text[0]] + (text[1..] + Fill(f, args)) == text + Fill(f, args);
    }
  }

  lemma PieceFilled(p: Piece, f: bytes, args: seq<bytes>)
    requires LegalPiece(p) && (p.Lone? ==> f == []) && Supported(f) && Slots(f) <= |args|
    ensures var g, all := Spelling(p) + f, Passed(p) + args;
            && Supported(g) && Slots(g) == |Passed(p)| + Slots(f) && Fill(g, all) == Meaning(p) + Fill(f, args)
  {
    var g, all := Spelling(p) + f, Passed(p) + args;
    if p.Literal? {
      assert all == args;
      LiteralFilled(p.text, f, args);
    } else if p.Lone? {
      assert g == [37] && g[1..] == [] && all == args;
    } else {
      assert g[2..] == f && g[0] == 37 && g[1] == Spelling(p)[1];
      if p.Percent? {
        assert all == args;
      } else {
        assert all[0] == Passed(p)[0] && all[1..] == args;
        if p.Str? {
          CStringIs(p.text, p.behind);
        }
      }
    }
  }

  /** The pieces of a word, and whatever follows. */
  lemma {:induction false} PiecesFilled(ps: seq<Piece>, final: bool, f: bytes, args: seq<bytes>)
    requires LegalPieces(ps, final) && (final ==> f == []) && Supported(f) && Slots(f) <= |args|
    ensures var g, all := SpellAll(ps) + f, PassAll(ps) + args;
            && Supported(g) && Slots(g) == |PassAll(ps)| + Slots(f) && Fill(g, all) == MeanAll(ps) + Fill(f, args)
    decreases |ps|
  {
    if ps == [] {
      assert SpellAll(ps) + f == f && PassAll(ps) + args == args && MeanAll(ps) + Fill(f, args) == Fill(f, args);
    } else {
      var g, all := SpellAll(ps[1..]) + f, PassAll(ps[1..]) + args;
      PiecesFilled(ps[1..], final, f, args);
      PieceFilled(ps[0], g, all);
      Assoc(Spelling(ps[0]), SpellAll(ps[1..]), f);
      Assoc(Passed(ps[0]), PassAll(ps[1..]), args);
      Assoc(Meaning(ps[0]), MeanAll(ps[1..]), Fill(f, args));
    }
  }

  lemma {:induction false} NoSpaces(ps: seq<Piece>, final: bool)
    requires LegalPieces(ps, final)
    ensures 32 !in SpellAll(ps) && 0 !in SpellAll(ps)
  {
    if ps != [] {
      NoSpaces(ps[1..], final);
    }
  }

  // ----- Words -----

  /** A word and the number of spaces before it. */
  datatype Spaced = Spaced(gap: nat, pieces: seq<Piece>)

  function Spaces(n: nat): (r: bytes)
    ensures |r| == n && forall i :: 0 <= i < n ==> r[i] == 32
  {
    seq(n, _ => 32)
  }

  /** The format of the words, and spaces at its end. */
  function FormatOf(ws: seq<Spaced>, end: nat): bytes {
    if ws == [] then Spaces(end) else Spaces(ws[0].gap) + SpellAll(ws[0].pieces) + FormatOf(ws[1..], end)
  }

  function ArgumentsOf(ws: seq<Spaced>): seq<bytes> {
    if ws == [] then [] else PassAll(ws[0].pieces) + ArgumentsOf(ws[1..])
  }

  /** Words are not empty, and spaces are between them. */
  predicate LegalWords(ws: seq<Spaced>, end: nat) {
    ws != [] ==>
      && SpellAll(ws[0].pieces) != [] && LegalPieces(ws[0].pieces, |ws| == 1 && end == 0)
      && (|ws| > 1 ==> ws[1].gap > 0) && LegalWords(ws[1..], end)
  }

  lemma {:induction false} SpacesSkipped(n: nat, f: bytes, args: seq<bytes>)
    requires Supported(f) && Slots(f) <= |args|
    ensures var g := Spaces(n) + f; Supported(g) && Slots(g) == Slots(f) && FillWords(g, args) == FillWords(f, args)
    decreases n
  {
    var g := Spaces(n) + f;
    if n == 0 {
      assert g == f;
    } else {
      assert g[0] == 32 && g[1..] == Spaces(n - 1) + f;
      SpacesSkipped(n - 1, f, args);
    }
  }

  /** A word that the format ends or a space ends is filled in by itself. */
  lemma WordFilled(ps: seq<Piece>, final: bool, f: bytes, args: seq<bytes>)
    requires LegalPieces(ps, final) && SpellAll(ps) != [] && Supported(f) && Slots(f) <= |args|
    requires (final ==> f == []) && (f == [] || f[0] == 32)
    ensures var g, all := SpellAll(ps) + f, PassAll(ps) + args;
            && Supported(g) && Slots(g) == |PassAll(ps)| + Slots(f)
            && FillWords(g, all) == [MeanAll(ps)] + FillWords(f, args)
  {
    var w, g, mine := SpellAll(ps), SpellAll(ps) + f, PassAll(ps);
    NoSpaces(ps, final);
    IndexOfSkip(w, f, SPACE);
    assert g[..|w|] == w && g[|w|..] == f;
    PiecesFilled(ps, final, f, args);
    PiecesFilled(ps, final, [], []);
    assert w + [] == w && mine + [] == mine && MeanAll(ps) + [] == MeanAll(ps);
    var all := mine + args;
    assert all[..|mine|] == mine && all[|mine|..] == args;
    assert g[0] == w[0];
  }

  function Meanings(ws: seq<Spaced>): (r: seq<bytes>)
    ensures |r| == |ws| && forall i :: 0 <= i < |ws| ==> r[i] == MeanAll(ws[i].pieces)
  {
    seq(|ws|, i requires 0 <= i < |ws| => MeanAll(ws[i].pieces))
  }

  lemma SpacedFilled(w: Spaced, final: bool, f: bytes, args: seq<bytes>)
    requires LegalPieces(w.pieces, final) && SpellAll(w.pieces) != [] && Supported(f) && Slots(f) <= |args|
    requires (final ==> f == []) && (f == [] || f[0] == 32) && 0 !in f
    ensures var g, all := Spaces(w.gap) + SpellAll(w.pieces) + f, PassAll(w.pieces) + args;
            && Supported(g) && Slots(g) == |PassAll(w.pieces)| + Slots(f) && 0 !in g
            && FillWords(g, all) == [MeanAll(w.pieces)] + FillWords(f, args)
  {
    NoSpaces(w.pieces, final);
    WordFilled(w.pieces, final, f, args);
    SpacesSkipped(w.gap, SpellAll(w.pieces) + f, PassAll(w.pieces) + args);
    Assoc(Spaces(w.gap), SpellAll(w.pieces), f);
  }

  /** The words are split at spaces, and each is what its pieces stand for, joined. */
  lemma {:induction false} WordsFilled(ws: seq<Spaced>, end: nat, args: seq<bytes>)
    requires LegalWords(ws, end)
    ensures var f := FormatOf(ws, end); var all := ArgumentsOf(ws) + args;
            && Supported(f) && Slots(f) == |ArgumentsOf(ws)| && FillWords(f, all) == Meanings(ws) && 0 !in f
    decreases |ws|
  {
    if ws == [] {
      SpacesSkipped(end, [], args);
      assert Spaces(end) + [] == Spaces(end) && ArgumentsOf(ws) + args == args;
    } else {
      var w, rest := ws[0], ws[1..];
      WordsFilled(rest, end, args);
      RestStarts(ws, end);
      SpacedFilled(w, |ws| == 1 && end == 0, FormatOf(rest, end), ArgumentsOf(rest) + args);
      Assoc(PassAll(w.pieces), ArgumentsOf(rest), args);
      MeaningsUnfold(ws);
    }
  }

  lemma MeaningsUnfold(ws: seq<Spaced>)
    requires ws != []
    ensures Meanings(ws) == [MeanAll(ws[0].pieces)] + Meanings(ws[1..])
  {
  }

  lemma RestStarts(ws: seq<Spaced>, end: nat)
    requires LegalWords(ws, end) && ws != []
    ensures var f := FormatOf(ws[1..], end); (f == [] || f[0] == 32) && (|ws| == 1 && end == 0 ==> f == [])
  {
  }

  /**
   What redisvFormatCommand() makes of any such format, a C string, and the arguments passed:
   one argument for each word, whatever is interpolated.
   */
  lemma FormatMeans(ws: seq<Spaced>, end: nat, behind: bytes, args: seq<bytes>)
    requires LegalWords(ws, end) && (behind == [] || behind[0] == 0)
    ensures var f, all := CString(FormatOf(ws, end) + behind), ArgumentsOf(ws) + args;
            Supported(f) && Slots(f) <= |all| && FillWords(f, all) == Meanings(ws)
  {
    WordsFilled(ws, end, args);
    CStringIs(FormatOf(ws, end), behind);
  }

  // ----- Commands in bytes -----

  /** The count of the arguments, and for each of them its length and its bytes, as they are sent. */
  lemma CommandBytes(argv: seq<bytes>)
    ensures Encode(argv) == [42] + Numeral(|argv|) + [13, 10] + Bulks(argv)
    ensures if argv == [] then Bulks(argv) == []
            else Bulks(argv) == [36] + Numeral(|argv[0]|) + [13, 10] + argv[0] + [13, 10] + Bulks(argv[1..])
  {
    if argv != [] {
      BulksUnfold(argv);
    }
  }
}
