/**
 * The content-transforming parts of kathekon/cli.py: the lines `format_quote`
 * builds for the terminal, and `update_readme`, which rewrites the three quote
 * sections of a template file. The file system is reduced to an existence flag
 * and the file's content; the quote is the resolved quote the repository returns.
 */
module Cli {
  import opened Wrappers
  import opened Sections

  // ANSI escape codes for terminal formatting
  const Italic: string := "\U{1B}[3m"
  const Bold: string := "\U{1B}[1m"
  const Reset: string := "\U{1B}[0m"

  // Typographic quotation marks and the em dash before the author
  const OpenQuote: string := "\U{201C}"
  const CloseQuote: string := "\U{201D}"
  const Dash: string := "\U{2014} "

  /** A quote joined with at most one chosen interpretation. */
  datatype ResolvedQuote = ResolvedQuote(text: string, author: string, interpretation: Option<string>)

  /** Python truthiness of an optional string: present and non-empty. */
  predicate Truthy(interpretation: Option<string>) {
    interpretation.Some? && interpretation.value != ""
  }

  /** `format_quote`: the styled quote line, the author line, then the interpretation if truthy. */
  function FormatQuote(text: string, author: string, interpretation: Option<string>): (lines: seq<string>)
    ensures |lines| == if Truthy(interpretation) then 3 else 2
  {
    var quoteLine := Italic + OpenQuote + text + CloseQuote + Reset;
    var authorLine := Bold + Dash + author + Reset;
    if Truthy(interpretation) then [quoteLine, authorLine, interpretation.value]
    else [quoteLine, authorLine]
  }

  /** `s` starts with `prefix` and ends with `suffix`, the two not overlapping. */
  predicate Wraps(s: string, prefix: string, suffix: string) {
    |prefix| + |suffix| <= |s| && s[..|prefix|] == prefix && s[|s| - |suffix|..] == suffix
  }

  function Unwrap(s: string, prefix: string, suffix: string): string
    requires Wraps(s, prefix, suffix)
  {
    s[|prefix|..|s| - |suffix|]
  }

  /** The interpretation as `format_quote` shows it: a falsy one is dropped. */
  function Shown(interpretation: Option<string>): Option<string> {
    if Truthy(interpretation) then interpretation else None
  }

  /** Reads a quote back from display lines, if they have the shape `format_quote` produces. */
  function ParseQuoteLines(lines: seq<string>): Option<ResolvedQuote> {
    if (|lines| == 2 || (|lines| == 3 && lines[2] != ""))
       && Wraps(lines[0], Italic + OpenQuote, CloseQuote + Reset)
       && Wraps(lines[1], Bold + Dash, Reset)
    then
      Some(ResolvedQuote(
        Unwrap(lines[0], Italic + OpenQuote, CloseQuote + Reset),
        Unwrap(lines[1], Bold + Dash, Reset),
        if |lines| == 3 then Some(lines[2]) else None))
    else None
  }

  lemma UnwrapWrapped(prefix: string, x: string, suffix: string)
    ensures Wraps(prefix + x + suffix, prefix, suffix)
    ensures Unwrap(prefix + x + suffix, prefix, suffix) == x
  {
    var s := prefix + x + suffix;
    assert s[..|prefix|] == prefix;
    assert s[|s| - |suffix|..] == suffix;
    assert s[|prefix|..|s| - |suffix|] == x;
  }

  lemma WrapUnwrapped(s: string, prefix: string, suffix: string)
    requires Wraps(s, prefix, suffix)
    ensures prefix + Unwrap(s, prefix, suffix) + suffix == s
  {
    assert s == s[..|prefix|] + s[|prefix|..|s| - |suffix|] + s[|s| - |suffix|..];
  }

  /** The display lines determine the quote: text, author and the shown interpretation come back. */
  lemma FormatQuoteRoundTrip(text: string, author: string, interpretation: Option<string>)
    ensures ParseQuoteLines(FormatQuote(text, author, interpretation))
         == Some(ResolvedQuote(text, author, Shown(interpretation)))
  {
    UnwrapWrapped(Italic + OpenQuote, text, CloseQuote + Reset);
    UnwrapWrapped(Bold + Dash, author, Reset);
    assert Italic + OpenQuote + text + (CloseQuote + Reset) == Italic + OpenQuote + text + CloseQuote + Reset;
  }

  /** Every line block of the `format_quote` shape is the formatting of the quote read from it. */
  lemma ParseQuoteLinesInverse(lines: seq<string>)
    requires ParseQuoteLines(lines).Some?
    ensures var q := ParseQuoteLines(lines).value;
            FormatQuote(q.text, q.author, q.interpretation) == lines
  {
    WrapUnwrapped(lines[0], Italic + OpenQuote, CloseQuote + Reset);
    WrapUnwrapped(lines[1], Bold + Dash, Reset);
    var t := Unwrap(lines[0], Italic + OpenQuote, CloseQuote + Reset);
    assert Italic + OpenQuote + t + (CloseQuote + Reset) == Italic + OpenQuote + t + CloseQuote + Reset;
  }

  /** The sections `update_readme` fills, in the order it fills them. */
  const TextSection: string := "quote-text"
  const AuthorSection: string := "quote-author"
  const InterpretationSection: string := "quote-interpretation"

  /**
   * The value `update_readme` writes into the named section: one of the quote's
   * fields, a missing interpretation written as "".
   */
  function ValueFor(quote: ResolvedQuote, name: string): (v: string)
    ensures v == quote.text || v == quote.author || v == quote.interpretation.GetOr("")
    ensures name == InterpretationSection && quote.interpretation.None? ==> v == ""
    ensures Spliceable(quote) ==> '\\' !in v
  {
    if name == TextSection then quote.text
    else if name == AuthorSection then quote.author
    else quote.interpretation.GetOr("")
  }

  /** The section-to-replacement table of `update_readme`; a missing interpretation is written as "". */
  function Replacements(quote: ResolvedQuote): (r: seq<(string, string)>)
    ensures |r| == 3 && r[0].0 == TextSection && r[1].0 == AuthorSection && r[2].0 == InterpretationSection
    ensures forall k :: 0 <= k < |r| ==> r[k].1 == ValueFor(quote, r[k].0)
  {
    [(TextSection, ValueFor(quote, TextSection)),
     (AuthorSection, ValueFor(quote, AuthorSection)),
     (InterpretationSection, ValueFor(quote, InterpretationSection))]
  }

  /** Every pair names a literal section and carries no backslash for the regular expression's template. */
  predicate Applicable(replacements: seq<(string, string)>) {
    forall k :: 0 <= k < |replacements| ==>
      ValidSectionName(replacements[k].0) && '\\' !in replacements[k].1
  }

  /** The quote fields carry no backslash, so the template splices them in literally. */
  predicate Spliceable(quote: ResolvedQuote) {
    '\\' !in quote.text && '\\' !in quote.author && '\\' !in quote.interpretation.GetOr("")
  }

  /** The replacements applied in table order, each to the output of the previous one. */
  function ApplySections(content: string, replacements: seq<(string, string)>): string
    requires Applicable(replacements)
    decreases |replacements|
  {
    if replacements == [] then content
    else
      var n := |replacements| - 1;
      ReplaceSection(ApplySections(content, replacements[..n]), replacements[n].0, replacements[n].1)
  }

  /** Content holding none of the named sections is left unchanged by every replacement. */
  lemma {:induction false} ApplySectionsUnchanged(content: string, replacements: seq<(string, string)>)
    requires Applicable(replacements)
    requires forall k :: 0 <= k < |replacements| ==>
               !HasSection(content, StartMarker(replacements[k].0), EndMarker(replacements[k].0))
    ensures ApplySections(content, replacements) == content
    decreases |replacements|
  {
    if replacements != [] {
      var n := |replacements| - 1;
      var earlier, name, value := replacements[..n], replacements[n].0, replacements[n].1;
      forall k | 0 <= k < n
        ensures earlier[k] == replacements[k]
      {
      }
      ApplySectionsUnchanged(content, earlier);
      ReplaceUnchanged(content, StartMarker(name), EndMarker(name), value);
      assert ApplySections(content, replacements) == ReplaceSection(ApplySections(content, earlier), name, value);
    }
  }

  /** The three section names hold only characters the regular expression reads literally. */
  lemma QuoteSectionsValid()
    ensures ValidSectionName(TextSection) && ValidSectionName(AuthorSection) && ValidSectionName(InterpretationSection)
  {
    assert ValidSectionName(TextSection);
    assert ValidSectionName(AuthorSection);
    assert ValidSectionName(InterpretationSection);
  }

  lemma ReplacementsApplicable(quote: ResolvedQuote)
    requires Spliceable(quote)
    ensures Applicable(Replacements(quote))
  {
    QuoteSectionsValid();
  }

  datatype FileError = FileNotFound(path: string)

  /**
   * `update_readme`: a missing file is an error and nothing is written;
   * otherwise the three sections are rewritten in turn and the result is the
   * new content of the file.
   */
  method UpdateReadme(path: string, fileExists: bool, content: string, quote: ResolvedQuote)
    returns (written: Result<string, FileError>)
    requires Spliceable(quote)
    ensures !fileExists ==> written == Failure(FileNotFound(path))
    ensures fileExists ==> Applicable(Replacements(quote))
    ensures fileExists ==> written == Success(ApplySections(content, Replacements(quote)))
  {
    if !fileExists {
      return Failure(FileNotFound(path));
    }
    var replacements := Replacements(quote);
    ReplacementsApplicable(quote);
    var updated := content;
    for k := 0 to |replacements|
      invariant updated == ApplySections(content, replacements[..k])
    {
      assert replacements[..k + 1][..k] == replacements[..k];
      updated := ReplaceSection(updated, replacements[k].0, replacements[k].1);
    }
    assert replacements[..|replacements|] == replacements;
    return Success(updated);
  }

  // ---------------------------------------------------------------------------
  // Template documents: text and quote sections in any order and number.

  /** A piece of a template document: plain text, or a section with its current body. */
  datatype Piece = Text(text: string) | Section(name: string, body: string)

  function RenderPiece(p: Piece): string {
    match p
    case Text(t) => t
    case Section(name, body) => StartMarker(name) + body + EndMarker(name)
  }

  function Render(pieces: seq<Piece>): string
    decreases |pieces|
  {
    if pieces == [] then "" else RenderPiece(pieces[0]) + Render(pieces[1..])
  }

  predicate IsQuoteSection(name: string) {
    name == TextSection || name == AuthorSection || name == InterpretationSection
  }

  /** Text and bodies hold no `<`, and every section is one of the three quote sections. */
  predicate PlainPiece(p: Piece) {
    match p
    case Text(t) => '<' !in t
    case Section(name, body) => IsQuoteSection(name) && '<' !in body
  }

  predicate Plain(pieces: seq<Piece>) {
    forall k :: 0 <= k < |pieces| ==> PlainPiece(pieces[k])
  }

  /** Every quote section's body becomes newline, its value, newline; the rest is kept. */
  function FillPiece(p: Piece, quote: ResolvedQuote): Piece {
    match p
    case Text(t) => p
    case Section(name, body) =>
      if IsQuoteSection(name) then Section(name, "\n" + ValueFor(quote, name) + "\n") else p
  }

  function Fill(pieces: seq<Piece>, quote: ResolvedQuote): (filled: seq<Piece>)
    ensures |filled| == |pieces|
  {
    seq(|pieces|, k requires 0 <= k < |pieces| => FillPiece(pieces[k], quote))
  }

  /** One `replace_section` call replaces the body of the named section only. */
  function FillOnePiece(p: Piece, name: string, value: string): Piece {
    if p.Section? && p.name == name then Section(name, "\n" + value + "\n") else p
  }

  function FillOne(pieces: seq<Piece>, name: string, value: string): (filled: seq<Piece>)
    ensures |filled| == |pieces|
  {
    seq(|pieces|, k requires 0 <= k < |pieces| => FillOnePiece(pieces[k], name, value))
  }

  /** The three quote section names are literal names of ten or more characters, told apart by their seventh. */
  lemma QuoteNamesDiffer(name: string, other: string)
    requires IsQuoteSection(name) && IsQuoteSection(other) && name != other
    ensures ValidSectionName(name) && ValidSectionName(other)
    ensures 6 < |name| && 6 < |other| && name[6] != other[6]
  {
    QuoteSectionsValid();
  }

  /** The name sits at index 18 of its start marker. */
  lemma StartMarkerAt(name: string, k: nat)
    requires ValidSectionName(name) && k < |name|
    ensures 18 + k < |StartMarker(name)| && StartMarker(name)[18 + k] == name[k]
  {
    MarkerShape(name);
    assert StartMarker(name)[18 + k] == StartMarker(name)[18..18 + |name|][k];
  }

  /** Plain text is copied unchanged by the scanner for `name`. */
  lemma ReplaceText(t: string, rest: string, name: string, value: string)
    requires ValidSectionName(name) && '\\' !in value && '<' !in t
    ensures ReplaceSection(t + rest, name, value) == t + ReplaceSection(rest, name, value)
  {
    MarkerShape(name);
    ReplacePlain(t, rest, StartMarker(name), EndMarker(name), value);
  }

  /** A section of `name` itself gets newline, value, newline as its new body. */
  lemma ReplaceOwnSection(body: string, rest: string, name: string, value: string)
    requires ValidSectionName(name) && '\\' !in value && '<' !in body
    ensures ReplaceSection(StartMarker(name) + body + EndMarker(name) + rest, name, value)
         == StartMarker(name) + ("\n" + value + "\n") + EndMarker(name) + ReplaceSection(rest, name, value)
  {
    var open, close := StartMarker(name), EndMarker(name);
    MarkerShape(name);
    ReplaceOwnBlock(body, rest, open, close, value);
    AppendAssoc(open, "\n", value);
    AppendAssoc(open, "\n" + value, "\n");
  }

  /** A section of another name whose seventh character differs is copied unchanged by the scanner for `name`. */
  lemma ReplaceOtherSection(name: string, other: string, body: string, rest: string, value: string)
    requires ValidSectionName(name) && ValidSectionName(other)
    requires 6 < |name| && 6 < |other| && name[6] != other[6]
    requires '<' !in body && '\\' !in value
    ensures ReplaceSection(StartMarker(other) + body + EndMarker(other) + rest, name, value)
         == StartMarker(other) + body + EndMarker(other) + ReplaceSection(rest, name, value)
  {
    MarkerShape(name);
    MarkerShape(other);
    StartMarkerAt(name, 6);
    StartMarkerAt(other, 6);
    ReplaceForeignBlock(StartMarker(other), body, EndMarker(other), rest,
                        StartMarker(name), EndMarker(name), value, 24);
  }

  /** The scanner for `name` rewrites one leading piece as `FillOnePiece` says and goes on after it. */
  lemma ReplacePiece(p: Piece, rest: string, name: string, value: string)
    requires PlainPiece(p) && ValidSectionName(name) && IsQuoteSection(name)
    requires '\\' !in value
    ensures ReplaceSection(RenderPiece(p) + rest, name, value)
         == RenderPiece(FillOnePiece(p, name, value)) + ReplaceSection(rest, name, value)
  {
    match p
    case Text(t) =>
      ReplaceText(t, rest, name, value);
    case Section(n, body) =>
      if n == name {
        ReplaceOwnSection(body, rest, name, value);
      } else {
        QuoteNamesDiffer(name, n);
        ReplaceOtherSection(name, n, body, rest, value);
      }
  }

  /** Filling the sections of one name keeps a template document plain. */
  lemma FillOnePlain(pieces: seq<Piece>, name: string, value: string)
    requires Plain(pieces) && IsQuoteSection(name) && '<' !in value
    ensures Plain(FillOne(pieces, name, value))
  {
    var filled := FillOne(pieces, name, value);
    forall k | 0 <= k < |filled|
      ensures PlainPiece(filled[k])
    {
      assert filled[k] == FillOnePiece(pieces[k], name, value);
      assert PlainPiece(pieces[k]);
    }
  }

  /** One `replace_section` call on a template document fills exactly the sections of its name. */
  lemma {:induction false} ReplaceRendered(pieces: seq<Piece>, name: string, value: string)
    requires Plain(pieces) && ValidSectionName(name) && IsQuoteSection(name)
    requires '\\' !in value
    ensures ReplaceSection(Render(pieces), name, value) == Render(FillOne(pieces, name, value))
    decreases |pieces|
  {
    var filled := FillOne(pieces, name, value);
    if pieces == [] {
      assert ReplaceDelimited("", StartMarker(name), EndMarker(name), value) == "";
    } else {
      assert PlainPiece(pieces[0]);
      assert Plain(pieces[1..]) by {
        forall k | 0 <= k < |pieces| - 1
          ensures PlainPiece(pieces[1..][k])
        {
          assert pieces[1..][k] == pieces[k + 1];
        }
      }
      ReplaceRendered(pieces[1..], name, value);
      ReplacePiece(pieces[0], Render(pieces[1..]), name, value);
      assert filled[1..] == FillOne(pieces[1..], name, value);
      assert filled[0] == FillOnePiece(pieces[0], name, value);
    }
  }

  /** The three replacements are applied in the order text, author, interpretation. */
  lemma ApplyReplacementsInOrder(content: string, quote: ResolvedQuote)
    requires Spliceable(quote)
    ensures Applicable(Replacements(quote))
    ensures ApplySections(content, Replacements(quote))
         == ReplaceSection(
              ReplaceSection(
                ReplaceSection(content, TextSection, quote.text),
                AuthorSection, quote.author),
              InterpretationSection, quote.interpretation.GetOr(""))
  {
    var reps := Replacements(quote);
    ReplacementsApplicable(quote);
    var r1 := ReplaceSection(content, TextSection, quote.text);
    var r2 := ReplaceSection(r1, AuthorSection, quote.author);
    assert reps[..1][..0] == [];
    assert ApplySections(content, reps[..1]) == r1;
    assert reps[..2][..1] == reps[..1];
    assert ApplySections(content, reps[..2]) == r2;
    assert reps[..3] == reps;
  }

  /** Filling the three sections one after the other fills every quote section. */
  lemma FillOneByOne(pieces: seq<Piece>, quote: ResolvedQuote)
    ensures FillOne(FillOne(FillOne(pieces, TextSection, quote.text), AuthorSection, quote.author),
                    InterpretationSection, quote.interpretation.GetOr(""))
         == Fill(pieces, quote)
  {
  }

  /**
   * On a template document, `update_readme` replaces the body of every quote
   * section by newline, value, newline, whatever the old body was, and leaves
   * all text outside the sections as it was.
   */
  lemma UpdateRendered(pieces: seq<Piece>, quote: ResolvedQuote)
    requires Plain(pieces) && Spliceable(quote)
    requires '<' !in quote.text && '<' !in quote.author && '<' !in quote.interpretation.GetOr("")
    ensures Applicable(Replacements(quote))
    ensures ApplySections(Render(pieces), Replacements(quote)) == Render(Fill(pieces, quote))
  {
    ApplyReplacementsInOrder(Render(pieces), quote);
    QuoteSectionsValid();
    var p1 := FillOne(pieces, TextSection, quote.text);
    var p2 := FillOne(p1, AuthorSection, quote.author);
    ReplaceRendered(pieces, TextSection, quote.text);
    FillOnePlain(pieces, TextSection, quote.text);
    ReplaceRendered(p1, AuthorSection, quote.author);
    FillOnePlain(p1, AuthorSection, quote.author);
    ReplaceRendered(p2, InterpretationSection, quote.interpretation.GetOr(""));
    FillOneByOne(pieces, quote);
  }

  /** Updating a template document twice with the same quote gives the result of updating once. */
  lemma UpdateRenderedIdempotent(pieces: seq<Piece>, quote: ResolvedQuote)
    requires Plain(pieces) && Spliceable(quote)
    requires '<' !in quote.text && '<' !in quote.author && '<' !in quote.interpretation.GetOr("")
    ensures Applicable(Replacements(quote))
    ensures var once := ApplySections(Render(pieces), Replacements(quote));
            ApplySections(once, Replacements(quote)) == once
  {
    UpdateRendered(pieces, quote);
    FillPlain(pieces, quote);
    UpdateRendered(Fill(pieces, quote), quote);
    FillFilled(pieces, quote);
  }

  /** A filled template document is still plain when the quote fields hold no `<`. */
  lemma FillPlain(pieces: seq<Piece>, quote: ResolvedQuote)
    requires Plain(pieces)
    requires '<' !in quote.text && '<' !in quote.author && '<' !in quote.interpretation.GetOr("")
    ensures Plain(Fill(pieces, quote))
  {
    var filled := Fill(pieces, quote);
    forall k | 0 <= k < |filled|
      ensures PlainPiece(filled[k])
    {
      assert PlainPiece(pieces[k]);
    }
  }

  /** Filling an already filled document changes nothing. */
  lemma FillFilled(pieces: seq<Piece>, quote: ResolvedQuote)
    ensures Fill(Fill(pieces, quote), quote) == Fill(pieces, quote)
  {
  }
}
