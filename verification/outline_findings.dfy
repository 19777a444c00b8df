/** Two inputs on which the outline provider as written departs from what
    it evidently intends, each checked against the corrected variant. */
module OutlineFindings {
  import opened Wrappers
  import opened Chars
  import opened Strings
  import opened Positions
  import opened Matching
  import opened Patterns
  import opened Outline

  /** A function declared after a blank line. */
  const BlankLineText := "\nmain() {\n}"

  /** The block-function pattern matches at offset 0: its leading `\s*`
      takes the line break, so the match starts on the blank line. */
  lemma BlankLineMatch(t: string)
    requires t == BlankLineText
    ensures |AllMatches(DeclPattern(Block, false), t, 0)| > 0
    ensures AllMatches(DeclPattern(Block, false), t, 0)[0] == Match(0, 9, 1, ["main", ""])
  {
    BlankLineHead(t);
    assert DeclTail(t, 8, Block) == Some((9, []));
    assert t[1..5] == "main" && t[6..6] == "";
    assert Assemble(t, Head(1, 5, 6, 6, 8), (9, [])) == Capture(9, 1, ["main", ""]);
    assert DeclAt(t, 0, Block, false) == Some(Capture(9, 1, ["main", ""]));
    FirstMatchAtStart(DeclPattern(Block, false), t, 0);
  }

  lemma BlankLineHead(t: string)
    requires t == BlankLineText
    ensures DeclHead(t, 0, false) == Some(Head(1, 5, 6, 6, 8))
  {
    assert SpaceRun(t, 0) == 1;
    assert WordRun(t, 1) == 5;
    assert SpaceRun(t, 5) == 5;
    assert IndexOfChar(t, 6, ')') == 6;
    assert SpaceRun(t, 7) == 8;
    assert HeadAt(t, 1) == Some(Head(1, 5, 6, 6, 8));
  }

  lemma BlankLinePositions(t: string)
    requires t == BlankLineText
    ensures PositionAt(t, 0) == Position(0, 0) && EndOfLine(t, 0) == Position(0, 0)
    ensures PositionAt(t, 1) == Position(1, 0) && EndOfLine(t, 1) == Position(1, 8)
  {
    assert LineStart(t, 0) == 0 && LineEnd(t, 0) == 0;
    assert t[..0] == [];
    assert LineStart(t, 1) == 1;
    assert LineEnd(t, 9) == 9;
    assert LineEnd(t, 5) == 9;
    assert LineEnd(t, 1) == 9;
    assert t[..1] == ['\n'];
  }

  /** For every function declaration whose match starts on an empty line
      (the leading `\s*` took the line break), the symbol as written has a
      selection that ends past the end of its full range, so the host rejects
      it. */
  lemma EmptyLineMatchRejected(text: string, m: Match, shape: Shape)
    requires NamedAt(text, m, Arity(shape))
    requires m.start < |text| && IsLineBreak(text[m.start])
    ensures !Accepted(FunctionSymbol(text, m, shape, AsWritten))
  {
    var sym := FunctionSymbol(text, m, shape, AsWritten);
    assert LineEnd(text, m.start) == m.start;
    assert sym.range.end.line == sym.selectionRange.end.line;
    assert sym.range.end.character < sym.selectionRange.end.character;
  }

  /** As written, the symbol of `main` is one the host rejects. */
  lemma BlankLineRejected(t: string)
    requires t == BlankLineText
    ensures exists d :: d in Symbols(t, AsWritten) && !TreeAccepted(d)
  {
    BlankLineMatch(t);
    var m := AllMatches(DeclPattern(Block, false), t, 0)[0];
    assert NamedAt(t, m, Arity(Block));
    FunctionInSymbols(t, Block, AsWritten, m);
    EmptyLineMatchRejected(t, m, Block);
    var d := DocumentSymbol(FunctionSymbol(t, m, Block, AsWritten), []);
  }

  /** Corrected, a function symbol starts at the beginning of the line
      that holds its name, whatever whitespace the match took before it. */
  lemma CorrectedStartsOnNameLine(text: string, m: Match, shape: Shape)
    requires NamedAt(text, m, Arity(shape))
    ensures FunctionSymbol(text, m, shape, Corrected).range.start == PositionAt(text, LineStart(text, m.nameAt))
    ensures FunctionSymbol(text, m, shape, Corrected).name == FunctionCaption(m, shape, Corrected)
  {
  }

  /** Corrected, `main()` is listed on the line of its name. */
  lemma BlankLineListed(t: string)
    requires t == BlankLineText
    ensures exists d :: d in ProvideDocumentSymbols(t) && d.symbol.name == "main()" && d.symbol.range.start == Position(1, 0)
  {
    BlankLineMatch(t);
    var m := AllMatches(DeclPattern(Block, false), t, 0)[0];
    assert NamedAt(t, m, Arity(Block));
    FunctionInSymbols(t, Block, Corrected, m);
    var d := DocumentSymbol(FunctionSymbol(t, m, Block, Corrected), []);
    CorrectedStartsOnNameLine(t, m, Block);
    MainCaption(m);
    assert d.symbol.name == "main()";
    assert LineStart(t, 1) == 1;
    BlankLinePositions(t);
  }

  lemma MainCaption(m: Match)
    requires m.groups == ["main", ""]
    ensures FunctionCaption(m, Block, AsWritten) == "main()" && FunctionCaption(m, Block, Corrected) == "main()"
  {
  }

  /** As written, a blank line before a function makes the host reject the
      outline as a whole; corrected, `main()` is listed on its own line. */
  lemma BlankLineLosesOutline(t: string)
    requires t == BlankLineText
    ensures ProvideDocumentSymbolsAsWritten(t).Thrown?
    ensures exists d :: d in ProvideDocumentSymbols(t) && d.symbol.name == "main()" && d.symbol.range.start == Position(1, 0)
  {
    BlankLineRejected(t);
    BlankLineListed(t);
  }

  /** A one-line function whose body is a plain expression. */
  const ArrowText := "add(a) => a + 1"

  lemma ArrowHead(t: string)
    requires t == ArrowText
    ensures DeclHead(t, 0, false) == Some(Head(0, 3, 4, 5, 7))
  {
    assert SpaceRun(t, 0) == 0;
    assert WordRun(t, 0) == 3;
    assert SpaceRun(t, 3) == 3;
    assert IndexOfChar(t, 4, ')') == 5;
    assert SpaceRun(t, 6) == 7;
    assert HeadAt(t, 0) == Some(Head(0, 3, 4, 5, 7));
  }

  lemma ArrowTail(t: string)
    requires t == ArrowText
    ensures DeclTail(t, 7, Arrow) == Some((15, ["a + 1"]))
  {
    assert OccursAt(t, "=>", 7);
    assert SpaceRun(t, 9) == 10;
    assert LineEnd(t, 15) == 15;
    assert LineEnd(t, 12) == 15;
    assert LineEnd(t, 10) == 15;
    assert RestOfLine(t, 9) == Some((10, 15));
    assert t[10..15] == "a + 1";
    assert ArrowBody(t, 7) == Some((15, [t[10..15]]));
  }

  lemma ArrowMatch(t: string)
    requires t == ArrowText
    ensures |AllMatches(DeclPattern(Arrow, false), t, 0)| > 0
    ensures AllMatches(DeclPattern(Arrow, false), t, 0)[0] == Match(0, 15, 0, ["add", "a", "a + 1"])
  {
    ArrowHead(t);
    ArrowTail(t);
    assert t[0..3] == "add" && t[4..5] == "a";
    assert Assemble(t, Head(0, 3, 4, 5, 7), (15, ["a + 1"])) == Capture(15, 0, ["add", "a", "a + 1"]);
    assert DeclAt(t, 0, Arrow, false) == Some(Capture(15, 0, ["add", "a", "a + 1"]));
    FirstMatchAtStart(DeclPattern(Arrow, false), t, 0);
  }

  /** For every arrow function whose body is not a lone `{`, the caption as
      written is the corrected caption followed by `: ` and the body text. */
  lemma ArrowBodyAppended(text: string, m: Match)
    requires NamedAt(text, m, 3) && m.groups[2] != "{"
    ensures FunctionCaption(m, Arrow, AsWritten) == FunctionCaption(m, Arrow, Corrected) + ": " + m.groups[2]
  {
  }

  /** As written, the body of `add(a) => a + 1` is shown as its return
      type; corrected, the entry is `add(a)`. */
  lemma ArrowBodyShownAsType(t: string)
    requires t == ArrowText
    ensures exists d :: d in Symbols(t, AsWritten) && d.symbol.name == "add(a): a + 1"
    ensures exists d :: d in ProvideDocumentSymbols(t) && d.symbol.name == "add(a)"
  {
    ArrowMatch(t);
    FirstArrowListed(t, Match(0, 15, 0, ["add", "a", "a + 1"]));
  }

  /** Whatever the text, a first arrow match `add(a) => a + 1` is listed
      under both captions. */
  lemma FirstArrowListed(text: string, m: Match)
    requires |AllMatches(DeclPattern(Arrow, false), text, 0)| > 0
    requires AllMatches(DeclPattern(Arrow, false), text, 0)[0] == m && m.groups == ["add", "a", "a + 1"]
    ensures exists d :: d in Symbols(text, AsWritten) && d.symbol.name == "add(a): a + 1"
    ensures exists d :: d in ProvideDocumentSymbols(text) && d.symbol.name == "add(a)"
  {
    ArrowCaption(m);
    ListedUnderCaption(text, m, Arrow, AsWritten);
    ListedUnderCaption(text, m, Arrow, Corrected);
  }

  /** A listed function appears under its caption. */
  lemma ListedUnderCaption(text: string, m: Match, shape: Shape, v: Variant)
    requires m in AllMatches(DeclPattern(shape, false), text, 0) && |m.groups| >= Arity(shape)
    requires m.groups[0] != "constructor"
    ensures exists d :: d in Symbols(text, v) && d.symbol.name == FunctionCaption(m, shape, v)
  {
    FunctionInSymbols(text, shape, v, m);
    var d := DocumentSymbol(FunctionSymbol(text, m, shape, v), []);
    assert d.symbol.name == FunctionCaption(m, shape, v);
  }

  lemma ArrowCaption(m: Match)
    requires m.groups == ["add", "a", "a + 1"]
    ensures FunctionCaption(m, Arrow, AsWritten) == "add(a): a + 1"
    ensures FunctionCaption(m, Arrow, Corrected) == "add(a)"
  {
  }
}
