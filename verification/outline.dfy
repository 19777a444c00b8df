/** The outline provider (`LivaDocumentSymbolProvider`): functions, classes
    with their members, and constants, recovered from the document text by
    line-anchored patterns and the brace matcher.

    Symbols are built in two variants. `AsWritten` places each symbol where
    the source does: at the start of the regular expression match. Because a
    leading `\s*` or `\s+` also consumes line breaks, that start may lie on a
    blank line above the declaration, and the host then rejects the symbol
    (see `Findings`). `Corrected` places it at the start of the line that
    holds the declared name, and also names one-line functions without their
    body; it is the variant the properties below are stated for. */
module Outline {
  import opened Wrappers
  import opened Chars
  import opened Strings
  import opened Positions
  import opened Matching
  import opened Braces
  import opened Patterns

  datatype SymbolKind = Function | Class | Constructor | Field | Method | Constant

  /** One entry of the outline: what `new DocumentSymbol(...)` is given. */
  datatype Symbol = Symbol(
    name: string,
    detail: string,
    kind: SymbolKind,
    range: Range,
    selectionRange: Range)

  /** A top-level entry with its children. The provider nests at most one
      level: classes hold their members, and members hold nothing. */
  datatype DocumentSymbol = DocumentSymbol(symbol: Symbol, children: seq<Symbol>)

  datatype Variant = AsWritten | Corrected

  /** The four function shapes: `name(params) => expr`, `name(params) {`,
      `name(params): Type {` and `name(params): Type => expr`. */
  datatype Shape = Arrow | Block | TypedBlock | TypedArrow

  predicate HasReturnType(shape: Shape) {
    shape == TypedBlock || shape == TypedArrow
  }

  // ---------------------------------------------------------------------------
  // Patterns

  /** The part shared by the function and method patterns:
      `^(\s*)(\w+)\s*\(([^)]*)\)\s*`, or `^\s+…` when `indented`. */
  function DeclHead(text: string, p: nat, indented: bool): (r: Option<Head>)
    ensures r.Some? ==> AtLineStart(text, p) && p <= r.value.nameStart
    ensures r.Some? ==> r.value.nameStart < r.value.nameEnd < r.value.paramsStart
                        <= r.value.paramsEnd < r.value.after <= |text|
    ensures r.Some? ==> IsWord(text[r.value.nameStart..r.value.nameEnd])
    ensures r.Some? && indented ==> p < r.value.nameStart
  {
    if p > |text| || !AtLineStart(text, p) then None
    else
      var a := SpaceRun(text, p);
      if indented && a == p then None else HeadAt(text, a)
  }

  /** What follows the parameters in each shape, from `k`: the end of the
      match and the groups after the name and the parameters. */
  function DeclTail(text: string, k: nat, shape: Shape): (r: Option<(nat, seq<string>)>)
    requires k <= |text|
    ensures r.Some? ==> k < r.value.0 <= |text|
    ensures r.Some? ==> (|r.value.1| >= 1 <==> shape != Block)
    ensures r.Some? && HasReturnType(shape) ==> IsWord(r.value.1[0])
  {
    match shape
    case Block =>
      if k < |text| && text[k] == '{' then Some((k + 1, [])) else None
    case Arrow =>
      ArrowBody(text, k)
    case TypedBlock =>
      (match AnnotationAt(text, k)
       case None => None
       case Some(t) =>
         if t.after < |text| && text[t.after] == '{' then Some((t.after + 1, [text[t.typeStart..t.typeEnd]]))
         else None)
    case TypedArrow =>
      (match AnnotationAt(text, k)
       case None => None
       case Some(t) =>
         (match ArrowBody(text, t.after)
          case None => None
          case Some(body) => Some((body.0, [text[t.typeStart..t.typeEnd]] + body.1))))
  }

  /** `=>\s*(.+)$` from `k`: the end of the match and the expression. */
  function ArrowBody(text: string, k: nat): (r: Option<(nat, seq<string>)>)
    requires k <= |text|
    ensures r.Some? ==> k < r.value.0 <= |text| && |r.value.1| == 1
  {
    if !OccursAt(text, "=>", k) then None
    else match RestOfLine(text, k + 2)
      case None => None
      case Some(body) => Some((body.1, [text[body.0..body.1]]))
  }

  /** The function and method patterns. With `indented` false this is
      `^(\s*)(\w+)\s*\(([^)]*)\)` followed by the shape's tail; with
      `indented` true the leading `\s*` becomes `\s+` (the method patterns,
      which have no `TypedArrow` form). Groups: the name, the parameters,
      then the expression or the type, then the expression. */
  function DeclAt(text: string, p: nat, shape: Shape, indented: bool): (r: Option<Capture>)
    ensures r.Some? ==> AtLineStart(text, p) && p <= r.value.nameAt < r.value.end <= |text|
    ensures r.Some? ==> |r.value.groups| >= 2 && IsWord(r.value.groups[0])
    ensures r.Some? ==> OccursAt(text, r.value.groups[0], r.value.nameAt)
    ensures r.Some? && indented ==> p < r.value.nameAt
    ensures r.Some? ==> (|r.value.groups| >= 3 <==> shape != Block)
    ensures r.Some? && HasReturnType(shape) ==> IsWord(r.value.groups[2])
  {
    match DeclHead(text, p, indented)
    case None => None
    case Some(h) =>
      match DeclTail(text, h.after, shape)
      case None => None
      case Some(tail) => Some(Assemble(text, h, tail))
  }

  /** The capture of a declaration: the name and the parameters from the
      head, then the groups of the tail. */
  function Assemble(text: string, h: Head, tail: (nat, seq<string>)): (r: Capture)
    requires h.nameStart < h.nameEnd < h.paramsStart <= h.paramsEnd <= |text|
    requires IsWord(text[h.nameStart..h.nameEnd])
    ensures r.nameAt == h.nameStart && r.end == tail.0
    ensures |r.groups| == 2 + |tail.1| && IsWord(r.groups[0]) && OccursAt(text, r.groups[0], r.nameAt)
    ensures |tail.1| >= 1 ==> r.groups[2] == tail.1[0]
  {
    var name := text[h.nameStart..h.nameEnd];
    var groups := [name, text[h.paramsStart..h.paramsEnd]] + tail.1;
    SliceOccursAt(text, h.nameStart, h.nameEnd);
    assert groups[0] == name;
    Capture(tail.0, h.nameStart, groups)
  }

  /** The function patterns (`indented` false) and the method patterns
      (`indented` true) as matchers. */
  function DeclPattern(shape: Shape, indented: bool): Matcher {
    (t: string, p: nat) => DeclAt(t, p, shape, indented)
  }

  /** `^(\s*)([A-Z]\w*)\s*\{`. Group: the class name. */
  function ClassAt(text: string, p: nat): (r: Option<Capture>)
    ensures r.Some? ==> AtLineStart(text, p) && p <= r.value.nameAt < r.value.end <= |text|
    ensures r.Some? ==> |r.value.groups| == 1 && IsWord(r.value.groups[0]) && IsUpper(r.value.groups[0][0])
    ensures r.Some? ==> OccursAt(text, r.value.groups[0], r.value.nameAt)
    ensures r.Some? ==> r.value.nameAt + |r.value.groups[0]| < r.value.end
  {
    if p > |text| || !AtLineStart(text, p) then None
    else
      var a := SpaceRun(text, p);
      if a == |text| || !IsUpper(text[a]) then None
      else
        var b := WordRun(text, a);
        var c := SpaceRun(text, b);
        if c < |text| && text[c] == '{' then Some(Capture(c + 1, a, [text[a..b]])) else None
  }

  /** `constructor\s*\(([^)]*)\)\s*\{`, unanchored. Group: the parameters. */
  function ConstructorAt(text: string, p: nat): (r: Option<Capture>)
    ensures r.Some? ==> r.value.nameAt == p && OccursAt(text, "constructor", p) && p < r.value.end <= |text|
    ensures r.Some? ==> |r.value.groups| == 1
  {
    if !OccursAt(text, "constructor", p) then None
    else
      var c := SpaceRun(text, p + 11);
      if c == |text| || text[c] != '(' then None
      else
        var d := IndexOfChar(text, c + 1, ')');
        if d == |text| then None
        else
          var e := SpaceRun(text, d + 1);
          if e < |text| && text[e] == '{' then Some(Capture(e + 1, p, [text[c + 1..d]])) else None
  }

  /** `^\s+(\w+)\s*:\s*(\w+)`. Groups: the field name and its type. */
  function FieldAt(text: string, p: nat): (r: Option<Capture>)
    ensures r.Some? ==> AtLineStart(text, p) && p < r.value.nameAt < r.value.end <= |text|
    ensures r.Some? ==> |r.value.groups| == 2 && IsWord(r.value.groups[0]) && IsWord(r.value.groups[1])
    ensures r.Some? ==> OccursAt(text, r.value.groups[0], r.value.nameAt)
    ensures r.Some? ==> forall k :: p <= k < r.value.nameAt ==> IsSpace(text[k])
  {
    if p > |text| || !AtLineStart(text, p) then None
    else
      var a := SpaceRun(text, p);
      var b := WordRun(text, a);
      if a == p || b == a then None
      else match AnnotationAt(text, SpaceRun(text, b))
        case None => None
        case Some(t) =>
          WordRunIsWord(text, a);
          SliceOccursAt(text, a, b);
          Some(Capture(t.typeEnd, a, [text[a..b], text[t.typeStart..t.typeEnd]]))
  }

  /** `[A-Z_]` and `[A-Z0-9_]`: the characters of a constant's name. */
  predicate IsConstantStart(c: char) {
    IsUpper(c) || c == '_'
  }

  predicate IsConstantChar(c: char) {
    IsUpper(c) || ('0' <= c <= '9') || c == '_'
  }

  /** A name `[A-Z_][A-Z0-9_]*` matches. */
  predicate IsConstantName(s: string) {
    |s| > 0 && IsConstantStart(s[0]) && forall k :: 1 <= k < |s| ==> IsConstantChar(s[k])
  }

  /** `^(\s*)const\s+([A-Z_][A-Z0-9_]*)\s*=`: where the name starts and
      ends, and where the `=` stands. */
  function ConstantHead(text: string, p: nat): (r: Option<(nat, nat, nat)>)
    ensures r.Some? ==> AtLineStart(text, p) && p <= r.value.0 < r.value.1 <= r.value.2 < |text|
    ensures r.Some? ==> IsConstantName(text[r.value.0..r.value.1]) && text[r.value.2] == '='
  {
    if p > |text| || !AtLineStart(text, p) then None
    else
      var a := SpaceRun(text, p);
      if !OccursAt(text, "const", a) then None
      else
        var b := SpaceRun(text, a + 5);
        if b == a + 5 || b == |text| || !IsConstantStart(text[b]) then None
        else
          var c := Run(text, b + 1, IsConstantChar);
          var d := SpaceRun(text, c);
          if d == |text| || text[d] != '=' then None else Some((b, c, d))
  }

  /** `^(\s*)const\s+([A-Z_][A-Z0-9_]*)\s*=\s*(.+)$`. Groups: the name and
      the value. */
  function ConstantAt(text: string, p: nat): (r: Option<Capture>)
    ensures r.Some? ==> AtLineStart(text, p) && p <= r.value.nameAt < r.value.end <= |text|
    ensures r.Some? ==> |r.value.groups| == 2 && IsConstantName(r.value.groups[0])
    ensures r.Some? ==> OccursAt(text, r.value.groups[0], r.value.nameAt)
    ensures r.Some? ==> |r.value.groups[1]| > 0
  {
    match ConstantHead(text, p)
    case None => None
    case Some(h) =>
      match RestOfLine(text, h.2 + 1)
      case None => None
      case Some(value) =>
        SliceOccursAt(text, h.0, h.1);
        Some(Capture(value.1, h.0, [text[h.0..h.1], text[value.0..value.1]]))
  }

  // ---------------------------------------------------------------------------
  // Completeness of the patterns: a line of the declared shape is matched,
  // with exactly the groups the regular expression captures.

  /** A line holding, after its indentation, `name(params)` and then the
      tail of `shape` is a declaration: the name in `[a, b)`, the
      parameters between `open` and the first `)` after it, and the tail's
      groups are captured. Methods need some indentation. */
  lemma {:induction false} DeclAtComplete(text: string, p: nat, shape: Shape, indented: bool, a: nat, b: nat,
                                          open: nat, close: nat, tail: (nat, seq<string>))
    requires p <= a < b <= open < close < |text| && AtLineStart(text, p)
    requires AllSpaces(text, p, a) && (indented ==> p < a)
    requires IsWord(text[a..b]) && AllSpaces(text, b, open) && text[open] == '('
    requires forall k :: open < k < close ==> text[k] != ')'
    requires text[close] == ')'
    requires DeclTail(text, SpaceRun(text, close + 1), shape) == Some(tail)
    ensures DeclAt(text, p, shape, indented) == Some(Capture(tail.0, a, [text[a..b], text[open + 1..close]] + tail.1))
  {
    DeclHeadComplete(text, p, indented, a, b, open, close);
    DeclAtSteps(text, p, shape, indented, a, b, open, close, SpaceRun(text, close + 1), tail);
  }

  /** `DeclAt` once its head and its tail are known. */
  lemma {:induction false} DeclAtSteps(text: string, p: nat, shape: Shape, indented: bool, a: nat, b: nat,
                                       open: nat, close: nat, e: nat, tail: (nat, seq<string>))
    requires DeclHead(text, p, indented) == Some(Head(a, b, open + 1, close, e)) && DeclTail(text, e, shape) == Some(tail)
    ensures DeclAt(text, p, shape, indented) == Some(Capture(tail.0, a, [text[a..b], text[open + 1..close]] + tail.1))
  {
  }

  /** The head part of `DeclAtComplete`. */
  lemma {:induction false} DeclHeadComplete(text: string, p: nat, indented: bool, a: nat, b: nat, open: nat, close: nat)
    requires p <= a < b <= open < close < |text| && AtLineStart(text, p)
    requires AllSpaces(text, p, a) && (indented ==> p < a)
    requires IsWord(text[a..b]) && AllSpaces(text, b, open) && text[open] == '('
    requires forall k :: open < k < close ==> text[k] != ')'
    requires text[close] == ')'
    ensures DeclHead(text, p, indented) == Some(Head(a, b, open + 1, close, SpaceRun(text, close + 1)))
  {
    assert text[a] == text[a..b][0];
    WordCharsAreNotSpaces(text[a]);
    SpaceRunReaches(text, p, a);
    HeadAtComplete(text, a, b, open, close);
  }

  /** A line holding, after its indentation, a capitalised word in `[a, b)`
      and then `{` (spaces between allowed) is a class header naming that
      word. */
  lemma {:induction false} ClassAtComplete(text: string, p: nat, a: nat, b: nat, brace: nat)
    requires p <= a < b <= brace < |text| && AtLineStart(text, p)
    requires AllSpaces(text, p, a) && IsWord(text[a..b]) && IsUpper(text[a])
    requires AllSpaces(text, b, brace) && text[brace] == '{'
    ensures ClassAt(text, p) == Some(Capture(brace + 1, a, [text[a..b]]))
  {
    NameScans(text, p, a, b, brace);
  }

  /** `constructor`, then `(params)` and `{` (spaces between allowed) is a
      constructor, wherever it stands; the parameters run to the first `)`. */
  lemma {:induction false} ConstructorAtComplete(text: string, p: nat, open: nat, close: nat, brace: nat)
    requires OccursAt(text, "constructor", p)
    requires p + 11 <= open < close < brace < |text| && AllSpaces(text, p + 11, open) && text[open] == '('
    requires forall k :: open < k < close ==> text[k] != ')'
    requires text[close] == ')' && AllSpaces(text, close + 1, brace) && text[brace] == '{'
    ensures ConstructorAt(text, p) == Some(Capture(brace + 1, p, [text[open + 1..close]]))
  {
    SpaceRunReaches(text, p + 11, open);
    IndexOfCharReaches(text, open + 1, ')', close);
    SpaceRunReaches(text, close + 1, brace);
  }

  /** An indented line holding `name: Type` (spaces around the colon
      allowed), the name in `[a, b)` and the type in `[t, e)`, is a field;
      the type is the whole word after the colon. */
  lemma {:induction false} FieldAtComplete(text: string, p: nat, a: nat, b: nat, colon: nat, t: nat, e: nat)
    requires p < a < b <= colon < t < e <= |text| && AtLineStart(text, p)
    requires AllSpaces(text, p, a) && IsWord(text[a..b]) && AllSpaces(text, b, colon) && text[colon] == ':'
    requires AllSpaces(text, colon + 1, t) && IsWord(text[t..e]) && (e == |text| || !IsWordChar(text[e]))
    ensures FieldAt(text, p) == Some(Capture(e, a, [text[a..b], text[t..e]]))
  {
    NameScans(text, p, a, b, colon);
    AnnotationAtComplete(text, colon, t, e);
    FieldAtSteps(text, p, a, b, colon, Annotation(t, e, SpaceRun(text, e)), text[a..b], text[t..e]);
  }

  /** Indentation, a word in `[a, b)` and spaces up to `stop` are what the
      scans from the line start take. */
  lemma {:induction false} NameScans(text: string, p: nat, a: nat, b: nat, stop: nat)
    requires p <= a < b <= stop < |text| && AllSpaces(text, p, a) && IsWord(text[a..b])
    requires AllSpaces(text, b, stop) && !IsSpace(text[stop]) && (b == stop ==> !IsWordChar(text[stop]))
    ensures SpaceRun(text, p) == a && WordRun(text, a) == b && SpaceRun(text, b) == stop
  {
    assert text[a] == text[a..b][0];
    WordCharsAreNotSpaces(text[a]);
    SpaceRunReaches(text, p, a);
    if b < stop {
      WordCharsAreNotSpaces(text[b]);
    }
    SliceOccursAt(text, a, b);
    WordRunReaches(text, a, text[a..b]);
    SpaceRunReaches(text, b, stop);
  }

  /** `FieldAt` once its scans are known. */
  lemma {:induction false} FieldAtSteps(text: string, p: nat, a: nat, b: nat, c: nat, t: Annotation, name: string, ty: string)
    requires p <= |text| && AtLineStart(text, p)
    requires SpaceRun(text, p) == a && WordRun(text, a) == b && SpaceRun(text, b) == c
    requires p < a < b && AnnotationAt(text, c) == Some(t)
    requires name == text[a..b] && ty == text[t.typeStart..t.typeEnd]
    ensures FieldAt(text, p) == Some(Capture(t.typeEnd, a, [name, ty]))
  {
  }

  /** A line holding, after its indentation, `const`, at least one space, a
      constant name in `[b, c)`, `=` and a value is a constant declaration;
      the value runs from its first character `v` that is not a space to
      the end of the line. */
  lemma {:induction false} ConstantAtComplete(text: string, p: nat, a: nat, b: nat, c: nat, eq: nat, v: nat)
    requires p <= a && a + 5 < b < c <= eq < v < |text| && AtLineStart(text, p)
    requires AllSpaces(text, p, a) && OccursAt(text, "const", a) && AllSpaces(text, a + 5, b)
    requires IsConstantName(text[b..c]) && AllSpaces(text, c, eq) && text[eq] == '='
    requires AllSpaces(text, eq + 1, v) && !IsSpace(text[v])
    ensures ConstantAt(text, p) == Some(Capture(LineEnd(text, v), b, [text[b..c], text[v..LineEnd(text, v)]]))
  {
    ConstantHeadComplete(text, p, a, b, c, eq);
    ConstantValue(text, p, b, c, eq, v);
  }

  /** The part of `ConstantAtComplete` up to the `=`. */
  lemma {:induction false} ConstantHeadComplete(text: string, p: nat, a: nat, b: nat, c: nat, eq: nat)
    requires p <= a && a + 5 < b < c <= eq < |text| && AtLineStart(text, p)
    requires AllSpaces(text, p, a) && OccursAt(text, "const", a) && AllSpaces(text, a + 5, b)
    requires IsConstantName(text[b..c]) && AllSpaces(text, c, eq) && text[eq] == '='
    ensures ConstantHead(text, p) == Some((b, c, eq))
  {
    ConstantScans(text, p, a, b, c, eq);
    ConstantHeadSteps(text, p, a, b, c, eq);
  }

  /** After the `=`, the value runs from its first character that is not a
      space to the end of the line. */
  lemma {:induction false} ConstantValue(text: string, p: nat, b: nat, c: nat, eq: nat, v: nat)
    requires ConstantHead(text, p) == Some((b, c, eq))
    requires eq < v < |text| && AllSpaces(text, eq + 1, v) && !IsSpace(text[v])
    ensures ConstantAt(text, p) == Some(Capture(LineEnd(text, v), b, [text[b..c], text[v..LineEnd(text, v)]]))
  {
    RestOfLineComplete(text, eq + 1, v);
    ConstantAtSteps(text, p, (b, c, eq), (v, LineEnd(text, v)));
  }

  /** `ConstantAt` once its head and its value are known. */
  lemma {:induction false} ConstantAtSteps(text: string, p: nat, h: (nat, nat, nat), value: (nat, nat))
    requires ConstantHead(text, p) == Some(h) && RestOfLine(text, h.2 + 1) == Some(value)
    ensures ConstantAt(text, p) == Some(Capture(value.1, h.0, [text[h.0..h.1], text[value.0..value.1]]))
  {
  }

  /** The scans of `ConstantHead` over a constant declaration stop at its
      pieces. */
  lemma {:induction false} ConstantScans(text: string, p: nat, a: nat, b: nat, c: nat, eq: nat)
    requires p <= a && a + 5 < b < c <= eq < |text|
    requires AllSpaces(text, p, a) && OccursAt(text, "const", a) && AllSpaces(text, a + 5, b)
    requires IsConstantName(text[b..c]) && AllSpaces(text, c, eq) && text[eq] == '='
    ensures SpaceRun(text, p) == a && SpaceRun(text, a + 5) == b && IsConstantStart(text[b])
    ensures Run(text, b + 1, IsConstantChar) == c && SpaceRun(text, c) == eq
  {
    assert text[a] == "const"[0];
    SpaceRunReaches(text, p, a);
    assert text[b] == text[b..c][0];
    SpaceRunReaches(text, a + 5, b);
    forall k | b + 1 <= k < c
      ensures IsConstantChar(text[k])
    {
      assert text[k] == text[b..c][k - b];
    }
    RunFrom(text, b + 1, c, IsConstantChar);
    SpaceRunReaches(text, c, eq);
  }

  /** `ConstantHead` once its scans are known. */
  lemma {:induction false} ConstantHeadSteps(text: string, p: nat, a: nat, b: nat, c: nat, d: nat)
    requires p <= |text| && AtLineStart(text, p)
    requires SpaceRun(text, p) == a && OccursAt(text, "const", a)
    requires SpaceRun(text, a + 5) == b && a + 5 < b < |text| && IsConstantStart(text[b])
    requires Run(text, b + 1, IsConstantChar) == c && SpaceRun(text, c) == d && d < |text| && text[d] == '='
    ensures ConstantHead(text, p) == Some((b, c, d))
  {
  }

  // ---------------------------------------------------------------------------
  // Symbols

  /** The bare name a symbol's selection spans: its name up to the first
      parenthesis. */
  function BareName(name: string): string {
    name[..IndexOfChar(name, 0, '(')]
  }

  lemma BareNameOfCall(bare: string, rest: string)
    requires forall k :: 0 <= k < |bare| ==> bare[k] != '('
    ensures BareName(bare + "(" + rest) == bare
  {
    var s := bare + "(" + rest;
    assert s[|bare|] == '(';
    assert forall k :: 0 <= k < |bare| ==> s[k] == bare[k];
    assert s[..|bare|] == bare;
  }

  lemma BareNameOfPlain(name: string)
    requires forall k :: 0 <= k < |name| ==> name[k] != '('
    ensures BareName(name) == name
  {
  }

  /** Where a symbol starts: the match start as written, or the start of the
      line holding the name once corrected. */
  function Anchor(text: string, start: nat, nameAt: nat, v: Variant): (s: nat)
    requires start <= nameAt <= |text|
    ensures s <= nameAt
    ensures v == AsWritten ==> s == start
    ensures v == Corrected ==> forall k :: s <= k < nameAt ==> !IsLineBreak(text[k])
    ensures v == Corrected ==> AtLineStart(text, s)
  {
    if v == AsWritten then start else LineStart(text, nameAt)
  }

  /** A symbol whose full range runs from offset `s` to the end of its line
      and whose selection covers `len` characters from `s`. */
  function LineSymbol(text: string, s: nat, name: string, detail: string, kind: SymbolKind, len: nat): Symbol
    requires s <= |text|
  {
    Symbol(name, detail, kind,
           Range(PositionAt(text, s), EndOfLine(text, s)),
           Range(PositionAt(text, s), Translate(PositionAt(text, s), len)))
  }

  /** The host accepts the symbol: the constructor of `DocumentSymbol`
      rejects an empty name and a selection range outside the full range. */
  predicate Accepted(sym: Symbol) {
    |sym.name| > 0 && RangeContains(sym.range, sym.selectionRange)
  }

  /** The selection starts where the symbol starts and spans its bare name,
      and the full range does not run backwards. */
  predicate SelectsName(sym: Symbol) {
    && sym.selectionRange.start == sym.range.start
    && sym.selectionRange.end == Translate(sym.range.start, |BareName(sym.name)|)
    && NotAfter(sym.range.start, sym.range.end)
  }

  /** The symbol selects its name, and once corrected the host accepts it. */
  predicate Placed(sym: Symbol, v: Variant) {
    SelectsName(sym) && (v == Corrected ==> Accepted(sym))
  }

  /** A symbol and each of its children are placed. */
  predicate TreePlaced(d: DocumentSymbol, v: Variant) {
    Placed(d.symbol, v) && forall c :: c in d.children ==> Placed(c, v)
  }

  /** The host accepts a symbol and each of its children. */
  predicate TreeAccepted(d: DocumentSymbol) {
    Accepted(d.symbol) && forall c :: c in d.children ==> Accepted(c)
  }

  /** A symbol whose selection, from `s` up to `nameAt + len`, stays on
      the line of `s` is accepted by the host. */
  lemma LineSymbolAccepted(text: string, s: nat, nameAt: nat, len: nat, name: string, detail: string, kind: SymbolKind)
    requires s <= nameAt && nameAt + len <= |text| && |name| > 0
    requires forall k :: s <= k < nameAt + len ==> !IsLineBreak(text[k])
    ensures Accepted(LineSymbol(text, s, name, detail, kind, len))
  {
    SameLine(text, s, nameAt + len);
  }

  /** A symbol anchored at a declaration whose word `w` sits at `nameAt`:
      its full range never runs backwards, and once corrected the host
      accepts it. */
  lemma AnchoredSymbol(text: string, start: nat, nameAt: nat, w: string, caption: string,
                       detail: string, kind: SymbolKind, v: Variant)
    requires start <= nameAt && OccursAt(text, w, nameAt) && |caption| > 0
    requires forall k :: 0 <= k < |w| ==> !IsLineBreak(w[k])
    ensures var sym := LineSymbol(text, Anchor(text, start, nameAt, v), caption, detail, kind, |w|);
            NotAfter(sym.range.start, sym.range.end)
            && (v == Corrected ==> Accepted(sym))
  {
    var s := Anchor(text, start, nameAt, v);
    if v == Corrected {
      OccurrenceHasNoBreak(text, w, nameAt);
      LineSymbolAccepted(text, s, nameAt, |w|, caption, detail, kind);
    }
  }

  lemma OccurrenceHasNoBreak(text: string, w: string, i: nat)
    requires OccursAt(text, w, i)
    requires forall k :: 0 <= k < |w| ==> !IsLineBreak(w[k])
    ensures forall k :: i <= k < i + |w| ==> !IsLineBreak(text[k])
  {
    assert forall k :: i <= k < i + |w| ==> text[k] == w[k - i];
  }

  lemma WordHasNoBreak(w: string)
    requires IsWord(w)
    ensures forall k :: 0 <= k < |w| ==> !IsLineBreak(w[k]) && w[k] != '('
  {
  }

  // ---------------------------------------------------------------------------
  // Matches the builders accept

  /** What the symbol builders need of a match: at least `arity` groups,
      the first a word that sits at `nameAt`, at or after the match start. */
  predicate NamedAt(text: string, m: Match, arity: nat) {
    && 1 <= arity <= |m.groups|
    && m.start <= m.nameAt
    && IsWord(m.groups[0])
    && OccursAt(text, m.groups[0], m.nameAt)
  }

  /** The groups every match of a shape has. */
  function Arity(shape: Shape): nat {
    if HasReturnType(shape) then 3 else 2
  }

  lemma DeclMatchesNamed(text: string, ms: seq<Match>, shape: Shape, indented: bool)
    requires forall i :: 0 <= i < |ms| ==> MatchesAt(DeclPattern(shape, indented), text, ms[i])
    ensures forall i :: 0 <= i < |ms| ==> NamedAt(text, ms[i], Arity(shape))
  {
    forall i | 0 <= i < |ms|
      ensures NamedAt(text, ms[i], Arity(shape))
    {
      assert DeclAt(text, ms[i].start, shape, indented) == Some(ms[i].Captured());
    }
  }

  lemma FieldMatchesNamed(text: string, ms: seq<Match>)
    requires forall i :: 0 <= i < |ms| ==> MatchesAt(FieldAt, text, ms[i])
    ensures forall i :: 0 <= i < |ms| ==> NamedAt(text, ms[i], 2)
  {
    forall i | 0 <= i < |ms|
      ensures NamedAt(text, ms[i], 2)
    {
      assert FieldAt(text, ms[i].start) == Some(ms[i].Captured());
    }
  }

  lemma {:induction false} ConstantMatchesNamed(text: string, ms: seq<Match>)
    requires forall i :: 0 <= i < |ms| ==> MatchesAt(ConstantAt, text, ms[i])
    ensures forall i :: 0 <= i < |ms| ==> NamedAt(text, ms[i], 2) && IsConstantName(ms[i].groups[0])
  {
    forall i | 0 <= i < |ms|
      ensures NamedAt(text, ms[i], 2) && IsConstantName(ms[i].groups[0])
    {
      assert ConstantAt(text, ms[i].start) == Some(ms[i].Captured());
    }
  }

  /** A constructor match: the keyword at the match start, and one group. */
  predicate KeywordAt(text: string, m: Match) {
    |m.groups| >= 1 && OccursAt(text, "constructor", m.start)
  }

  lemma ConstructorMatchesAtKeyword(text: string, ms: seq<Match>)
    requires forall i :: 0 <= i < |ms| ==> MatchesAt(ConstructorAt, text, ms[i])
    ensures forall i :: 0 <= i < |ms| ==> KeywordAt(text, ms[i])
  {
    forall i | 0 <= i < |ms|
      ensures KeywordAt(text, ms[i])
    {
      assert ConstructorAt(text, ms[i].start) == Some(ms[i].Captured());
    }
  }

  // ---------------------------------------------------------------------------
  // Functions

  /** A function entry: placed, without children, and never named
      `constructor`. */
  predicate FunctionEntry(d: DocumentSymbol, v: Variant) {
    && d.symbol.kind == Function && d.children == []
    && Placed(d.symbol, v) && BareName(d.symbol.name) != "constructor"
  }

  /** The outline caption of a function: `name(params)`, followed by
      `: Type` when the source's fourth group is present and is not `{`
      (which, for `name(params) => expr`, is the body), or, once corrected,
      only when the declaration has a return type. */
  function FunctionCaption(m: Match, shape: Shape, v: Variant): string
    requires |m.groups| >= Arity(shape)
  {
    var suffix :=
      if v == AsWritten then (if |m.groups| >= 3 && m.groups[2] != "{" then ": " + m.groups[2] else "")
      else (if HasReturnType(shape) then ": " + m.groups[2] else "");
    m.groups[0] + "(" + m.groups[1] + ")" + suffix
  }

  /** Once corrected, the caption is exactly `name(params)` when the
      declaration has no return type, and continues with `: Type` otherwise. */
  lemma CorrectedCaptionShape(text: string, m: Match, shape: Shape)
    requires MatchesAt(DeclPattern(shape, false), text, m)
    ensures (var caption := FunctionCaption(m, shape, Corrected);
             var n := |m.groups[0]| + |m.groups[1]| + 2;
             n <= |caption| && caption[..n] == m.groups[0] + "(" + m.groups[1] + ")"
             && (|caption| == n <==> !HasReturnType(shape))
             && (HasReturnType(shape) ==> caption[n..] == ": " + m.groups[2]))
  {
    assert DeclAt(text, m.start, shape, false) == Some(m.Captured());
  }

  function FunctionSymbol(text: string, m: Match, shape: Shape, v: Variant): (sym: Symbol)
    requires NamedAt(text, m, Arity(shape))
    ensures sym.kind == Function && BareName(sym.name) == m.groups[0]
    ensures Placed(sym, v)
  {
    var name := m.groups[0];
    WordHasNoBreak(name);
    var caption := FunctionCaption(m, shape, v);
    var rest := caption[|name| + 1..];
    assert caption == name + "(" + rest;
    BareNameOfCall(name, rest);
    AnchoredSymbol(text, m.start, m.nameAt, name, caption, "", Function, v);
    LineSymbol(text, Anchor(text, m.start, m.nameAt, v), caption, "", Function, |name|)
  }

  /** The symbols of one function shape's matches, skipping `constructor`. */
  function FunctionSymbols(text: string, ms: seq<Match>, shape: Shape, v: Variant): (r: seq<DocumentSymbol>)
    requires forall i :: 0 <= i < |ms| ==> NamedAt(text, ms[i], Arity(shape))
    ensures |r| <= |ms|
    ensures forall d :: d in r ==> FunctionEntry(d, v)
  {
    if |ms| == 0 then []
    else
      assert NamedAt(text, ms[0], Arity(shape));
      var rest := FunctionSymbols(text, ms[1..], shape, v);
      if ms[0].groups[0] == "constructor" then rest
      else [DocumentSymbol(FunctionSymbol(text, ms[0], shape, v), [])] + rest
  }

  /** The functions declared in one shape. */
  function ShapeFunctions(text: string, shape: Shape, v: Variant): (r: seq<DocumentSymbol>)
    ensures forall d :: d in r ==> FunctionEntry(d, v)
  {
    var ms := AllMatches(DeclPattern(shape, false), text, 0);
    DeclMatchesNamed(text, ms, shape, false);
    FunctionSymbols(text, ms, shape, v)
  }

  /** `parseFunctions`: the matches of the four shapes, shape by shape. */
  function ParseFunctions(text: string, v: Variant): (r: seq<DocumentSymbol>)
    ensures forall d :: d in r ==> FunctionEntry(d, v)
  {
    ShapeFunctions(text, Arrow, v) + ShapeFunctions(text, Block, v)
    + ShapeFunctions(text, TypedBlock, v) + ShapeFunctions(text, TypedArrow, v)
  }

  /** Every match not named `constructor` has its entry in the list. */
  lemma {:induction false} FunctionSymbolsComplete(text: string, ms: seq<Match>, shape: Shape, v: Variant, m: Match)
    requires forall i :: 0 <= i < |ms| ==> NamedAt(text, ms[i], Arity(shape))
    requires m in ms && |m.groups| > 0 && m.groups[0] != "constructor"
    ensures NamedAt(text, m, Arity(shape))
    ensures DocumentSymbol(FunctionSymbol(text, m, shape, v), []) in FunctionSymbols(text, ms, shape, v)
    decreases |ms|
  {
    assert NamedAt(text, ms[0], Arity(shape));
    if ms[0] != m {
      assert m in ms[1..];
      FunctionSymbolsComplete(text, ms[1..], shape, v, m);
    }
  }

  /** `parseFunctions` lists every function match, of every shape, that is
      not named `constructor`. */
  lemma FunctionListed(text: string, shape: Shape, v: Variant, m: Match)
    requires m in AllMatches(DeclPattern(shape, false), text, 0) && |m.groups| > 0 && m.groups[0] != "constructor"
    ensures NamedAt(text, m, Arity(shape))
    ensures DocumentSymbol(FunctionSymbol(text, m, shape, v), []) in ParseFunctions(text, v)
  {
    var ms := AllMatches(DeclPattern(shape, false), text, 0);
    DeclMatchesNamed(text, ms, shape, false);
    FunctionSymbolsComplete(text, ms, shape, v, m);
  }

  /** The same, among all the symbols of the text. */
  lemma FunctionInSymbols(text: string, shape: Shape, v: Variant, m: Match)
    requires m in AllMatches(DeclPattern(shape, false), text, 0) && |m.groups| > 0 && m.groups[0] != "constructor"
    ensures NamedAt(text, m, Arity(shape))
    ensures DocumentSymbol(FunctionSymbol(text, m, shape, v), []) in Symbols(text, v)
  {
    FunctionListed(text, shape, v, m);
  }

  // ---------------------------------------------------------------------------
  // Classes and their members

  /** The class body as a slice of the document starting at `base`. */
  predicate IsBody(text: string, body: string, base: nat) {
    base + |body| <= |text| && body == text[base..base + |body|]
  }

  /** Offsets of the body are offsets of the document shifted by `base`. */
  lemma BodyOccurrence(text: string, body: string, base: nat, w: string, k: nat)
    requires IsBody(text, body, base) && OccursAt(body, w, k)
    ensures OccursAt(text, w, base + k)
  {
    forall j | 0 <= j < |w|
      ensures text[base + k + j] == w[j]
    {
      assert w[j] == body[k..k + |w|][j] == body[k + j];
    }
    assert text[base + k..base + k + |w|] == w;
  }

  /** A constructor, `constructor(params)`, selecting the keyword. The
      constructor pattern is not anchored, so the symbol starts at the
      keyword itself and is always accepted. */
  function ConstructorSymbol(text: string, body: string, base: nat, m: Match): (sym: Symbol)
    requires IsBody(text, body, base) && KeywordAt(body, m)
    ensures sym.kind == Constructor && BareName(sym.name) == "constructor"
    ensures SelectsName(sym) && Accepted(sym)
  {
    BodyOccurrence(text, body, base, "constructor", m.start);
    var at := base + m.start;
    var caption := "constructor(" + m.groups[0] + ")";
    assert caption == "constructor" + "(" + (m.groups[0] + ")");
    BareNameOfCall("constructor", m.groups[0] + ")");
    OccurrenceHasNoBreak(text, "constructor", at);
    LineSymbolAccepted(text, at, at, 11, caption, "", Constructor);
    LineSymbol(text, at, caption, "", Constructor, 11)
  }

  function ConstructorSymbols(text: string, body: string, base: nat, ms: seq<Match>): (r: seq<Symbol>)
    requires IsBody(text, body, base)
    requires forall i :: 0 <= i < |ms| ==> KeywordAt(body, ms[i])
    ensures |r| == |ms|
    ensures forall i :: 0 <= i < |r| ==> r[i].kind == Constructor && SelectsName(r[i]) && Accepted(r[i])
  {
    seq(|ms|, i requires 0 <= i < |ms| => ConstructorSymbol(text, body, base, ms[i]))
  }

  /** A field: its name, with its type as detail. */
  function FieldSymbol(text: string, body: string, base: nat, m: Match, v: Variant): (sym: Symbol)
    requires IsBody(text, body, base) && NamedAt(body, m, 2)
    ensures sym.kind == Field && sym.name == m.groups[0] && sym.detail == m.groups[1]
    ensures Placed(sym, v)
  {
    var name := m.groups[0];
    WordHasNoBreak(name);
    BareNameOfPlain(name);
    BodyOccurrence(text, body, base, name, m.nameAt);
    AnchoredSymbol(text, base + m.start, base + m.nameAt, name, name, m.groups[1], Field, v);
    LineSymbol(text, Anchor(text, base + m.start, base + m.nameAt, v), name, m.groups[1], Field, |name|)
  }

  function FieldSymbols(text: string, body: string, base: nat, ms: seq<Match>, v: Variant): (r: seq<Symbol>)
    requires IsBody(text, body, base)
    requires forall i :: 0 <= i < |ms| ==> NamedAt(body, ms[i], 2)
    ensures |r| == |ms|
    ensures forall i :: 0 <= i < |r| ==> r[i].kind == Field && Placed(r[i], v)
  {
    seq(|ms|, i requires 0 <= i < |ms| => FieldSymbol(text, body, base, ms[i], v))
  }

  /** A method entry: placed, and never named `constructor`. */
  predicate MethodEntry(c: Symbol, v: Variant) {
    c.kind == Method && Placed(c, v) && BareName(c.name) != "constructor"
  }

  /** A method: `name(params)`, with detail `method`. */
  function MethodSymbol(text: string, body: string, base: nat, m: Match, v: Variant): (sym: Symbol)
    requires IsBody(text, body, base) && NamedAt(body, m, 2)
    ensures sym.kind == Method && BareName(sym.name) == m.groups[0]
    ensures Placed(sym, v)
  {
    var name := m.groups[0];
    WordHasNoBreak(name);
    BodyOccurrence(text, body, base, name, m.nameAt);
    var caption := name + "(" + m.groups[1] + ")";
    assert caption == name + "(" + (m.groups[1] + ")");
    BareNameOfCall(name, m.groups[1] + ")");
    AnchoredSymbol(text, base + m.start, base + m.nameAt, name, caption, "method", Method, v);
    LineSymbol(text, Anchor(text, base + m.start, base + m.nameAt, v), caption, "method", Method, |name|)
  }

  /** The methods among the matches, skipping `constructor`. */
  function MethodSymbols(text: string, body: string, base: nat, ms: seq<Match>, v: Variant): (r: seq<Symbol>)
    requires IsBody(text, body, base)
    requires forall i :: 0 <= i < |ms| ==> NamedAt(body, ms[i], 2)
    ensures |r| <= |ms|
    ensures forall c :: c in r ==> MethodEntry(c, v)
  {
    if |ms| == 0 then []
    else
      assert NamedAt(body, ms[0], 2);
      var rest := MethodSymbols(text, body, base, ms[1..], v);
      if ms[0].groups[0] == "constructor" then rest
      else [MethodSymbol(text, body, base, ms[0], v)] + rest
  }

  /** The methods declared in one shape. */
  function ShapeMethods(text: string, body: string, base: nat, shape: Shape, v: Variant): (r: seq<Symbol>)
    requires IsBody(text, body, base)
    ensures forall c :: c in r ==> MethodEntry(c, v)
  {
    var ms := AllMatches(DeclPattern(shape, true), body, 0);
    DeclMatchesNamed(body, ms, shape, true);
    MethodSymbols(text, body, base, ms, v)
  }

  /** The methods of a class body: those of the three method shapes, shape
      by shape. */
  function ClassMethods(text: string, body: string, base: nat, v: Variant): (r: seq<Symbol>)
    requires IsBody(text, body, base)
    ensures forall c :: c in r ==> MethodEntry(c, v)
  {
    ShapeMethods(text, body, base, Arrow, v) + ShapeMethods(text, body, base, Block, v)
    + ShapeMethods(text, body, base, TypedBlock, v)
  }

  /** `parseClassMembers`: the members found in `body`, which starts at
      offset `base` of the document: constructors, then fields, then the
      methods of the three method shapes. */
  function ParseClassMembers(text: string, body: string, base: nat, v: Variant): (r: seq<Symbol>)
    requires IsBody(text, body, base)
    ensures forall c :: c in r ==> c.kind in {Constructor, Field, Method} && Placed(c, v)
  {
    var cs := AllMatches(ConstructorAt, body, 0);
    ConstructorMatchesAtKeyword(body, cs);
    var fs := AllMatches(FieldAt, body, 0);
    FieldMatchesNamed(body, fs);
    MembersOfPlaced(text, body, base, v, cs, fs);
    MembersOf(text, body, base, v, cs, fs)
  }

  /** The members for given constructor and field matches. */
  function MembersOf(text: string, body: string, base: nat, v: Variant, cs: seq<Match>, fs: seq<Match>): (r: seq<Symbol>)
    requires IsBody(text, body, base)
    requires forall i :: 0 <= i < |cs| ==> KeywordAt(body, cs[i])
    requires forall i :: 0 <= i < |fs| ==> NamedAt(body, fs[i], 2)
    ensures |r| >= |cs| + |fs|
  {
    ConstructorSymbols(text, body, base, cs) + FieldSymbols(text, body, base, fs, v) + ClassMethods(text, body, base, v)
  }

  /** Every member is a constructor, a field or a method, and is placed. */
  lemma MembersOfPlaced(text: string, body: string, base: nat, v: Variant, cs: seq<Match>, fs: seq<Match>)
    requires IsBody(text, body, base)
    requires forall i :: 0 <= i < |cs| ==> KeywordAt(body, cs[i])
    requires forall i :: 0 <= i < |fs| ==> NamedAt(body, fs[i], 2)
    ensures forall c :: c in MembersOf(text, body, base, v, cs, fs) ==> c.kind in {Constructor, Field, Method} && Placed(c, v)
  {
    var a := ConstructorSymbols(text, body, base, cs);
    var b := FieldSymbols(text, body, base, fs, v);
    var c := ClassMethods(text, body, base, v);
    MembersPlaced(a, b, c, v);
  }

  /** Constructors, fields and methods, each placed, make placed members. */
  lemma MembersPlaced(a: seq<Symbol>, b: seq<Symbol>, c: seq<Symbol>, v: Variant)
    requires forall i :: 0 <= i < |a| ==> a[i].kind == Constructor && SelectsName(a[i]) && Accepted(a[i])
    requires forall i :: 0 <= i < |b| ==> b[i].kind == Field && Placed(b[i], v)
    requires forall x :: x in c ==> MethodEntry(x, v)
    ensures forall x :: x in a + b + c ==> x.kind in {Constructor, Field, Method} && Placed(x, v)
  {
    forall x | x in a + b + c
      ensures x.kind in {Constructor, Field, Method} && Placed(x, v)
    {
      if x !in c {
        var i :| 0 <= i < |a + b| && (a + b)[i] == x;
        if i >= |a| {
          assert x == b[i - |a|];
        }
      }
    }
  }

  /** The method entries are exactly those of the matches not named
      `constructor`. */
  lemma {:induction false} MethodSymbolsExact(text: string, body: string, base: nat, ms: seq<Match>, v: Variant)
    requires IsBody(text, body, base)
    requires forall i :: 0 <= i < |ms| ==> NamedAt(body, ms[i], 2)
    ensures forall c :: c in MethodSymbols(text, body, base, ms, v) <==>
              exists i :: 0 <= i < |ms| && ms[i].groups[0] != "constructor" && c == MethodSymbol(text, body, base, ms[i], v)
    decreases |ms|
  {
    if |ms| > 0 {
      var r := MethodSymbols(text, body, base, ms, v);
      var rest := MethodSymbols(text, body, base, ms[1..], v);
      MethodSymbolsExact(text, body, base, ms[1..], v);
      forall c | c in r
        ensures exists i :: 0 <= i < |ms| && ms[i].groups[0] != "constructor" && c == MethodSymbol(text, body, base, ms[i], v)
      {
        if c in rest {
          var j :| 0 <= j < |ms[1..]| && ms[1..][j].groups[0] != "constructor" && c == MethodSymbol(text, body, base, ms[1..][j], v);
          assert ms[1..][j] == ms[j + 1];
        } else {
          assert ms[0].groups[0] != "constructor" && c == MethodSymbol(text, body, base, ms[0], v);
        }
      }
      forall c, i | 0 <= i < |ms| && ms[i].groups[0] != "constructor" && c == MethodSymbol(text, body, base, ms[i], v)
        ensures c in r
      {
        if i > 0 {
          assert ms[1..][i - 1] == ms[i];
        }
      }
    }
  }

  /** Every constructor match and every field match has its entry, in
      order, and the entries after them are methods. */
  lemma MembersListed(text: string, body: string, base: nat, v: Variant)
    requires IsBody(text, body, base)
    ensures var cs := AllMatches(ConstructorAt, body, 0);
            var fs := AllMatches(FieldAt, body, 0);
            var r := ParseClassMembers(text, body, base, v);
            && |cs| + |fs| <= |r|
            && (forall i :: 0 <= i < |cs| ==> KeywordAt(body, cs[i]) && r[i] == ConstructorSymbol(text, body, base, cs[i]))
            && (forall i :: 0 <= i < |fs| ==> NamedAt(body, fs[i], 2))
            && (forall i :: |cs| <= i < |cs| + |fs| ==> r[i] == FieldSymbol(text, body, base, fs[i - |cs|], v))
            && (forall i :: |cs| + |fs| <= i < |r| ==> MethodEntry(r[i], v))
  {
    var cs := AllMatches(ConstructorAt, body, 0);
    ConstructorMatchesAtKeyword(body, cs);
    var fs := AllMatches(FieldAt, body, 0);
    FieldMatchesNamed(body, fs);
    ConstructorsFirst(text, body, base, v, cs, fs);
    FieldsNext(text, body, base, v, cs, fs);
    MethodsLast(text, body, base, v, cs, fs);
  }

  /** The constructor entries come first, one per match. */
  lemma ConstructorsFirst(text: string, body: string, base: nat, v: Variant, cs: seq<Match>, fs: seq<Match>)
    requires IsBody(text, body, base)
    requires forall i :: 0 <= i < |cs| ==> KeywordAt(body, cs[i])
    requires forall i :: 0 <= i < |fs| ==> NamedAt(body, fs[i], 2)
    ensures var r := MembersOf(text, body, base, v, cs, fs);
            |cs| <= |r| && forall i :: 0 <= i < |cs| ==> r[i] == ConstructorSymbol(text, body, base, cs[i])
  {
    var a := ConstructorSymbols(text, body, base, cs);
    var b := FieldSymbols(text, body, base, fs, v);
    var c := ClassMethods(text, body, base, v);
    PrefixListed(text, body, base, cs, a + b + c);
  }

  /** The field entries follow, one per match. */
  lemma FieldsNext(text: string, body: string, base: nat, v: Variant, cs: seq<Match>, fs: seq<Match>)
    requires IsBody(text, body, base)
    requires forall i :: 0 <= i < |cs| ==> KeywordAt(body, cs[i])
    requires forall i :: 0 <= i < |fs| ==> NamedAt(body, fs[i], 2)
    ensures var r := MembersOf(text, body, base, v, cs, fs);
            && |cs| + |fs| <= |r|
            && forall i :: |cs| <= i < |cs| + |fs| ==> r[i] == FieldSymbol(text, body, base, fs[i - |cs|], v)
  {
    var a := ConstructorSymbols(text, body, base, cs);
    var b := FieldSymbols(text, body, base, fs, v);
    var c := ClassMethods(text, body, base, v);
    InfixListed(text, body, base, v, fs, a, c);
  }

  /** The entries after the constructors and fields are methods. */
  lemma MethodsLast(text: string, body: string, base: nat, v: Variant, cs: seq<Match>, fs: seq<Match>)
    requires IsBody(text, body, base)
    requires forall i :: 0 <= i < |cs| ==> KeywordAt(body, cs[i])
    requires forall i :: 0 <= i < |fs| ==> NamedAt(body, fs[i], 2)
    ensures var r := MembersOf(text, body, base, v, cs, fs);
            forall i :: |cs| + |fs| <= i < |r| ==> MethodEntry(r[i], v)
  {
    var a := ConstructorSymbols(text, body, base, cs);
    var b := FieldSymbols(text, body, base, fs, v);
    var c := ClassMethods(text, body, base, v);
    MethodsAfter(a, b, c, v);
  }

  lemma PrefixListed(text: string, body: string, base: nat, cs: seq<Match>, r: seq<Symbol>)
    requires IsBody(text, body, base)
    requires forall i :: 0 <= i < |cs| ==> KeywordAt(body, cs[i])
    requires ConstructorSymbols(text, body, base, cs) <= r
    ensures forall i :: 0 <= i < |cs| ==> r[i] == ConstructorSymbol(text, body, base, cs[i])
  {
  }

  lemma InfixListed(text: string, body: string, base: nat, v: Variant, fs: seq<Match>, a: seq<Symbol>, rest: seq<Symbol>)
    requires IsBody(text, body, base)
    requires forall i :: 0 <= i < |fs| ==> NamedAt(body, fs[i], 2)
    ensures var r := a + FieldSymbols(text, body, base, fs, v) + rest;
            forall i :: |a| <= i < |a| + |fs| ==> r[i] == FieldSymbol(text, body, base, fs[i - |a|], v)
  {
    var b := FieldSymbols(text, body, base, fs, v);
    ConcatIndex(a, b, rest);
  }

  lemma MethodsAfter(a: seq<Symbol>, b: seq<Symbol>, ms: seq<Symbol>, v: Variant)
    requires forall c :: c in ms ==> MethodEntry(c, v)
    ensures forall i :: |a| + |b| <= i < |a + b + ms| ==> MethodEntry((a + b + ms)[i], v)
  {
    forall i | |a| + |b| <= i < |a + b + ms|
      ensures MethodEntry((a + b + ms)[i], v)
    {
      assert (a + b + ms)[i] == ms[i - |a| - |b|] && ms[i - |a| - |b|] in ms;
    }
  }

  /** Where the parts of a three-part concatenation sit. */
  lemma ConcatIndex<T>(a: seq<T>, b: seq<T>, c: seq<T>)
    ensures forall i :: 0 <= i < |a| ==> (a + b + c)[i] == a[i]
    ensures forall i :: |a| <= i < |a| + |b| ==> (a + b + c)[i] == b[i - |a|]
    ensures forall i :: |a| + |b| <= i < |a| + |b| + |c| ==> (a + b + c)[i] == c[i - |a| - |b|]
  {
  }


  /** Every method match, of the three method shapes, that is not named
      `constructor` has its entry among the members. */
  lemma MethodListed(text: string, body: string, base: nat, shape: Shape, v: Variant, m: Match)
    requires IsBody(text, body, base) && shape != TypedArrow
    requires m in AllMatches(DeclPattern(shape, true), body, 0) && |m.groups| > 0 && m.groups[0] != "constructor"
    ensures NamedAt(body, m, 2)
    ensures MethodSymbol(text, body, base, m, v) in ParseClassMembers(text, body, base, v)
  {
    var ms := AllMatches(DeclPattern(shape, true), body, 0);
    DeclMatchesNamed(body, ms, shape, true);
    var i :| 0 <= i < |ms| && ms[i] == m;
    MethodSymbolsExact(text, body, base, ms, v);
    assert MethodSymbol(text, body, base, m, v) in ShapeMethods(text, body, base, shape, v);
  }

  /** Where a class's body ends: its closing brace, or the end of the text. */
  function BodyEnd(text: string, start: nat): (e: nat)
    requires start <= |text|
    ensures start < e <= |text| || (start == e == |text|)
    ensures FindClosingBrace(text, start).Some? ==> e == FindClosingBrace(text, start).value
    ensures FindClosingBrace(text, start).None? ==> e == |text|
  {
    match FindClosingBrace(text, start)
    case Some(close) => close
    case None => |text|
  }

  /** What the class builder needs of a class match: a capitalised word at
      `nameAt`, and a header, up to the pattern's own `{`, that holds no
      `}` and ends after the name. */
  predicate ClassHeader(text: string, m: Match) {
    && NamedAt(text, m, 1) && IsUpper(m.groups[0][0])
    && m.nameAt + |m.groups[0]| < m.end <= |text|
    && forall k :: m.start <= k < m.end ==> text[k] != '}'
  }

  lemma ClassMatchesHeader(text: string, ms: seq<Match>)
    requires forall i :: 0 <= i < |ms| ==> MatchesAt(ClassAt, text, ms[i])
    ensures forall i :: 0 <= i < |ms| ==> ClassHeader(text, ms[i])
  {
    forall i | 0 <= i < |ms|
      ensures ClassHeader(text, ms[i])
    {
      var m := ms[i];
      assert ClassAt(text, m.start) == Some(m.Captured());
      var a := SpaceRun(text, m.start);
      var b := WordRun(text, a);
      assert m.end == SpaceRun(text, b) + 1;
    }
  }

  /** The end of a class's range is not before its start, and once
      corrected the name fits before it: the closing brace comes after the
      header, and the end of the first line after the name. */
  lemma ClassEndAfterName(text: string, m: Match, v: Variant)
    requires ClassHeader(text, m)
    ensures var s := Anchor(text, m.start, m.nameAt, v);
            && (FindClosingBrace(text, m.start).Some? ==>
                  NotAfter(PositionAt(text, s), PositionAt(text, FindClosingBrace(text, m.start).value)))
            && (FindClosingBrace(text, m.start).Some? && v == Corrected ==>
                  NotAfter(Translate(PositionAt(text, s), |m.groups[0]|),
                           PositionAt(text, FindClosingBrace(text, m.start).value)))
            && (v == Corrected ==>
                  NotAfter(Translate(PositionAt(text, s), |m.groups[0]|), EndOfLine(text, s)))
  {
    var s := Anchor(text, m.start, m.nameAt, v);
    var name := m.groups[0];
    var close := FindClosingBrace(text, m.start);
    if close.Some? {
      assert close.value >= m.end;
      PositionOrder(text, s, close.value);
    }
    if v == Corrected {
      var e := m.nameAt + |name|;
      WordHasNoBreak(name);
      OccurrenceHasNoBreak(text, name, m.nameAt);
      SameLine(text, s, e);
      if close.Some? {
        PositionOrder(text, e, close.value);
      }
    }
  }

  /** The class's full range: from its anchor to its closing brace, or to
      the end of its first line when there is none. */
  function ClassRange(text: string, m: Match, v: Variant): (r: Range)
    requires ClassHeader(text, m)
    ensures r.start == PositionAt(text, Anchor(text, m.start, m.nameAt, v))
    ensures FindClosingBrace(text, m.start).Some? ==> r.end == PositionAt(text, FindClosingBrace(text, m.start).value)
    ensures FindClosingBrace(text, m.start).None? ==> r.end == EndOfLine(text, Anchor(text, m.start, m.nameAt, v))
  {
    var s := Anchor(text, m.start, m.nameAt, v);
    match FindClosingBrace(text, m.start)
    case Some(close) => Range(PositionAt(text, s), PositionAt(text, close))
    case None => Range(PositionAt(text, s), EndOfLine(text, s))
  }

  /** A class with its members. Its range runs to the closing brace found by
      the brace matcher, or to the end of its first line when there is none;
      its members are read from the text between the match and that brace,
      or the end of the text. */
  function ClassSymbol(text: string, m: Match, v: Variant): (d: DocumentSymbol)
    requires ClassHeader(text, m)
    ensures d.symbol.kind == Class && d.symbol.name == m.groups[0] && d.symbol.detail == "class"
    ensures d.symbol.range == ClassRange(text, m, v)
    ensures d.children == ParseClassMembers(text, text[m.start..BodyEnd(text, m.start)], m.start, v)
    ensures ClassEntry(d, v)
  {
    var name := m.groups[0];
    var range := ClassRange(text, m, v);
    ClassHeadPlaced(text, m, v);
    var body := text[m.start..BodyEnd(text, m.start)];
    DocumentSymbol(Symbol(name, "class", Class, range, Range(range.start, Translate(range.start, |name|))),
                   ParseClassMembers(text, body, m.start, v))
  }

  /** The class's own entry selects its name, and once corrected the host
      accepts it. */
  lemma ClassHeadPlaced(text: string, m: Match, v: Variant)
    requires ClassHeader(text, m)
    ensures var range := ClassRange(text, m, v);
            Placed(Symbol(m.groups[0], "class", Class, range, Range(range.start, Translate(range.start, |m.groups[0]|))), v)
  {
    WordHasNoBreak(m.groups[0]);
    BareNameOfPlain(m.groups[0]);
    ClassEndAfterName(text, m, v);
  }

  function ClassSymbols(text: string, ms: seq<Match>, v: Variant): (r: seq<DocumentSymbol>)
    requires forall i :: 0 <= i < |ms| ==> ClassHeader(text, ms[i])
    ensures |r| == |ms|
    ensures forall i :: 0 <= i < |r| ==> ClassEntry(r[i], v)
  {
    seq(|ms|, i requires 0 <= i < |ms| => ClassSymbol(text, ms[i], v))
  }

  /** A class entry: a capitalised name, placed along with its members. */
  predicate ClassEntry(d: DocumentSymbol, v: Variant) {
    d.symbol.kind == Class && |d.symbol.name| > 0 && IsUpper(d.symbol.name[0]) && TreePlaced(d, v)
  }

  /** What holds of each entry holds of each member of the list. */
  lemma ClassEntriesIn(r: seq<DocumentSymbol>, v: Variant)
    requires forall i :: 0 <= i < |r| ==> ClassEntry(r[i], v)
    ensures forall d :: d in r ==> ClassEntry(d, v)
  {
  }

  /** `parseClasses` */
  function ParseClasses(text: string, v: Variant): (r: seq<DocumentSymbol>)
    ensures forall d :: d in r ==> d.symbol.kind == Class && |d.symbol.name| > 0 && IsUpper(d.symbol.name[0]) && TreePlaced(d, v)
  {
    var ms := AllMatches(ClassAt, text, 0);
    ClassMatchesHeader(text, ms);
    ClassEntriesIn(ClassSymbols(text, ms, v), v);
    ClassSymbols(text, ms, v)
  }

  /** `parseClasses` has one entry per class match, in order: the class
      named by the match, with its range and its members. */
  lemma ClassesListed(text: string, v: Variant)
    ensures var ms := AllMatches(ClassAt, text, 0);
            && |ParseClasses(text, v)| == |ms|
            && forall i :: 0 <= i < |ms| ==> ClassHeader(text, ms[i]) && ParseClasses(text, v)[i] == ClassSymbol(text, ms[i], v)
  {
    var ms := AllMatches(ClassAt, text, 0);
    ClassMatchesHeader(text, ms);
  }

  // ---------------------------------------------------------------------------
  // Constants

  /** The detail shown for a constant: its trimmed value, cut to its first
      27 characters followed by `...` when it is longer than 30. */
  function ConstantDetail(value: string): (d: string)
    ensures |d| <= 30
    ensures |Trim(value)| <= 30 ==> d == Trim(value)
    ensures |Trim(value)| > 30 ==> |d| == 30 && d[..27] == Trim(value)[..27] && d[27..] == "..."
  {
    var t := Trim(value);
    if |t| > 30 then t[..27] + "..." else t
  }

  /** A constant entry: placed, without children, named `[A-Z_][A-Z0-9_]*`,
      with a detail of at most 30 characters. */
  predicate ConstantEntry(d: DocumentSymbol, v: Variant) {
    && d.symbol.kind == Constant && d.children == [] && Placed(d.symbol, v)
    && IsConstantName(d.symbol.name) && |d.symbol.detail| <= 30
  }

  function ConstantSymbol(text: string, m: Match, v: Variant): (sym: Symbol)
    requires NamedAt(text, m, 2) && IsConstantName(m.groups[0])
    ensures sym.kind == Constant && sym.name == m.groups[0]
    ensures sym.detail == ConstantDetail(m.groups[1])
    ensures Placed(sym, v)
  {
    var name := m.groups[0];
    WordHasNoBreak(name);
    BareNameOfPlain(name);
    AnchoredSymbol(text, m.start, m.nameAt, name, name, ConstantDetail(m.groups[1]), Constant, v);
    LineSymbol(text, Anchor(text, m.start, m.nameAt, v), name, ConstantDetail(m.groups[1]), Constant, |name|)
  }

  function ConstantSymbols(text: string, ms: seq<Match>, v: Variant): (r: seq<DocumentSymbol>)
    requires forall i :: 0 <= i < |ms| ==> NamedAt(text, ms[i], 2) && IsConstantName(ms[i].groups[0])
    ensures |r| == |ms|
    ensures forall d :: d in r ==> ConstantEntry(d, v)
  {
    seq(|ms|, i requires 0 <= i < |ms| => DocumentSymbol(ConstantSymbol(text, ms[i], v), []))
  }

  /** `parseConstants` */
  function ParseConstants(text: string, v: Variant): (r: seq<DocumentSymbol>)
    ensures forall d :: d in r ==> ConstantEntry(d, v)
  {
    var ms := AllMatches(ConstantAt, text, 0);
    ConstantMatchesNamed(text, ms);
    ConstantSymbols(text, ms, v)
  }

  /** `parseConstants` has one entry per constant match, in order: the
      constant named by the match, with its shortened value as detail. */
  lemma ConstantsListed(text: string, v: Variant)
    ensures var ms := AllMatches(ConstantAt, text, 0);
            && |ParseConstants(text, v)| == |ms|
            && forall i :: 0 <= i < |ms| ==>
                 NamedAt(text, ms[i], 2) && IsConstantName(ms[i].groups[0])
                 && ParseConstants(text, v)[i] == DocumentSymbol(ConstantSymbol(text, ms[i], v), [])
  {
    var ms := AllMatches(ConstantAt, text, 0);
    ConstantMatchesNamed(text, ms);
  }

  // ---------------------------------------------------------------------------
  // The provider

  /** The position of a top-level kind in the provider's result. */
  function Rank(kind: SymbolKind): nat {
    match kind
    case Function => 0
    case Class => 1
    case Constant => 2
    case _ => 3
  }

  /** Top-level symbols are functions, classes and constants, all functions
      before every class and all classes before every constant. */
  predicate InProviderOrder(r: seq<DocumentSymbol>) {
    && (forall i :: 0 <= i < |r| ==> Rank(r[i].symbol.kind) < 3)
    && (forall i, j :: 0 <= i < j < |r| ==> Rank(r[i].symbol.kind) <= Rank(r[j].symbol.kind))
  }

  /** The symbol list before the host validates it. */
  function Symbols(text: string, v: Variant): (r: seq<DocumentSymbol>)
    ensures forall d :: d in r ==> TreePlaced(d, v)
  {
    ParseFunctions(text, v) + ParseClasses(text, v) + ParseConstants(text, v)
  }

  predicate AllOfKind(r: seq<DocumentSymbol>, kind: SymbolKind) {
    forall d :: d in r ==> d.symbol.kind == kind
  }

  lemma {:induction false} RankedConcat(fs: seq<DocumentSymbol>, cs: seq<DocumentSymbol>, ks: seq<DocumentSymbol>)
    requires AllOfKind(fs, Function) && AllOfKind(cs, Class) && AllOfKind(ks, Constant)
    ensures InProviderOrder(fs + cs + ks)
  {
    var r := fs + cs + ks;
    forall i | 0 <= i < |r|
      ensures Rank(r[i].symbol.kind) == if i < |fs| then 0 else if i < |fs| + |cs| then 1 else 2
    {
      if i < |fs| {
        assert r[i] == fs[i] && fs[i] in fs;
      } else if i < |fs| + |cs| {
        assert r[i] == cs[i - |fs|] && cs[i - |fs|] in cs;
      } else {
        assert r[i] == ks[i - |fs| - |cs|] && ks[i - |fs| - |cs|] in ks;
      }
    }
  }

  /** Functions come first, then classes, then constants. */
  lemma SymbolsInProviderOrder(text: string, v: Variant)
    ensures InProviderOrder(Symbols(text, v))
  {
    RankedConcat(ParseFunctions(text, v), ParseClasses(text, v), ParseConstants(text, v));
  }

  /** What the host receives from the provider: the symbols, or the error
      the `DocumentSymbol` constructor throws for the first symbol whose
      selection lies outside its range. */
  datatype Outcome = Provided(symbols: seq<DocumentSymbol>) | Thrown(message: string)

  const SelectionOutsideRange := "selectionRange must be contained in fullRange"

  /** `provideDocumentSymbols` as written: the provider does not catch the
      host's error, so one misplaced symbol loses the whole outline. */
  function ProvideDocumentSymbolsAsWritten(text: string): (r: Outcome)
    ensures r.Provided? <==> forall d :: d in Symbols(text, AsWritten) ==> TreeAccepted(d)
    ensures r.Provided? ==> r.symbols == Symbols(text, AsWritten)
    ensures r.Thrown? ==> r.message == SelectionOutsideRange
  {
    var syms := Symbols(text, AsWritten);
    if forall d :: d in syms ==> TreeAccepted(d) then Provided(syms)
    else Thrown(SelectionOutsideRange)
  }

  /** `provideDocumentSymbols`, corrected: every symbol and member is
      accepted by the host and selects its own name, and functions come
      first, then classes, then constants. */
  function ProvideDocumentSymbols(text: string): (r: seq<DocumentSymbol>)
    ensures InProviderOrder(r)
    ensures forall d :: d in r ==> TreeAccepted(d) && TreePlaced(d, Corrected)
  {
    SymbolsInProviderOrder(text, Corrected);
    Symbols(text, Corrected)
  }
}
