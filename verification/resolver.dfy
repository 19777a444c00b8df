/** The definition and reference providers (`LivaDefinitionProvider` and
    `LivaReferenceProvider`): pattern searches for the places where one
    identifier is declared, as a function, a variable or a class, and a
    whole-word scan for every place it occurs.

    The identifier is spliced unescaped into each regular expression; the
    model takes it to be a run of word characters. Each pattern is
    rewritten as a character-level matcher and searched with `matchAll`
    semantics. A location is kept as the offset its range starts at, and
    `Span` turns it into the range the host receives. */
module Resolver {
  import opened Wrappers
  import opened Chars
  import opened Strings
  import opened Positions
  import opened Matching
  import opened Patterns
  import Outline

  /** The range of `len` characters from `positionAt(off)`:
      `new Range(position, position.translate(0, len))`. */
  function Span(text: string, off: nat, len: nat): Range
    requires off <= |text|
  {
    var s := PositionAt(text, off);
    Range(s, Translate(s, len))
  }

  /** `w` occurs at `i` and is neither preceded nor followed by a word
      character. */
  predicate WholeWordAt(text: string, w: string, i: nat) {
    OccursAt(text, w, i)
    && (i == 0 || !IsWordChar(text[i - 1]))
    && (i + |w| == |text| || !IsWordChar(text[i + |w|]))
  }

  /** An occurrence inside a slice is an occurrence in the whole text. */
  lemma SliceOccurrence(text: string, s: nat, e: nat, w: string, j: nat)
    requires s <= j && j + |w| <= e <= |text|
    ensures OccursAt(text[s..e], w, j - s) <==> OccursAt(text, w, j)
  {
    var a := text[s..e][j - s..j - s + |w|];
    var b := text[j..j + |w|];
    forall k | 0 <= k < |a|
      ensures a[k] == b[k]
    {
      assert a[k] == text[s..e][j - s + k];
    }
  }

  /** `\s*c` from `k`, for a `c` that is not a space: the position after
      `c`. */
  function SpacesThen(text: string, k: nat, c: char): (r: Option<nat>)
    requires k <= |text|
    ensures r.Some? ==> k < r.value <= |text| && text[r.value - 1] == c
    ensures r.Some? ==> forall j :: k <= j < r.value - 1 ==> IsSpace(text[j])
    ensures r.Some? && !IsWordChar(c) ==> !IsWordChar(text[k])
  {
    var d := SpaceRun(text, k);
    if d < |text| && text[d] == c then Some(d + 1) else None
  }

  // ---------------------------------------------------------------------------
  // Function declarations

  /** What follows the parameters in each function shape, from `k`: `=>`,
      `{`, `:\s*\w+\s*{` or `:\s*\w+\s*=>`. Unlike the outline's patterns,
      these stop at the arrow and capture nothing after it. */
  function FunctionTail(text: string, k: nat, shape: Outline.Shape): (r: Option<nat>)
    requires k <= |text|
    ensures r.Some? ==> k < r.value <= |text|
    ensures r.Some? && (shape.Block? || shape.TypedBlock?) ==> text[r.value - 1] == '{'
    ensures r.Some? && (shape.Arrow? || shape.TypedArrow?) ==> 2 <= r.value && OccursAt(text, "=>", r.value - 2)
  {
    match shape
    case Arrow => if OccursAt(text, "=>", k) then Some(k + 2) else None
    case Block => if k < |text| && text[k] == '{' then Some(k + 1) else None
    case TypedBlock =>
      (match AnnotationAt(text, k)
       case None => None
       case Some(t) => if t.after < |text| && text[t.after] == '{' then Some(t.after + 1) else None)
    case TypedArrow =>
      (match AnnotationAt(text, k)
       case None => None
       case Some(t) => if OccursAt(text, "=>", t.after) then Some(t.after + 2) else None)
  }

  /** A function pattern with `name` spliced in,
      `^\s*(name)\s*\([^)]*\)\s*` followed by the shape's tail, tried at
      `p`. The head is the outline's; its identifier must be `name`. */
  function FunctionSite(text: string, p: nat, name: string, shape: Outline.Shape): (r: Option<Capture>)
    ensures r.Some? ==> AtLineStart(text, p) && p <= r.value.nameAt && r.value.nameAt + |name| < r.value.end <= |text|
    ensures r.Some? ==> r.value.groups == [name] && WholeWordAt(text, name, r.value.nameAt)
  {
    if p > |text| || !AtLineStart(text, p) then None
    else
      var a := SpaceRun(text, p);
      match HeadAt(text, a)
      case None => None
      case Some(h) =>
        if text[a..h.nameEnd] != name then None
        else match FunctionTail(text, h.after, shape)
          case None => None
          case Some(e) =>
            HeadNameIsWhole(text, p, h);
            Some(Capture(e, a, [name]))
  }

  /** The identifier of a head after a line's leading spaces is a whole
      word. */
  lemma HeadNameIsWhole(text: string, p: nat, h: Head)
    requires p <= |text| && AtLineStart(text, p) && HeadAt(text, SpaceRun(text, p)) == Some(h)
    ensures p <= h.nameStart && WholeWordAt(text, text[h.nameStart..h.nameEnd], h.nameStart)
  {
    AfterSpaces(text, p, SpaceRun(text, p));
    SliceOccursAt(text, h.nameStart, h.nameEnd);
  }

  /** The end of the leading spaces of a line is not preceded by a word
      character. */
  lemma AfterSpaces(text: string, p: nat, a: nat)
    requires p <= a <= |text| && AtLineStart(text, p)
    requires forall k :: p <= k < a ==> IsSpace(text[k])
    ensures a == 0 || !IsWordChar(text[a - 1])
  {
    if a > p {
      assert IsSpace(text[a - 1]);
    }
  }

  function FunctionPattern(name: string, shape: Outline.Shape): Matcher {
    (t: string, p: nat) => FunctionSite(t, p, name, shape)
  }

  function FunctionMatches(text: string, name: string, shape: Outline.Shape): seq<Match> {
    AllMatches(FunctionPattern(name, shape), text, 0)
  }

  /** A function site where the outline lists a function of that name,
      and, for the two block shapes, conversely: the two providers read a
      block function's declaration alike. An arrow function the outline
      misses is one whose `=>` ends the text. */
  lemma FunctionSiteAgreesWithOutline(text: string, p: nat, name: string, shape: Outline.Shape)
    ensures Outline.DeclAt(text, p, shape, false).Some? && Outline.DeclAt(text, p, shape, false).value.groups[0] == name
            ==> FunctionSite(text, p, name, shape).Some?
                && FunctionSite(text, p, name, shape).value.nameAt == Outline.DeclAt(text, p, shape, false).value.nameAt
    ensures (shape.Block? || shape.TypedBlock?) && FunctionSite(text, p, name, shape).Some?
            ==> Outline.DeclAt(text, p, shape, false).Some? && Outline.DeclAt(text, p, shape, false).value.groups[0] == name
  {
    if p <= |text| && AtLineStart(text, p) {
      var a := SpaceRun(text, p);
      assert Outline.DeclHead(text, p, false) == HeadAt(text, a);
      match HeadAt(text, a)
      case None =>
      case Some(h) =>
        TailAgrees(text, h.after, shape);
    }
  }

  /** The tails after the parameters: where the outline's tail matches, so
      does the definition pattern's, and for the block shapes conversely. */
  lemma TailAgrees(text: string, k: nat, shape: Outline.Shape)
    requires k <= |text|
    ensures Outline.DeclTail(text, k, shape).Some? ==> FunctionTail(text, k, shape).Some?
    ensures (shape.Block? || shape.TypedBlock?) && FunctionTail(text, k, shape).Some?
            ==> Outline.DeclTail(text, k, shape).Some?
  {
  }

  // ---------------------------------------------------------------------------
  // Variable declarations

  /** The four variable patterns: `^\s*let\s+(name)\s*[=,]`,
      `^\s*const\s+(name)\s*=`, `^\s*let\s+\w+\s*,\s*(name)\s*=` and
      `^\s*let\s+(name)\s*,\s*\w+\s*=`. */
  datatype Binding = Let | Const | LetSecond | LetFirst

  function Keyword(b: Binding): string {
    if b.Const? then "const" else "let"
  }

  /** `(name)\s*` followed by `=`, or by `,` when `comma` holds, from `k`. */
  function NameThen(text: string, k: nat, name: string, comma: bool): (r: Option<nat>)
    requires k <= |text|
    ensures r.Some? ==> k + |name| < r.value <= |text| && OccursAt(text, name, k)
    ensures r.Some? ==> !IsWordChar(text[k + |name|])
    ensures r.Some? ==> text[r.value - 1] == '=' || (comma && text[r.value - 1] == ',')
  {
    if !OccursAt(text, name, k) then None
    else match SpacesThen(text, k + |name|, '=')
      case Some(e) => Some(e)
      case None => if comma then SpacesThen(text, k + |name|, ',') else None
  }

  /** `^\s*kw\s+` tried at `p`: where the bound names start. */
  function BindingStart(text: string, p: nat, kw: string): (r: Option<nat>)
    ensures r.Some? ==> AtLineStart(text, p) && p < r.value <= |text| && IsSpace(text[r.value - 1])
  {
    if p > |text| || !AtLineStart(text, p) then None
    else
      var a := SpaceRun(text, p);
      if !OccursAt(text, kw, a) then None
      else
        var c := SpaceRun(text, a + |kw|);
        if c == a + |kw| then None else Some(c)
  }

  /** `\w+\s*,\s*` from `c`: where the second bound name starts. */
  function PairComma(text: string, c: nat): (r: Option<nat>)
    requires c <= |text|
    ensures r.Some? ==> c < r.value <= |text| && !IsWordChar(text[r.value - 1])
  {
    var w := WordRun(text, c);
    if w == c then None
    else match SpacesThen(text, w, ',')
      case None => None
      case Some(s) => Some(SpaceRun(text, s))
  }

  /** `\s*,\s*\w+\s*=` from `k`: the end of the match. */
  function CommaWordEquals(text: string, k: nat): (r: Option<nat>)
    requires k <= |text|
    ensures r.Some? ==> k < r.value <= |text| && text[r.value - 1] == '='
    ensures r.Some? ==> !IsWordChar(text[k])
  {
    match SpacesThen(text, k, ',')
    case None => None
    case Some(s) =>
      var t := SpaceRun(text, s);
      var w := WordRun(text, t);
      if w == t then None else SpacesThen(text, w, '=')
  }

  /** A capture of `name` found from `c`: the name stands whole, at or after
      `c`, and the match runs past it. */
  predicate RestFits(text: string, c: nat, name: string, r: Option<Capture>) {
    r.Some? ==>
      && c <= r.value.nameAt && r.value.nameAt + |name| < r.value.end <= |text|
      && r.value.groups == [name] && OccursAt(text, name, r.value.nameAt)
      && !IsWordChar(text[r.value.nameAt + |name|])
      && (c < r.value.nameAt ==> !IsWordChar(text[r.value.nameAt - 1]))
  }

  /** What each variable pattern requires after `let\s+` or `const\s+`,
      from `c`. */
  function BindingRest(text: string, c: nat, name: string, b: Binding): (r: Option<Capture>)
    requires c <= |text|
    ensures RestFits(text, c, name, r)
  {
    match b
    case Let => NamedRest(text, c, name, true)
    case Const => NamedRest(text, c, name, false)
    case LetSecond => SecondRest(text, c, name)
    case LetFirst => FirstRest(text, c, name)
  }

  /** `(x)\s*[=,]` after `let`, `(x)\s*=` after `const`: the name right at `c`. */
  function NamedRest(text: string, c: nat, name: string, isLet: bool): (r: Option<Capture>)
    requires c <= |text|
    ensures RestFits(text, c, name, r)
  {
    match NameThen(text, c, name, isLet)
    case None => None
    case Some(e) => Some(Capture(e, c, [name]))
  }

  /** `\w+\s*,\s*(x)\s*=` after `let`: the second name of an error binding. */
  function SecondRest(text: string, c: nat, name: string): (r: Option<Capture>)
    requires c <= |text|
    ensures RestFits(text, c, name, r)
  {
    match PairComma(text, c)
    case None => None
    case Some(t) =>
      match NameThen(text, t, name, false)
      case None => None
      case Some(e) => Some(Capture(e, t, [name]))
  }

  /** `(x)\s*,\s*\w+\s*=` after `let`: the first name of an error binding. */
  function FirstRest(text: string, c: nat, name: string): (r: Option<Capture>)
    requires c <= |text|
    ensures RestFits(text, c, name, r)
  {
    if !OccursAt(text, name, c) then None
    else
      match CommaWordEquals(text, c + |name|)
      case None => None
      case Some(e) => Some(Capture(e, c, [name]))
  }

  /** The variable pattern of binding `b` tried at `p`. */
  function VariableSite(text: string, p: nat, name: string, b: Binding): (r: Option<Capture>)
    ensures r.Some? ==> AtLineStart(text, p) && p < r.value.nameAt && r.value.nameAt + |name| < r.value.end <= |text|
    ensures r.Some? ==> r.value.groups == [name] && WholeWordAt(text, name, r.value.nameAt)
  {
    match BindingStart(text, p, Keyword(b))
    case None => None
    case Some(c) =>
      BindingRestWholeWord(text, c, name, b);
      BindingRest(text, c, name, b)
  }

  /** After the spaces that follow the keyword, a captured name is a whole
      word. */
  lemma BindingRestWholeWord(text: string, c: nat, name: string, b: Binding)
    requires 0 < c <= |text| && IsSpace(text[c - 1])
    ensures BindingRest(text, c, name, b).Some? ==> WholeWordAt(text, name, BindingRest(text, c, name, b).value.nameAt)
  {
    WordCharsAreNotSpaces(text[c - 1]);
  }

  /** `^\s*kw\s+` is read at every line start holding spaces, the keyword
      and at least one space before a non-space. */
  lemma BindingStartAt(text: string, p: nat, kw: string, a: nat, c: nat)
    requires AtLineStart(text, p) && p <= a && a + |kw| < c < |text| && |kw| > 0 && !IsSpace(kw[0])
    requires AllSpaces(text, p, a) && OccursAt(text, kw, a)
    requires AllSpaces(text, a + |kw|, c) && !IsSpace(text[c])
    ensures BindingStart(text, p, kw) == Some(c)
  {
    assert text[a] == kw[0];
    SpaceRunReaches(text, p, a);
    SpaceRunReaches(text, a + |kw|, c);
  }

  /** Every `let name =` and `let name,` line is found, with the name at `c`. */
  lemma LetSiteComplete(text: string, p: nat, name: string, a: nat, c: nat, e: nat)
    requires IsWord(name) && AtLineStart(text, p) && p <= a && a + 3 < c && c + |name| <= e < |text|
    requires AllSpaces(text, p, a) && OccursAt(text, "let", a) && AllSpaces(text, a + 3, c)
    requires OccursAt(text, name, c) && AllSpaces(text, c + |name|, e) && (text[e] == '=' || text[e] == ',')
    ensures VariableSite(text, p, name, Let) == Some(Capture(e + 1, c, [name]))
  {
    assert text[c] == name[0];
    WordCharsAreNotSpaces(name[0]);
    BindingStartAt(text, p, "let", a, c);
    SpaceRunReaches(text, c + |name|, e);
    assert NameThen(text, c, name, true) == Some(e + 1);
  }

  /** Every `const name =` line is found, with the name at `c`. */
  lemma ConstSiteComplete(text: string, p: nat, name: string, a: nat, c: nat, e: nat)
    requires IsWord(name) && AtLineStart(text, p) && p <= a && a + 5 < c && c + |name| <= e < |text|
    requires AllSpaces(text, p, a) && OccursAt(text, "const", a) && AllSpaces(text, a + 5, c)
    requires OccursAt(text, name, c) && AllSpaces(text, c + |name|, e) && text[e] == '='
    ensures VariableSite(text, p, name, Const) == Some(Capture(e + 1, c, [name]))
  {
    assert text[c] == name[0];
    WordCharsAreNotSpaces(name[0]);
    BindingStartAt(text, p, "const", a, c);
    SpaceRunReaches(text, c + |name|, e);
    assert NameThen(text, c, name, false) == Some(e + 1);
  }

  /** Every `let first, name =` line is found, with the name at `t`. */
  lemma SecondSiteComplete(text: string, p: nat, name: string, a: nat, c: nat, w: nat, k: nat, t: nat, e: nat)
    requires IsWord(name) && AtLineStart(text, p) && p <= a && a + 3 < c < w <= k < t && t + |name| <= e < |text|
    requires AllSpaces(text, p, a) && OccursAt(text, "let", a) && AllSpaces(text, a + 3, c)
    requires IsWord(text[c..w]) && AllSpaces(text, w, k) && text[k] == ','
    requires AllSpaces(text, k + 1, t) && OccursAt(text, name, t)
    requires AllSpaces(text, t + |name|, e) && text[e] == '='
    ensures VariableSite(text, p, name, LetSecond) == Some(Capture(e + 1, t, [name]))
  {
    assert text[c] == text[c..w][0];
    BindingStartAt(text, p, "let", a, c);
    SecondRestAt(text, name, c, w, k, t, e);
    SiteFromRest(text, p, name, LetSecond, c);
  }

  /** `\w+\s*,\s*(name)\s*=` read at `c`. */
  lemma SecondRestAt(text: string, name: string, c: nat, w: nat, k: nat, t: nat, e: nat)
    requires IsWord(name) && c < w <= k < t && t + |name| <= e < |text|
    requires IsWord(text[c..w]) && AllSpaces(text, w, k) && text[k] == ','
    requires AllSpaces(text, k + 1, t) && OccursAt(text, name, t)
    requires AllSpaces(text, t + |name|, e) && text[e] == '='
    ensures BindingRest(text, c, name, LetSecond) == Some(Capture(e + 1, t, [name]))
  {
    assert text[t] == name[0];
    WordCharsAreNotSpaces(name[0]);
    PairCommaAt(text, c, w, k, t);
    NameThenAt(text, t, name, e, false);
    SecondRestFound(text, c, name, t, e + 1);
  }

  /** A name found after `\w+\s*,\s*` is found by the pair pattern that
      binds it second. */
  lemma SecondRestFound(text: string, c: nat, name: string, t: nat, e: nat)
    requires c <= |text| && PairComma(text, c) == Some(t) && NameThen(text, t, name, false) == Some(e)
    ensures BindingRest(text, c, name, LetSecond) == Some(Capture(e, t, [name]))
  {
  }

  /** Every `let name, second =` line is found, with the name at `c`. */
  lemma FirstSiteComplete(text: string, p: nat, name: string, a: nat, c: nat, k: nat, t: nat, w: nat, e: nat)
    requires IsWord(name) && AtLineStart(text, p) && p <= a && a + 3 < c && c + |name| <= k < t < w <= e < |text|
    requires AllSpaces(text, p, a) && OccursAt(text, "let", a) && AllSpaces(text, a + 3, c)
    requires OccursAt(text, name, c) && AllSpaces(text, c + |name|, k) && text[k] == ','
    requires AllSpaces(text, k + 1, t) && IsWord(text[t..w])
    requires AllSpaces(text, w, e) && text[e] == '='
    ensures VariableSite(text, p, name, LetFirst) == Some(Capture(e + 1, c, [name]))
  {
    assert text[c] == name[0];
    BindingStartAt(text, p, "let", a, c);
    FirstRestAt(text, name, c, k, t, w, e);
    SiteFromRest(text, p, name, LetFirst, c);
  }

  /** `(name)\s*,\s*\w+\s*=` read at `c`. */
  lemma FirstRestAt(text: string, name: string, c: nat, k: nat, t: nat, w: nat, e: nat)
    requires c + |name| <= k < t < w <= e < |text|
    requires OccursAt(text, name, c) && AllSpaces(text, c + |name|, k) && text[k] == ','
    requires AllSpaces(text, k + 1, t) && IsWord(text[t..w])
    requires AllSpaces(text, w, e) && text[e] == '='
    ensures BindingRest(text, c, name, LetFirst) == Some(Capture(e + 1, c, [name]))
  {
    CommaWordAt(text, c + |name|, k, t, w, e);
    FirstRestFound(text, c, name, e + 1);
  }

  /** Once the keyword and its spaces are read, the variable pattern is the
      rest of its binding. */
  lemma SiteFromRest(text: string, p: nat, name: string, b: Binding, c: nat)
    requires BindingStart(text, p, Keyword(b)) == Some(c)
    ensures VariableSite(text, p, name, b) == BindingRest(text, c, name, b)
  {
  }

  /** `(name)\s*=`, or `(name)\s*,` when `comma` holds, read at `k`. */
  lemma NameThenAt(text: string, k: nat, name: string, e: nat, comma: bool)
    requires k + |name| <= e < |text| && OccursAt(text, name, k) && AllSpaces(text, k + |name|, e)
    requires text[e] == '=' || (comma && text[e] == ',')
    ensures NameThen(text, k, name, comma) == Some(e + 1)
  {
    SpaceRunReaches(text, k + |name|, e);
  }

  /** `\w+\s*,\s*` read at `c`, up to a non-space at `t`. */
  lemma PairCommaAt(text: string, c: nat, w: nat, k: nat, t: nat)
    requires c < w <= k < t < |text| && IsWord(text[c..w]) && AllSpaces(text, w, k) && text[k] == ','
    requires AllSpaces(text, k + 1, t) && !IsSpace(text[t])
    ensures PairComma(text, c) == Some(t)
  {
    if w < k {
      WordCharsAreNotSpaces(text[w]);
    }
    SliceOccursAt(text, c, w);
    WordRunReaches(text, c, text[c..w]);
    SpaceRunReaches(text, w, k);
    SpaceRunReaches(text, k + 1, t);
  }

  /** `\s*,\s*\w+\s*=` read at `j`. */
  lemma CommaWordAt(text: string, j: nat, k: nat, t: nat, w: nat, e: nat)
    requires j <= k < t < w <= e < |text| && AllSpaces(text, j, k) && text[k] == ','
    requires AllSpaces(text, k + 1, t) && IsWord(text[t..w])
    requires AllSpaces(text, w, e) && text[e] == '='
    ensures CommaWordEquals(text, j) == Some(e + 1)
  {
    SpaceRunReaches(text, j, k);
    assert text[t] == text[t..w][0];
    WordCharsAreNotSpaces(text[t]);
    SpaceRunReaches(text, k + 1, t);
    if w < e {
      WordCharsAreNotSpaces(text[w]);
    }
    SliceOccursAt(text, t, w);
    WordRunReaches(text, t, text[t..w]);
    SpaceRunReaches(text, w, e);
    CommaWordEqualsFound(text, j, k + 1, w, e + 1);
  }

  function VariablePattern(name: string, b: Binding): Matcher {
    (t: string, p: nat) => VariableSite(t, p, name, b)
  }

  function VariableMatches(text: string, name: string, b: Binding): seq<Match> {
    AllMatches(VariablePattern(name, b), text, 0)
  }

  /** A word followed by a non-word character is where a greedy `\w+`
      stops. */
  lemma WordRunOfWord(text: string, k: nat, w: string)
    requires IsWord(w) && OccursAt(text, w, k)
    requires k + |w| == |text| || !IsWordChar(text[k + |w|])
    ensures WordRun(text, k) == k + |w|
  {
    assert forall j :: k <= j < k + |w| ==> text[j] == w[j - k];
  }

  /** The word a `let a, b =` declaration binds first. */
  function FirstBound(text: string, p: nat): string
    requires BindingStart(text, p, "let").Some?
  {
    var c := BindingStart(text, p, "let").value;
    text[c..WordRun(text, c)]
  }

  /** The pieces of `\w+\s*,\s*(b)\s*=` after `let\s+`: the end of the first
      word, the comma, the second name and the end of the match. */
  lemma PairPieces(text: string, c: nat, b: string) returns (w: nat, s: nat, t: nat, e: nat)
    requires c <= |text| && BindingRest(text, c, b, LetSecond).Some?
    ensures c < w == WordRun(text, c) && IsWord(text[c..w])
    ensures SpacesThen(text, w, ',') == Some(s) && t == SpaceRun(text, s)
    ensures OccursAt(text, b, t) && SpacesThen(text, t + |b|, '=') == Some(e)
    ensures BindingRest(text, c, b, LetSecond) == Some(Capture(e, t, [b]))
  {
    w := WordRun(text, c);
    s := SpacesThen(text, w, ',').value;
    t := SpaceRun(text, s);
    assert PairComma(text, c) == Some(t);
    e := NameThen(text, t, b, false).value;
  }

  /** After `let\s+`, a pair whose second name is found is one whose first
      name is found, by the pair pattern and the plain pattern alike. */
  lemma FirstOfPair(text: string, c: nat, b: string)
    requires c <= |text| && IsWord(b) && BindingRest(text, c, b, LetSecond).Some?
    ensures c < WordRun(text, c) && IsWord(text[c..WordRun(text, c)])
    ensures BindingRest(text, c, text[c..WordRun(text, c)], LetFirst).Some?
    ensures BindingRest(text, c, text[c..WordRun(text, c)], Let).Some?
    ensures c < BindingRest(text, c, b, LetSecond).value.nameAt
  {
    var w, s, t, e := PairPieces(text, c, b);
    var first := text[c..w];
    assert c + |first| == w;
    WordRunOfWord(text, t, b);
    CommaWordEqualsFound(text, w, s, t + |b|, e);
    assert OccursAt(text, first, c);
    FirstRestFound(text, c, first, e);
    LetRestFound(text, c, first, s);
  }

  /** `\s*,\s*\w+\s*=` from `k`, read piece by piece. */
  lemma CommaWordEqualsFound(text: string, k: nat, s: nat, w: nat, e: nat)
    requires k <= |text| && SpacesThen(text, k, ',') == Some(s)
    requires SpaceRun(text, s) < w == WordRun(text, SpaceRun(text, s))
    requires SpacesThen(text, w, '=') == Some(e)
    ensures CommaWordEquals(text, k) == Some(e)
  {
  }

  /** A name at `c` followed by `\s*,` but not by `\s*=` is found by the
      plain `let` pattern. */
  lemma LetRestFound(text: string, c: nat, name: string, s: nat)
    requires c + |name| <= |text| && OccursAt(text, name, c)
    requires SpacesThen(text, c + |name|, '=').None? && SpacesThen(text, c + |name|, ',') == Some(s)
    ensures BindingRest(text, c, name, Let) == Some(Capture(s, c, [name]))
  {
  }

  /** A name at `c` followed by `\s*,\s*\w+\s*=` is found by the pair
      pattern that binds it first. */
  lemma FirstRestFound(text: string, c: nat, name: string, e: nat)
    requires c + |name| <= |text| && OccursAt(text, name, c)
    requires CommaWordEquals(text, c + |name|) == Some(e)
    ensures BindingRest(text, c, name, LetFirst) == Some(Capture(e, c, [name]))
  {
  }

  /** The pieces of `(a)\s*,\s*\w+\s*=` after `let\s+`: the comma, the
      second word and the end of the match. */
  lemma FirstPairPieces(text: string, c: nat, a: string) returns (s: nat, t: nat, w: nat, e: nat)
    requires c <= |text| && BindingRest(text, c, a, LetFirst).Some?
    ensures OccursAt(text, a, c) && SpacesThen(text, c + |a|, ',') == Some(s)
    ensures t == SpaceRun(text, s) && t < w == WordRun(text, t) && SpacesThen(text, w, '=') == Some(e)
    ensures IsWord(text[t..w])
    ensures BindingRest(text, c, a, LetFirst) == Some(Capture(e, c, [a]))
  {
    s := SpacesThen(text, c + |a|, ',').value;
    t := SpaceRun(text, s);
    w := WordRun(text, t);
    e := SpacesThen(text, w, '=').value;
    assert CommaWordEquals(text, c + |a|) == Some(e);
  }

  /** After `let\s+`, a pair whose first name is found is one whose second
      name is found, with the same match end. */
  lemma SecondOfPair(text: string, c: nat, a: string) returns (b: string)
    requires c <= |text| && IsWord(a) && BindingRest(text, c, a, LetFirst).Some?
    ensures IsWord(b) && BindingRest(text, c, b, LetSecond).Some?
    ensures BindingRest(text, c, b, LetSecond).value.end == BindingRest(text, c, a, LetFirst).value.end
  {
    var s, t, w, e := FirstPairPieces(text, c, a);
    b := text[t..w];
    WordRunOfWord(text, c, a);
    assert PairComma(text, c) == Some(t);
    assert OccursAt(text, b, t);
    assert NameThen(text, t, b, false) == Some(e);
  }

  /** Both names of `let a, b =` resolve: wherever the second name is found,
      the first is found at the same line start by the pattern for the first
      name, and also by the plain `let` pattern, which stops at the comma. */
  lemma SecondNameFindsFirst(text: string, p: nat, b: string)
    requires IsWord(b) && VariableSite(text, p, b, LetSecond).Some?
    ensures BindingStart(text, p, "let").Some? && IsWord(FirstBound(text, p))
    ensures VariableSite(text, p, FirstBound(text, p), LetFirst).Some?
    ensures VariableSite(text, p, FirstBound(text, p), Let).Some?
    ensures VariableSite(text, p, FirstBound(text, p), LetFirst).value.nameAt < VariableSite(text, p, b, LetSecond).value.nameAt
  {
    var c := BindingStart(text, p, "let").value;
    assert VariableSite(text, p, b, LetSecond) == BindingRest(text, c, b, LetSecond);
    FirstOfPair(text, c, b);
    var first := FirstBound(text, p);
    assert VariableSite(text, p, first, LetFirst) == BindingRest(text, c, first, LetFirst);
    assert VariableSite(text, p, first, Let) == BindingRest(text, c, first, Let);
  }

  /** Conversely, wherever the first name of a pair is found, the word after
      the comma is found by the pattern for the second name. */
  lemma FirstNameFindsSecond(text: string, p: nat, a: string)
    requires IsWord(a) && VariableSite(text, p, a, LetFirst).Some?
    ensures exists b :: IsWord(b) && VariableSite(text, p, b, LetSecond).Some?
                        && VariableSite(text, p, b, LetSecond).value.end == VariableSite(text, p, a, LetFirst).value.end
  {
    var c := BindingStart(text, p, "let").value;
    assert VariableSite(text, p, a, LetFirst) == BindingRest(text, c, a, LetFirst);
    var b := SecondOfPair(text, c, a);
    assert VariableSite(text, p, b, LetSecond) == BindingRest(text, c, b, LetSecond);
  }

  // ---------------------------------------------------------------------------
  // Class declarations

  /** `^\s*(name)\s*{` tried at `p`. */
  function ClassSite(text: string, p: nat, name: string): (r: Option<Capture>)
    ensures r.Some? ==> AtLineStart(text, p) && p <= r.value.nameAt && r.value.nameAt + |name| < r.value.end <= |text|
    ensures r.Some? ==> forall k :: p <= k < r.value.nameAt ==> IsSpace(text[k])
    ensures r.Some? ==> r.value.groups == [name] && WholeWordAt(text, name, r.value.nameAt)
    ensures r.Some? ==> text[r.value.end - 1] == '{'
  {
    if p > |text| || !AtLineStart(text, p) then None
    else
      var a := SpaceRun(text, p);
      if !OccursAt(text, name, a) then None
      else match SpacesThen(text, a + |name|, '{')
        case None => None
        case Some(e) => Some(Capture(e, a, [name]))
  }

  function ClassPattern(name: string): Matcher {
    (t: string, p: nat) => ClassSite(t, p, name)
  }

  function ClassMatches(text: string, name: string): seq<Match> {
    AllMatches(ClassPattern(name), text, 0)
  }

  /** `className[0] === className[0].toUpperCase()`: among word characters
      only the lower-case letters change under `toUpperCase`, so a name
      starting with a digit or `_` passes too. */
  predicate CapitalisedName(name: string) {
    |name| > 0 && !IsLower(name[0])
  }

  /** For a name starting with a capital, the class pattern and the
      outline's class pattern agree at every position. */
  lemma ClassSiteAgreesWithOutline(text: string, p: nat, name: string)
    requires IsWord(name) && IsUpper(name[0])
    ensures ClassSite(text, p, name).Some?
            <==> Outline.ClassAt(text, p).Some? && Outline.ClassAt(text, p).value.groups[0] == name
    ensures ClassSite(text, p, name).Some? ==> ClassSite(text, p, name).value.nameAt == Outline.ClassAt(text, p).value.nameAt
  {
    if ClassSite(text, p, name).Some? {
      ClassSiteIsOutlined(text, p, name);
    }
    if Outline.ClassAt(text, p).Some? && Outline.ClassAt(text, p).value.groups[0] == name {
      OutlinedClassIsSite(text, p, name);
    }
  }

  lemma ClassSiteIsOutlined(text: string, p: nat, name: string)
    requires IsWord(name) && IsUpper(name[0]) && ClassSite(text, p, name).Some?
    ensures Outline.ClassAt(text, p) == Some(Capture(ClassSite(text, p, name).value.end, SpaceRun(text, p), [name]))
  {
    var a := SpaceRun(text, p);
    assert OccursAt(text, name, a);
    WordRunOfWord(text, a, name);
    assert text[a] == name[0];
  }

  lemma OutlinedClassIsSite(text: string, p: nat, name: string)
    requires Outline.ClassAt(text, p).Some? && Outline.ClassAt(text, p).value.groups[0] == name
    ensures ClassSite(text, p, name) == Some(Capture(Outline.ClassAt(text, p).value.end, SpaceRun(text, p), [name]))
  {
    var a := SpaceRun(text, p);
    assert OccursAt(text, name, a);
  }

  // ---------------------------------------------------------------------------
  // Definition locations

  /** A match of one of the declaration patterns for `name`: it starts at a
      line start, and its captured name is a whole-word occurrence inside
      it. */
  predicate NamedSite(text: string, name: string, m: Match) {
    AtLineStart(text, m.start) && m.start <= m.nameAt && m.nameAt + |name| <= m.end <= |text|
    && WholeWordAt(text, name, m.nameAt)
  }

  predicate NamedSites(text: string, name: string, ms: seq<Match>) {
    forall i :: 0 <= i < |ms| ==> NamedSite(text, name, ms[i])
  }

  lemma FunctionMatchesNamed(text: string, name: string, shape: Outline.Shape)
    ensures NamedSites(text, name, FunctionMatches(text, name, shape))
  {
    var ms := FunctionMatches(text, name, shape);
    forall i | 0 <= i < |ms|
      ensures NamedSite(text, name, ms[i])
    {
      assert MatchesAt(FunctionPattern(name, shape), text, ms[i]);
    }
  }

  lemma VariableMatchesNamed(text: string, name: string, b: Binding)
    ensures NamedSites(text, name, VariableMatches(text, name, b))
  {
    var ms := VariableMatches(text, name, b);
    forall i | 0 <= i < |ms|
      ensures NamedSite(text, name, ms[i])
    {
      assert MatchesAt(VariablePattern(name, b), text, ms[i]);
    }
  }

  lemma ClassMatchesNamed(text: string, name: string)
    ensures NamedSites(text, name, ClassMatches(text, name))
  {
    var ms := ClassMatches(text, name);
    forall i | 0 <= i < |ms|
      ensures NamedSite(text, name, ms[i])
    {
      assert MatchesAt(ClassPattern(name), text, ms[i]);
    }
  }

  /** Where a function or class location starts: as written the match
      start, which is a line start; once corrected the captured name. */
  function Anchors(text: string, name: string, ms: seq<Match>, v: Outline.Variant): (r: seq<nat>)
    requires NamedSites(text, name, ms)
    ensures |r| == |ms|
    ensures forall o :: o in r ==> o <= |text|
    ensures v == Outline.AsWritten ==> forall o :: o in r ==> AtLineStart(text, o)
    ensures v == Outline.Corrected ==> forall o :: o in r ==> WholeWordAt(text, name, o)
  {
    seq(|ms|, i requires 0 <= i < |ms| => if v == Outline.AsWritten then ms[i].start else ms[i].nameAt)
  }

  /** Where a variable location starts: as written
      `match.index + match[0].indexOf(match[1])`, the first occurrence of the
      name in the matched text; once corrected, the captured name. */
  function VariableAnchor(text: string, name: string, m: Match, v: Outline.Variant): (r: nat)
    requires NamedSite(text, name, m)
    ensures m.start <= r <= m.nameAt && OccursAt(text, name, r)
    ensures v == Outline.AsWritten ==> forall j :: m.start <= j < r ==> !OccursAt(text, name, j)
    ensures v == Outline.Corrected ==> WholeWordAt(text, name, r)
  {
    if v == Outline.Corrected then m.nameAt
    else
      var found := IndexOf(text[m.start..m.end], name, 0);
      SliceOccurrence(text, m.start, m.end, name, m.nameAt);
      assert found.Some? && found.value <= m.nameAt - m.start;
      SliceOccurrence(text, m.start, m.end, name, m.start + found.value);
      assert forall j :: m.start <= j < m.start + found.value ==> !OccursAt(text, name, j) by {
        forall j | m.start <= j < m.start + found.value
          ensures !OccursAt(text, name, j)
        {
          SliceOccurrence(text, m.start, m.end, name, j);
        }
      }
      m.start + found.value
  }

  function VariableAnchors(text: string, name: string, ms: seq<Match>, v: Outline.Variant): (r: seq<nat>)
    requires NamedSites(text, name, ms)
    ensures |r| == |ms|
    ensures forall o :: o in r ==> o <= |text| && OccursAt(text, name, o)
    ensures v == Outline.Corrected ==> forall o :: o in r ==> WholeWordAt(text, name, o)
  {
    seq(|ms|, i requires 0 <= i < |ms| => VariableAnchor(text, name, ms[i], v))
  }

  /** A property that holds of every element of four sequences holds of
      every element of their concatenation. */
  lemma Within4(a: seq<nat>, b: seq<nat>, c: seq<nat>, d: seq<nat>, P: nat -> bool)
    requires forall o :: o in a ==> P(o)
    requires forall o :: o in b ==> P(o)
    requires forall o :: o in c ==> P(o)
    requires forall o :: o in d ==> P(o)
    ensures forall o :: o in a + b + c + d ==> P(o)
  {
  }

  /** `findFunctionDefinitions`: the four shapes in turn. */
  function FunctionOffsets(text: string, name: string, v: Outline.Variant): (r: seq<nat>)
    ensures forall o :: o in r ==> o <= |text|
  {
    FunctionMatchesNamed(text, name, Outline.Arrow);
    FunctionMatchesNamed(text, name, Outline.Block);
    FunctionMatchesNamed(text, name, Outline.TypedBlock);
    FunctionMatchesNamed(text, name, Outline.TypedArrow);
    var a := Anchors(text, name, FunctionMatches(text, name, Outline.Arrow), v);
    var b := Anchors(text, name, FunctionMatches(text, name, Outline.Block), v);
    var c := Anchors(text, name, FunctionMatches(text, name, Outline.TypedBlock), v);
    var d := Anchors(text, name, FunctionMatches(text, name, Outline.TypedArrow), v);
    Within4(a, b, c, d, o => o <= |text|);
    a + b + c + d
  }

  /** `findVariableDeclarations`: the four bindings in turn. */
  function VariableOffsets(text: string, name: string, v: Outline.Variant): (r: seq<nat>)
    ensures forall o :: o in r ==> o <= |text|
  {
    VariableMatchesNamed(text, name, Let);
    VariableMatchesNamed(text, name, Const);
    VariableMatchesNamed(text, name, LetSecond);
    VariableMatchesNamed(text, name, LetFirst);
    var a := VariableAnchors(text, name, VariableMatches(text, name, Let), v);
    var b := VariableAnchors(text, name, VariableMatches(text, name, Const), v);
    var c := VariableAnchors(text, name, VariableMatches(text, name, LetSecond), v);
    var d := VariableAnchors(text, name, VariableMatches(text, name, LetFirst), v);
    Within4(a, b, c, d, o => o <= |text|);
    a + b + c + d
  }

  /** `findClassDefinitions`: the class matches, kept only for a name that
      passes the capital-letter test. */
  function ClassOffsets(text: string, name: string, v: Outline.Variant): (r: seq<nat>)
    ensures forall o :: o in r ==> o <= |text|
  {
    ClassMatchesNamed(text, name);
    if CapitalisedName(name) then Anchors(text, name, ClassMatches(text, name), v) else []
  }

  /** Three lists of offsets within the text, one after another. */
  function Join(text: string, a: seq<nat>, b: seq<nat>, c: seq<nat>): (r: seq<nat>)
    requires forall o :: o in a ==> o <= |text|
    requires forall o :: o in b ==> o <= |text|
    requires forall o :: o in c ==> o <= |text|
    ensures forall o :: o in r ==> o <= |text|
  {
    a + b + c
  }

  /** `findDefinitionsInDocument` */
  function DefinitionOffsets(text: string, name: string, v: Outline.Variant): (r: seq<nat>)
    ensures forall o :: o in r ==> o <= |text|
  {
    Join(text, FunctionOffsets(text, name, v), VariableOffsets(text, name, v), ClassOffsets(text, name, v))
  }

  function Spans(text: string, offs: seq<nat>, len: nat): (r: seq<Range>)
    requires forall o :: o in offs ==> o <= |text|
    ensures |r| == |offs|
  {
    seq(|offs|, i requires 0 <= i < |offs| => assert offs[i] in offs; Span(text, offs[i], len))
  }

  /** `provideDefinition`: the first definition of the word under the
      cursor, which the host supplies (`None` when there is no word). */
  function ProvideDefinition(text: string, word: Option<string>, v: Outline.Variant): Option<Range>
    requires word.Some? ==> IsWord(word.value)
  {
    match word
    case None => None
    case Some(w) =>
      var offs := DefinitionOffsets(text, w, v);
      if |offs| == 0 then None else assert offs[0] in offs; Some(Span(text, offs[0], |w|))
  }

  // ---------------------------------------------------------------------------
  // References

  /** `\b` at `i`: a word character on exactly one side. */
  predicate Boundary(text: string, i: nat) {
    (0 < i <= |text| && IsWordChar(text[i - 1])) != (i < |text| && IsWordChar(text[i]))
  }

  /** `\bname\b` tried at `p`. */
  function ReferenceSite(text: string, p: nat, name: string): (r: Option<Capture>)
    ensures r.Some? ==> OccursAt(text, name, p) && r.value.nameAt == p && r.value.end == p + |name|
  {
    if Boundary(text, p) && OccursAt(text, name, p) && Boundary(text, p + |name|)
    then Some(Capture(p + |name|, p, [name]))
    else None
  }

  function ReferencePattern(name: string): Matcher {
    (t: string, p: nat) => ReferenceSite(t, p, name)
  }

  /** For a word, `\bname\b` matches exactly at its whole-word occurrences. */
  lemma ReferenceSiteIsWholeWord(text: string, p: nat, name: string)
    requires IsWord(name)
    ensures ReferenceSite(text, p, name).Some? <==> WholeWordAt(text, name, p)
  {
    if OccursAt(text, name, p) {
      assert text[p] == name[0];
      assert text[p + |name| - 1] == name[|name| - 1];
    }
  }

  /** Where each match starts. */
  function Starts(ms: seq<Match>): (r: seq<nat>)
    ensures |r| == |ms|
  {
    seq(|ms|, i requires 0 <= i < |ms| => ms[i].start)
  }

  function ReferenceMatches(text: string, name: string): seq<Match> {
    AllMatches(ReferencePattern(name), text, 0)
  }

  /** `findReferencesInDocument`: where each match of `\bname\b` starts. */
  function ReferenceOffsets(text: string, name: string): (r: seq<nat>)
    ensures forall o :: o in r ==> o <= |text|
  {
    var ms := ReferenceMatches(text, name);
    var r := Starts(ms);
    assert forall i :: 0 <= i < |ms| ==> MatchesAt(ReferencePattern(name), text, ms[i]);
    r
  }

  /** Every reference is a whole-word occurrence. */
  lemma ReferenceSound(text: string, name: string, o: nat)
    requires IsWord(name) && o in ReferenceOffsets(text, name)
    ensures WholeWordAt(text, name, o)
  {
    var ms := ReferenceMatches(text, name);
    var i :| 0 <= i < |ms| && Starts(ms)[i] == o;
    assert MatchesAt(ReferencePattern(name), text, ms[i]);
    ReferenceSiteIsWholeWord(text, o, name);
  }

  /** Two whole-word occurrences of a word never overlap. */
  lemma WholeWordsApart(text: string, name: string, q: nat, o: nat)
    requires IsWord(name) && q < o && WholeWordAt(text, name, q) && WholeWordAt(text, name, o)
    ensures q + |name| <= o
  {
  }

  /** Every whole-word occurrence is a reference. */
  lemma ReferenceComplete(text: string, name: string, o: nat)
    requires IsWord(name) && WholeWordAt(text, name, o)
    ensures o in ReferenceOffsets(text, name)
  {
    var pattern := ReferencePattern(name);
    ReferenceSiteIsWholeWord(text, o, name);
    forall q | 0 <= q < o && pattern(text, q).Some?
      ensures Resume(Match(q, pattern(text, q).value.end, 0, [])) <= o
    {
      ReferenceSiteIsWholeWord(text, q, name);
      WholeWordsApart(text, name, q, o);
    }
    AllMatchesComplete(pattern, text, 0, o);
    var ms := ReferenceMatches(text, name);
    var i :| 0 <= i < |ms| && ms[i].start == o;
    assert Starts(ms)[i] == o;
  }

  /** References come in text order, each ending before the next begins. */
  lemma ReferencesOrdered(text: string, name: string)
    requires IsWord(name)
    ensures forall i, j :: 0 <= i < j < |ReferenceOffsets(text, name)|
              ==> ReferenceOffsets(text, name)[i] + |name| <= ReferenceOffsets(text, name)[j]
  {
    var ms := ReferenceMatches(text, name);
    var r := ReferenceOffsets(text, name);
    forall i, j | 0 <= i < j < |r|
      ensures r[i] + |name| <= r[j]
    {
      assert MatchesAt(ReferencePattern(name), text, ms[i]);
      assert Resume(ms[i]) <= ms[j].start;
    }
  }

  /** The references are exactly the whole-word occurrences of the name, in
      text order; `x` inside `xx` is never one. */
  lemma ReferencesExact(text: string, name: string)
    requires IsWord(name)
    ensures forall o: nat :: o in ReferenceOffsets(text, name) <==> WholeWordAt(text, name, o)
    ensures forall i, j :: 0 <= i < j < |ReferenceOffsets(text, name)|
              ==> ReferenceOffsets(text, name)[i] + |name| <= ReferenceOffsets(text, name)[j]
  {
    forall o: nat
      ensures o in ReferenceOffsets(text, name) <==> WholeWordAt(text, name, o)
    {
      if o in ReferenceOffsets(text, name) {
        ReferenceSound(text, name, o);
      }
      if WholeWordAt(text, name, o) {
        ReferenceComplete(text, name, o);
      }
    }
    ReferencesOrdered(text, name);
  }

  /** `^\s*(let|const|fn)\s+` on a line's text. */
  predicate DeclarationKeyword(line: string) {
    var a := SpaceRun(line, 0);
    KeywordThenSpace(line, a, "let") || KeywordThenSpace(line, a, "const") || KeywordThenSpace(line, a, "fn")
  }

  predicate KeywordThenSpace(line: string, a: nat, kw: string) {
    OccursAt(line, kw, a) && a + |kw| < |line| && IsSpace(line[a + |kw|])
  }

  /** The line of the reference at `o` starts with a declaration keyword and
      contains the word anywhere. */
  predicate OnDeclarationLine(text: string, w: string, o: nat)
    requires o <= |text|
  {
    var line := LineText(text, o);
    DeclarationKeyword(line) && Contains(line, w)
  }

  /** The filter applied when the declaration is not wanted. */
  function WithoutDeclarations(text: string, w: string, offs: seq<nat>): (r: seq<nat>)
    requires forall o :: o in offs ==> o <= |text|
    ensures forall o :: o in r ==> o in offs
  {
    if |offs| == 0 then []
    else
      assert offs[0] in offs;
      assert forall o :: o in offs[1..] ==> o in offs;
      (if OnDeclarationLine(text, w, offs[0]) then [] else [offs[0]])
      + WithoutDeclarations(text, w, offs[1..])
  }

  /** The filter keeps exactly the offsets off declaration lines. */
  lemma {:induction false} WithoutDeclarationsMembers(text: string, w: string, offs: seq<nat>)
    requires forall o :: o in offs ==> o <= |text|
    ensures forall o: nat :: o in WithoutDeclarations(text, w, offs)
              <==> o in offs && o <= |text| && !OnDeclarationLine(text, w, o)
  {
    if |offs| > 0 {
      assert forall o :: o in offs[1..] ==> o in offs;
      WithoutDeclarationsMembers(text, w, offs[1..]);
      assert forall o :: o in offs <==> o == offs[0] || o in offs[1..];
    }
  }

  /** The filter keeps the offsets in their order. */
  lemma {:induction false} WithoutDeclarationsOrdered(text: string, w: string, offs: seq<nat>)
    requires forall o :: o in offs ==> o <= |text|
    requires forall i, j :: 0 <= i < j < |offs| ==> offs[i] < offs[j]
    ensures forall i, j :: 0 <= i < j < |WithoutDeclarations(text, w, offs)|
              ==> WithoutDeclarations(text, w, offs)[i] < WithoutDeclarations(text, w, offs)[j]
  {
    if |offs| > 0 {
      var tail := offs[1..];
      assert offs[0] in offs;
      assert forall o :: o in tail ==> o in offs;
      WithoutDeclarationsOrdered(text, w, tail);
      TailAbove(offs);
      var head := if OnDeclarationLine(text, w, offs[0]) then [] else [offs[0]];
      var rest := WithoutDeclarations(text, w, tail);
      var r := head + rest;
      assert WithoutDeclarations(text, w, offs) == r;
      forall i, j | 0 <= i < j < |r|
        ensures r[i] < r[j]
      {
        if i < |head| {
          assert r[j] == rest[j - |head|];
          assert rest[j - |head|] in rest;
        }
      }
    }
  }

  lemma TailAbove(offs: seq<nat>)
    requires |offs| > 0
    requires forall i, j :: 0 <= i < j < |offs| ==> offs[i] < offs[j]
    ensures forall o :: o in offs[1..] ==> offs[0] < o
  {
    forall o | o in offs[1..]
      ensures offs[0] < o
    {
      var k :| 0 <= k < |offs[1..]| && offs[1..][k] == o;
      assert offs[k + 1] == o;
    }
  }

  /** The references the provider returns, as offsets. */
  function KeptReferences(text: string, w: string, includeDeclaration: bool): (r: seq<nat>)
    ensures forall o :: o in r ==> o <= |text|
  {
    var refs := ReferenceOffsets(text, w);
    if includeDeclaration then refs else WithoutDeclarations(text, w, refs)
  }

  /** `provideReferences` for the word under the cursor, which the host
      supplies (`None` when there is no word). */
  function ProvideReferences(text: string, word: Option<string>, includeDeclaration: bool): Option<seq<Range>>
    requires word.Some? ==> IsWord(word.value)
  {
    match word
    case None => None
    case Some(w) => Some(Spans(text, KeptReferences(text, w, includeDeclaration), |w|))
  }

  /** What `provideReferences` returns: every whole-word occurrence of the
      word, in text order, less those on a declaration line when the
      declaration is not wanted. */
  lemma ProvideReferencesExact(text: string, w: string, includeDeclaration: bool)
    requires IsWord(w)
    ensures forall o: nat :: o in KeptReferences(text, w, includeDeclaration)
              <==> WholeWordAt(text, w, o) && (includeDeclaration || !OnDeclarationLine(text, w, o))
    ensures forall i, j :: 0 <= i < j < |KeptReferences(text, w, includeDeclaration)|
              ==> KeptReferences(text, w, includeDeclaration)[i] < KeptReferences(text, w, includeDeclaration)[j]
    ensures ProvideReferences(text, Some(w), includeDeclaration)
            == Some(Spans(text, KeptReferences(text, w, includeDeclaration), |w|))
  {
    var refs := ReferenceOffsets(text, w);
    ReferencesExact(text, w);
    assert forall i, j :: 0 <= i < j < |refs| ==> refs[i] < refs[j];
    if !includeDeclaration {
      WithoutDeclarationsMembers(text, w, refs);
      WithoutDeclarationsOrdered(text, w, refs);
    }
  }

  // ---------------------------------------------------------------------------
  // What the definition search finds

  /** The function pattern of the given shape matches somewhere in the text. */
  ghost predicate ShapeDeclared(text: string, name: string, shape: Outline.Shape) {
    exists p: nat :: p <= |text| && FunctionSite(text, p, name, shape).Some?
  }

  /** The pattern of the given binding matches somewhere in the text. */
  ghost predicate BindingDeclared(text: string, name: string, b: Binding) {
    exists p: nat :: p <= |text| && VariableSite(text, p, name, b).Some?
  }

  ghost predicate FunctionDeclared(text: string, name: string) {
    ShapeDeclared(text, name, Outline.Arrow) || ShapeDeclared(text, name, Outline.Block)
    || ShapeDeclared(text, name, Outline.TypedBlock) || ShapeDeclared(text, name, Outline.TypedArrow)
  }

  ghost predicate VariableDeclared(text: string, name: string) {
    BindingDeclared(text, name, Let) || BindingDeclared(text, name, Const)
    || BindingDeclared(text, name, LetSecond) || BindingDeclared(text, name, LetFirst)
  }

  /** The name passes the capital test and the class pattern matches. */
  ghost predicate ClassDeclared(text: string, name: string) {
    CapitalisedName(name) && exists p: nat :: p <= |text| && ClassSite(text, p, name).Some?
  }

  ghost predicate Declared(text: string, name: string) {
    FunctionDeclared(text, name) || VariableDeclared(text, name) || ClassDeclared(text, name)
  }

  /** A search finds nothing exactly when the pattern matches nowhere. */
  lemma NoMatchIff(pattern: Matcher, text: string)
    ensures |AllMatches(pattern, text, 0)| == 0 <==> forall p: nat :: p <= |text| ==> pattern(text, p).None?
  {
    var r := AllMatches(pattern, text, 0);
    if |r| > 0 {
      assert MatchesAt(pattern, text, r[0]);
    }
  }

  /** A list of anchors is empty exactly when its search found nothing. */
  lemma ShapeFound(text: string, name: string, shape: Outline.Shape, v: Outline.Variant)
    ensures NamedSites(text, name, FunctionMatches(text, name, shape))
    ensures |Anchors(text, name, FunctionMatches(text, name, shape), v)| > 0
            <==> ShapeDeclared(text, name, shape)
  {
    FunctionMatchesNamed(text, name, shape);
    NoMatchIff(FunctionPattern(name, shape), text);
    assert forall p: nat :: FunctionPattern(name, shape)(text, p) == FunctionSite(text, p, name, shape);
  }

  lemma FunctionFound(text: string, name: string, v: Outline.Variant)
    ensures |FunctionOffsets(text, name, v)| > 0 <==> FunctionDeclared(text, name)
  {
    ShapeFound(text, name, Outline.Arrow, v);
    ShapeFound(text, name, Outline.Block, v);
    ShapeFound(text, name, Outline.TypedBlock, v);
    ShapeFound(text, name, Outline.TypedArrow, v);
  }

  lemma BindingFound(text: string, name: string, b: Binding, v: Outline.Variant)
    ensures NamedSites(text, name, VariableMatches(text, name, b))
    ensures |VariableAnchors(text, name, VariableMatches(text, name, b), v)| > 0
            <==> BindingDeclared(text, name, b)
  {
    VariableMatchesNamed(text, name, b);
    NoMatchIff(VariablePattern(name, b), text);
    assert forall p: nat :: VariablePattern(name, b)(text, p) == VariableSite(text, p, name, b);
  }

  lemma VariableFound(text: string, name: string, v: Outline.Variant)
    ensures |VariableOffsets(text, name, v)| > 0 <==> VariableDeclared(text, name)
  {
    BindingFound(text, name, Let, v);
    BindingFound(text, name, Const, v);
    BindingFound(text, name, LetSecond, v);
    BindingFound(text, name, LetFirst, v);
  }

  lemma ClassFound(text: string, name: string, v: Outline.Variant)
    ensures |ClassOffsets(text, name, v)| > 0 <==> ClassDeclared(text, name)
  {
    ClassMatchesNamed(text, name);
    NoMatchIff(ClassPattern(name), text);
    assert forall p: nat :: ClassPattern(name)(text, p) == ClassSite(text, p, name);
  }

  /** Go-to-definition answers with the first location the searches
      found, selecting as many characters as the word has, and with nothing
      when they found none. */
  lemma DefinitionIsFirst(text: string, w: string, v: Outline.Variant)
    requires IsWord(w)
    ensures |DefinitionOffsets(text, w, v)| == 0 <==> ProvideDefinition(text, Some(w), v).None?
    ensures |DefinitionOffsets(text, w, v)| > 0 ==>
              ProvideDefinition(text, Some(w), v) == Some(Spans(text, DefinitionOffsets(text, w, v), |w|)[0])
  {
  }

  /** Go-to-definition answers exactly when one of the three searches
      matches, and prefers a function to a variable and a variable to a
      class, whatever their order in the text. */
  lemma DefinitionFoundIff(text: string, w: string, v: Outline.Variant)
    requires IsWord(w)
    ensures ProvideDefinition(text, Some(w), v).Some? <==> Declared(text, w)
    ensures |FunctionOffsets(text, w, v)| > 0 ==>
              DefinitionOffsets(text, w, v)[0] == FunctionOffsets(text, w, v)[0]
    ensures |FunctionOffsets(text, w, v)| == 0 < |VariableOffsets(text, w, v)| ==>
              DefinitionOffsets(text, w, v)[0] == VariableOffsets(text, w, v)[0]
    ensures |FunctionOffsets(text, w, v)| == 0 == |VariableOffsets(text, w, v)| < |ClassOffsets(text, w, v)| ==>
              DefinitionOffsets(text, w, v)[0] == ClassOffsets(text, w, v)[0]
  {
    DefinitionIsFirst(text, w, v);
    FunctionFound(text, w, v);
    VariableFound(text, w, v);
    ClassFound(text, w, v);
    var f := FunctionOffsets(text, w, v);
    var x := VariableOffsets(text, w, v);
    var c := ClassOffsets(text, w, v);
    assert DefinitionOffsets(text, w, v) == f + x + c;
    FirstOfThree(f, x, c);
  }

  /** The head of three lists joined is the head of the first non-empty
      one. */
  lemma FirstOfThree(f: seq<nat>, x: seq<nat>, c: seq<nat>)
    ensures |f| > 0 ==> (f + x + c)[0] == f[0]
    ensures |f| == 0 < |x| ==> (f + x + c)[0] == x[0]
    ensures |f| == 0 == |x| < |c| ==> (f + x + c)[0] == c[0]
  {
    if |f| == 0 {
      assert f + x + c == x + c;
    }
  }

  /** Each function search finds first the leftmost line where its shape
      matches: its first location is anchored there. */
  lemma ShapeLeftmost(text: string, name: string, shape: Outline.Shape, v: Outline.Variant)
    requires ShapeDeclared(text, name, shape)
    ensures NamedSites(text, name, FunctionMatches(text, name, shape))
    ensures |Anchors(text, name, FunctionMatches(text, name, shape), v)| > 0
    ensures exists p: nat :: && p <= |text| && FunctionSite(text, p, name, shape).Some?
                             && (forall q: nat :: q < p ==> FunctionSite(text, q, name, shape).None?)
                             && Anchors(text, name, FunctionMatches(text, name, shape), v)[0]
                                == (if v == Outline.AsWritten then p else FunctionSite(text, p, name, shape).value.nameAt)
  {
    ShapeFound(text, name, shape, v);
    ShapeFirstSite(text, name, shape);
    var m := FunctionMatches(text, name, shape)[0];
    assert FunctionSite(text, m.start, name, shape).value.nameAt == m.nameAt;
  }

  /** The first match of a function search is the leftmost site. */
  lemma ShapeFirstSite(text: string, name: string, shape: Outline.Shape)
    requires |FunctionMatches(text, name, shape)| > 0
    ensures var m := FunctionMatches(text, name, shape)[0];
            && m.start <= |text| && FunctionSite(text, m.start, name, shape) == Some(m.Captured())
            && forall q: nat :: q < m.start ==> FunctionSite(text, q, name, shape).None?
  {
    var m := FunctionMatches(text, name, shape)[0];
    FirstIsLeftmost(FunctionPattern(name, shape), text);
    forall q: nat | q < m.start
      ensures FunctionSite(text, q, name, shape).None?
    {
      assert FunctionPattern(name, shape)(text, q) == FunctionSite(text, q, name, shape);
    }
    assert FunctionPattern(name, shape)(text, m.start) == FunctionSite(text, m.start, name, shape);
  }

  /** Every function anchor satisfies whatever all four shapes' anchors do. */
  lemma FunctionOffsetsAll(text: string, name: string, v: Outline.Variant, P: nat -> bool)
    requires forall shape: Outline.Shape :: NamedSites(text, name, FunctionMatches(text, name, shape)) ==>
               forall o :: o in Anchors(text, name, FunctionMatches(text, name, shape), v) ==> P(o)
    ensures forall o :: o in FunctionOffsets(text, name, v) ==> P(o)
  {
    FunctionMatchesNamed(text, name, Outline.Arrow);
    FunctionMatchesNamed(text, name, Outline.Block);
    FunctionMatchesNamed(text, name, Outline.TypedBlock);
    FunctionMatchesNamed(text, name, Outline.TypedArrow);
    Within4(Anchors(text, name, FunctionMatches(text, name, Outline.Arrow), v),
            Anchors(text, name, FunctionMatches(text, name, Outline.Block), v),
            Anchors(text, name, FunctionMatches(text, name, Outline.TypedBlock), v),
            Anchors(text, name, FunctionMatches(text, name, Outline.TypedArrow), v), P);
  }

  /** As written, a function or class location is the start of the line the
      match begins on, which is the name only when the name starts the line. */
  lemma AsWrittenAtLineStart(text: string, name: string, o: nat)
    requires o in FunctionOffsets(text, name, Outline.AsWritten) || o in ClassOffsets(text, name, Outline.AsWritten)
    ensures o <= |text| && AtLineStart(text, o) && PositionAt(text, o).character == 0
  {
    FunctionOffsetsAll(text, name, Outline.AsWritten, (o: nat) => AtLineStart(text, o));
    ClassMatchesNamed(text, name);
    if o in FunctionOffsets(text, name, Outline.AsWritten) {
      assert AtLineStart(text, o);
    } else {
      assert AtLineStart(text, o);
    }
    assert LineStart(text, o) == o;
  }

  /** Corrected, every function location is a whole-word occurrence. */
  lemma CorrectedFunctionsWholeWord(text: string, name: string)
    ensures forall o :: o in FunctionOffsets(text, name, Outline.Corrected) ==> WholeWordAt(text, name, o)
  {
    FunctionOffsetsAll(text, name, Outline.Corrected, (o: nat) => WholeWordAt(text, name, o));
  }

  /** Corrected, every variable location is a whole-word occurrence. */
  lemma CorrectedVariablesWholeWord(text: string, name: string)
    ensures forall o :: o in VariableOffsets(text, name, Outline.Corrected) ==> WholeWordAt(text, name, o)
  {
    var v := Outline.Corrected;
    VariableMatchesNamed(text, name, Let);
    VariableMatchesNamed(text, name, Const);
    VariableMatchesNamed(text, name, LetSecond);
    VariableMatchesNamed(text, name, LetFirst);
    Within4(VariableAnchors(text, name, VariableMatches(text, name, Let), v),
            VariableAnchors(text, name, VariableMatches(text, name, Const), v),
            VariableAnchors(text, name, VariableMatches(text, name, LetSecond), v),
            VariableAnchors(text, name, VariableMatches(text, name, LetFirst), v), (o: nat) => WholeWordAt(text, name, o));
  }

  /** Corrected, every definition location is a whole-word occurrence of the
      name, so it is also one of the references `provideReferences` lists. */
  lemma CorrectedDefinitionsAreReferences(text: string, w: string, o: nat)
    requires IsWord(w) && o in DefinitionOffsets(text, w, Outline.Corrected)
    ensures WholeWordAt(text, w, o)
    ensures o in KeptReferences(text, w, true)
  {
    var v := Outline.Corrected;
    CorrectedFunctionsWholeWord(text, w);
    CorrectedVariablesWholeWord(text, w);
    ClassMatchesNamed(text, w);
    var f := FunctionOffsets(text, w, v);
    var x := VariableOffsets(text, w, v);
    var c := ClassOffsets(text, w, v);
    assert DefinitionOffsets(text, w, v) == f + x + c;
    assert o in f || o in x || o in c;
    ReferencesExact(text, w);
  }
}
