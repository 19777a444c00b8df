/** Building blocks of the declaration regular expressions, rewritten as
    character-level scanners.

    In every pattern here a greedy quantifier is followed by something its
    own character class cannot match (`\s*` by a word character, `\w+` by a
    space or a parenthesis, `[^)]*` by `)`), so the regular expression engine
    never backtracks into it: each quantifier takes its maximal run. The one
    exception, `\s*(.+)$`, is handled by `RestOfLine`. In multiline mode `^`
    holds at the start of the text and after a line break, and `$` at the
    end of the text and before a line break; note that `\s` includes the
    line break, so a leading `\s*` may run over blank lines. */
module Patterns {
  import opened Wrappers
  import opened Chars
  import opened Strings
  import opened Positions

  /** `^` in multiline mode */
  predicate AtLineStart(text: string, p: nat) {
    p == 0 || (p <= |text| && IsLineBreak(text[p - 1]))
  }

  /** The pieces of `(\w+)\s*\(([^)]*)\)\s*` read from `nameStart`. */
  datatype Head = Head(nameStart: nat, nameEnd: nat, paramsStart: nat, paramsEnd: nat, after: nat)

  /** `(\w+)\s*\(([^)]*)\)\s*` at `a`: an identifier, its parenthesised
      parameter text (which holds no `)`), and the spaces after it. */
  function HeadAt(text: string, a: nat): (r: Option<Head>)
    requires a <= |text|
    ensures r.Some? ==> r.value.nameStart == a < r.value.nameEnd < r.value.paramsStart
                        <= r.value.paramsEnd < r.value.after <= |text|
    ensures r.Some? ==> IsWord(text[a..r.value.nameEnd])
    ensures r.Some? ==> r.value.nameEnd == |text| || !IsWordChar(text[r.value.nameEnd])
    ensures r.Some? ==> text[r.value.paramsStart - 1] == '(' && text[r.value.paramsEnd] == ')'
    ensures r.Some? ==> forall k :: r.value.paramsStart <= k < r.value.paramsEnd ==> text[k] != ')'
    ensures r.Some? ==> r.value.after == |text| || !IsSpace(text[r.value.after])
  {
    var b := WordRun(text, a);
    if b == a then None
    else
      var c := SpaceRun(text, b);
      if c == |text| || text[c] != '(' then None
      else
        var d := IndexOfChar(text, c + 1, ')');
        if d == |text| then None
        else Some(Head(a, b, c + 1, d, SpaceRun(text, d + 1)))
  }

  /** Every way `(\w+)\s*\(([^)]*)\)\s*` can match at `a` is found: a
      word in `[a, b)`, spaces, `(`, a parameter text holding no `)`, the
      `)`, and then as many spaces as follow. */
  lemma {:induction false} HeadAtComplete(text: string, a: nat, b: nat, open: nat, close: nat)
    requires a < b <= open < close < |text| && IsWord(text[a..b]) && AllSpaces(text, b, open) && text[open] == '('
    requires forall k :: open < k < close ==> text[k] != ')'
    requires text[close] == ')'
    ensures HeadAt(text, a) == Some(Head(a, b, open + 1, close, SpaceRun(text, close + 1)))
  {
    HeadScans(text, a, b, open, close);
  }

  /** The scans of `HeadAt` over a head stop at its pieces. */
  lemma {:induction false} HeadScans(text: string, a: nat, b: nat, open: nat, close: nat)
    requires a < b <= open < close < |text| && IsWord(text[a..b]) && AllSpaces(text, b, open) && text[open] == '('
    requires forall k :: open < k < close ==> text[k] != ')'
    requires text[close] == ')'
    ensures WordRun(text, a) == b && SpaceRun(text, b) == open && IndexOfChar(text, open + 1, ')') == close
  {
    if b < open {
      WordCharsAreNotSpaces(text[b]);
    }
    SliceOccursAt(text, a, b);
    WordRunReaches(text, a, text[a..b]);
    SpaceRunReaches(text, b, open);
    IndexOfCharReaches(text, open + 1, ')', close);
  }

  /** The pieces of `:\s*(\w+)\s*` read from a colon. */
  datatype Annotation = Annotation(typeStart: nat, typeEnd: nat, after: nat)

  /** `:\s*(\w+)\s*` at `k`: a return or field type annotation. */
  function AnnotationAt(text: string, k: nat): (r: Option<Annotation>)
    requires k <= |text|
    ensures r.Some? ==> k < r.value.typeStart < r.value.typeEnd <= r.value.after <= |text|
    ensures r.Some? ==> text[k] == ':' && IsWord(text[r.value.typeStart..r.value.typeEnd])
    ensures r.Some? ==> r.value.after == |text| || !IsSpace(text[r.value.after])
  {
    if k == |text| || text[k] != ':' then None
    else
      var t0 := SpaceRun(text, k + 1);
      var t1 := WordRun(text, t0);
      if t1 == t0 then None else Some(Annotation(t0, t1, SpaceRun(text, t1)))
  }

  /** Every way `:\s*(\w+)` can match at `k` is found, the type in
      `[t, e)` being the whole word after the spaces. */
  lemma {:induction false} AnnotationAtComplete(text: string, k: nat, t: nat, e: nat)
    requires k < t < e <= |text| && text[k] == ':' && AllSpaces(text, k + 1, t) && IsWord(text[t..e])
    requires e == |text| || !IsWordChar(text[e])
    ensures AnnotationAt(text, k) == Some(Annotation(t, e, SpaceRun(text, e)))
  {
    assert text[t] == text[t..e][0];
    WordCharsAreNotSpaces(text[t]);
    SpaceRunReaches(text, k + 1, t);
    SliceOccursAt(text, t, e);
    WordRunReaches(text, t, text[t..e]);
  }

  /** The last position in `[lo, hi)` that does not hold a line break. */
  function LastNonBreak(text: string, lo: nat, hi: nat): (r: Option<nat>)
    requires lo <= hi <= |text|
    ensures r.Some? ==> lo <= r.value < hi && !IsLineBreak(text[r.value])
    ensures r.Some? ==> forall k :: r.value < k < hi ==> IsLineBreak(text[k])
    ensures r.None? ==> forall k :: lo <= k < hi ==> IsLineBreak(text[k])
    decreases hi - lo
  {
    if hi == lo then None
    else if !IsLineBreak(text[hi - 1]) then Some(hi - 1)
    else LastNonBreak(text, lo, hi - 1)
  }

  /** `\s*(.+)$` at `k`: the start and end of the captured rest of a line.

      Greedy `\s*` first takes every space, line breaks included. If a
      non-space character follows, `.+` takes the rest of its line. If the
      spaces run to the end of the text, the engine gives spaces back until
      `.` can take one that is not a line break; the capture is then that
      single space. */
  function RestOfLine(text: string, k: nat): (r: Option<(nat, nat)>)
    requires k <= |text|
    ensures r.Some? ==> k <= r.value.0 < r.value.1 <= |text|
    ensures r.Some? ==> forall j :: k <= j < r.value.0 ==> IsSpace(text[j])
    ensures r.Some? ==> forall j :: r.value.0 <= j < r.value.1 ==> !IsLineBreak(text[j])
    ensures r.Some? ==> r.value.1 == |text| || IsLineBreak(text[r.value.1])
  {
    var f := SpaceRun(text, k);
    if f < |text| then
      Some((f, LineEnd(text, f)))
    else match LastNonBreak(text, k, f)
      case None => None
      case Some(g) => Some((g, g + 1))
  }

  /** When a character other than a space follows the spaces, `\s*(.+)$`
      captures from that character to the end of its line. */
  lemma {:induction false} RestOfLineComplete(text: string, k: nat, v: nat)
    requires k <= v < |text| && AllSpaces(text, k, v) && !IsSpace(text[v])
    ensures RestOfLine(text, k) == Some((v, LineEnd(text, v)))
  {
    SpaceRunReaches(text, k, v);
  }
}
