/** The string-literal-aware brace matcher of the outline provider
    (`findClosingBrace`).

    The scan keeps a brace count and a string flag. A single or double
    quote not preceded by a backslash opens a string when none is open and
    closes the open one when it is the same quote character; braces inside a
    string are ignored. The scan stops at the first counted `}` that brings
    the count to zero. */
module Braces {
  import opened Wrappers

  datatype ScanState = ScanState(depth: int, inString: bool, quote: char)

  const Initial := ScanState(0, false, ' ')

  predicate IsQuote(c: char) {
    c == '"' || c == '\''
  }

  /** The character at `i` is a quote that toggles the string state: it is
      not escaped by a backslash right before it. */
  predicate IsStringDelimiter(text: string, i: nat)
    requires i < |text|
  {
    IsQuote(text[i]) && !(i > 0 && text[i - 1] == '\\')
  }

  /** One iteration of the scan loop. */
  function Step(text: string, i: nat, s: ScanState): ScanState
    requires i < |text|
  {
    var c := text[i];
    if IsStringDelimiter(text, i) then
      if !s.inString then ScanState(s.depth, true, c)
      else if c == s.quote then ScanState(s.depth, false, ' ')
      else s
    else if s.inString then s
    else if c == '{' then ScanState(s.depth + 1, s.inString, s.quote)
    else if c == '}' then ScanState(s.depth - 1, s.inString, s.quote)
    else s
  }

  /** The scan state after the characters `text[start..k]`. */
  function StateAt(text: string, start: nat, k: nat): ScanState
    requires start <= k <= |text|
    decreases k - start
  {
    if k == start then Initial else Step(text, k - 1, StateAt(text, start, k - 1))
  }

  /** The brace at `i` is counted and closes the block opened at `start`. */
  predicate ClosesAt(text: string, start: nat, i: nat)
    requires start <= i < |text|
  {
    text[i] == '}' && !StateAt(text, start, i).inString && StateAt(text, start, i + 1).depth == 0
  }

  function CloseFrom(text: string, start: nat, i: nat, s: ScanState): (r: Option<nat>)
    requires start <= i <= |text|
    requires s == StateAt(text, start, i)
    ensures r.Some? ==> i <= r.value < |text| && ClosesAt(text, start, r.value)
    ensures r.Some? ==> forall j :: i <= j < r.value ==> !ClosesAt(text, start, j)
    ensures r.None? ==> forall j :: i <= j < |text| ==> !ClosesAt(text, start, j)
    decreases |text| - i
  {
    if i == |text| then None
    else
      var s' := Step(text, i, s);
      if text[i] == '}' && !s.inString && s'.depth == 0 then Some(i)
      else CloseFrom(text, start, i + 1, s')
  }

  /** `findClosingBrace(text, startIndex)`: the first index at which a
      counted `}` brings the count of counted `{` minus counted `}` since
      `startIndex` to zero, or `None` when the text ends first. */
  function FindClosingBrace(text: string, start: nat): (r: Option<nat>)
    requires start <= |text|
    ensures r.Some? ==> start < r.value < |text| && text[r.value] == '}'
    ensures r.Some? ==> StateAt(text, start, r.value + 1).depth == 0 && !StateAt(text, start, r.value).inString
    ensures r.Some? ==> forall j :: start <= j < r.value ==> !ClosesAt(text, start, j)
    ensures r.None? ==> forall j :: start <= j < |text| ==> !ClosesAt(text, start, j)
  {
    NoCloseAtStart(text, start);
    CloseFrom(text, start, start, Initial)
  }

  /** A block cannot close on its first character: a `}` there leaves the
      count at -1. */
  lemma NoCloseAtStart(text: string, start: nat)
    requires start <= |text|
    ensures start < |text| ==> !ClosesAt(text, start, start)
  {
  }

  /** Braces met while a string literal is open never change the count. */
  lemma QuotedBracesIgnored(text: string, start: nat, k: nat)
    requires start <= k < |text|
    requires StateAt(text, start, k).inString && (text[k] == '{' || text[k] == '}')
    ensures StateAt(text, start, k + 1) == StateAt(text, start, k)
  {
  }

  /** An open string literal is closed only by the quote character that
      opened it: another quote leaves it open. */
  lemma StringClosedBySameQuote(text: string, start: nat, k: nat)
    requires start <= k < |text|
    requires StateAt(text, start, k).inString
    ensures !StateAt(text, start, k + 1).inString <==>
              (IsStringDelimiter(text, k) && text[k] == StateAt(text, start, k).quote)
    ensures StateAt(text, start, k + 1).inString ==> StateAt(text, start, k + 1).quote == StateAt(text, start, k).quote
  {
  }

  /** A quote preceded by a backslash never toggles the string state. */
  lemma EscapedQuoteNoToggle(text: string, start: nat, k: nat)
    requires start <= k < |text| && k > 0
    requires IsQuote(text[k]) && text[k - 1] == '\\'
    ensures StateAt(text, start, k + 1) == StateAt(text, start, k)
  {
  }

  /** Outside string literals the count is plain arithmetic: in a stretch
      with no quote characters it is the number of `{` minus the number of
      `}`. */
  lemma {:induction false} DepthCountsBraces(text: string, start: nat, k: nat)
    requires start <= k <= |text|
    requires forall j :: start <= j < k ==> !IsQuote(text[j])
    ensures !StateAt(text, start, k).inString
    ensures StateAt(text, start, k).depth ==
              multiset(text[start..k])['{'] as int - multiset(text[start..k])['}'] as int
    decreases k - start
  {
    if k > start {
      DepthCountsBraces(text, start, k - 1);
      assert text[start..k] == text[start..k - 1] + [text[k - 1]];
    }
  }

  /** A `{` or `}` inside a double-quoted string does not count: the block
      `{"a{b}c"}` closes at its outer brace, not at the one inside the
      quotes. */
  lemma QuotedExample()
    ensures FindClosingBrace("{\"a{b}c\"}", 0) == Some(8)
  {
    var t := "{\"a{b}c\"}";
    assert StateAt(t, 0, 1) == ScanState(1, false, ' ');
    assert StateAt(t, 0, 2) == ScanState(1, true, '"');
    assert StateAt(t, 0, 3) == ScanState(1, true, '"');
    assert StateAt(t, 0, 4) == ScanState(1, true, '"');
    assert StateAt(t, 0, 5) == ScanState(1, true, '"');
    assert StateAt(t, 0, 6) == ScanState(1, true, '"');
    assert StateAt(t, 0, 7) == ScanState(1, true, '"');
    assert StateAt(t, 0, 8) == ScanState(1, false, ' ');
    assert StateAt(t, 0, 9) == ScanState(0, false, ' ');
  }
}
