/** The line recognisers of the interface-conformance checker. Each one is
    a regular expression applied to a trimmed line, rewritten as a scanner;
    the comments say why the engine's backtracking never changes the
    outcome, and the completeness lemmas show the scanners find every match
    the expression admits. */
module ValidatorPatterns {
  import opened Wrappers
  import opened Chars
  import opened Strings

  /** A trimmed line the extractors skip entirely: one that starts a line
      comment or a block comment. */
  predicate IsCommentLine(line: string) {
    StartsWith(line, "//") || StartsWith(line, "/*")
  }

  /** The characters `.` does not match: the ECMAScript line terminators. */
  predicate IsLineTerminator(c: char) {
    c == '\n' || c == '\r' || c == '\U{2028}' || c == '\U{2029}'
  }

  /** `[a-zA-Z0-9_\[\]]`: a character of an interface method's return type. */
  predicate IsTypeChar(c: char) {
    IsWordChar(c) || c == '[' || c == ']'
  }

  /** `[a-zA-Z0-9_,\s]`: a character of an implements list. */
  predicate IsListChar(c: char) {
    IsWordChar(c) || c == ',' || IsSpace(c)
  }

  /** `^([A-Z][a-zA-Z0-9_]*)\s*\{` — the header of an interface. The name
      run is followed by a space or `{`, which it cannot contain, so the
      expression matches exactly when the maximal name run is followed by
      spaces and a brace. */
  function InterfaceHeader(line: string): (r: Option<string>)
    ensures r.Some? ==> IsWord(r.value) && IsUpper(r.value[0]) && StartsWith(line, r.value)
    ensures r.Some? ==> var s := SpaceRun(line, |r.value|); s < |line| && line[s] == '{'
  {
    if |line| == 0 || !IsUpper(line[0]) then None
    else
      var e := WordRun(line, 0);
      var s := SpaceRun(line, e);
      if s < |line| && line[s] == '{' then Some(line[..e]) else None
  }

  /** Every way the interface-header expression can match is found: a word
      starting in upper case, then spaces, then `{`, is the header's name. */
  lemma InterfaceHeaderComplete(line: string, name: string, brace: nat)
    requires IsWord(name) && IsUpper(name[0]) && StartsWith(line, name)
    requires |name| <= brace < |line| && AllSpaces(line, |name|, brace) && line[brace] == '{'
    ensures InterfaceHeader(line) == Some(name)
  {
    assert line[0] == name[0];
    WordRunStops(line, name, brace);
    assert line[..WordRun(line, 0)] == name;
    SpaceRunReaches(line, |name|, brace);
  }

  /** A word at the start of `line` followed by a non-word character is the
      maximal word run there. */
  lemma WordRunStops(line: string, name: string, stop: nat)
    requires IsWord(name) && StartsWith(line, name)
    requires |name| <= stop < |line| && AllSpaces(line, |name|, stop) && !IsWordChar(line[stop])
    ensures WordRun(line, 0) == |name|
  {
    assert forall k :: 0 <= k < |name| ==> IsWordChar(line[k]) by {
      forall k | 0 <= k < |name| ensures IsWordChar(line[k]) {
        assert line[k] == name[k];
      }
    }
    if |name| < stop {
      WordCharsAreNotSpaces(line[|name|]);
    }
    RunFrom(line, 0, |name|, IsWordChar);
  }

  /** What the class-with-interfaces header captures: the class name and the
      raw implements text. */
  datatype ClassHead = ClassHead(name: string, list: string)

  /** `^([A-Z][a-zA-Z0-9_]*)\s*:\s*([A-Z][a-zA-Z0-9_,\s]+)\s*\{` — the header
      of a class that implements interfaces. The list group is greedy over
      word characters, commas and spaces; none of them is `{`, so giving any
      back never lets `\s*\{` match, and the expression matches exactly when
      the maximal list run, at least two characters long, stops at `{`. */
  function ClassHeader(line: string): (r: Option<ClassHead>)
    ensures r.Some? ==> IsWord(r.value.name) && IsUpper(r.value.name[0]) && StartsWith(line, r.value.name)
    ensures r.Some? ==> |r.value.list| >= 2 && IsUpper(r.value.list[0])
    ensures r.Some? ==> forall k :: 0 <= k < |r.value.list| ==> IsListChar(r.value.list[k])
  {
    if |line| == 0 || !IsUpper(line[0]) then None
    else
      var e := WordRun(line, 0);
      var c := SpaceRun(line, e);
      if c == |line| || line[c] != ':' then None
      else
        var t := SpaceRun(line, c + 1);
        if t == |line| || !IsUpper(line[t]) then None
        else
          var u := Run(line, t + 1, IsListChar);
          if u < t + 2 || u == |line| || line[u] != '{' then None
          else
            WordRunIsWord(line, 0);
            ListRun(line, t, u);
            Some(ClassHead(line[..e], line[t..u]))
  }

  /** An upper-case letter followed by list characters is a list group. */
  lemma ListRun(line: string, t: nat, u: nat)
    requires t < u <= |line| && IsUpper(line[t])
    requires forall k :: t + 1 <= k < u ==> IsListChar(line[k])
    ensures IsUpper(line[t..u][0])
    ensures forall k :: 0 <= k < |line[t..u]| ==> IsListChar(line[t..u][k])
  {
    forall k | 0 <= k < |line[t..u]|
      ensures IsListChar(line[t..u][k])
    {
      assert line[t..u][k] == line[t + k];
    }
  }

  /** Every line of the class-header form is recognised: a capitalised
      word, spaces, `:`, spaces, an upper-case letter and list characters
      running up to `{`. */
  lemma ClassHeaderComplete(line: string, name: string, colon: nat, t: nat, u: nat)
    requires IsWord(name) && IsUpper(name[0]) && StartsWith(line, name)
    requires |name| <= colon < t && t + 2 <= u < |line|
    requires AllSpaces(line, |name|, colon) && line[colon] == ':'
    requires AllSpaces(line, colon + 1, t) && IsUpper(line[t])
    requires forall k :: t + 1 <= k < u ==> IsListChar(line[k])
    requires line[u] == '{'
    ensures ClassHeader(line) == Some(ClassHead(name, line[t..u]))
  {
    assert line[0] == name[0];
    WordRunStops(line, name, colon);
    SpaceRunReaches(line, |name|, colon);
    SpaceRunReaches(line, colon + 1, t);
    RunFrom(line, t + 1, u, IsListChar);
    assert line[..WordRun(line, 0)] == name;
  }

  /** The implements list: the captured text split at commas, each part
      trimmed, the empty parts dropped. */
  function ImplementedNames(list: string): seq<string> {
    NonEmpty(TrimAll(Split(list, ',')))
  }

  /** A name is implemented exactly when it is a non-empty trimmed part of
      the list between commas; each implemented name is not empty, holds no
      comma and has no space at either end. */
  lemma ImplementedNamesAreParts(list: string, x: string)
    ensures x in ImplementedNames(list) <==>
              |x| > 0 && exists i :: 0 <= i < |Split(list, ',')| && x == Trim(Split(list, ',')[i])
    ensures x in ImplementedNames(list) ==>
              && |x| > 0 && !IsSpace(x[0]) && !IsSpace(x[|x| - 1])
              && forall k :: 0 <= k < |x| ==> x[k] != ','
  {
    var parts := Split(list, ',');
    if x in ImplementedNames(list) {
      var i := TrimmedPart(parts, x);
      PartHasNoSeparator(parts, i, ',');
      TrimKeepsAbsent(parts[i], ',');
    }
    if |x| > 0 && exists i :: 0 <= i < |parts| && x == Trim(parts[i]) {
      var i :| 0 <= i < |parts| && x == Trim(parts[i]);
      assert TrimAll(parts)[i] == x;
    }
  }

  /** Each name is implemented as often as a part trims to it: duplicates
      are kept. */
  lemma ImplementedNamesCount(list: string, x: string)
    ensures multiset(ImplementedNames(list))[x] == (if |x| > 0 then multiset(TrimAll(Split(list, ',')))[x] else 0)
  {
    NonEmptyCount(TrimAll(Split(list, ',')), x);
  }

  /** The names before the first comma come first: splitting is done part
      by part, in the order of the list. */
  lemma ImplementedNamesComma(a: string, b: string)
    requires forall k :: 0 <= k < |a| ==> a[k] != ','
    ensures ImplementedNames(a + [','] + b) == ImplementedNames(a) + ImplementedNames(b)
  {
    SplitFirst(a, b, ',');
    assert IndexOfChar(a, 0, ',') == |a|;
    assert Split(a, ',') == [a];
    var rest := Split(b, ',');
    assert TrimAll([a] + rest) == [Trim(a)] + TrimAll(rest);
    NonEmptyJoin([Trim(a)], TrimAll(rest));
    assert TrimAll([a]) == [Trim(a)];
  }

  /** The index of the part a member of `NonEmpty(TrimAll(parts))` came from. */
  lemma TrimmedPart(parts: seq<string>, x: string) returns (i: nat)
    requires x in NonEmpty(TrimAll(parts))
    ensures i < |parts| && x == Trim(parts[i]) && |x| > 0
  {
    var ts := TrimAll(parts);
    assert x in ts;
    i :| 0 <= i < |ts| && ts[i] == x;
  }

  lemma PartHasNoSeparator(parts: seq<string>, i: nat, sep: char)
    requires i < |parts|
    requires forall j, k :: 0 <= j < |parts| && 0 <= k < |parts[j]| ==> parts[j][k] != sep
    ensures forall k :: 0 <= k < |parts[i]| ==> parts[i][k] != sep
  {
  }

  /** Trimming never brings in a character the text did not hold. */
  lemma TrimKeepsAbsent(s: string, c: char)
    requires forall k :: 0 <= k < |s| ==> s[k] != c
    ensures forall k :: 0 <= k < |Trim(s)| ==> Trim(s)[k] != c
  {
    var a := TrimStart(s);
    var t := Trim(s);
    forall k | 0 <= k < |t|
      ensures t[k] != c
    {
      assert t[k] == s[a + k];
    }
  }

  /** A list without commas implements the one name it holds, trimmed. */
  lemma SingleImplemented(list: string)
    requires forall k :: 0 <= k < |list| ==> list[k] != ','
    requires exists k :: 0 <= k < |list| && !IsSpace(list[k])
    ensures ImplementedNames(list) == [Trim(list)]
  {
    assert IndexOfChar(list, 0, ',') == |list|;
    assert Split(list, ',') == [list];
    assert TrimAll([list]) == [Trim(list)];
    var k :| 0 <= k < |list| && !IsSpace(list[k]);
    TrimNotEmpty(list, k);
    assert NonEmpty([Trim(list)]) == [Trim(list)];
  }

  /** A text holding a non-space trims to a non-empty text. */
  lemma TrimNotEmpty(s: string, k: nat)
    requires k < |s| && !IsSpace(s[k])
    ensures |Trim(s)| > 0
  {
    assert TrimStart(s) <= k;
  }

  /** `^([a-zA-Z_][a-zA-Z0-9_]*)\s*\(` — a line of a class body that starts
      a method implementation; the result is the method's name. */
  function MethodStart(line: string): (r: Option<string>)
    ensures r.Some? ==> IsWord(r.value) && IsIdentStart(r.value[0]) && StartsWith(line, r.value)
    ensures r.Some? ==> var s := SpaceRun(line, |r.value|); s < |line| && line[s] == '('
  {
    if |line| == 0 || !IsIdentStart(line[0]) then None
    else
      var e := WordRun(line, 0);
      var s := SpaceRun(line, e);
      if s < |line| && line[s] == '(' then Some(line[..e]) else None
  }

  /** Every way the method-start expression can match is found. */
  lemma MethodStartComplete(line: string, name: string, paren: nat)
    requires IsWord(name) && IsIdentStart(name[0]) && StartsWith(line, name)
    requires |name| <= paren < |line| && AllSpaces(line, |name|, paren) && line[paren] == '('
    ensures MethodStart(line) == Some(name)
  {
    assert line[0] == name[0];
    WordRunStops(line, name, paren);
    assert line[..WordRun(line, 0)] == name;
    SpaceRunReaches(line, |name|, paren);
  }

  /** An interface method signature: name, parameter text and return type,
      the last empty when the line declares none. */
  datatype Signature = Signature(name: string, params: string, returnType: string)

  /** `\s*(?::\s*([a-zA-Z0-9_\[\]]+))?$` from `q`: the return type it
      captures, `""` when the optional group is skipped. Spaces then the end
      of the line skip the group; spaces, a colon, spaces and a type running
      to the end take it. Backtracking gives nothing else: a given-back space
      is neither `:` nor the end, and a given-back type character leaves the
      end unreached. */
  function SignatureTail(line: string, q: nat): (r: Option<string>)
    requires q <= |line|
  {
    var s := SpaceRun(line, q);
    if s == |line| then Some("")
    else if line[s] != ':' then None
    else
      var t0 := SpaceRun(line, s + 1);
      var t1 := Run(line, t0, IsTypeChar);
      if t0 < t1 == |line| then Some(line[t0..t1]) else None
  }

  /** A captured return type is empty exactly when only spaces follow `q`,
      and otherwise it is made of type characters and ends the line. */
  lemma SignatureTailShape(line: string, q: nat)
    requires q <= |line| && SignatureTail(line, q).Some?
    ensures SignatureTail(line, q).value == "" <==> AllSpaces(line, q, |line|)
    ensures forall k :: 0 <= k < |SignatureTail(line, q).value| ==> IsTypeChar(SignatureTail(line, q).value[k])
    ensures OccursAt(line, SignatureTail(line, q).value, |line| - |SignatureTail(line, q).value|)
  {
    var s := SpaceRun(line, q);
    if s < |line| {
      assert !AllSpaces(line, q, |line|) by {
        assert !IsSpace(line[s]);
      }
    }
  }

  /** No line terminator in `line[lo..hi]`: the stretch `.*` can take. */
  predicate NoTerminator(line: string, lo: nat, hi: nat)
    requires lo <= hi <= |line|
  {
    forall k :: lo <= k < hi ==> !IsLineTerminator(line[k])
  }

  /** The lazy `(.*?)\)` followed by the tail, tried from `p`: the first `)`
      after which the tail matches closes the parameters; `.` stops at a
      line terminator. */
  function LazyParams(line: string, p: nat): (r: Option<nat>)
    requires p <= |line|
    ensures r.Some? ==> p <= r.value < |line| && line[r.value] == ')'
    decreases |line| - p
  {
    if p == |line| then None
    else if line[p] == ')' && SignatureTail(line, p + 1).Some? then Some(p)
    else if IsLineTerminator(line[p]) then None
    else LazyParams(line, p + 1)
  }

  /** Where the lazy search stops, the tail matches and no line terminator
      came before. */
  lemma {:induction false} LazyParamsSound(line: string, p: nat)
    requires p <= |line| && LazyParams(line, p).Some?
    ensures SignatureTail(line, LazyParams(line, p).value + 1).Some?
    ensures NoTerminator(line, p, LazyParams(line, p).value)
    decreases |line| - p
  {
    if line[p] == ')' && SignatureTail(line, p + 1).Some? {
      assert LazyParams(line, p) == Some(p);
    } else {
      assert !IsLineTerminator(line[p]) && LazyParams(line, p) == LazyParams(line, p + 1);
      LazyParamsSound(line, p + 1);
    }
  }

  /** Any `)` that the tail can follow, with no line terminator before it,
      bounds where the lazy search stops. */
  lemma {:induction false} LazyParamsFirst(line: string, p: nat, c: nat)
    requires p <= c < |line| && line[c] == ')' && SignatureTail(line, c + 1).Some?
    requires NoTerminator(line, p, c)
    ensures LazyParams(line, p).Some? && LazyParams(line, p).value <= c
    decreases c - p
  {
    if p < c && !(line[p] == ')' && SignatureTail(line, p + 1).Some?) {
      assert !IsLineTerminator(line[p]);
      assert NoTerminator(line, p + 1, c);
      LazyParamsFirst(line, p + 1, c);
    }
  }

  /** `sig` is one way the signature expression can match `line`, with its
      parameters starting at `open`. */
  predicate SignatureAt(line: string, sig: Signature, open: nat) {
    && IsWord(sig.name) && IsIdentStart(sig.name[0]) && StartsWith(line, sig.name)
    && |sig.name| < open && open + |sig.params| < |line|
    && AllSpaces(line, |sig.name|, open - 1) && line[open - 1] == '('
    && line[open..open + |sig.params|] == sig.params && line[open + |sig.params|] == ')'
    && NoTerminator(line, open, open + |sig.params|)
    && SignatureTail(line, open + |sig.params| + 1) == Some(sig.returnType)
  }

  /** `^([a-zA-Z_][a-zA-Z0-9_]*)\s*\((.*?)\)\s*(?::\s*([a-zA-Z0-9_\[\]]+))?$`
      — an interface method signature. */
  function SignatureOf(line: string): (r: Option<Signature>)
    ensures r.Some? ==> IsWord(r.value.name) && StartsWith(line, r.value.name)
  {
    match MethodStart(line)
    case None => None
    case Some(name) => SignatureFrom(line, name, SpaceRun(line, |name|) + 1)
  }

  /** The rest of the signature expression, once `name` and its opening
      parenthesis are read: the lazy parameters, then the tail. */
  function SignatureFrom(line: string, name: string, open: nat): (r: Option<Signature>)
    requires open <= |line|
    ensures r.Some? ==> r.value.name == name
  {
    match LazyParams(line, open)
    case None => None
    case Some(close) =>
      match SignatureTail(line, close + 1)
      case None => None
      case Some(returnType) => Some(Signature(name, line[open..close], returnType))
  }

  /** What the signature expression captures once its name and its lazy
      parameter search have succeeded. */
  lemma SignatureOfParts(line: string, name: string, open: nat, close: nat)
    requires MethodStart(line) == Some(name) && open == SpaceRun(line, |name|) + 1
    requires open <= |line| && LazyParams(line, open) == Some(close)
    requires SignatureTail(line, close + 1).Some?
    ensures SignatureOf(line) == Some(Signature(name, line[open..close], SignatureTail(line, close + 1).value))
  {
    SignatureOfStart(line);
    SignatureFromParts(line, name, open, close);
  }

  /** Once a name is read, the rest of the expression is tried right after
      its opening parenthesis. */
  lemma SignatureOfStart(line: string)
    requires MethodStart(line).Some?
    ensures SignatureOf(line) == SignatureFrom(line, MethodStart(line).value, SpaceRun(line, |MethodStart(line).value|) + 1)
  {
  }

  /** What the rest of the expression captures once the lazy search stops
      at `close`. */
  lemma SignatureFromParts(line: string, name: string, open: nat, close: nat)
    requires open <= |line| && LazyParams(line, open) == Some(close)
    requires SignatureTail(line, close + 1).Some?
    ensures SignatureFrom(line, name, open) == Some(Signature(name, line[open..close], SignatureTail(line, close + 1).value))
  {
  }

  /** A successful rest of the expression was read from a stop of the lazy
      search and a matching tail. */
  lemma SignatureFromPieces(line: string, name: string, open: nat)
    requires open <= |line| && SignatureFrom(line, name, open).Some?
    ensures LazyParams(line, open).Some? && SignatureTail(line, LazyParams(line, open).value + 1).Some?
    ensures SignatureFrom(line, name, open).value.name == name
    ensures SignatureFrom(line, name, open).value.params == line[open..LazyParams(line, open).value]
    ensures SignatureFrom(line, name, open).value.returnType == SignatureTail(line, LazyParams(line, open).value + 1).value
  {
  }

  /** A name, its opening parenthesis, and a `)` the lazy search may stop
      at with the tail after it make a signature the expression admits. */
  lemma FitsFromParts(line: string, name: string, open: nat, close: nat, returnType: string, sig: Signature)
    requires MethodStart(line) == Some(name) && open == SpaceRun(line, |name|) + 1
    requires open <= close < |line| && line[close] == ')' && NoTerminator(line, open, close)
    requires SignatureTail(line, close + 1) == Some(returnType)
    requires sig.name == name && sig.params == line[open..close] && sig.returnType == returnType
    ensures SignatureAt(line, sig, SpaceRun(line, |sig.name|) + 1)
  {
    assert IsIdentStart(name[0]) && StartsWith(line, name);
    assert AllSpaces(line, |name|, open - 1);
    assert line[open..open + |line[open..close]|] == line[open..close];
  }

  /** Every signature found is one the expression admits. */
  lemma SignatureOfFits(line: string)
    requires SignatureOf(line).Some?
    ensures SignatureAt(line, SignatureOf(line).value, SpaceRun(line, |SignatureOf(line).value.name|) + 1)
  {
    SignatureOfStart(line);
    var name := MethodStart(line).value;
    FromFits(line, name, SpaceRun(line, |name|) + 1);
  }

  /** The rest of the expression, read after a name, fits the line. */
  lemma FromFits(line: string, name: string, open: nat)
    requires MethodStart(line) == Some(name) && open == SpaceRun(line, |name|) + 1
    requires open <= |line| && SignatureFrom(line, name, open).Some?
    ensures SignatureAt(line, SignatureFrom(line, name, open).value, SpaceRun(line, |SignatureFrom(line, name, open).value.name|) + 1)
  {
    SignatureFromPieces(line, name, open);
    var close := LazyParams(line, open).value;
    LazyParamsSound(line, open);
    FitsFromParts(line, name, open, close, SignatureTail(line, close + 1).value, SignatureFrom(line, name, open).value);
  }

  /** The name and opening parenthesis of a fitting shape are the ones the
      expression reads. */
  lemma ShapeStart(line: string, sig: Signature, open: nat)
    requires SignatureAt(line, sig, open)
    ensures MethodStart(line) == Some(sig.name) && SpaceRun(line, |sig.name|) + 1 == open
    ensures open + |sig.params| < |line| && line[open + |sig.params|] == ')'
    ensures NoTerminator(line, open, open + |sig.params|)
    ensures SignatureTail(line, open + |sig.params| + 1).Some?
  {
    MethodStartComplete(line, sig.name, open - 1);
    SpaceRunReaches(line, |sig.name|, open - 1);
  }

  /** With the name read and a `)` at `c` that the tail can follow, the
      expression matches, with parameters no longer than those before `c`. */
  lemma ShortestFrom(line: string, name: string, open: nat, c: nat)
    requires MethodStart(line) == Some(name) && SpaceRun(line, |name|) + 1 == open
    requires open <= c < |line| && line[c] == ')' && NoTerminator(line, open, c)
    requires SignatureTail(line, c + 1).Some?
    ensures SignatureOf(line).Some? && SignatureOf(line).value.name == name
    ensures |SignatureOf(line).value.params| <= c - open
  {
    LazyParamsFirst(line, open, c);
    LazyParamsSound(line, open);
    ParamsLength(line, name, open, LazyParams(line, open).value);
  }

  /** The parameters captured run from `open` to `close`. */
  lemma ParamsLength(line: string, name: string, open: nat, close: nat)
    requires MethodStart(line) == Some(name) && open == SpaceRun(line, |name|) + 1
    requires open <= |line| && LazyParams(line, open) == Some(close)
    requires SignatureTail(line, close + 1).Some?
    ensures SignatureOf(line).Some? && SignatureOf(line).value.name == name
    ensures |SignatureOf(line).value.params| == close - open
  {
    SignatureOfParts(line, name, open, close);
    assert |line[open..close]| == close - open;
  }

  /** The expression matches whenever some signature shape fits the line,
      and the match found has the shortest parameter text of all that fit:
      `.*?` is lazy. */
  lemma SignatureShortest(line: string, sig: Signature, open: nat)
    requires SignatureAt(line, sig, open)
    ensures SignatureOf(line).Some?
    ensures SignatureOf(line).value.name == sig.name
    ensures |SignatureOf(line).value.params| <= |sig.params|
  {
    ShapeStart(line, sig, open);
    ShortestFrom(line, sig.name, open, open + |sig.params|);
  }
}
