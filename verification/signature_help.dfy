/** Signature help: the call the cursor is in, found by matching
    `(\w+)\s*\(([^)]*)$` against the line up to the cursor, and the
    parameter being typed, found by counting the commas after the `(`.

    The table of built-in signatures is abstracted to a map from function
    name to parameter count; the labels and documentation strings are
    not modelled. */
module SignatureHelp {
  import opened Wrappers
  import opened Chars
  import opened Strings
  import opened Matching
  import Outline

  // ---------------------------------------------------------------------------
  // Finding the call

  /** The text before the cursor at `character`; `substring` clamps a
      column past the end to the end. */
  function Prefix(line: string, character: nat): (r: string)
    ensures |r| <= |line| && r == line[..|r|]
    ensures |r| == character || |r| == |line| < character
  {
    if character < |line| then line[..character] else line
  }

  /** `name` starts at `i`, then spaces, then `(`, then `args` to the end of
      the text with no `)` among them: a call still open at the end. */
  predicate IsCall(t: string, i: nat, name: string, args: string) {
    IsWord(name) && i + |name| + |args| < |t| && OccursAt(t, name, i)
    && t[|t| - |args| - 1] == '(' && t[|t| - |args|..] == args
    && (forall k :: i + |name| <= k < |t| - |args| - 1 ==> IsSpace(t[k]))
    && (forall k :: 0 <= k < |args| ==> args[k] != ')')
  }

  /** `(\w+)\s*\(([^)]*)$` tried at `i`. Both quantifiers are forced to be
      greedy: a word character cannot stand where `\s*\(` continues, nor a
      space where `\(` does. */
  function CallSite(t: string, i: nat): (r: Option<Capture>)
    ensures r.Some? ==> r.value.end == |t| && r.value.nameAt == i && |r.value.groups| == 2
    ensures r.Some? ==> IsCall(t, i, r.value.groups[0], r.value.groups[1])
  {
    if i > |t| then None
    else
      var w := WordRun(t, i);
      var s := SpaceRun(t, w);
      if w == i || s == |t| || t[s] != '(' || IndexOfChar(t, s + 1, ')') < |t| then None
      else
        assert t[|t| - |t[s + 1..]|..] == t[s + 1..];
        Some(Capture(|t|, i, [t[i..w], t[s + 1..]]))
  }

  /** The pattern matches at `i` exactly when a call starts there, and then
      captures that call's name and arguments. */
  lemma CallSiteIff(t: string, i: nat, name: string, args: string)
    ensures CallSite(t, i) == Some(Capture(|t|, i, [name, args])) <==> IsCall(t, i, name, args)
  {
    if IsCall(t, i, name, args) {
      var w := i + |name|;
      var p := |t| - |args| - 1;
      forall k | i <= k < w
        ensures IsWordChar(t[k])
      {
        assert t[k] == name[k - i];
      }
      assert w == |t| || !IsWordChar(t[w]) by {
        if w < p {
          WordCharsAreNotSpaces(t[w]);
        }
      }
      assert WordRun(t, i) == w;
      assert SpaceRun(t, w) == p;
      forall k | p + 1 <= k < |t|
        ensures t[k] != ')'
      {
        assert t[k] == args[k - p - 1];
      }
      assert IndexOfChar(t, p + 1, ')') == |t|;
      assert t[i..w] == name;
    }
  }

  function CallPattern(): Matcher {
    (t: string, i: nat) => CallSite(t, i)
  }

  /** `\b` before `i`: the call's name is a whole word, not a tail of one. */
  predicate WordStart(t: string, i: nat)
    requires i <= |t|
  {
    i == 0 || !IsWordChar(t[i - 1])
  }

  /** The pattern restricted to calls whose name is a whole word. */
  function WholeWordCallPattern(): Matcher {
    (t: string, i: nat) => if i <= |t| && WordStart(t, i) then CallSite(t, i) else None
  }

  /** The rightmost match at or before `i`: the search run from the end. */
  function LastMatch(pattern: Matcher, t: string, i: nat): (r: Option<Match>)
    requires i <= |t|
    ensures r.Some? ==> r.value.start <= i && MatchesAt(pattern, t, r.value)
    ensures r.Some? ==> forall j :: r.value.start < j <= i ==> pattern(t, j).None?
    ensures r.None? ==> forall j :: 0 <= j <= i ==> pattern(t, j).None?
    decreases i
  {
    match pattern(t, i)
    case Some(c) => Some(Match(i, c.end, c.nameAt, c.groups))
    case None => if i == 0 then None else LastMatch(pattern, t, i - 1)
  }

  /** `linePrefix.match(...)`: as written the leftmost match, which for
      nested calls is the outermost one; corrected the innermost, the
      rightmost match whose name is a whole word. */
  function FindCall(prefix: string, v: Outline.Variant): (r: Option<Match>)
    ensures r.Some? ==> r.value.start <= |prefix| && CallSite(prefix, r.value.start) == Some(r.value.Captured())
    ensures r.Some? ==> |r.value.groups| == 2
  {
    if v == Outline.AsWritten then
      var r := FirstMatch(CallPattern(), prefix, 0);
      assert r.Some? ==> CallPattern()(prefix, r.value.start) == CallSite(prefix, r.value.start);
      r
    else
      var r := LastMatch(WholeWordCallPattern(), prefix, |prefix|);
      assert r.Some? ==> WholeWordCallPattern()(prefix, r.value.start) == CallSite(prefix, r.value.start);
      r
  }

  /** The call that `v` picks, stated without the search: as written no call
      starts further left; corrected the name is a whole word and no such
      call starts further right. */
  predicate Chosen(t: string, i: nat, name: string, args: string, v: Outline.Variant) {
    IsCall(t, i, name, args)
    && (v == Outline.AsWritten ==> forall j: nat :: j < i ==> CallSite(t, j).None?)
    && (v == Outline.Corrected ==> WordStart(t, i) && forall j: nat :: i < j <= |t| && WordStart(t, j) ==> CallSite(t, j).None?)
  }

  /** The search finds the call `Chosen` describes. */
  lemma FoundIsChosen(t: string, v: Outline.Variant)
    requires FindCall(t, v).Some?
    ensures Chosen(t, FindCall(t, v).value.start, FindCall(t, v).value.groups[0], FindCall(t, v).value.groups[1], v)
  {
    var m := FindCall(t, v).value;
    if v == Outline.AsWritten {
      forall j: nat | j < m.start
        ensures CallSite(t, j).None?
      {
        assert CallPattern()(t, j) == CallSite(t, j);
      }
    } else {
      assert WholeWordCallPattern()(t, m.start).Some?;
      forall j: nat | m.start < j <= |t| && WordStart(t, j)
        ensures CallSite(t, j).None?
      {
        assert WholeWordCallPattern()(t, j) == CallSite(t, j);
      }
    }
  }

  /** The search finds nothing only when no call qualifies. */
  lemma NoneFound(t: string, v: Outline.Variant)
    requires FindCall(t, v).None?
    ensures forall i: nat, name, args :: i <= |t| && IsCall(t, i, name, args) ==>
              v == Outline.Corrected && !WordStart(t, i)
  {
    forall i: nat, name, args | i <= |t| && IsCall(t, i, name, args)
      ensures v == Outline.Corrected && !WordStart(t, i)
    {
      CallSiteIff(t, i, name, args);
      if v == Outline.AsWritten {
        NoFirstNoSite(t, i);
      } else if WordStart(t, i) {
        NoLastNoSite(t, i);
      }
    }
  }

  lemma NoFirstNoSite(t: string, i: nat)
    requires FirstMatch(CallPattern(), t, 0).None? && i <= |t|
    ensures CallSite(t, i).None?
  {
    assert CallPattern()(t, i).None?;
  }

  lemma NoLastNoSite(t: string, i: nat)
    requires LastMatch(WholeWordCallPattern(), t, |t|).None? && i <= |t| && WordStart(t, i)
    ensures CallSite(t, i).None?
  {
    assert WholeWordCallPattern()(t, i).None?;
  }

  // ---------------------------------------------------------------------------
  // The answer

  /** One entry of the answer, reduced to the function's name and its
      number of parameters. */
  datatype SignatureInfo = SignatureInfo(name: string, parameterCount: nat)

  /** `vscode.SignatureHelp`; `activeParameter` is an `int` because
      `parameters.length - 1` is -1 for an entry without parameters. */
  datatype Help = Help(signatures: seq<SignatureInfo>, activeSignature: nat, activeParameter: int)

  /** The provider's result: help, `null`, or an exception. */
  datatype Outcome = Answer(help: Option<Help>) | Thrown

  function Min(a: int, b: int): int {
    if a <= b then a else b
  }

  /** The names every object literal inherits from `Object.prototype` and
      that `\w+` can spell. `signatures[name] || null` finds them too, and
      their values have no `parameters`. `toString` is missing: the table
      has its own entry for it. */
  const PrototypeKeys: set<string> := {
    "constructor", "__proto__", "hasOwnProperty", "isPrototypeOf", "propertyIsEnumerable",
    "toLocaleString", "valueOf", "__defineGetter__", "__defineSetter__",
    "__lookupGetter__", "__lookupSetter__"
  }

  /** `provideSignatureHelp` for the text of the cursor's line and the
      cursor's column, against a table of parameter counts. */
  function ProvideSignatureHelp(table: map<string, nat>, line: string, character: nat, v: Outline.Variant): Outcome {
    var prefix := Prefix(line, character);
    match FindCall(prefix, v)
    case None => Answer(None)
    case Some(m) =>
      var name := m.groups[0];
      var commas := CountChar(m.groups[1], ',');
      if name in table then
        Answer(Some(Help([SignatureInfo(name, table[name])], 0, Min(commas, table[name] as int - 1))))
      else if v == Outline.AsWritten && name in PrototypeKeys then Thrown
      else Answer(None)
  }

  /** What signature help answers, in terms of the call the cursor is in:
      for a call whose name has an entry, exactly that one signature, active,
      with the comma count as the active parameter, capped at the last
      parameter; for any other name nothing, except that as written an
      inherited property name throws. */
  lemma SignatureHelpExact(table: map<string, nat>, line: string, character: nat, v: Outline.Variant,
                           i: nat, name: string, args: string)
    requires Chosen(Prefix(line, character), i, name, args, v)
    ensures name in table ==>
              ProvideSignatureHelp(table, line, character, v)
              == Answer(Some(Help([SignatureInfo(name, table[name])], 0, Min(multiset(args)[','], table[name] as int - 1))))
    ensures name !in table ==>
              ProvideSignatureHelp(table, line, character, v)
              == if v == Outline.AsWritten && name in PrototypeKeys then Thrown else Answer(None)
  {
    ChosenIsFound(Prefix(line, character), i, name, args, v);
  }

  /** Signature help answers nothing when the cursor is in no call (as
      written) or in no call whose name is a whole word (corrected). */
  lemma NoCallNoHelp(table: map<string, nat>, line: string, character: nat, v: Outline.Variant)
    requires forall i: nat, name, args :: i <= |Prefix(line, character)| && IsCall(Prefix(line, character), i, name, args)
               ==> v == Outline.Corrected && !WordStart(Prefix(line, character), i)
    ensures ProvideSignatureHelp(table, line, character, v) == Answer(None)
  {
    var t := Prefix(line, character);
    if FindCall(t, v).Some? {
      var m := FindCall(t, v).value;
      FoundIsChosen(t, v);
    }
  }

  /** At most one call is chosen, and the search finds it. */
  lemma ChosenIsFound(t: string, i: nat, name: string, args: string, v: Outline.Variant)
    requires Chosen(t, i, name, args, v)
    ensures FindCall(t, v) == Some(Match(i, |t|, i, [name, args]))
  {
    CallSiteIff(t, i, name, args);
    assert CallPattern()(t, i).Some?;
    assert FindCall(t, v).Some? by {
      if FindCall(t, v).None? {
        NoneFound(t, v);
      }
    }
    FoundIsChosen(t, v);
    var m := FindCall(t, v).value;
    assert CallPattern()(t, m.start) == Some(m.Captured());
    assert m.start == i;
  }

  /** With every entry taking at least one parameter, the active parameter
      names one of the signature's parameters, and is never past the comma
      count. */
  lemma ActiveParameterInRange(table: map<string, nat>, line: string, character: nat, v: Outline.Variant)
    requires forall n :: n in table ==> table[n] >= 1
    ensures ProvideSignatureHelp(table, line, character, v).Answer? && ProvideSignatureHelp(table, line, character, v).help.Some?
            ==> var h := ProvideSignatureHelp(table, line, character, v).help.value;
                |h.signatures| == 1 && h.activeSignature == 0
                && 0 <= h.activeParameter < h.signatures[0].parameterCount
                && h.signatures[0].name in table && h.signatures[0].parameterCount == table[h.signatures[0].name]
  {
  }

  /** Corrected, signature help never throws. */
  lemma CorrectedNeverThrows(table: map<string, nat>, line: string, character: nat)
    ensures ProvideSignatureHelp(table, line, character, Outline.Corrected).Answer?
  {
  }

  // ---------------------------------------------------------------------------
  // The built-in table

  /** `getAllSignatures`, as the number of parameters of each entry. */
  const BuiltIns: map<string, nat> := map[
    "print" := 1, "println" := 1, "length" := 1, "push" := 2, "pop" := 1,
    "insert" := 3, "remove" := 2, "slice" := 3, "map" := 2, "filter" := 2,
    "reduce" := 3, "range" := 3, "split" := 2, "join" := 2, "substring" := 3,
    "replace" := 3, "toLowerCase" := 1, "toUpperCase" := 1, "trim" := 1,
    "parseInt" := 2, "parseFloat" := 1, "toString" := 1, "format" := 2,
    "abs" := 1, "sqrt" := 1, "pow" := 2, "min" := 2, "max" := 2,
    "floor" := 1, "ceil" := 1, "round" := 1
  ]

  /** Every built-in takes at least one parameter, so the active parameter
      is never negative. */
  lemma BuiltInsTakeParameters()
    ensures forall n :: n in BuiltIns ==> BuiltIns[n] >= 1
  {
  }
}
