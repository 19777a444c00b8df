/** Two inputs on which go-to-definition as written lands somewhere other
    than the name it was asked for, each checked against the corrected
    variant. */
module ResolverFindings {
  import opened Wrappers
  import opened Chars
  import opened Strings
  import opened Positions
  import opened Matching
  import opened Patterns
  import opened Resolver
  import Outline

  // ---------------------------------------------------------------------------
  // A variable whose name also occurs inside the keyword

  const LetText := "let t = 0"

  lemma LetLineOnly(t: string, p: nat)
    requires t == LetText && 0 < p <= |t|
    ensures !AtLineStart(t, p)
  {
    assert !IsLineBreak(t[p - 1]);
  }

  lemma LetNoHead(t: string)
    requires t == LetText
    ensures SpaceRun(t, 0) == 0 && HeadAt(t, 0).None?
  {
    assert WordRun(t, 0) == 3;
    assert SpaceRun(t, 3) == 4;
  }

  lemma LetNoShape(t: string, shape: Outline.Shape)
    requires t == LetText
    ensures !ShapeDeclared(t, "t", shape)
  {
    forall p: nat | p <= |t|
      ensures FunctionSite(t, p, "t", shape).None?
    {
      if p == 0 {
        LetNoHead(t);
      } else {
        LetLineOnly(t, p);
      }
    }
  }

  /** No function pattern matches: `let` is not followed by `(`. */
  lemma LetNoFunction(t: string, v: Outline.Variant)
    requires t == LetText
    ensures |FunctionOffsets(t, "t", v)| == 0
  {
    LetNoShape(t, Outline.Arrow);
    LetNoShape(t, Outline.Block);
    LetNoShape(t, Outline.TypedBlock);
    LetNoShape(t, Outline.TypedArrow);
    FunctionFound(t, "t", v);
  }

  /** The first `let` pattern matches the whole declaration head. */
  lemma LetMatch(t: string)
    requires t == LetText
    ensures |VariableMatches(t, "t", Let)| > 0
    ensures VariableMatches(t, "t", Let)[0] == Match(0, 7, 4, ["t"])
  {
    assert SpaceRun(t, 0) == 0;
    assert OccursAt(t, "let", 0);
    assert SpaceRun(t, 3) == 4;
    assert BindingStart(t, 0, "let") == Some(4);
    assert OccursAt(t, "t", 4);
    assert SpaceRun(t, 5) == 6;
    assert SpacesThen(t, 5, '=') == Some(7);
    assert NameThen(t, 4, "t", true) == Some(7);
    assert VariableSite(t, 0, "t", Let) == Some(Capture(7, 4, ["t"]));
    FirstMatchAtStart(VariablePattern("t", Let), t, 0);
  }

  /** As written the location is the first `t` of the matched text, the last
      letter of `let`; corrected it is the declared name. */
  lemma LetAnchors(t: string)
    requires t == LetText
    ensures NamedSite(t, "t", Match(0, 7, 4, ["t"]))
    ensures VariableAnchor(t, "t", Match(0, 7, 4, ["t"]), Outline.AsWritten) == 2
    ensures VariableAnchor(t, "t", Match(0, 7, 4, ["t"]), Outline.Corrected) == 4
  {
    LetMatch(t);
    VariableMatchesNamed(t, "t", Let);
    var m := Match(0, 7, 4, ["t"]);
    assert m == VariableMatches(t, "t", Let)[0];
    var r := VariableAnchor(t, "t", m, Outline.AsWritten);
    assert OccursAt(t, "t", 2);
    assert r <= 2;
    assert t[r] == 't';
  }

  /** What go-to-definition answers for `t`, in either variant. */
  lemma LetDefinition(t: string, v: Outline.Variant)
    requires t == LetText
    ensures |DefinitionOffsets(t, "t", v)| > 0
    ensures DefinitionOffsets(t, "t", v)[0] == if v == Outline.AsWritten then 2 else 4
  {
    LetNoFunction(t, v);
    LetMatch(t);
    LetAnchors(t);
    VariableMatchesNamed(t, "t", Let);
    var a := VariableAnchors(t, "t", VariableMatches(t, "t", Let), v);
    assert a[0] == VariableAnchor(t, "t", Match(0, 7, 4, ["t"]), v);
    var x := VariableOffsets(t, "t", v);
    assert x[0] == a[0];
    var f := FunctionOffsets(t, "t", v);
    var c := ClassOffsets(t, "t", v);
    assert DefinitionOffsets(t, "t", v) == f + x + c;
    assert (f + x + c)[0] == x[0];
  }

  lemma LetSpans(t: string)
    requires t == LetText
    ensures Span(t, 2, 1) == Range(Position(0, 2), Position(0, 3))
    ensures Span(t, 4, 1) == Range(Position(0, 4), Position(0, 5))
  {
    assert t[..2] == "le" && t[..4] == "let ";
    assert LineStart(t, 2) == 0 && LineStart(t, 4) == 0;
  }

  lemma LetKeywordNotReference(t: string)
    requires t == LetText
    ensures 2 !in KeptReferences(t, "t", true)
  {
    assert !WholeWordAt(t, "t", 2) by {
      assert IsWordChar(t[1]);
    }
    ReferencesExact(t, "t");
  }

  lemma LetNameReference(t: string)
    requires t == LetText
    ensures 4 in KeptReferences(t, "t", true)
  {
    assert WholeWordAt(t, "t", 4) by {
      assert t[4..5] == "t";
    }
    ReferencesExact(t, "t");
  }

  /** As written, go-to-definition on `t` in `let t = 0` answers with the
      `t` of `let` (line 0, character 2), which is not a reference to `t`. */
  lemma LetKeywordSelected(t: string)
    requires t == LetText
    ensures |DefinitionOffsets(t, "t", Outline.AsWritten)| > 0
    ensures DefinitionOffsets(t, "t", Outline.AsWritten)[0] == 2
    ensures Span(t, 2, 1) == Range(Position(0, 2), Position(0, 3))
    ensures 2 !in KeptReferences(t, "t", true)
  {
    LetDefinition(t, Outline.AsWritten);
    LetSpans(t);
    LetKeywordNotReference(t);
  }

  /** Corrected, it answers with the declared name (character 4), which is a
      reference. */
  lemma LetNameSelected(t: string)
    requires t == LetText
    ensures |DefinitionOffsets(t, "t", Outline.Corrected)| > 0
    ensures DefinitionOffsets(t, "t", Outline.Corrected)[0] == 4
    ensures Span(t, 4, 1) == Range(Position(0, 4), Position(0, 5))
    ensures 4 in KeptReferences(t, "t", true)
  {
    LetDefinition(t, Outline.Corrected);
    LetSpans(t);
    LetNameReference(t);
  }

  // ---------------------------------------------------------------------------
  // A function declared after a blank line

  const BlankText := "\nf() {}"

  lemma BlankHead(t: string)
    requires t == BlankText
    ensures SpaceRun(t, 0) == 1 && SpaceRun(t, 1) == 1
    ensures HeadAt(t, 1) == Some(Head(1, 2, 3, 3, 5))
  {
    assert SpaceRun(t, 1) == 1;
    assert WordRun(t, 1) == 2;
    assert SpaceRun(t, 2) == 2;
    assert IndexOfChar(t, 3, ')') == 3;
    assert SpaceRun(t, 4) == 5;
  }

  /** The leading `\s*` takes the line break: the block pattern matches from
      offset 0, and the arrow pattern matches nowhere. */
  lemma BlankMatches(t: string)
    requires t == BlankText
    ensures |FunctionOffsets(t, "f", Outline.AsWritten)| > 0
    ensures |FunctionMatches(t, "f", Outline.Arrow)| == 0
    ensures |FunctionMatches(t, "f", Outline.Block)| > 0
    ensures FunctionMatches(t, "f", Outline.Block)[0] == Match(0, 6, 1, ["f"])
  {
    BlankHead(t);
    assert t[1..2] == "f";
    assert FunctionSite(t, 0, "f", Outline.Block) == Some(Capture(6, 1, ["f"]));
    FirstMatchAtStart(FunctionPattern("f", Outline.Block), t, 0);
    forall p: nat | p <= |t|
      ensures FunctionSite(t, p, "f", Outline.Arrow).None?
    {
      if 1 < p {
        assert !IsLineBreak(t[p - 1]);
      } else {
        assert SpaceRun(t, p) == 1;
        assert !OccursAt(t, "=>", 5);
      }
    }
    NoMatchIff(FunctionPattern("f", Outline.Arrow), t);
    ShapeFound(t, "f", Outline.Block, Outline.AsWritten);
    FunctionFound(t, "f", Outline.AsWritten);
  }

  /** What go-to-definition answers for `f`: the first block match. */
  lemma BlankDefinition(t: string, v: Outline.Variant)
    requires t == BlankText
    ensures |DefinitionOffsets(t, "f", v)| > 0
    ensures DefinitionOffsets(t, "f", v)[0] == if v == Outline.AsWritten then 0 else 1
  {
    BlankMatches(t);
    FunctionMatchesNamed(t, "f", Outline.Arrow);
    FunctionMatchesNamed(t, "f", Outline.Block);
    var a := Anchors(t, "f", FunctionMatches(t, "f", Outline.Arrow), v);
    var b := Anchors(t, "f", FunctionMatches(t, "f", Outline.Block), v);
    assert b[0] == (if v == Outline.AsWritten then 0 else 1);
    var f := FunctionOffsets(t, "f", v);
    assert f[0] == b[0];
    var x := VariableOffsets(t, "f", v);
    var c := ClassOffsets(t, "f", v);
    assert DefinitionOffsets(t, "f", v) == f + x + c;
    assert (f + x + c)[0] == f[0];
  }

  lemma BlankSpans(t: string)
    requires t == BlankText
    ensures Span(t, 0, 1) == Range(Position(0, 0), Position(0, 1))
    ensures Span(t, 1, 1) == Range(Position(1, 0), Position(1, 1))
  {
    assert t[..0] == [] && t[..1] == ['\n'];
    assert LineStart(t, 1) == 1;
  }

  lemma BlankLineNotReference(t: string)
    requires t == BlankText
    ensures 0 !in KeptReferences(t, "f", true)
  {
    assert !OccursAt(t, "f", 0) by {
      assert t[0..1][0] == '\n';
    }
    ReferencesExact(t, "f");
  }

  lemma BlankNameReference(t: string)
    requires t == BlankText
    ensures 1 in KeptReferences(t, "f", true)
  {
    assert WholeWordAt(t, "f", 1) by {
      assert t[1..2] == "f";
    }
    ReferencesExact(t, "f");
  }

  /** As written, go-to-definition on `f` answers with the empty line above
      its declaration, which is not a reference to `f`. */
  lemma BlankLineSelected(t: string)
    requires t == BlankText
    ensures |DefinitionOffsets(t, "f", Outline.AsWritten)| > 0
    ensures DefinitionOffsets(t, "f", Outline.AsWritten)[0] == 0
    ensures Span(t, 0, 1) == Range(Position(0, 0), Position(0, 1))
    ensures 0 !in KeptReferences(t, "f", true)
  {
    BlankDefinition(t, Outline.AsWritten);
    BlankSpans(t);
    BlankLineNotReference(t);
  }

  /** Corrected, it answers with the name on the line below, a reference. */
  lemma BlankNameSelected(t: string)
    requires t == BlankText
    ensures |DefinitionOffsets(t, "f", Outline.Corrected)| > 0
    ensures DefinitionOffsets(t, "f", Outline.Corrected)[0] == 1
    ensures Span(t, 1, 1) == Range(Position(1, 0), Position(1, 1))
    ensures 1 in KeptReferences(t, "f", true)
  {
    BlankDefinition(t, Outline.Corrected);
    BlankSpans(t);
    BlankNameReference(t);
  }
}
