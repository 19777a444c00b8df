/** Two lines on which signature help as written departs from what it
    evidently intends, each checked against the corrected variant. */
module SignatureFindings {
  import opened Wrappers
  import opened Chars
  import opened Strings
  import opened SignatureHelp
  import Outline

  // ---------------------------------------------------------------------------
  // A call nested in another call

  const NestedLine := "print(length("

  lemma OuterCall(t: string)
    requires t == NestedLine
    ensures IsCall(t, 0, "print", "length(")
  {
    assert t[0..5] == "print";
    assert t[6..] == "length(";
  }

  lemma InnerCall(t: string)
    requires t == NestedLine
    ensures IsCall(t, 6, "length", "") && WordStart(t, 6)
    ensures forall j: nat :: 6 < j <= |t| && WordStart(t, j) ==> CallSite(t, j).None?
  {
    assert t[6..12] == "length";
    assert t[13..] == "";
    forall j: nat | 6 < j <= |t|
      ensures WordStart(t, j) ==> CallSite(t, j).None?
    {
      if j < 13 {
        assert IsWordChar(t[j - 1]);
      }
    }
  }

  lemma NoCommas(args: string)
    requires args == "length("
    ensures multiset(args)[','] == 0
  {
    assert ',' !in args;
  }

  lemma PrintAndLength()
    ensures "print" in BuiltIns && BuiltIns["print"] == 1
    ensures "length" in BuiltIns && BuiltIns["length"] == 1
  {
  }

  /** As written, with the cursor inside `length(`, the help shown is that
      of the enclosing `print`. */
  lemma NestedShowsOuter(line: string)
    requires line == NestedLine
    ensures ProvideSignatureHelp(BuiltIns, line, 13, Outline.AsWritten)
            == Answer(Some(Help([SignatureInfo("print", 1)], 0, 0)))
  {
    assert Prefix(line, 13) == line;
    OuterCall(line);
    assert Chosen(Prefix(line, 13), 0, "print", "length(", Outline.AsWritten);
    NoCommas("length(");
    PrintAndLength();
    SignatureHelpExact(BuiltIns, line, 13, Outline.AsWritten, 0, "print", "length(");
  }

  /** Corrected, it is the help of `length`, the call the cursor is in. */
  lemma NestedShowsInner(line: string)
    requires line == NestedLine
    ensures ProvideSignatureHelp(BuiltIns, line, 13, Outline.Corrected)
            == Answer(Some(Help([SignatureInfo("length", 1)], 0, 0)))
  {
    assert Prefix(line, 13) == line;
    InnerCall(line);
    PrintAndLength();
    SignatureHelpExact(BuiltIns, line, 13, Outline.Corrected, 6, "length", "");
  }

  // ---------------------------------------------------------------------------
  // A name inherited from Object.prototype

  const ValueOfLine := "valueOf("

  lemma ValueOfCall(t: string)
    requires t == ValueOfLine
    ensures IsCall(t, 0, "valueOf", "") && WordStart(t, 0)
    ensures forall j: nat :: 0 < j <= |t| && WordStart(t, j) ==> CallSite(t, j).None?
  {
    assert t[0..7] == "valueOf";
    assert t[8..] == "";
    forall j: nat | 0 < j <= |t|
      ensures WordStart(t, j) ==> CallSite(t, j).None?
    {
      if j < 8 {
        assert IsWordChar(t[j - 1]);
      }
    }
  }

  lemma ValueOfInherited()
    ensures "valueOf" !in BuiltIns && "valueOf" in PrototypeKeys
  {
  }

  /** As written, `valueOf(` finds `Object.prototype.valueOf` in the table
      and reading its parameters throws. */
  lemma ValueOfThrows(line: string)
    requires line == ValueOfLine
    ensures ProvideSignatureHelp(BuiltIns, line, 8, Outline.AsWritten) == Thrown
  {
    assert Prefix(line, 8) == line;
    ValueOfCall(line);
    ValueOfInherited();
    SignatureHelpExact(BuiltIns, line, 8, Outline.AsWritten, 0, "valueOf", "");
  }

  /** Corrected, only the table's own entries are looked up, and there is
      no help for `valueOf`. */
  lemma ValueOfNoHelp(line: string)
    requires line == ValueOfLine
    ensures ProvideSignatureHelp(BuiltIns, line, 8, Outline.Corrected) == Answer(None)
  {
    assert Prefix(line, 8) == line;
    ValueOfCall(line);
    ValueOfInherited();
    SignatureHelpExact(BuiltIns, line, 8, Outline.Corrected, 0, "valueOf", "");
  }
}
