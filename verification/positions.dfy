/** Editor positions and ranges as plain records, and the offset/position
    conversions the providers obtain from the host (`positionAt`, `lineAt`,
    `translate`, `Range.contains`). */
module Positions {
  import opened Chars
  import opened Strings

  /** A zero-based line and a zero-based column. */
  datatype Position = Position(line: nat, character: nat)

  datatype Range = Range(start: Position, end: Position)

  /** `a` is not after `b`. */
  predicate NotAfter(a: Position, b: Position) {
    a.line < b.line || (a.line == b.line && a.character <= b.character)
  }

  /** `outer.contains(inner)` */
  predicate RangeContains(outer: Range, inner: Range) {
    NotAfter(outer.start, inner.start) && NotAfter(inner.end, outer.end)
  }

  /** `p.translate(0, delta)` */
  function Translate(p: Position, delta: nat): (r: Position)
    ensures r.line == p.line && r.character == p.character + delta
  {
    Position(p.line, p.character + delta)
  }

  /** The offset at which the line holding `off` begins. */
  function LineStart(text: string, off: nat): (r: nat)
    requires off <= |text|
    ensures r <= off
    ensures r == 0 || IsLineBreak(text[r - 1])
    ensures forall k :: r <= k < off ==> !IsLineBreak(text[k])
  {
    if off == 0 || IsLineBreak(text[off - 1]) then off else LineStart(text, off - 1)
  }

  /** The offset at which the line holding `off` ends, before its break. */
  function LineEnd(text: string, off: nat): (r: nat)
    requires off <= |text|
    ensures off <= r <= |text|
    ensures r == |text| || IsLineBreak(text[r])
    ensures forall k :: off <= k < r ==> !IsLineBreak(text[k])
    decreases |text| - off
  {
    if off == |text| || IsLineBreak(text[off]) then off else LineEnd(text, off + 1)
  }

  /** The zero-based number of the line holding `off`. */
  function LineOf(text: string, off: nat): nat
    requires off <= |text|
  {
    CountChar(text[..off], '\n')
  }

  /** `document.positionAt(off)` */
  function PositionAt(text: string, off: nat): (p: Position)
    requires off <= |text|
    ensures p.character == off - LineStart(text, off)
  {
    Position(LineOf(text, off), off - LineStart(text, off))
  }

  /** `document.lineAt(positionAt(off).line).range.end` */
  function EndOfLine(text: string, off: nat): (p: Position)
    requires off <= |text|
    ensures p.line == PositionAt(text, off).line
    ensures p.character == LineEnd(text, off) - LineStart(text, off)
  {
    Position(LineOf(text, off), LineEnd(text, off) - LineStart(text, off))
  }

  /** `document.lineAt(positionAt(off).line).text` */
  function LineText(text: string, off: nat): (line: string)
    requires off <= |text|
    ensures forall k :: 0 <= k < |line| ==> !IsLineBreak(line[k])
  {
    text[LineStart(text, off)..LineEnd(text, off)]
  }

  /** Offsets with no line break between them share their line. */
  lemma {:induction false} SameLine(text: string, a: nat, b: nat)
    requires a <= b <= |text|
    requires forall k :: a <= k < b ==> !IsLineBreak(text[k])
    ensures LineStart(text, a) == LineStart(text, b)
    ensures LineEnd(text, a) == LineEnd(text, b)
    ensures LineOf(text, a) == LineOf(text, b)
    decreases b - a
  {
    if a < b {
      SameLine(text, a, b - 1);
      assert text[..b] == text[..b - 1] + [text[b - 1]];
      assert multiset(text[..b]) == multiset(text[..b - 1]) + multiset{text[b - 1]};
    }
  }

  /** An offset before a line break lies on an earlier line than one after
      it. */
  lemma {:induction false} LaterLine(text: string, a: nat, b: nat)
    requires a < b <= |text|
    requires exists k :: a <= k < b && IsLineBreak(text[k])
    ensures LineOf(text, a) < LineOf(text, b)
    decreases b - a
  {
    assert text[..b] == text[..b - 1] + [text[b - 1]];
    assert multiset(text[..b]) == multiset(text[..b - 1]) + multiset{text[b - 1]};
    if IsLineBreak(text[b - 1]) {
      if a < b - 1 {
        LineMonotone(text, a, b - 1);
      }
    } else {
      LaterLine(text, a, b - 1);
    }
  }

  lemma {:induction false} LineMonotone(text: string, a: nat, b: nat)
    requires a <= b <= |text|
    ensures LineOf(text, a) <= LineOf(text, b)
    decreases b - a
  {
    if a < b {
      LineMonotone(text, a, b - 1);
      assert text[..b] == text[..b - 1] + [text[b - 1]];
      assert multiset(text[..b]) == multiset(text[..b - 1]) + multiset{text[b - 1]};
    }
  }

  /** Position order follows offset order. */
  lemma PositionOrder(text: string, a: nat, b: nat)
    requires a <= b <= |text|
    ensures NotAfter(PositionAt(text, a), PositionAt(text, b))
  {
    if forall k :: a <= k < b ==> !IsLineBreak(text[k]) {
      SameLine(text, a, b);
    } else {
      LaterLine(text, a, b);
    }
  }
}
