/** The interface-conformance checker (`validateInterfaces`).

    The document is split at `\n`. The interface extractor and the class
    extractor each classify every trimmed line into a row of the container
    scanner and collect the containers it closes; the validator then
    reports, for every interface a class lists, a warning when no interface
    of that name was collected and otherwise an error for each of the
    interface's methods that the class does not have. */
module Validator {
  import opened Wrappers
  import opened Chars
  import opened Strings
  import opened Positions
  import opened ValidatorPatterns
  import opened BlockScan

  /** `text.split('\n')` */
  function Lines(text: string): (lines: seq<string>)
    ensures |lines| >= 1 && Join(lines, '\n') == text
    ensures forall i, k :: 0 <= i < |lines| && 0 <= k < |lines[i]| ==> lines[i][k] != '\n'
  {
    Split(text, '\n')
  }

  /** `lines[i].trim()` */
  function Line(lines: seq<string>, i: nat): string
    requires i < |lines|
  {
    Trim(lines[i])
  }

  /** How a body line moves the brace count: every `{` and every `}` on it. */
  function Net(line: string): (n: int)
    ensures n == multiset(line)['{'] as int - multiset(line)['}'] as int
  {
    CountChar(line, '{') as int - CountChar(line, '}') as int
  }

  /** A trimmed line as the interface extractor sees it: the header
      expression captures the interface name; the member expression captures
      a method signature, and is only taken on a line with neither `=>` nor
      `{`. */
  function InterfaceRow(line: string): Row<string, Signature> {
    var member := if Contains(line, "=>") || Contains(line, "{") then None else SignatureOf(line);
    Row(IsCommentLine(line), InterfaceHeader(line), member, Net(line))
  }

  /** A trimmed line as the class extractor sees it: the header expression
      captures the class name and its implements text; the member expression
      captures a method name, and `constructor` is not recorded. */
  function ClassRow(line: string): Row<ClassHead, string> {
    var member := match MethodStart(line)
      case None => None
      case Some(name) => if name == "constructor" then None else Some(name);
    Row(IsCommentLine(line), ClassHeader(line), member, Net(line))
  }

  function InterfaceRows(lines: seq<string>): (rows: seq<Row<string, Signature>>)
    ensures |rows| == |lines|
    ensures forall i :: 0 <= i < |lines| ==> rows[i] == InterfaceRow(Line(lines, i))
  {
    seq(|lines|, i requires 0 <= i < |lines| => InterfaceRow(Line(lines, i)))
  }

  function ClassRows(lines: seq<string>): (rows: seq<Row<ClassHead, string>>)
    ensures |rows| == |lines|
    ensures forall i :: 0 <= i < |lines| ==> rows[i] == ClassRow(Line(lines, i))
  {
    seq(|lines|, i requires 0 <= i < |lines| => ClassRow(Line(lines, i)))
  }

  /** Only a non-comment line can close a container; a comment line in a
      body, braces and all, leaves the count where it was. */
  lemma CommentLinesIgnored(lines: seq<string>, o: nat, k: nat)
    requires o < k < |lines| && IsCommentLine(Line(lines, k))
    ensures Depth(InterfaceRows(lines), o, k + 1) == Depth(InterfaceRows(lines), o, k)
    ensures !ClosesAt(InterfaceRows(lines), o, k)
    ensures Depth(ClassRows(lines), o, k + 1) == Depth(ClassRows(lines), o, k)
    ensures !ClosesAt(ClassRows(lines), o, k)
  {
  }

  datatype MethodSignature = MethodSignature(name: string, params: string, returnType: string, line: nat)

  datatype InterfaceDefinition = InterfaceDefinition(name: string, methods: seq<MethodSignature>, line: nat)

  /** A class and where its implements clause is. */
  datatype ClassDefinition = ClassDefinition(name: string, interfaces: seq<string>, methods: seq<string>,
                                             line: nat, implementsLine: nat)

  // ---------------------------------------------------------------------
  // Interfaces.

  /** The signature recorded for member line `k`. */
  function SignatureLine(rows: seq<Row<string, Signature>>, k: nat): MethodSignature
    requires k < |rows| && rows[k].member.Some?
  {
    var sig := rows[k].member.value;
    MethodSignature(sig.name, sig.params, sig.returnType, k)
  }

  /** The interface a container describes: the name from its header and
      one signature per member line, in order. */
  function InterfaceOf(rows: seq<Row<string, Signature>>, b: Block): (d: InterfaceDefinition)
    requires WellFormed(rows, b)
    ensures d.line == b.open && |d.methods| == |b.members|
    ensures forall j :: 0 <= j < |b.members| ==> d.methods[j].line == b.members[j]
  {
    var methods := seq(|b.members|, j requires 0 <= j < |b.members| => SignatureLine(rows, b.members[j]));
    InterfaceDefinition(rows[b.open].header.value, methods, b.open)
  }

  /** Some raw line from `j` to `c` (both included) mentions `constructor`. */
  function ConstructorWithin(lines: seq<string>, j: nat, c: nat): (r: bool)
    requires c < |lines|
    ensures r <==> exists k :: j <= k <= c && Contains(lines[k], "constructor")
    decreases c + 1 - j
  {
    if j > c then false
    else if Contains(lines[j], "constructor") then true
    else ConstructorWithin(lines, j + 1, c)
  }

  /** What a closed container offers for registration: its interface,
      unless a raw line of it, header and closing line included, mentions
      `constructor`. */
  function Candidate(lines: seq<string>, b: Block): (r: Option<InterfaceDefinition>)
    requires WellFormed(InterfaceRows(lines), b)
    ensures r.Some? <==> !exists k :: b.open <= k <= b.close && Contains(lines[k], "constructor")
    ensures r.Some? ==> r.value == InterfaceOf(InterfaceRows(lines), b)
  {
    if ConstructorWithin(lines, b.open, b.close) then None else Some(InterfaceOf(InterfaceRows(lines), b))
  }

  /** The interface containers of the document. */
  function InterfaceBlocks(lines: seq<string>): seq<Block> {
    Blocks(InterfaceRows(lines))
  }

  /** What each interface container offers, in document order. */
  function Offers(lines: seq<string>): (r: seq<Option<InterfaceDefinition>>)
    ensures |r| == |InterfaceBlocks(lines)|
    ensures forall j :: 0 <= j < |r| ==> r[j] == Candidate(lines, InterfaceBlocks(lines)[j])
  {
    var bs := InterfaceBlocks(lines);
    seq(|bs|, j requires 0 <= j < |bs| => Candidate(lines, bs[j]))
  }

  /** The interfaces registered from `offers`, in order; a later one
      replaces an earlier one of the same name. */
  function Register(offers: seq<Option<InterfaceDefinition>>): map<string, InterfaceDefinition> {
    if |offers| == 0 then map[]
    else
      var earlier := Register(offers[..|offers| - 1]);
      match offers[|offers| - 1]
      case None => earlier
      case Some(d) => earlier[d.name := d]
  }

  /** Offer `i` is the last one named `x`. */
  predicate LastOffer(offers: seq<Option<InterfaceDefinition>>, i: nat, x: string) {
    && i < |offers| && offers[i].Some? && offers[i].value.name == x
    && forall j :: i < j < |offers| && offers[j].Some? ==> offers[j].value.name != x
  }

  /** A name is registered exactly when some offer has it, and it maps to
      the last such offer. */
  lemma {:induction false} Registered(offers: seq<Option<InterfaceDefinition>>, x: string)
    ensures x in Register(offers) <==> exists i: nat :: LastOffer(offers, i, x)
    ensures forall i: nat :: LastOffer(offers, i, x) ==> Register(offers)[x] == offers[i].value
  {
    if |offers| > 0 {
      var n := |offers| - 1;
      var front := offers[..n];
      Registered(front, x);
      if offers[n].Some? && offers[n].value.name == x {
        assert LastOffer(offers, n, x);
        forall i: nat | LastOffer(offers, i, x)
          ensures i == n
        {
        }
      } else {
        forall i: nat | LastOffer(front, i, x)
          ensures LastOffer(offers, i, x)
        {
          assert offers[i] == front[i];
          forall j | i < j < |offers| && offers[j].Some?
            ensures offers[j].value.name != x
          {
            if j < n {
              assert offers[j] == front[j];
            }
          }
        }
        forall i: nat | LastOffer(offers, i, x)
          ensures LastOffer(front, i, x)
        {
          assert offers[i] == front[i];
          forall j | i < j < |front| && front[j].Some?
            ensures front[j].value.name != x
          {
            assert front[j] == offers[j];
          }
        }
      }
    }
  }

  /** Every offer has a last offer of its name at or after it. */
  lemma {:induction false} LastOfferExists(offers: seq<Option<InterfaceDefinition>>, j: nat)
    requires j < |offers| && offers[j].Some?
    ensures exists i: nat :: j <= i && LastOffer(offers, i, offers[j].value.name)
    decreases |offers| - j
  {
    var x := offers[j].value.name;
    if !LastOffer(offers, j, x) {
      var k :| j < k < |offers| && offers[k].Some? && offers[k].value.name == x;
      LastOfferExists(offers, k);
    }
  }

  /** `extractInterfaces` */
  function ExtractInterfaces(lines: seq<string>): map<string, InterfaceDefinition> {
    Register(Offers(lines))
  }

  /** An interface is collected exactly when some interface container
      without a `constructor` line declares it, and what is collected is
      the last such container's interface. */
  lemma InterfacesFound(lines: seq<string>, x: string)
    ensures x in ExtractInterfaces(lines) <==> exists j: nat :: LastOffer(Offers(lines), j, x)
    ensures forall j: nat :: LastOffer(Offers(lines), j, x) ==>
              ExtractInterfaces(lines)[x] == InterfaceOf(InterfaceRows(lines), InterfaceBlocks(lines)[j])
  {
    Registered(Offers(lines), x);
  }

  /** What the collected interfaces say about the text: the name is the
      header's capture on the container's first line, and each method is the
      signature captured on a member line of its body, a line holding
      neither `=>` nor `{`. */
  lemma InterfaceText(lines: seq<string>, j: nat, i: nat)
    requires j < |InterfaceBlocks(lines)|
    requires i < |InterfaceBlocks(lines)[j].members|
    ensures var b := InterfaceBlocks(lines)[j];
            var d := InterfaceOf(InterfaceRows(lines), b);
            var k := b.members[i];
            && b.open < k < b.close < |lines|
            && InterfaceHeader(Line(lines, b.open)) == Some(d.name)
            && !Contains(Line(lines, k), "=>") && !Contains(Line(lines, k), "{")
            && SignatureOf(Line(lines, k)) == Some(Signature(d.methods[i].name, d.methods[i].params, d.methods[i].returnType))
  {
    var b := InterfaceBlocks(lines)[j];
    var rows := InterfaceRows(lines);
    assert WellFormed(rows, b);
    var k := b.members[i];
    assert IsMemberLine(rows, k);
    assert rows[k] == InterfaceRow(Line(lines, k));
    assert rows[b.open] == InterfaceRow(Line(lines, b.open));
  }

  // ---------------------------------------------------------------------
  // Classes.

  /** The class a container describes; its implements clause is on its
      header line. */
  function ClassOf(rows: seq<Row<ClassHead, string>>, b: Block): (d: ClassDefinition)
    requires WellFormed(rows, b)
    ensures d.line == d.implementsLine == b.open && |d.methods| == |b.members|
  {
    var head := rows[b.open].header.value;
    var methods := seq(|b.members|, j requires 0 <= j < |b.members| => rows[b.members[j]].member.value);
    ClassDefinition(head.name, ImplementedNames(head.list), methods, b.open, b.open)
  }

  /** The classes of the containers of `rows`: one per container, in
      document order. */
  function ClassesOf(rows: seq<Row<ClassHead, string>>): (r: seq<ClassDefinition>)
    ensures |r| == |Blocks(rows)|
    ensures forall j :: 0 <= j < |r| ==> r[j] == ClassOf(rows, Blocks(rows)[j])
    ensures forall c :: c in r ==> c.implementsLine < |rows|
    ensures forall p, q :: 0 <= p < q < |r| ==> r[p].implementsLine < r[q].implementsLine
  {
    var bs := Blocks(rows);
    var r := seq(|bs|, j requires 0 <= j < |bs| => ClassOf(rows, bs[j]));
    assert forall j :: 0 <= j < |r| ==> r[j].implementsLine == bs[j].open < bs[j].close < |rows|;
    r
  }

  /** `extractClasses`: each class on a line of the document, in document
      order. */
  function ExtractClasses(lines: seq<string>): (r: seq<ClassDefinition>)
    ensures forall c :: c in r ==> c.implementsLine < |lines|
    ensures forall p, q :: 0 <= p < q < |r| ==> r[p].implementsLine < r[q].implementsLine
  {
    ClassesOf(ClassRows(lines))
  }

  /** What the collected classes say about the text: the header expression
      captured the class name and implements text on its first line, the
      interfaces are that text's comma-separated names, and each method is
      a method start other than `constructor` on a body line. */
  lemma ClassText(lines: seq<string>, j: nat, i: nat)
    requires j < |ExtractClasses(lines)|
    requires i < |ExtractClasses(lines)[j].methods|
    ensures |ExtractClasses(lines)| == |Blocks(ClassRows(lines))|
    ensures var c := ExtractClasses(lines)[j];
            var b := Blocks(ClassRows(lines))[j];
            var k := b.members[i];
            && c.line < k < b.close < |lines|
            && ClassHeader(Line(lines, c.line)).Some?
            && ClassHeader(Line(lines, c.line)).value.name == c.name
            && ImplementedNames(ClassHeader(Line(lines, c.line)).value.list) == c.interfaces
            && MethodStart(Line(lines, k)) == Some(c.methods[i])
            && c.methods[i] != "constructor"
  {
    var rows := ClassRows(lines);
    var b := Blocks(rows)[j];
    assert WellFormed(rows, b);
    var k := b.members[i];
    assert IsMemberLine(rows, k);
    assert rows[k] == ClassRow(Line(lines, k));
    assert rows[b.open] == ClassRow(Line(lines, b.open));
  }

  // ---------------------------------------------------------------------
  // Diagnostics.

  datatype Severity = Warning | Error

  /** What a diagnostic reports; `Text` gives the words the editor shows. */
  datatype Message =
    | InterfaceNotFound(interfaceName: string)
    | MethodMissing(className: string, required: MethodSignature, interfaceName: string)

  datatype Diagnostic = Diagnostic(range: Range, message: Message, severity: Severity)

  /** The whole of line `i`, as the host's positions give it. */
  function LineRange(lines: seq<string>, i: nat): (r: Range)
    requires i < |lines|
    ensures r.start == Position(i, 0) && r.end.line == i && r.end.character == |lines[i]|
  {
    Range(Position(i, 0), Position(i, |lines[i]|))
  }

  /** The warning for an implemented interface that is not declared. */
  function NotFound(lines: seq<string>, c: ClassDefinition, x: string): Diagnostic
    requires c.implementsLine < |lines|
  {
    Diagnostic(LineRange(lines, c.implementsLine), InterfaceNotFound(x), Warning)
  }

  /** How a required method is shown: its name, its parameters in
      parentheses, and `: ` and its return type when it has one. */
  function Required(m: MethodSignature): string {
    m.name + "(" + m.params + ")" + (if m.returnType == "" then "" else ": " + m.returnType)
  }

  /** The error for a required method the class lacks. */
  function Missing(lines: seq<string>, c: ClassDefinition, x: string, m: MethodSignature): Diagnostic
    requires c.implementsLine < |lines|
  {
    Diagnostic(LineRange(lines, c.implementsLine), MethodMissing(c.name, m, x), Error)
  }

  /** The text of a message, as the editor shows it. */
  function Text(msg: Message): string {
    match msg
    case InterfaceNotFound(x) => "Interface '" + x + "' not found"
    case MethodMissing(name, m, x) =>
      "Class '" + name + "' does not implement method '" + m.name + "' from interface '" + x + "'\n\n"
        + "Required: " + Required(m) + "\n\n"
        + "\U{1F4A1} Add this method to the class or remove the interface from the implements clause"
  }

  /** The errors for the methods of `ms` that the class does not have, in
      order. */
  function MissingMethods(lines: seq<string>, c: ClassDefinition, x: string, ms: seq<MethodSignature>): seq<Diagnostic>
    requires c.implementsLine < |lines|
  {
    if |ms| == 0 then []
    else (if ms[0].name in c.methods then [] else [Missing(lines, c, x, ms[0])]) + MissingMethods(lines, c, x, ms[1..])
  }

  /** The diagnostics for one interface a class implements. */
  function ForInterface(lines: seq<string>, interfaces: map<string, InterfaceDefinition>, c: ClassDefinition, x: string): seq<Diagnostic>
    requires c.implementsLine < |lines|
  {
    if x !in interfaces then [NotFound(lines, c, x)]
    else MissingMethods(lines, c, x, interfaces[x].methods)
  }

  /** The diagnostics for the interfaces `xs` of a class, in order. */
  function ForClass(lines: seq<string>, interfaces: map<string, InterfaceDefinition>, c: ClassDefinition, xs: seq<string>): seq<Diagnostic>
    requires c.implementsLine < |lines|
  {
    if |xs| == 0 then []
    else ForInterface(lines, interfaces, c, xs[0]) + ForClass(lines, interfaces, c, xs[1..])
  }

  /** The diagnostics for the classes `cs`, in order. */
  function ForClasses(lines: seq<string>, interfaces: map<string, InterfaceDefinition>, cs: seq<ClassDefinition>): seq<Diagnostic>
    requires forall c :: c in cs ==> c.implementsLine < |lines|
  {
    if |cs| == 0 then []
    else ForClass(lines, interfaces, cs[0], cs[0].interfaces) + ForClasses(lines, interfaces, cs[1..])
  }

  /** `validateInterfaces` */
  function ValidateInterfaces(text: string): seq<Diagnostic> {
    var lines := Lines(text);
    ForClasses(lines, ExtractInterfaces(lines), ExtractClasses(lines))
  }

  /** What `validateInterfaces` reports about interface `x` of class `c`:
      a warning when `x` is not declared, otherwise one error per required
      method the class does not have. */
  predicate Reported(lines: seq<string>, interfaces: map<string, InterfaceDefinition>, c: ClassDefinition, x: string, d: Diagnostic)
    requires c.implementsLine < |lines|
  {
    if x !in interfaces then d == NotFound(lines, c, x)
    else exists m :: m in interfaces[x].methods && m.name !in c.methods && d == Missing(lines, c, x, m)
  }

  lemma {:induction false} MissingMethodsExact(lines: seq<string>, c: ClassDefinition, x: string, ms: seq<MethodSignature>, d: Diagnostic)
    requires c.implementsLine < |lines|
    ensures d in MissingMethods(lines, c, x, ms) <==> exists m :: m in ms && m.name !in c.methods && d == Missing(lines, c, x, m)
    ensures |MissingMethods(lines, c, x, ms)| <= |ms|
  {
    if |ms| > 0 {
      MissingMethodsExact(lines, c, x, ms[1..], d);
      assert forall m :: m in ms <==> m == ms[0] || m in ms[1..];
    }
  }

  /** How many of the first `i` methods of `ms` the class lacks: where the
      error for `ms[i]` sits among the errors. */
  function LackedBefore(c: ClassDefinition, ms: seq<MethodSignature>, i: nat): (n: nat)
    requires i <= |ms|
    ensures n <= i
  {
    if i == 0 then 0
    else (if ms[0].name in c.methods then 0 else 1) + LackedBefore(c, ms[1..], i - 1)
  }

  /** A lacked method counts before every later one. */
  lemma {:induction false} LackedBeforeGrows(c: ClassDefinition, ms: seq<MethodSignature>, i: nat, j: nat)
    requires i < j <= |ms| && ms[i].name !in c.methods
    ensures LackedBefore(c, ms, i) < LackedBefore(c, ms, j)
  {
    if i > 0 {
      LackedBeforeGrows(c, ms[1..], i - 1, j - 1);
    } else {
      assert LackedBefore(c, ms, j) >= 1;
    }
  }

  /** The errors are one per lacked method, in the order of `ms`: the error
      for a lacked `ms[i]` is the one after the errors for the methods
      lacked before it. */
  lemma {:induction false} MissingMethodsPlaced(lines: seq<string>, c: ClassDefinition, x: string, ms: seq<MethodSignature>)
    requires c.implementsLine < |lines|
    ensures |MissingMethods(lines, c, x, ms)| == LackedBefore(c, ms, |ms|)
    ensures forall i :: 0 <= i < |ms| && ms[i].name !in c.methods ==>
              && LackedBefore(c, ms, i) < |MissingMethods(lines, c, x, ms)|
              && MissingMethods(lines, c, x, ms)[LackedBefore(c, ms, i)] == Missing(lines, c, x, ms[i])
  {
    if |ms| > 0 {
      var h := if ms[0].name in c.methods then [] else [Missing(lines, c, x, ms[0])];
      var rest := MissingMethods(lines, c, x, ms[1..]);
      MissingMethodsPlaced(lines, c, x, ms[1..]);
      assert MissingMethods(lines, c, x, ms) == h + rest;
      forall i | 0 <= i < |ms| && ms[i].name !in c.methods
        ensures LackedBefore(c, ms, i) < |h + rest| && (h + rest)[LackedBefore(c, ms, i)] == Missing(lines, c, x, ms[i])
      {
        if i > 0 {
          assert ms[1..][i - 1] == ms[i];
          assert LackedBefore(c, ms, i) == |h| + LackedBefore(c, ms[1..], i - 1);
        }
      }
    }
  }

  /** Errors come in the order of the interface's methods: a lacked
      `ms[i]` is reported before a lacked `ms[j]` when `i < j`. */
  lemma MissingMethodsOrdered(lines: seq<string>, c: ClassDefinition, x: string, ms: seq<MethodSignature>, i: nat, j: nat)
    requires c.implementsLine < |lines|
    requires i < j < |ms| && ms[i].name !in c.methods && ms[j].name !in c.methods
    ensures exists p, q :: 0 <= p < q < |MissingMethods(lines, c, x, ms)|
              && MissingMethods(lines, c, x, ms)[p] == Missing(lines, c, x, ms[i])
              && MissingMethods(lines, c, x, ms)[q] == Missing(lines, c, x, ms[j])
  {
    MissingMethodsPlaced(lines, c, x, ms);
    LackedBeforeGrows(c, ms, i, j);
    var p, q := LackedBefore(c, ms, i), LackedBefore(c, ms, j);
    assert MissingMethods(lines, c, x, ms)[p] == Missing(lines, c, x, ms[i]);
  }

  /** Each lacked method is reported as often as the interface lists it,
      and a method the class has is never reported. */
  lemma {:induction false} MissingMethodsCount(lines: seq<string>, c: ClassDefinition, x: string, ms: seq<MethodSignature>, m: MethodSignature)
    requires c.implementsLine < |lines|
    ensures multiset(MissingMethods(lines, c, x, ms))[Missing(lines, c, x, m)] ==
              (if m.name in c.methods then 0 else multiset(ms)[m])
  {
    if |ms| > 0 {
      var h := if ms[0].name in c.methods then [] else [Missing(lines, c, x, ms[0])];
      MissingMethodsCount(lines, c, x, ms[1..], m);
      assert ms == [ms[0]] + ms[1..];
      CountJoin([ms[0]], ms[1..], m);
      CountJoin(h, MissingMethods(lines, c, x, ms[1..]), Missing(lines, c, x, m));
      assert Missing(lines, c, x, ms[0]) == Missing(lines, c, x, m) <==> ms[0] == m;
    }
  }

  /** The diagnostics for one implemented interface are exactly what
      `Reported` describes. */
  lemma ForInterfaceExact(lines: seq<string>, interfaces: map<string, InterfaceDefinition>, c: ClassDefinition, x: string, d: Diagnostic)
    requires c.implementsLine < |lines|
    ensures d in ForInterface(lines, interfaces, c, x) <==> Reported(lines, interfaces, c, x, d)
    ensures x !in interfaces ==> ForInterface(lines, interfaces, c, x) == [NotFound(lines, c, x)]
  {
    if x in interfaces {
      MissingMethodsExact(lines, c, x, interfaces[x].methods, d);
    }
  }

  lemma {:induction false} ForClassExact(lines: seq<string>, interfaces: map<string, InterfaceDefinition>, c: ClassDefinition, xs: seq<string>, d: Diagnostic)
    requires c.implementsLine < |lines|
    ensures d in ForClass(lines, interfaces, c, xs) <==> exists x :: x in xs && Reported(lines, interfaces, c, x, d)
    ensures d in ForClass(lines, interfaces, c, xs) ==> d.range == LineRange(lines, c.implementsLine)
  {
    if |xs| > 0 {
      ForInterfaceExact(lines, interfaces, c, xs[0], d);
      ForClassExact(lines, interfaces, c, xs[1..], d);
      assert forall x :: x in xs <==> x == xs[0] || x in xs[1..];
    }
  }

  /** How many diagnostics the first `i` interfaces of `xs` give: where
      those for `xs[i]` begin. */
  function ReportedBefore(lines: seq<string>, interfaces: map<string, InterfaceDefinition>, c: ClassDefinition, xs: seq<string>, i: nat): nat
    requires c.implementsLine < |lines| && i <= |xs|
  {
    if i == 0 then 0
    else |ForInterface(lines, interfaces, c, xs[0])| + ReportedBefore(lines, interfaces, c, xs[1..], i - 1)
  }

  /** The diagnostics of a class are those of its interfaces, one stretch
      per interface, in the order the implements clause lists them: the
      `k`-th diagnostic for `xs[i]` follows those for the interfaces before
      it. */
  lemma {:induction false} ForClassAt(lines: seq<string>, interfaces: map<string, InterfaceDefinition>, c: ClassDefinition, xs: seq<string>, i: nat, k: nat)
    requires c.implementsLine < |lines| && i < |xs| && k < |ForInterface(lines, interfaces, c, xs[i])|
    ensures ReportedBefore(lines, interfaces, c, xs, i) + k < |ForClass(lines, interfaces, c, xs)|
    ensures ForClass(lines, interfaces, c, xs)[ReportedBefore(lines, interfaces, c, xs, i) + k] == ForInterface(lines, interfaces, c, xs[i])[k]
  {
    var h := ForInterface(lines, interfaces, c, xs[0]);
    var rest := ForClass(lines, interfaces, c, xs[1..]);
    assert ForClass(lines, interfaces, c, xs) == h + rest;
    if i > 0 {
      assert xs[1..][i - 1] == xs[i];
      ForClassAt(lines, interfaces, c, xs[1..], i - 1, k);
    }
  }

  /** The stretches cover the whole list. */
  lemma {:induction false} ForClassLength(lines: seq<string>, interfaces: map<string, InterfaceDefinition>, c: ClassDefinition, xs: seq<string>)
    requires c.implementsLine < |lines|
    ensures |ForClass(lines, interfaces, c, xs)| == ReportedBefore(lines, interfaces, c, xs, |xs|)
  {
    if |xs| > 0 {
      ForClassLength(lines, interfaces, c, xs[1..]);
    }
  }

  /** The stretch of an earlier interface ends before that of a later one
      begins. */
  lemma {:induction false} ReportedBeforeGrows(lines: seq<string>, interfaces: map<string, InterfaceDefinition>, c: ClassDefinition, xs: seq<string>, i: nat, j: nat)
    requires c.implementsLine < |lines| && i < j <= |xs|
    ensures ReportedBefore(lines, interfaces, c, xs, i) + |ForInterface(lines, interfaces, c, xs[i])| <= ReportedBefore(lines, interfaces, c, xs, j)
  {
    if i > 0 {
      assert xs[1..][i - 1] == xs[i];
      ReportedBeforeGrows(lines, interfaces, c, xs[1..], i - 1, j - 1);
    } else {
      assert ReportedBefore(lines, interfaces, c, xs, j) >= |ForInterface(lines, interfaces, c, xs[0])|;
    }
  }

  lemma {:induction false} ForClassesExact(lines: seq<string>, interfaces: map<string, InterfaceDefinition>, cs: seq<ClassDefinition>, d: Diagnostic)
    requires forall c :: c in cs ==> c.implementsLine < |lines|
    ensures d in ForClasses(lines, interfaces, cs) <==>
              exists c, x :: c in cs && x in c.interfaces && Reported(lines, interfaces, c, x, d)
  {
    if |cs| > 0 {
      ForClassExact(lines, interfaces, cs[0], cs[0].interfaces, d);
      ForClassesExact(lines, interfaces, cs[1..], d);
      assert forall c :: c in cs <==> c == cs[0] || c in cs[1..];
    }
  }

  /** A diagnostic is reported exactly when some class lists an interface
      that is not declared (a warning) or whose method it lacks (an error). */
  lemma ValidateExact(text: string, d: Diagnostic)
    ensures var lines := Lines(text);
            d in ValidateInterfaces(text) <==>
              exists c, x :: c in ExtractClasses(lines) && x in c.interfaces && Reported(lines, ExtractInterfaces(lines), c, x, d)
  {
    var lines := Lines(text);
    ForClassesExact(lines, ExtractInterfaces(lines), ExtractClasses(lines), d);
  }

  /** Every diagnostic for classes on lines from `lo` on is on a line from
      `lo` on, spanning that whole line. */
  lemma {:induction false} ForClassesFrom(lines: seq<string>, interfaces: map<string, InterfaceDefinition>, cs: seq<ClassDefinition>, lo: nat, d: Diagnostic)
    requires forall c :: c in cs ==> lo <= c.implementsLine < |lines|
    requires d in ForClasses(lines, interfaces, cs)
    ensures lo <= d.range.start.line < |lines| && d.range == LineRange(lines, d.range.start.line)
  {
    if |cs| > 0 {
      if d in ForClass(lines, interfaces, cs[0], cs[0].interfaces) {
        ForClassExact(lines, interfaces, cs[0], cs[0].interfaces, d);
      } else {
        ForClassesFrom(lines, interfaces, cs[1..], lo, d);
      }
    }
  }

  /** With classes in document order, their diagnostics come sorted by
      line. */
  lemma {:induction false} ForClassesSorted(lines: seq<string>, interfaces: map<string, InterfaceDefinition>, cs: seq<ClassDefinition>)
    requires forall c :: c in cs ==> c.implementsLine < |lines|
    requires forall p, q :: 0 <= p < q < |cs| ==> cs[p].implementsLine < cs[q].implementsLine
    ensures forall p, q :: 0 <= p < q < |ForClasses(lines, interfaces, cs)| ==>
              ForClasses(lines, interfaces, cs)[p].range.start.line <= ForClasses(lines, interfaces, cs)[q].range.start.line
  {
    if |cs| > 0 {
      var c := cs[0];
      var head := ForClass(lines, interfaces, c, c.interfaces);
      var rest := ForClasses(lines, interfaces, cs[1..]);
      ForClassesSorted(lines, interfaces, cs[1..]);
      var r := head + rest;
      assert r == ForClasses(lines, interfaces, cs);
      forall p, q | 0 <= p < q < |r|
        ensures r[p].range.start.line <= r[q].range.start.line
      {
        if p < |head| {
          assert r[p] == head[p] && head[p] in head;
          ForClassExact(lines, interfaces, c, c.interfaces, head[p]);
          if q < |head| {
            assert r[q] == head[q] && head[q] in head;
            ForClassExact(lines, interfaces, c, c.interfaces, head[q]);
          } else {
            assert r[q] == rest[q - |head|] && rest[q - |head|] in rest;
            forall c' | c' in cs[1..]
              ensures c.implementsLine <= c'.implementsLine < |lines|
            {
              var k :| 0 <= k < |cs[1..]| && cs[1..][k] == c';
              assert cs[k + 1] == c';
            }
            ForClassesFrom(lines, interfaces, cs[1..], c.implementsLine, rest[q - |head|]);
          }
        } else {
          assert r[p] == rest[p - |head|] && r[q] == rest[q - |head|];
        }
      }
    }
  }

  /** The diagnostics of a document come sorted by line. */
  lemma ValidateSorted(text: string)
    ensures forall p, q :: 0 <= p < q < |ValidateInterfaces(text)| ==>
              ValidateInterfaces(text)[p].range.start.line <= ValidateInterfaces(text)[q].range.start.line
  {
    var lines := Lines(text);
    var interfaces := ExtractInterfaces(lines);
    var classes := ExtractClasses(lines);
    ForClassesSorted(lines, interfaces, classes);
    assert ValidateInterfaces(text) == ForClasses(lines, interfaces, classes);
  }

  /** Every diagnostic spans one whole line of the document: the implements
      line of a class. */
  lemma ValidateRanges(text: string, d: Diagnostic)
    requires d in ValidateInterfaces(text)
    ensures var lines := Lines(text);
            exists c :: c in ExtractClasses(lines) && d.range == LineRange(lines, c.implementsLine)
  {
    var lines := Lines(text);
    ValidateExact(text, d);
    var c, x :| c in ExtractClasses(lines) && x in c.interfaces && Reported(lines, ExtractInterfaces(lines), c, x, d);
    ForInterfaceExact(lines, ExtractInterfaces(lines), c, x, d);
  }
}
