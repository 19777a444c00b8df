/** The brace-counting container scanner shared by the interface and the
    class extractors of the interface validator.

    Both extractors read the document line by line, each line trimmed. A
    comment line is skipped entirely. Outside a container, a header line
    opens one with a count of one. Inside, every `{` and `}` on the line
    moves the count, quoted or not; the line on which the count reaches zero
    closes the container and is not itself looked at for members, any other
    line is recorded when it is a member. A header inside a container is
    just a body line, and a container still open at the end of the document
    is never reported. The two extractors differ only in what their header
    and member expressions capture, so each line is first classified into a
    `Row` holding those captures, and the scanner works on rows. */
module BlockScan {
  import opened Wrappers

  /** One trimmed line as the scanner sees it: whether it is a comment, what
      the header expression captured on it, what the member expression
      captured on it, and the `{` count minus the `}` count. */
  datatype Row<H, M> = Row(comment: bool, header: Option<H>, member: Option<M>, net: int)

  /** The extractor's state: no container open, or one opened at line
      `open`, with the member lines found so far and the brace count. */
  datatype State = Outside | Inside(open: nat, members: seq<nat>, depth: int)

  /** A container that was closed: its header line, its closing line and
      its member lines, in order. */
  datatype Block = Block(open: nat, close: nat, members: seq<nat>)

  /** The extractor loop from line `i` on, in state `st`: the containers it
      closes, in order. */
  function Scan<H, M>(rows: seq<Row<H, M>>, i: nat, st: State): seq<Block>
    requires i <= |rows|
    decreases |rows| - i
  {
    if i == |rows| then []
    else
      var row := rows[i];
      if row.comment then Scan(rows, i + 1, st)
      else if st.Outside? && row.header.Some? then Scan(rows, i + 1, Inside(i, [], 1))
      else if st.Inside? then
        var depth := st.depth + row.net;
        if depth == 0 then [Block(st.open, i, st.members)] + Scan(rows, i + 1, Outside)
        else
          var members := st.members + (if row.member.Some? then [i] else []);
          Scan(rows, i + 1, Inside(st.open, members, depth))
      else Scan(rows, i + 1, st)
  }

  // ---------------------------------------------------------------------
  // The containers described without a running count: a container opens at
  // the first header line after the previous one closed, and closes at the
  // first non-comment line where the braces counted since its header sum
  // to zero.

  /** What line `k` adds to the count: nothing for a comment line. */
  function Contribution<H, M>(rows: seq<Row<H, M>>, k: nat): int
    requires k < |rows|
  {
    if rows[k].comment then 0 else rows[k].net
  }

  /** The count of the container opened at line `o` after the lines before
      `i`: one for the header, plus every body line's braces. */
  function Depth<H, M>(rows: seq<Row<H, M>>, o: nat, i: nat): int
    requires o < i <= |rows|
    decreases i
  {
    if i == o + 1 then 1 else Depth(rows, o, i - 1) + Contribution(rows, i - 1)
  }

  /** Line `c` closes the container opened at line `o`. */
  predicate ClosesAt<H, M>(rows: seq<Row<H, M>>, o: nat, c: nat) {
    o < c < |rows| && !rows[c].comment && Depth(rows, o, c + 1) == 0
  }

  /** The first line from `i` on that closes the container opened at `o`. */
  function FirstClose<H, M>(rows: seq<Row<H, M>>, o: nat, i: nat): (r: Option<nat>)
    requires o < i <= |rows|
    ensures r.Some? ==> i <= r.value && ClosesAt(rows, o, r.value)
    ensures r.Some? ==> forall c :: i <= c < r.value ==> !ClosesAt(rows, o, c)
    ensures r.None? ==> forall c :: i <= c < |rows| ==> !ClosesAt(rows, o, c)
    decreases |rows| - i
  {
    if i == |rows| then None
    else if ClosesAt(rows, o, i) then Some(i)
    else FirstClose(rows, o, i + 1)
  }

  /** Line `k` is a header (and not a comment). */
  predicate IsHeader<H, M>(rows: seq<Row<H, M>>, k: nat) {
    k < |rows| && !rows[k].comment && rows[k].header.Some?
  }

  /** The first header line from `i` on. */
  function FirstHeader<H, M>(rows: seq<Row<H, M>>, i: nat): (r: Option<nat>)
    requires i <= |rows|
    ensures r.Some? ==> i <= r.value && IsHeader(rows, r.value)
    ensures r.Some? ==> forall k :: i <= k < r.value ==> !IsHeader(rows, k)
    ensures r.None? ==> forall k :: i <= k < |rows| ==> !IsHeader(rows, k)
    decreases |rows| - i
  {
    if i == |rows| then None
    else if IsHeader(rows, i) then Some(i)
    else FirstHeader(rows, i + 1)
  }

  /** Line `k` is recorded as a member when it lies in a body. */
  predicate IsMemberLine<H, M>(rows: seq<Row<H, M>>, k: nat) {
    k < |rows| && !rows[k].comment && rows[k].member.Some?
  }

  /** The member lines in `[lo, hi)`, in order. */
  function MemberLines<H, M>(rows: seq<Row<H, M>>, lo: nat, hi: nat): (r: seq<nat>)
    requires lo <= hi <= |rows|
    ensures forall k :: k in r <==> lo <= k < hi && IsMemberLine(rows, k)
    decreases hi - lo
  {
    if hi == lo then []
    else
      var k := hi - 1;
      MemberLines(rows, lo, k) + (if IsMemberLine(rows, k) then [k] else [])
  }

  /** Member lines are recorded in document order. */
  lemma {:induction false} MemberLinesSorted<H, M>(rows: seq<Row<H, M>>, lo: nat, hi: nat)
    requires lo <= hi <= |rows|
    ensures forall p, q :: 0 <= p < q < |MemberLines(rows, lo, hi)| ==> MemberLines(rows, lo, hi)[p] < MemberLines(rows, lo, hi)[q]
    decreases hi - lo
  {
    if hi > lo {
      var k := hi - 1;
      var prefix := MemberLines(rows, lo, k);
      MemberLinesSorted(rows, lo, k);
      var r := MemberLines(rows, lo, hi);
      forall p, q | 0 <= p < q < |r|
        ensures r[p] < r[q]
      {
        assert r[p] == prefix[p] && prefix[p] in prefix;
        if q < |prefix| {
          assert r[q] == prefix[q];
        }
      }
    }
  }

  /** Each recorded member line lies in the range and is a member line. */
  lemma MemberLinesIndexed<H, M>(rows: seq<Row<H, M>>, lo: nat, hi: nat)
    requires lo <= hi <= |rows|
    ensures forall j :: 0 <= j < |MemberLines(rows, lo, hi)| ==>
              lo <= MemberLines(rows, lo, hi)[j] < hi && IsMemberLine(rows, MemberLines(rows, lo, hi)[j])
  {
    var r := MemberLines(rows, lo, hi);
    assert forall j :: 0 <= j < |r| ==> r[j] in r;
  }

  /** The containers from line `i` on, as the first header and first
      closing line describe them. */
  function BlocksFrom<H, M>(rows: seq<Row<H, M>>, i: nat): seq<Block>
    requires i <= |rows|
    decreases |rows| - i, 1
  {
    match FirstHeader(rows, i)
    case None => []
    case Some(o) => BlocksAfterOpen(rows, o, o + 1)
  }

  /** The container opened at `o`, closed at its first closing line from
      `i` on, and the containers after it. */
  function BlocksAfterOpen<H, M>(rows: seq<Row<H, M>>, o: nat, i: nat): seq<Block>
    requires o < i <= |rows|
    decreases |rows| - i, 0
  {
    match FirstClose(rows, o, i)
    case None => []
    case Some(c) => [Block(o, c, MemberLines(rows, o + 1, c))] + BlocksFrom(rows, c + 1)
  }

  /** The extractor loop, started outside any container, closes exactly the
      containers the declarative description gives. */
  lemma {:induction false} ScanOutside<H, M>(rows: seq<Row<H, M>>, i: nat)
    requires i <= |rows|
    ensures Scan(rows, i, Outside) == BlocksFrom(rows, i)
    decreases |rows| - i, 1
  {
    if i < |rows| {
      if rows[i].comment || !rows[i].header.Some? {
        assert Scan(rows, i, Outside) == Scan(rows, i + 1, Outside);
        ScanOutside(rows, i + 1);
        assert FirstHeader(rows, i) == FirstHeader(rows, i + 1);
      } else {
        assert Scan(rows, i, Outside) == Scan(rows, i + 1, Inside(i, [], 1));
        assert FirstHeader(rows, i) == Some(i);
        assert Depth(rows, i, i + 1) == 1 && MemberLines(rows, i + 1, i + 1) == [];
        ScanInside(rows, i, i + 1, [], 1);
      }
    }
  }

  /** Inside the container opened at `o`, with the count and the member
      lines the declarative description gives for the lines before `i`,
      the extractor loop closes exactly the containers that description
      gives from `i` on. */
  lemma {:induction false} ScanInside<H, M>(rows: seq<Row<H, M>>, o: nat, i: nat, members: seq<nat>, depth: int)
    requires o < i <= |rows|
    requires depth == Depth(rows, o, i) && members == MemberLines(rows, o + 1, i)
    ensures Scan(rows, i, Inside(o, members, depth)) == BlocksAfterOpen(rows, o, i)
    decreases |rows| - i, 0
  {
    if i < |rows| {
      DepthStep(rows, o, i);
      MemberStep(rows, o + 1, i);
      var st := Inside(o, members, depth);
      if rows[i].comment {
        assert Scan(rows, i, st) == Scan(rows, i + 1, st);
        ContinueStep(rows, o, i);
        ScanInside(rows, o, i + 1, members, depth);
      } else if depth + rows[i].net == 0 {
        assert Scan(rows, i, st) == [Block(o, i, members)] + Scan(rows, i + 1, Outside);
        CloseStep(rows, o, i);
        ScanOutside(rows, i + 1);
      } else {
        var members' := members + (if rows[i].member.Some? then [i] else []);
        assert Scan(rows, i, st) == Scan(rows, i + 1, Inside(o, members', depth + rows[i].net));
        ContinueStep(rows, o, i);
        ScanInside(rows, o, i + 1, members', depth + rows[i].net);
      }
    }
  }

  lemma DepthStep<H, M>(rows: seq<Row<H, M>>, o: nat, i: nat)
    requires o < i < |rows|
    ensures Depth(rows, o, i + 1) == Depth(rows, o, i) + (if rows[i].comment then 0 else rows[i].net)
  {
  }

  lemma MemberStep<H, M>(rows: seq<Row<H, M>>, lo: nat, i: nat)
    requires lo <= i < |rows|
    ensures MemberLines(rows, lo, i + 1) == MemberLines(rows, lo, i) + (if !rows[i].comment && rows[i].member.Some? then [i] else [])
  {
  }

  lemma ContinueStep<H, M>(rows: seq<Row<H, M>>, o: nat, i: nat)
    requires o < i < |rows| && !ClosesAt(rows, o, i)
    ensures BlocksAfterOpen(rows, o, i) == BlocksAfterOpen(rows, o, i + 1)
  {
  }

  lemma CloseStep<H, M>(rows: seq<Row<H, M>>, o: nat, i: nat)
    requires o < i < |rows| && ClosesAt(rows, o, i)
    ensures BlocksAfterOpen(rows, o, i) == [Block(o, i, MemberLines(rows, o + 1, i))] + BlocksFrom(rows, i + 1)
  {
  }

  /** What every container satisfies: its header opens it, it closes at its
      first closing line, and its members are exactly the member lines
      strictly between the two. */
  predicate WellFormed<H, M>(rows: seq<Row<H, M>>, b: Block) {
    && IsHeader(rows, b.open) && ClosesAt(rows, b.open, b.close)
    && (forall c :: b.open < c < b.close ==> !ClosesAt(rows, b.open, c))
    && b.members == MemberLines(rows, b.open + 1, b.close)
    && forall j :: 0 <= j < |b.members| ==> b.open < b.members[j] < b.close && IsMemberLine(rows, b.members[j])
  }

  /** Containers are well formed and start at or after `i`. */
  lemma {:induction false} BlocksWellFormed<H, M>(rows: seq<Row<H, M>>, i: nat)
    requires i <= |rows|
    ensures forall b :: b in BlocksFrom(rows, i) ==> WellFormed(rows, b) && i <= b.open
    decreases |rows| - i
  {
    match FirstHeader(rows, i)
    case None =>
    case Some(o) =>
      match FirstClose(rows, o, o + 1)
      case None =>
      case Some(c) =>
        BlocksWellFormed(rows, c + 1);
        HeadWellFormed(rows, o, c);
        var head := Block(o, c, MemberLines(rows, o + 1, c));
        var rest := BlocksFrom(rows, c + 1);
        assert BlocksFrom(rows, i) == [head] + rest;
        forall b | b in BlocksFrom(rows, i)
          ensures WellFormed(rows, b) && i <= b.open
        {
          if b != head {
            assert b in rest;
          }
        }
  }

  /** The container opened at a header and closed at its first closing
      line is well formed. */
  lemma HeadWellFormed<H, M>(rows: seq<Row<H, M>>, o: nat, c: nat)
    requires IsHeader(rows, o) && FirstClose(rows, o, o + 1) == Some(c)
    ensures WellFormed(rows, Block(o, c, MemberLines(rows, o + 1, c)))
  {
    MemberLinesIndexed(rows, o + 1, c);
  }

  /** One step of the declarative description: the first header, the
      container it opens, and what follows that container. */
  lemma BlocksStep<H, M>(rows: seq<Row<H, M>>, i: nat, o: nat, c: nat)
    requires i <= |rows| && FirstHeader(rows, i) == Some(o) && FirstClose(rows, o, o + 1) == Some(c)
    ensures i <= o < c < |rows|
    ensures BlocksFrom(rows, i) == [Block(o, c, MemberLines(rows, o + 1, c))] + BlocksFrom(rows, c + 1)
  {
  }

  /** Every container from line `i` on opens at or after `i` and closes
      after it opens. */
  lemma {:induction false} BlocksBounded<H, M>(rows: seq<Row<H, M>>, i: nat)
    requires i <= |rows|
    ensures forall b :: b in BlocksFrom(rows, i) ==> i <= b.open < b.close
    decreases |rows| - i
  {
    match FirstHeader(rows, i)
    case None =>
    case Some(o) =>
      match FirstClose(rows, o, o + 1)
      case None =>
      case Some(c) =>
        BlocksStep(rows, i, o, c);
        BlocksBounded(rows, c + 1);
  }

  /** Containers come in order without overlapping: each closes before the
      next one opens. */
  lemma {:induction false} BlocksOrdered<H, M>(rows: seq<Row<H, M>>, i: nat)
    requires i <= |rows|
    ensures forall p, q :: 0 <= p < q < |BlocksFrom(rows, i)| ==> BlocksFrom(rows, i)[p].close < BlocksFrom(rows, i)[q].open
    decreases |rows| - i
  {
    match FirstHeader(rows, i)
    case None =>
    case Some(o) =>
      match FirstClose(rows, o, o + 1)
      case None =>
      case Some(c) =>
        BlocksStep(rows, i, o, c);
        BlocksOrdered(rows, c + 1);
        BlocksBounded(rows, c + 1);
        var rest := BlocksFrom(rows, c + 1);
        var r := BlocksFrom(rows, i);
        forall p, q | 0 <= p < q < |r|
          ensures r[p].close < r[q].open
        {
          var later := rest[q - 1];
          assert r[q] == later;
          assert later in rest;
          if p > 0 {
            assert r[p] == rest[p - 1];
          }
        }
  }

  /** A header line that never finds its closing line yields no container,
      and nothing after it is collected either. */
  lemma UnclosedDropped<H, M>(rows: seq<Row<H, M>>, i: nat, o: nat)
    requires i <= |rows| && FirstHeader(rows, i) == Some(o)
    requires forall c :: o < c < |rows| ==> !ClosesAt(rows, o, c)
    ensures BlocksFrom(rows, i) == []
  {
    assert FirstClose(rows, o, o + 1).None?;
  }

  /** The containers the scanner closes over the whole document: as the
      declarative description gives them, each well formed, in order. */
  function Blocks<H, M>(rows: seq<Row<H, M>>): (r: seq<Block>)
    ensures r == BlocksFrom(rows, 0)
    ensures forall j :: 0 <= j < |r| ==> WellFormed(rows, r[j])
    ensures forall p, q :: 0 <= p < q < |r| ==> r[p].open < r[p].close < r[q].open
  {
    ScanOutside(rows, 0);
    BlocksWellFormed(rows, 0);
    BlocksBounded(rows, 0);
    BlocksOrdered(rows, 0);
    var r := Scan(rows, 0, Outside);
    assert forall j :: 0 <= j < |r| ==> r[j] in r;
    r
  }
}
