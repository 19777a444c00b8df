/** String operations the providers rely on, with the JavaScript semantics
    of `trim`, `split`, `indexOf`, `includes` and `startsWith`, plus the
    maximal-run scanners the regular expressions reduce to. */
module Strings {
  import opened Wrappers
  import opened Chars

  /** The end of the maximal run of characters satisfying `p` from `i`: the
      position a greedy `p*` reaches. */
  function Run(s: string, i: nat, p: char -> bool): (r: nat)
    requires i <= |s|
    ensures i <= r <= |s|
    ensures forall k :: i <= k < r ==> p(s[k])
    ensures r == |s| || !p(s[r])
    decreases |s| - i
  {
    if i == |s| || !p(s[i]) then i else Run(s, i + 1, p)
  }

  /** `\s*` from `i` */
  function SpaceRun(s: string, i: nat): (r: nat)
    requires i <= |s|
    ensures i <= r <= |s|
    ensures forall k :: i <= k < r ==> IsSpace(s[k])
    ensures r == |s| || !IsSpace(s[r])
  {
    Run(s, i, IsSpace)
  }

  /** `\w*` from `i` */
  function WordRun(s: string, i: nat): (r: nat)
    requires i <= |s|
    ensures i <= r <= |s|
    ensures forall k :: i <= k < r ==> IsWordChar(s[k])
    ensures r == |s| || !IsWordChar(s[r])
  {
    Run(s, i, IsWordChar)
  }

  /** Only spaces in `s[lo..hi]`. */
  predicate AllSpaces(s: string, lo: nat, hi: nat)
    requires lo <= hi <= |s|
  {
    forall k :: lo <= k < hi ==> IsSpace(s[k])
  }

  /** A run of `p` from `i` that stops at a character failing `p`, or at the
      end, is where `Run` stops. */
  lemma {:induction false} RunFrom(s: string, i: nat, stop: nat, p: char -> bool)
    requires i <= stop <= |s|
    requires forall k :: i <= k < stop ==> p(s[k])
    requires stop == |s| || !p(s[stop])
    ensures Run(s, i, p) == stop
    decreases stop - i
  {
    if i < stop {
      RunFrom(s, i + 1, stop, p);
    }
  }

  /** The spaces from `from` up to a non-space at `stop` are the maximal run. */
  lemma SpaceRunReaches(s: string, from: nat, stop: nat)
    requires from <= stop <= |s| && AllSpaces(s, from, stop) && (stop == |s| || !IsSpace(s[stop]))
    ensures SpaceRun(s, from) == stop
  {
    RunFrom(s, from, stop, IsSpace);
  }

  /** A word at `from` followed by a non-word character, or the end, is the
      maximal word run there. */
  lemma WordRunReaches(s: string, from: nat, w: string)
    requires IsWord(w) && OccursAt(s, w, from)
    requires from + |w| == |s| || !IsWordChar(s[from + |w|])
    ensures WordRun(s, from) == from + |w|
  {
    forall k | from <= k < from + |w|
      ensures IsWordChar(s[k])
    {
      assert s[k] == w[k - from];
    }
    RunFrom(s, from, from + |w|, IsWordChar);
  }

  /** The first `c` at or after `i` is where `IndexOfChar` stops. */
  lemma {:induction false} IndexOfCharReaches(s: string, i: nat, c: char, stop: nat)
    requires i <= stop < |s| && s[stop] == c
    requires forall k :: i <= k < stop ==> s[k] != c
    ensures IndexOfChar(s, i, c) == stop
    decreases stop - i
  {
    if i < stop {
      IndexOfCharReaches(s, i + 1, c, stop);
    }
  }

  /** A non-empty run of word characters is a word. */
  lemma WordRunIsWord(s: string, i: nat)
    requires i <= |s| && i < WordRun(s, i)
    ensures IsWord(s[i..WordRun(s, i)])
  {
    var w := s[i..WordRun(s, i)];
    forall k | 0 <= k < |w|
      ensures IsWordChar(w[k])
    {
      assert w[k] == s[i + k];
    }
  }

  /** The first index at or after `i` holding `c`, or `|s|` when there is none:
      where `[^c]*` followed by `c` stops. */
  function IndexOfChar(s: string, i: nat, c: char): (r: nat)
    requires i <= |s|
    ensures i <= r <= |s|
    ensures forall k :: i <= k < r ==> s[k] != c
    ensures r < |s| ==> s[r] == c
    decreases |s| - i
  {
    if i == |s| || s[i] == c then i else IndexOfChar(s, i + 1, c)
  }

  predicate StartsWith(s: string, prefix: string) {
    |prefix| <= |s| && s[..|prefix|] == prefix
  }

  predicate OccursAt(s: string, sub: string, i: nat) {
    i + |sub| <= |s| && s[i..i + |sub|] == sub
  }

  /** A slice occurs where it was cut from. */
  lemma SliceOccursAt(s: string, i: nat, j: nat)
    requires i <= j <= |s|
    ensures OccursAt(s, s[i..j], i)
  {
  }

  /** `s.indexOf(sub, from)`, with `None` for JavaScript's -1. */
  function IndexOf(s: string, sub: string, from: nat): (r: Option<nat>)
    ensures r.Some? ==> from <= r.value && OccursAt(s, sub, r.value)
    ensures r.Some? ==> forall j :: from <= j < r.value ==> !OccursAt(s, sub, j)
    ensures r.None? ==> forall j :: from <= j ==> !OccursAt(s, sub, j)
    decreases |s| + 1 - from
  {
    if from + |sub| > |s| then None
    else if s[from..from + |sub|] == sub then Some(from)
    else IndexOf(s, sub, from + 1)
  }

  /** `s.includes(sub)` */
  predicate Contains(s: string, sub: string) {
    IndexOf(s, sub, 0).Some?
  }

  lemma ContainsAt(s: string, sub: string, i: nat)
    requires OccursAt(s, sub, i)
    ensures Contains(s, sub)
  {
  }

  /** The number of occurrences of `c`, which is what
      `(s.match(/c/g) || []).length` counts. */
  function CountChar(s: string, c: char): (r: nat)
    ensures r == multiset(s)[c]
  {
    if |s| == 0 then 0
    else
      assert s == [s[0]] + s[1..];
      (if s[0] == c then 1 else 0) + CountChar(s[1..], c)
  }

  /** The index of the first character `trim` keeps. */
  function TrimStart(s: string): (a: nat)
    ensures a <= |s|
    ensures forall k :: 0 <= k < a ==> IsSpace(s[k])
    ensures a == |s| || !IsSpace(s[a])
  {
    SpaceRun(s, 0)
  }

  /** The index just past the last character `trim` keeps, looking back
      from `hi` but not below `lo`. */
  function TrimEnd(s: string, lo: nat, hi: nat): (b: nat)
    requires lo <= hi <= |s|
    ensures lo <= b <= hi
    ensures forall k :: b <= k < hi ==> IsSpace(s[k])
    ensures b == lo || !IsSpace(s[b - 1])
    decreases hi - lo
  {
    if hi == lo || !IsSpace(s[hi - 1]) then hi else TrimEnd(s, lo, hi - 1)
  }

  /** `s.trim()`: the text between the leading and the trailing whitespace. */
  function Trim(s: string): (r: string)
    ensures |r| <= |s|
    ensures |r| > 0 ==> !IsSpace(r[0]) && !IsSpace(r[|r| - 1])
    ensures TrimStart(s) + |r| <= |s| && r == s[TrimStart(s)..TrimStart(s) + |r|]
    ensures forall k :: TrimStart(s) + |r| <= k < |s| ==> IsSpace(s[k])
  {
    var a := TrimStart(s);
    var b := TrimEnd(s, a, |s|);
    assert s[a..a + |s[a..b]|] == s[a..b];
    s[a..b]
  }

  /** The inverse of `Split`: the parts with `sep` between consecutive ones. */
  function Join(parts: seq<string>, sep: char): string {
    if |parts| == 0 then []
    else if |parts| == 1 then parts[0]
    else parts[0] + [sep] + Join(parts[1..], sep)
  }

  /** `s.split(sep)` for a one-character separator: the maximal pieces
      between separators, keeping empty ones; never empty. */
  function Split(s: string, sep: char): (parts: seq<string>)
    ensures |parts| >= 1
    ensures forall i, k :: 0 <= i < |parts| && 0 <= k < |parts[i]| ==> parts[i][k] != sep
    ensures Join(parts, sep) == s
    decreases |s|
  {
    var i := IndexOfChar(s, 0, sep);
    if i == |s| then [s]
    else
      var rest := Split(s[i + 1..], sep);
      assert s == s[..i] + [sep] + s[i + 1..];
      [s[..i]] + rest
  }

  /** The pieces without separators rebuild the text they came from, and a
      text split again at the same separator gives the same pieces. */
  lemma {:induction false} SplitJoin(parts: seq<string>, sep: char)
    requires |parts| >= 1
    requires forall i, k :: 0 <= i < |parts| && 0 <= k < |parts[i]| ==> parts[i][k] != sep
    ensures Split(Join(parts, sep), sep) == parts
    decreases |parts|
  {
    if |parts| == 1 {
      var s := parts[0];
      assert IndexOfChar(s, 0, sep) == |s|;
    } else {
      var s := Join(parts, sep);
      var p0 := parts[0];
      assert s == p0 + [sep] + Join(parts[1..], sep);
      assert s[|p0|] == sep;
      assert forall k :: 0 <= k < |p0| ==> s[k] != sep;
      assert IndexOfChar(s, 0, sep) == |p0|;
      assert s[|p0| + 1..] == Join(parts[1..], sep);
      assert s[..|p0|] == p0;
      SplitJoin(parts[1..], sep);
      assert parts == [p0] + parts[1..];
    }
  }

  /** The parts of a list that are not empty, in order: the
      `filter(x => x.length > 0)` step. */
  function NonEmpty(parts: seq<string>): (r: seq<string>)
    ensures forall i :: 0 <= i < |r| ==> |r[i]| > 0
    ensures forall x :: x in r <==> x in parts && |x| > 0
  {
    if |parts| == 0 then []
    else if |parts[0]| > 0 then [parts[0]] + NonEmpty(parts[1..])
    else NonEmpty(parts[1..])
  }

  /** Dropping the empty parts keeps the order of the rest: the filter of a
      joined list is the filter of each side, joined. */
  lemma {:induction false} NonEmptyJoin(a: seq<string>, b: seq<string>)
    ensures NonEmpty(a + b) == NonEmpty(a) + NonEmpty(b)
    decreases |a|
  {
    if |a| == 0 {
      assert a + b == b;
    } else {
      assert (a + b)[0] == a[0] && (a + b)[1..] == a[1..] + b;
      NonEmptyJoin(a[1..], b);
    }
  }

  /** A non-empty part is kept as often as it occurs; an empty one never. */
  lemma {:induction false} NonEmptyCount(parts: seq<string>, x: string)
    ensures multiset(NonEmpty(parts))[x] == (if |x| > 0 then multiset(parts)[x] else 0)
    decreases |parts|
  {
    if |parts| > 0 {
      var h := if |parts[0]| > 0 then [parts[0]] else [];
      NonEmptyCount(parts[1..], x);
      assert parts == [parts[0]] + parts[1..];
      CountJoin([parts[0]], parts[1..], x);
      CountJoin(h, NonEmpty(parts[1..]), x);
    }
  }

  /** Occurrences in a joined list add up. */
  lemma CountJoin<T>(a: seq<T>, b: seq<T>, x: T)
    ensures multiset(a + b)[x] == multiset(a)[x] + multiset(b)[x]
  {
  }

  /** The first separator of `a + [sep] + b`, when `a` holds none, ends the
      first part. */
  lemma SplitFirst(a: string, b: string, sep: char)
    requires forall k :: 0 <= k < |a| ==> a[k] != sep
    ensures Split(a + [sep] + b, sep) == [a] + Split(b, sep)
  {
    var s := a + [sep] + b;
    assert s[|a|] == sep;
    assert IndexOfChar(s, 0, sep) == |a|;
    assert s[..|a|] == a && s[|a| + 1..] == b;
  }

  /** Every part trimmed: the `map(x => x.trim())` step. */
  function TrimAll(parts: seq<string>): (r: seq<string>)
    ensures |r| == |parts|
    ensures forall i :: 0 <= i < |r| ==> r[i] == Trim(parts[i])
  {
    if |parts| == 0 then [] else [Trim(parts[0])] + TrimAll(parts[1..])
  }
}
