/** The search discipline of `String.prototype.matchAll` and of a
    non-global `match`: a pattern is tried at every position from left to
    right, the first position where it matches wins, and after a match the
    search resumes at its end (one position further for an empty match).

    A pattern is given as a `Matcher`: a total function telling, for a text
    and a start position, whether the pattern matches there and what it
    captures. */
module Matching {
  import opened Wrappers

  /** What a pattern captures when it matches at a given start: the end of
      the match, the offset of the captured identifier, and the capture
      groups in order. */
  datatype Capture = Capture(end: nat, nameAt: nat, groups: seq<string>)

  /** A match found by the search, with the position it starts at. */
  datatype Match = Match(start: nat, end: nat, nameAt: nat, groups: seq<string>)
  {
    function Captured(): Capture {
      Capture(end, nameAt, groups)
    }
  }

  type Matcher = (string, nat) -> Option<Capture>

  /** `m` is what `pattern` produces when tried at `m.start`. */
  predicate MatchesAt(pattern: Matcher, text: string, m: Match) {
    m.start <= |text| && pattern(text, m.start) == Some(m.Captured())
  }

  /** The leftmost match starting at or after `from`. */
  function FirstMatch(pattern: Matcher, text: string, from: nat): (r: Option<Match>)
    ensures r.Some? ==> from <= r.value.start && MatchesAt(pattern, text, r.value)
    ensures r.Some? ==> forall p :: from <= p < r.value.start ==> pattern(text, p).None?
    ensures r.None? ==> forall p :: from <= p <= |text| ==> pattern(text, p).None?
    decreases |text| + 1 - from
  {
    if from > |text| then None
    else match pattern(text, from)
      case Some(c) => Some(Match(from, c.end, c.nameAt, c.groups))
      case None => FirstMatch(pattern, text, from + 1)
  }

  /** Where the search continues after `m`. */
  function Resume(m: Match): (r: nat)
    ensures r > m.start && r >= m.end
  {
    if m.end > m.start then m.end else m.start + 1
  }

  /** All matches `matchAll` yields from `from` on, in order. */
  function AllMatches(pattern: Matcher, text: string, from: nat): (r: seq<Match>)
    ensures forall i :: 0 <= i < |r| ==> from <= r[i].start && MatchesAt(pattern, text, r[i])
    ensures forall i, j :: 0 <= i < j < |r| ==> Resume(r[i]) <= r[j].start
    ensures |r| > 0 ==> forall p :: from <= p < r[0].start ==> pattern(text, p).None?
    ensures |r| == 0 ==> forall p :: from <= p <= |text| ==> pattern(text, p).None?
    decreases |text| + 1 - from
  {
    match FirstMatch(pattern, text, from)
    case None => []
    case Some(m) =>
      var rest := AllMatches(pattern, text, Resume(m));
      [m] + rest
  }

  /** A pattern that matches at the search start is found there first. */
  lemma FirstMatchAtStart(pattern: Matcher, text: string, from: nat)
    requires from <= |text| && pattern(text, from).Some?
    ensures |AllMatches(pattern, text, from)| > 0
    ensures AllMatches(pattern, text, from)[0].start == from
  {
  }

  /** The first match found is the leftmost position where the pattern
      matches. */
  lemma FirstIsLeftmost(pattern: Matcher, text: string)
    requires |AllMatches(pattern, text, 0)| > 0
    ensures var m := AllMatches(pattern, text, 0)[0];
            && MatchesAt(pattern, text, m)
            && forall q: nat :: q < m.start ==> pattern(text, q).None?
  {
  }

  /** Every position where the pattern matches, outside the stretches other
      matches cover, is the start of a reported match: the search skips
      nothing except positions strictly inside an earlier match. */
  lemma {:induction false} AllMatchesComplete(pattern: Matcher, text: string, from: nat, p: nat)
    requires from <= p <= |text| && pattern(text, p).Some?
    requires forall q :: from <= q < p && pattern(text, q).Some? ==>
               Resume(Match(q, pattern(text, q).value.end, 0, [])) <= p
    ensures exists i :: 0 <= i < |AllMatches(pattern, text, from)| && AllMatches(pattern, text, from)[i].start == p
    decreases |text| + 1 - from
  {
    assert FirstMatch(pattern, text, from).Some?;
    var m := FirstMatch(pattern, text, from).value;
    var rest := AllMatches(pattern, text, Resume(m));
    var r := AllMatches(pattern, text, from);
    assert r == [m] + rest;
    if m.start == p {
      assert r[0].start == p;
    } else {
      assert m.start < p;
      assert Resume(m) <= p by {
        assert Resume(Match(m.start, pattern(text, m.start).value.end, 0, [])) <= p;
      }
      forall q | Resume(m) <= q < p && pattern(text, q).Some?
        ensures Resume(Match(q, pattern(text, q).value.end, 0, [])) <= p
      {
      }
      AllMatchesComplete(pattern, text, Resume(m), p);
      var i :| 0 <= i < |rest| && rest[i].start == p;
      assert r[i + 1].start == p;
    }
  }
}
