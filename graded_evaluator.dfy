/**
 * The second copy of the evaluator, src/regexattempt.rs. Construction and the
 * highlight walk are those of module Evaluator; this copy adds the pass/fail
 * classification against expected outcomes, and decides quoting by the
 * sample's variant (Lines quoted, Words bare).
 */
module GradedEvaluator {
  import opened Wrappers
  import opened TextSample
  import opened RegexEngine
  import opened Evaluator

  /** What a sample is expected to do: match in full, or not match at all. */
  datatype TestKind = Match | Skip

  /** A range covering the whole phrase. */
  predicate Whole(r: Range, phrase: Text)
  {
    r.start == 0 && r.end == |phrase.AsStr()|
  }

  /**
   * The sample was not matched in full: no match at all, or some group that
   * took part covers less (or other) than the whole sample.
   */
  predicate NotFullMatch(phrase: Text, capture: Option<Captures>)
  {
    match capture
    case None => true
    case Some(c) => exists k :: 0 <= k < |c| && c[k].Some? && !Whole(c[k].value, phrase)
  }

  /** `did_not_match`: walk the participating ranges and stop at the first that is not the whole sample. */
  method DidNotMatch(phrase: Text, capture: Option<Captures>) returns (failed: bool)
    ensures failed == NotFullMatch(phrase, capture)
  {
    match capture {
      case Some(cap) =>
        var matchRanges := Participating(cap);
        for j := 0 to |matchRanges|
          invariant forall m :: 0 <= m < j ==> Whole(matchRanges[m], phrase)
        {
          var range := matchRanges[j];
          if range.start != 0 || range.end != |phrase.AsStr()| {
            assert range in matchRanges;
            var g :| 0 <= g < |cap| && cap[g] == Some(range);
            return true;
          }
        }
        forall g | 0 <= g < |cap| && cap[g].Some?
          ensures Whole(cap[g].value, phrase)
        {
          assert cap[g].value in matchRanges;
        }
      case None =>
        return true;
    }
    return false;
  }

  /** One expectation is met by one sample's search. */
  predicate Passes(phrase: Text, capture: Option<Captures>, kind: TestKind)
  {
    match kind
    case Match => !NotFullMatch(phrase, capture)
    case Skip => capture.None?
  }

  /** How many triples `zip` forms: the shortest of the three lists. */
  function Paired(ts: seq<Text>, cs: seq<Option<Captures>>, kinds: seq<TestKind>): nat
  {
    Min(Min(|ts|, |cs|), |kinds|)
  }

  /**
   * `passed_all_tests`: every (sample, search, expectation) triple formed by
   * `zip` passes; the first failure returns false at once.
   */
  method PassedAllTests(a: RegexAttempt, kinds: seq<TestKind>) returns (passed: bool)
    ensures passed <==>
      forall k :: 0 <= k < Paired(a.testStrings, a.captures, kinds) ==>
        Passes(a.testStrings[k], a.captures[k], kinds[k])
  {
    var n := Paired(a.testStrings, a.captures, kinds);
    for k := 0 to n
      invariant forall m :: 0 <= m < k ==> Passes(a.testStrings[m], a.captures[m], kinds[m])
    {
      var phrase, capture := a.testStrings[k], a.captures[k];
      match kinds[k] {
        case Match =>
          var failed := DidNotMatch(phrase, capture);
          if failed {
            return false;
          }
        case Skip =>
          if capture.Some? {
            return false;
          }
      }
    }
    return true;
  }

  /** A partial match fails a `Match` expectation: one group short of the whole sample is enough. */
  lemma PartialMatchFails(phrase: Text, c: Captures, g: nat)
    requires g < |c| && c[g].Some? && !Whole(c[g].value, phrase)
    ensures !Passes(phrase, Some(c), Match)
  {
  }

  /** A `Match` expectation is met exactly when the sample matched and every participating group spans the whole sample. */
  lemma FullMatchPasses(phrase: Text, capture: Option<Captures>)
    ensures Passes(phrase, capture, Match) <==>
      capture.Some? && forall r :: r in Participating(capture.value) ==> Whole(r, phrase)
  {
    if capture.Some? {
      var c := capture.value;
      if forall r :: r in Participating(c) ==> Whole(r, phrase) {
        forall k | 0 <= k < |c| && c[k].Some? ensures Whole(c[k].value, phrase) {
          assert c[k].value in Participating(c);
        }
      } else {
        var r :| r in Participating(c) && !Whole(r, phrase);
        var k :| 0 <= k < |c| && c[k] == Some(r);
      }
    }
  }

  /** Entries past the shortest list are never looked at: appending expectations past the paired ones changes nothing. */
  lemma ExtraKindsIgnored(a: RegexAttempt, kinds: seq<TestKind>, extra: seq<TestKind>)
    requires |kinds| >= Min(|a.testStrings|, |a.captures|)
    ensures Paired(a.testStrings, a.captures, kinds + extra) == Paired(a.testStrings, a.captures, kinds)
    ensures forall k :: 0 <= k < Paired(a.testStrings, a.captures, kinds) ==> (kinds + extra)[k] == kinds[k]
    ensures (forall k :: 0 <= k < Paired(a.testStrings, a.captures, kinds + extra) ==>
               Passes(a.testStrings[k], a.captures[k], (kinds + extra)[k])) <==>
            (forall k :: 0 <= k < Paired(a.testStrings, a.captures, kinds) ==>
               Passes(a.testStrings[k], a.captures[k], kinds[k]))
  {
  }

  /** `print_highlights` of this copy: the quote decision is the variant itself, so Lines are quoted. */
  method PrintHighlights(matches: seq<Range>, phrase: Text) returns (out: seq<Segment>)
    requires AllIn(matches, phrase.AsStr())
    ensures out == Highlighted(phrase.Line?, matches, phrase.AsStr())
  {
    var isLine, text;
    match phrase {
      case Word(word) =>
        isLine, text := false, word;
      case Line(line) =>
        isLine, text := true, line;
    }
    out := [];
    if isLine {
      out := out + [Quote];
    }
    var walked := HighlightWalk(matches, text);
    out := out + walked;
    if isLine {
      out := out + [Quote, Newline];
    } else {
      out := out + [Newline];
    }
  }

  /** What this copy's `print_matches` prints for one sample. */
  function RenderSample(t: Text, cap: Option<Captures>): seq<Segment>
    requires cap.Some? ==> WellFormedCaptures(t.AsStr(), cap.value)
  {
    match cap
    case Some(c) =>
      ParticipatingIn(c, t.AsStr());
      Highlighted(t.Line?, Participating(c), t.AsStr())
    case None => Unmatched(t)
  }

  /** This copy's `print_matches` as a whole. */
  function RenderAll(ts: seq<Text>, cs: seq<Option<Captures>>): seq<Segment>
    requires Consistent(ts, cs)
    decreases |ts|
  {
    if ts == [] || cs == [] then []
    else RenderSample(ts[0], cs[0]) + RenderAll(ts[1..], cs[1..])
  }

  /**
   * Here matched and unmatched samples agree on quoting: both are quoted
   * exactly when the sample is a Line, and a matched sample's walk is the same
   * as in the other copy.
   */
  lemma QuotedIffLine(t: Text, cap: Option<Captures>)
    requires cap.Some? ==> WellFormedCaptures(t.AsStr(), cap.value)
    ensures var out := RenderSample(t, cap);
      |out| >= 2 && (out[0] == Quote <==> t.Line?) && (out[|out| - 2] == Quote <==> t.Line?)
    ensures cap.Some? ==>
      (AllIn(Participating(cap.value), t.AsStr()) &&
       RenderSample(t, cap) ==
         (if t.Line? then [Quote] else []) + Walk(Participating(cap.value), t.AsStr(), 0)
         + (if t.Line? then [Quote, Newline] else [Newline]))
  {
    var out := RenderSample(t, cap);
    match cap
    case Some(c) =>
      ParticipatingIn(c, t.AsStr());
      var w := Walk(Participating(c), t.AsStr(), 0);
      WalkShape(Participating(c), t.AsStr(), 0);
      if t.Line? {
        assert out == [Quote] + w + [Quote, Newline];
      } else {
        assert out == w + [Newline];
        assert out[0] == w[0] && out[|out| - 2] == w[|w| - 1];
      }
    case None =>
  }

  /** The two copies render a matched sample alike exactly when the quote decisions agree, which is never. */
  lemma CopiesDisagreeOnQuotes(t: Text, c: Captures)
    requires WellFormedCaptures(t.AsStr(), c)
    ensures RenderSample(t, Some(c)) != Evaluator.RenderSample(t, Some(c))
  {
    QuotedIffLine(t, Some(c));
    MatchedQuotedIffWord(t, c);
  }

  /** This copy's `print_matches`: one pass over the zipped samples and searches. */
  method PrintMatches(a: RegexAttempt) returns (out: seq<Segment>)
    requires Consistent(a.testStrings, a.captures)
    ensures out == RenderAll(a.testStrings, a.captures)
  {
    var ts, cs := a.testStrings, a.captures;
    var n := Min(|ts|, |cs|);
    out := [];
    for k := 0 to n
      invariant Consistent(ts[k..], cs[k..])
      invariant out + RenderAll(ts[k..], cs[k..]) == RenderAll(ts, cs)
    {
      assert ts[k..][1..] == ts[k + 1..] && cs[k..][1..] == cs[k + 1..];
      assert ts[k..][0] == ts[k] && cs[k..][0] == cs[k];
      ghost var before := out;
      ghost var rest := RenderAll(ts[k + 1..], cs[k + 1..]);
      assert RenderAll(ts[k..], cs[k..]) == RenderSample(ts[k], cs[k]) + rest;
      var piece;
      match cs[k] {
        case Some(cap) =>
          ParticipatingIn(cap, ts[k].AsStr());
          piece := PrintHighlights(Participating(cap), ts[k]);
        case None =>
          piece := Unmatched(ts[k]);
      }
      assert piece == RenderSample(ts[k], cs[k]);
      out := out + piece;
      AppendAssoc(before, piece, rest);
    }
    assert ts[n..] == [] || cs[n..] == [];
  }
}
