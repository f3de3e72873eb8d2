/**
 * The pattern evaluator of src/regex_attempt.rs: one compile of a pattern,
 * one search per test sample, and the highlighted rendering of the results.
 * Printing is modelled by returning the printed pieces as segments.
 */
module Evaluator {
  import opened Wrappers
  import opened TextSample
  import opened RegexEngine

  /** One printed piece: uncoloured, green (matched), red (no match), a literal `"`, or the end of a line. */
  datatype Segment = Plain(text: string) | Green(text: string) | Red(text: string) | Quote | Newline

  /** What the terminal shows for a run of segments. */
  function Concat(segs: seq<Segment>): string
  {
    if segs == [] then [] else Shown(segs[0]) + Concat(segs[1..])
  }

  /** What the terminal shows for one segment. */
  function Shown(seg: Segment): string
  {
    match seg
    case Plain(s) => s
    case Green(s) => s
    case Red(s) => s
    case Quote => "\""
    case Newline => "\n"
  }

  /** The texts printed in green, in order. */
  function Greens(segs: seq<Segment>): seq<string>
  {
    if segs == [] then []
    else (if segs[0].Green? then [segs[0].text] else []) + Greens(segs[1..])
  }

  lemma {:induction false} ConcatAppend(a: seq<Segment>, b: seq<Segment>)
    ensures Concat(a + b) == Concat(a) + Concat(b)
  {
    if a != [] {
      assert (a + b)[0] == a[0] && (a + b)[1..] == a[1..] + b;
      ConcatAppend(a[1..], b);
    } else {
      assert a + b == b;
    }
  }

  lemma {:induction false} GreensAppend(a: seq<Segment>, b: seq<Segment>)
    ensures Greens(a + b) == Greens(a) + Greens(b)
  {
    if a != [] {
      assert (a + b)[0] == a[0] && (a + b)[1..] == a[1..] + b;
      GreensAppend(a[1..], b);
    } else {
      assert a + b == b;
    }
  }

  /** One attempt: the samples and, for each, what the engine found. */
  datatype RegexAttempt = RegexAttempt(testStrings: seq<Text>, captures: seq<Option<Captures>>)

  /** Every sample that was searched and matched has its ranges inside its own string. */
  predicate Consistent(ts: seq<Text>, cs: seq<Option<Captures>>)
  {
    forall k :: 0 <= k < |ts| && k < |cs| && cs[k].Some? ==> WellFormedCaptures(ts[k].AsStr(), cs[k].value)
  }

  /** The search of every sample, in sample order (the `map`/`collect` of `new`). */
  function CaptureAll(re: Matcher, ts: seq<Text>): (cs: seq<Option<Captures>>)
    ensures |cs| == |ts|
    ensures forall k :: 0 <= k < |ts| ==> cs[k] == re(ts[k].AsStr())
  {
    if ts == [] then [] else [re(ts[0].AsStr())] + CaptureAll(re, ts[1..])
  }

  /** `RegexAttempt::new`: compile once, then search every sample. */
  function New(compile: Compiler, rule: string, ts: seq<Text>): (r: Result<RegexAttempt, RegexError>)
    ensures compile(rule).Failure? ==> r == Failure(compile(rule).error)
    ensures compile(rule).Success? ==>
      r.Success? && r.value.testStrings == ts && |r.value.captures| == |ts| &&
      forall k :: 0 <= k < |ts| ==> r.value.captures[k] == compile(rule).value(ts[k].AsStr())
  {
    match compile(rule)
    case Failure(e) => Failure(e)
    case Success(re) => Success(RegexAttempt(ts, CaptureAll(re, ts)))
  }

  /** From a well-behaved engine, `new` yields an attempt whose ranges all lie inside their samples. */
  lemma NewIsConsistent(compile: Compiler, rule: string, ts: seq<Text>)
    requires CompilerWellFormed(compile)
    ensures New(compile, rule, ts).Success? ==>
      Consistent(New(compile, rule, ts).value.testStrings, New(compile, rule, ts).value.captures)
  {
  }

  /** The groups that took part, in group order (`flatten`/`filter_map` over the captures). */
  function Participating(caps: Captures): (rs: seq<Range>)
    ensures |rs| <= |caps|
    ensures forall r :: r in rs <==> Some(r) in caps
  {
    if caps == [] then []
    else (if caps[0].Some? then [caps[0].value] else []) + Participating(caps[1..])
  }

  /** Group order is kept: the ranges of a concatenation are those of each part, in turn. */
  lemma {:induction false} ParticipatingAppend(a: Captures, b: Captures)
    ensures Participating(a + b) == Participating(a) + Participating(b)
  {
    if a == [] {
      assert a + b == b;
    } else {
      assert (a + b)[0] == a[0] && (a + b)[1..] == a[1..] + b;
      ParticipatingAppend(a[1..], b);
    }
  }

  /** A group that took part contributes its range once; a group that did not contributes nothing. */
  lemma ParticipatingSingle(r: Range)
    ensures Participating([Some(r)]) == [r]
    ensures Participating([Option<Range>.None]) == []
  {
    assert [Some(r)][1..] == [] && [Option<Range>.None][1..] == [];
  }

  /** Every range of `ranges` lies inside `phrase`. */
  predicate AllIn(ranges: seq<Range>, phrase: string)
  {
    forall k :: 0 <= k < |ranges| ==> RangeIn(ranges[k], phrase)
  }

  lemma ParticipatingIn(caps: Captures, phrase: string)
    requires WellFormedCaptures(phrase, caps)
    ensures AllIn(Participating(caps), phrase)
  {
    var rs := Participating(caps);
    forall k | 0 <= k < |rs| ensures RangeIn(rs[k], phrase) {
      assert rs[k] in rs;
      var j :| 0 <= j < |caps| && caps[j] == Some(rs[k]);
    }
  }

  /**
   * The highlight walk of `print_highlights` as written, from cursor `i`:
   * before a range that starts past the cursor it prints the phrase from
   * offset 0 (not from the cursor) up to the range start, then the range in
   * green, and moves the cursor to the range end; once the ranges run out it
   * prints the rest of the phrase from the cursor.
   */
  function Walk(ranges: seq<Range>, phrase: string, i: nat): seq<Segment>
    requires i <= |phrase| && AllIn(ranges, phrase)
    decreases |ranges|
  {
    if ranges == [] then [Plain(phrase[i..])]
    else
      var r := ranges[0];
      (if i < r.start then [Plain(phrase[0..r.start])] else [])
      + [Green(phrase[r.start..r.end])]
      + Walk(ranges[1..], phrase, r.end)
  }

  /** Where the walk's cursor stands once the ranges are used up. */
  function FinalCursor(ranges: seq<Range>, i: nat): nat
  {
    if ranges == [] then i else ranges[|ranges| - 1].end
  }

  /**
   * The walk prints only plain and green pieces, and always ends by printing
   * the rest of the phrase from where the cursor last stood: the loop stops
   * once the ranges are used up.
   */
  lemma {:induction false} WalkShape(ranges: seq<Range>, phrase: string, i: nat)
    requires i <= |phrase| && AllIn(ranges, phrase)
    ensures var w := Walk(ranges, phrase, i);
      |w| >= 1 &&
      (forall k :: 0 <= k < |w| ==> w[k].Plain? || w[k].Green?) &&
      w[|w| - 1] == Plain(phrase[FinalCursor(ranges, i)..])
    decreases |ranges|
  {
    if ranges != [] {
      var r := ranges[0];
      var gap: seq<Segment> := if i < r.start then [Plain(phrase[0..r.start])] else [];
      WalkShape(ranges[1..], phrase, r.end);
      assert FinalCursor(ranges[1..], r.end) == FinalCursor(ranges, i);
    }
  }

  /** The text of each range, in range order. */
  function Slices(ranges: seq<Range>, phrase: string): (ss: seq<string>)
    requires AllIn(ranges, phrase)
    ensures |ss| == |ranges|
    ensures forall k :: 0 <= k < |ranges| ==> ss[k] == phrase[ranges[k].start..ranges[k].end]
  {
    if ranges == [] then [] else [phrase[ranges[0].start..ranges[0].end]] + Slices(ranges[1..], phrase)
  }

  /** Every range is printed in green exactly once, in the order the engine gave them, and nothing else is green. */
  lemma {:induction false} WalkHighlightsEveryRange(ranges: seq<Range>, phrase: string, i: nat)
    requires i <= |phrase| && AllIn(ranges, phrase)
    ensures Greens(Walk(ranges, phrase, i)) == Slices(ranges, phrase)
  {
    if ranges != [] {
      var r := ranges[0];
      var gap: seq<Segment> := if i < r.start then [Plain(phrase[0..r.start])] else [];
      var rest := Walk(ranges[1..], phrase, r.end);
      GreensAppend(gap + [Green(phrase[r.start..r.end])], rest);
      GreensAppend(gap, [Green(phrase[r.start..r.end])]);
      WalkHighlightsEveryRange(ranges[1..], phrase, r.end);
    }
  }

  lemma Pieces(p: string, a: nat, b: nat)
    requires a <= b <= |p|
    ensures p[a..] == p[a..b] + p[b..]
  {
  }

  lemma AppendAssoc<T>(a: seq<T>, b: seq<T>, c: seq<T>)
    ensures (a + b) + c == a + (b + c)
  {
  }

  lemma ConcatSingle(seg: Segment)
    ensures Concat([seg]) == Shown(seg)
  {
    assert [seg][1..] == [];
  }

  /** With exactly one range, the walk prints the phrase once, unchanged. */
  lemma SingleRangeRoundTrip(r: Range, phrase: string)
    requires RangeIn(r, phrase)
    ensures Concat(Walk([r], phrase, 0)) == phrase
  {
    var gap: seq<Segment> := if 0 < r.start then [Plain(phrase[0..r.start])] else [];
    var green := Green(phrase[r.start..r.end]);
    var tail := Plain(phrase[r.end..]);
    assert [r][0] == r && [r][1..] == [];
    assert Walk([], phrase, r.end) == [tail];
    assert Walk([r], phrase, 0) == gap + [green] + [tail];
    ConcatAppend(gap + [green], [tail]);
    ConcatAppend(gap, [green]);
    ConcatSingle(green);
    ConcatSingle(tail);
    if 0 < r.start {
      ConcatSingle(Plain(phrase[0..r.start]));
    }
    Pieces(phrase, 0, r.start);
    Pieces(phrase, r.start, r.end);
  }

  /**
   * As written, a gap after the first range reprints the phrase from offset 0:
   * when the first range starts the phrase and a gap follows it, the output is
   * the first range's text and then the whole phrase, so that text shows twice.
   */
  lemma GapFromZeroDuplicates(r1: Range, r2: Range, p: string)
    requires r1.start == 0 < r1.end < r2.start <= r2.end <= |p|
    ensures AllIn([r1, r2], p)
    ensures Concat(Walk([r1, r2], p, 0)) == p[..r1.end] + p
    ensures Concat(Walk([r1, r2], p, 0)) != p
  {
    GapWalk(r1, r2, p);
    var gap, second, last := Plain(p[0..r2.start]), Green(p[r2.start..r2.end]), Plain(p[r2.end..]);
    ConcatAppend([Green(p[0..r1.end])], [gap, second, last]);
    ConcatAppend([gap], [second, last]);
    ConcatAppend([second], [last]);
    ConcatSingle(Green(p[0..r1.end]));
    ConcatSingle(gap);
    ConcatSingle(second);
    ConcatSingle(last);
    Pieces(p, r2.start, r2.end);
    Pieces(p, 0, r2.start);
    assert p[0..] == p;
    assert p[0..r1.end] == p[..r1.end];
    AppendAssoc(p[0..r2.start], p[r2.start..r2.end], p[r2.end..]);
  }

  /** The segments of the walk in GapFromZeroDuplicates: green, the gap from 0, green, the rest. */
  lemma GapWalk(r1: Range, r2: Range, p: string)
    requires r1.start == 0 < r1.end < r2.start <= r2.end <= |p|
    ensures AllIn([r1, r2], p)
    ensures Walk([r1, r2], p, 0) ==
      [Green(p[0..r1.end])] + ([Plain(p[0..r2.start])] + ([Green(p[r2.start..r2.end])] + [Plain(p[r2.end..])]))
  {
    var rs := [r1, r2];
    assert rs[0] == r1 && rs[1..] == [r2];
    assert [r2][0] == r2 && [r2][1..] == [];
    assert Walk([], p, r2.end) == [Plain(p[r2.end..])];
    assert Walk([r2], p, r1.end) == [Plain(p[0..r2.start])] + [Green(p[r2.start..r2.end])] + [Plain(p[r2.end..])];
  }

  /**
   * The gap quirk on ranges the engine does report: group 0 at the start of
   * the phrase, then two groups nested in it with a gap between them. The
   * walk prints the match, the first group's text again, and then, for the
   * gap before the second group, the whole phrase from offset 0. For
   * `(a)b(c)` over `abc` (ranges 0..3, 0..1 and 2..3) it prints `abcaabc`.
   */
  lemma NestedGapReprintsFromZero(m0: Range, g1: Range, g2: Range, p: string)
    requires m0.start == 0 && m0.end <= |p|
    requires g1.start <= g1.end < g2.start <= g2.end <= m0.end
    ensures AllIn([m0, g1, g2], p)
    ensures Concat(Walk([m0, g1, g2], p, 0)) == p[..m0.end] + p[g1.start..g1.end] + p
    ensures Concat(Walk([m0, g1, g2], p, 0)) != p
  {
    NestedGapWalk(m0, g1, g2, p);
    var first, second := Green(p[0..m0.end]), Green(p[g1.start..g1.end]);
    var rest := Walk([g2], p, g1.end);
    var out := Concat(Walk([m0, g1, g2], p, 0));
    ConcatAppend([first], [second] + rest);
    ConcatAppend([second], rest);
    ConcatSingle(first);
    ConcatSingle(second);
    GapBeforeLastRange(g2, p, g1.end);
    assert out == p[0..m0.end] + (p[g1.start..g1.end] + p);
    assert p[0..m0.end] == p[..m0.end];
    AppendAssoc(p[..m0.end], p[g1.start..g1.end], p);
    assert |out| > |p|;
  }

  /** The segments of the walk in NestedGapReprintsFromZero: the match, the first group, then the walk of the second. */
  lemma NestedGapWalk(m0: Range, g1: Range, g2: Range, p: string)
    requires m0.start == 0 && m0.end <= |p|
    requires g1.start <= g1.end < g2.start <= g2.end <= m0.end
    ensures AllIn([m0, g1, g2], p) && AllIn([g2], p)
    ensures Walk([m0, g1, g2], p, 0) ==
      [Green(p[0..m0.end])] + ([Green(p[g1.start..g1.end])] + Walk([g2], p, g1.end))
  {
    assert RangeIn(g2, p) && AllIn([g2], p);
    WalkHeadNoGap(g1, [g2], p, m0.end);
    assert [g1] + [g2] == [g1, g2];
    WalkHeadNoGap(m0, [g1, g2], p, 0);
    assert [m0] + [g1, g2] == [m0, g1, g2];
  }

  /** One step of the walk for a first range that starts no later than the cursor: no gap, just its text in green. */
  lemma WalkHeadNoGap(r: Range, rest: seq<Range>, p: string, i: nat)
    requires r.start <= i <= |p| && RangeIn(r, p) && AllIn(rest, p)
    ensures AllIn([r] + rest, p)
    ensures Walk([r] + rest, p, i) == [Green(p[r.start..r.end])] + Walk(rest, p, r.end)
  {
    var rs := [r] + rest;
    assert rs[0] == r && rs[1..] == rest;
    forall k | 0 <= k < |rs| ensures RangeIn(rs[k], p) {
      if k > 0 {
        assert rs[k] == rest[k - 1];
      }
    }
  }

  /** A last range past the cursor: the walk prints the gap from offset 0, so its output from there is the whole phrase. */
  lemma GapBeforeLastRange(r: Range, p: string, i: nat)
    requires i < r.start && RangeIn(r, p)
    ensures AllIn([r], p)
    ensures Concat(Walk([r], p, i)) == p
  {
    var gap, green, tail := Plain(p[0..r.start]), Green(p[r.start..r.end]), Plain(p[r.end..]);
    assert [r][0] == r && [r][1..] == [];
    assert Walk([], p, r.end) == [tail];
    assert Walk([r], p, i) == [gap] + ([green] + [tail]);
    ConcatAppend([gap], [green] + [tail]);
    ConcatAppend([green], [tail]);
    ConcatSingle(gap);
    ConcatSingle(green);
    ConcatSingle(tail);
    Pieces(p, r.start, r.end);
    Pieces(p, 0, r.start);
    assert p[0..] == p;
  }

  /**
   * Group 0 comes first and the groups nested in it follow, so a nested group
   * starts before the cursor: its text is printed again after the whole
   * match, and the rest of the phrase from its end follows. Both walks do
   * this; for `c(a)t` over `cat` (ranges 0..3 and 1..2) they print `catat`.
   */
  lemma NestedGroupReprints(r1: Range, r2: Range, p: string)
    requires r1.start == 0 && r1.end <= |p|
    requires r2.start <= r1.end && r2.start <= r2.end <= |p|
    ensures AllIn([r1, r2], p)
    ensures Concat(Walk([r1, r2], p, 0)) == p[..r1.end] + p[r2.start..]
    ensures Concat(WalkFromCursor([r1, r2], p, 0)) == Concat(Walk([r1, r2], p, 0))
    ensures r2.start < r1.end ==> Concat(Walk([r1, r2], p, 0)) != p
  {
    NestedWalk(r1, r2, p);
    NestedWalksAgree(r1, r2, p);
    var first, second, last := Green(p[0..r1.end]), Green(p[r2.start..r2.end]), Plain(p[r2.end..]);
    var out := Concat(Walk([r1, r2], p, 0));
    ConcatAppend([first], [second] + [last]);
    ConcatAppend([second], [last]);
    ConcatSingle(first);
    ConcatSingle(second);
    ConcatSingle(last);
    assert out == p[0..r1.end] + (p[r2.start..r2.end] + p[r2.end..]);
    Pieces(p, r2.start, r2.end);
    assert p[0..r1.end] == p[..r1.end];
    assert |out| == r1.end + |p| - r2.start;
  }

  /** The segments of the walk in NestedGroupReprints: group 0, the nested group, the rest from its end. */
  lemma NestedWalk(r1: Range, r2: Range, p: string)
    requires r1.start == 0 && r1.end <= |p|
    requires r2.start <= r1.end && r2.start <= r2.end <= |p|
    ensures AllIn([r1, r2], p)
    ensures Walk([r1, r2], p, 0) ==
      [Green(p[0..r1.end])] + ([Green(p[r2.start..r2.end])] + [Plain(p[r2.end..])])
  {
    LastRangeBehindCursor(r2, p, r1.end);
    WalkHeadNoGap(r1, [r2], p, 0);
    assert [r1] + [r2] == [r1, r2];
  }

  /** With a nested second group there is no gap at all, so the two walks print the same pieces. */
  lemma NestedWalksAgree(r1: Range, r2: Range, p: string)
    requires r1.start == 0 && r1.end <= |p|
    requires r2.start <= r1.end && r2.start <= r2.end <= |p|
    ensures AllIn([r1, r2], p)
    ensures WalkFromCursor([r1, r2], p, 0) == Walk([r1, r2], p, 0)
  {
    var rs := [r1, r2];
    assert RangeIn(rs[0], p) && RangeIn(rs[1], p);
    forall k | 0 < k < |rs| ensures rs[k].start <= rs[k - 1].end {
      assert k == 1;
    }
    WalkAgreesWithoutLaterGaps(rs, p, 0);
  }

  /** A last range that starts no later than the cursor prints no gap: its text, then the rest from its end. */
  lemma LastRangeBehindCursor(r: Range, p: string, i: nat)
    requires r.start <= i <= |p| && RangeIn(r, p)
    ensures AllIn([r], p)
    ensures Walk([r], p, i) == [Green(p[r.start..r.end])] + [Plain(p[r.end..])]
  {
    assert [r][0] == r && [r][1..] == [];
    assert Walk([], p, r.end) == [Plain(p[r.end..])];
  }

  /** Ranges in increasing order that do not overlap, all at or after `from`. */
  predicate Ascending(ranges: seq<Range>, from: nat)
  {
    && (|ranges| > 0 ==> from <= ranges[0].start)
    && forall k :: 0 < k < |ranges| ==> ranges[k - 1].end <= ranges[k].start
  }

  /** The walk with the gap taken from the cursor, as the algorithm intends. */
  function WalkFromCursor(ranges: seq<Range>, phrase: string, i: nat): (segs: seq<Segment>)
    requires i <= |phrase| && AllIn(ranges, phrase)
    decreases |ranges|
  {
    if ranges == [] then [Plain(phrase[i..])]
    else
      var r := ranges[0];
      (if i < r.start then [Plain(phrase[i..r.start])] else [])
      + [Green(phrase[r.start..r.end])]
      + WalkFromCursor(ranges[1..], phrase, r.end)
  }

  /** With the gap taken from the cursor, ascending disjoint ranges print the phrase once, unchanged. */
  lemma {:induction false} WalkFromCursorRoundTrip(ranges: seq<Range>, phrase: string, i: nat)
    requires i <= |phrase| && AllIn(ranges, phrase) && Ascending(ranges, i)
    ensures Concat(WalkFromCursor(ranges, phrase, i)) == phrase[i..]
    decreases |ranges|
  {
    if ranges != [] {
      var r := ranges[0];
      assert i <= r.start;
      var gap: seq<Segment> := if i < r.start then [Plain(phrase[i..r.start])] else [];
      var rest := WalkFromCursor(ranges[1..], phrase, r.end);
      assert Ascending(ranges[1..], r.end) by {
        if |ranges| > 1 {
          assert ranges[1] == ranges[1..][0];
        }
        forall k | 0 < k < |ranges[1..]|
          ensures ranges[1..][k - 1].end <= ranges[1..][k].start
        {
          assert ranges[1..][k] == ranges[k + 1] && ranges[1..][k - 1] == ranges[k];
        }
      }
      WalkFromCursorRoundTrip(ranges[1..], phrase, r.end);
      ConcatAppend(gap + [Green(phrase[r.start..r.end])], rest);
      ConcatAppend(gap, [Green(phrase[r.start..r.end])]);
      assert Concat(gap) == phrase[i..r.start];
      Pieces(phrase, i, r.start);
      Pieces(phrase, r.start, r.end);
    }
  }

  /**
   * The two walks differ only in a gap left after the cursor has moved off 0:
   * when every later range starts no further than the previous one ends (and
   * a first gap, if any, is taken from 0), they print the same segments.
   */
  lemma {:induction false} WalkAgreesWithoutLaterGaps(ranges: seq<Range>, phrase: string, i: nat)
    requires i <= |phrase| && AllIn(ranges, phrase)
    requires |ranges| > 0 && 0 < i ==> ranges[0].start <= i
    requires forall k :: 0 < k < |ranges| ==> ranges[k].start <= ranges[k - 1].end
    ensures Walk(ranges, phrase, i) == WalkFromCursor(ranges, phrase, i)
    decreases |ranges|
  {
    if ranges != [] {
      var r := ranges[0];
      var tail := ranges[1..];
      forall k | 0 < k < |tail| ensures tail[k].start <= tail[k - 1].end {
        assert tail[k] == ranges[k + 1] && tail[k - 1] == ranges[k];
      }
      if |tail| > 0 {
        assert tail[0] == ranges[1];
      }
      WalkAgreesWithoutLaterGaps(tail, phrase, r.end);
    }
  }

  /** One turn of the walk's loop: the segments printed for range `k` followed by the walk of the later ranges. */
  lemma WalkStep(before: seq<Segment>, matches: seq<Range>, k: nat, phrase: string, i: nat)
    requires k < |matches| && i <= |phrase| && AllIn(matches, phrase)
    ensures AllIn(matches[k..], phrase) && AllIn(matches[k + 1..], phrase)
    ensures var r := matches[k];
      before + Walk(matches[k..], phrase, i) ==
        (before + (if i < r.start then [Plain(phrase[0..r.start])] else []) + [Green(phrase[r.start..r.end])])
        + Walk(matches[k + 1..], phrase, r.end)
  {
    var r := matches[k];
    assert matches[k..][0] == r && matches[k..][1..] == matches[k + 1..];
    var gap: seq<Segment> := if i < r.start then [Plain(phrase[0..r.start])] else [];
    var rest := Walk(matches[k + 1..], phrase, r.end);
    assert Walk(matches[k..], phrase, i) == gap + [Green(phrase[r.start..r.end])] + rest;
    AppendAssoc(before, gap + [Green(phrase[r.start..r.end])], rest);
  }

  /** The walk's last turn: with no range left, the rest of the phrase from the cursor. */
  lemma WalkDone(matches: seq<Range>, k: nat, phrase: string, i: nat)
    requires k == |matches| && i <= |phrase|
    ensures AllIn(matches[k..], phrase)
    ensures Walk(matches[k..], phrase, i) == [Plain(phrase[i..])]
  {
    assert matches[k..] == [];
  }

  /** The walk's loop: a cursor `i` and an iterator over `matches`, consumed one range per turn. */
  method HighlightWalk(matches: seq<Range>, phrase: string) returns (out: seq<Segment>)
    requires AllIn(matches, phrase)
    ensures out == Walk(matches, phrase, 0)
  {
    ghost var target := Walk(matches, phrase, 0);
    out := [];
    var k := 0;
    var i: nat := 0;
    assert matches[0..] == matches;
    while i <= |phrase|
      invariant k <= |matches| && i <= |phrase|
      invariant AllIn(matches[k..], phrase)
      invariant out + Walk(matches[k..], phrase, i) == target
      decreases |matches| - k
    {
      if k < |matches| {
        var range := matches[k];
        WalkStep(out, matches, k, phrase, i);
        k := k + 1;
        if i < range.start {
          out := out + [Plain(phrase[0..range.start])];
        }
        out := out + [Green(phrase[range.start..range.end])];
        i := range.end;
      } else {
        WalkDone(matches, k, phrase, i);
        out := out + [Plain(phrase[i..])];
        break;
      }
    }
  }

  /** A matched sample: optional opening quote, the walk, optional closing quote, end of line. */
  function Highlighted(quoted: bool, ranges: seq<Range>, phrase: string): seq<Segment>
    requires AllIn(ranges, phrase)
  {
    (if quoted then [Quote] else []) + Walk(ranges, phrase, 0) + (if quoted then [Quote, Newline] else [Newline])
  }

  /** `print_highlights`: the quote decision is `is_line()`, which holds for Words. */
  method PrintHighlights(matches: seq<Range>, phrase: Text) returns (out: seq<Segment>)
    requires AllIn(matches, phrase.AsStr())
    ensures out == Highlighted(phrase.IsLine(), matches, phrase.AsStr())
  {
    var isLine, text := phrase.IsLine(), phrase.AsStr();
    out := [];
    if isLine {
      out := out + [Quote];
    }
    var walked := HighlightWalk(matches, text);
    out := out + walked;
    if isLine {
      out := out + [Quote, Newline];
    } else {
      out := out + [Newline];
    }
  }

  /** An unmatched sample: its whole text in red, in quotes for a Line, bare for a Word. */
  function Unmatched(t: Text): seq<Segment>
  {
    match t
    case Word(w) => [Red(w), Newline]
    case Line(l) => [Quote, Red(l), Quote, Newline]
  }

  /** What `print_matches` prints for one sample. */
  function RenderSample(t: Text, cap: Option<Captures>): seq<Segment>
    requires cap.Some? ==> WellFormedCaptures(t.AsStr(), cap.value)
  {
    match cap
    case Some(c) =>
      ParticipatingIn(c, t.AsStr());
      Highlighted(t.IsLine(), Participating(c), t.AsStr())
    case None => Unmatched(t)
  }

  /** On a matched sample the output opens with a quote, and ends with a quote before the line end, exactly for Words. */
  lemma MatchedQuotedIffWord(t: Text, c: Captures)
    requires WellFormedCaptures(t.AsStr(), c)
    ensures var out := RenderSample(t, Some(c));
      |out| >= 2 &&
      (out[0] == Quote <==> t.Word?) &&
      (out[|out| - 2] == Quote <==> t.Word?) &&
      out[|out| - 1] == Newline
  {
    ParticipatingIn(c, t.AsStr());
    var w := Walk(Participating(c), t.AsStr(), 0);
    WalkShape(Participating(c), t.AsStr(), 0);
    var out := RenderSample(t, Some(c));
    if t.Word? {
      assert out == [Quote] + w + [Quote, Newline];
    } else {
      assert out == w + [Newline];
      assert out[0] == w[0] && out[|out| - 2] == w[|w| - 1];
    }
  }

  /**
   * An unmatched sample prints its whole text as its one red piece, wrapped in
   * quotes exactly when it is a Line, and ends the line.
   */
  lemma UnmatchedWholeRed(t: Text)
    ensures var out := RenderSample(t, None);
      |out| == (if t.Line? then 4 else 2) &&
      (exists k :: 0 <= k < |out| && out[k] == Red(t.AsStr())) &&
      (forall j, k :: 0 <= j < |out| && 0 <= k < |out| && out[j].Red? && out[k].Red? ==> j == k) &&
      (out[0] == Quote <==> t.Line?) &&
      (out[|out| - 2] == Quote <==> t.Line?) &&
      out[|out| - 1] == Newline
  {
    var out := RenderSample(t, None);
    match t
    case Word(w) =>
      assert out == [Red(w), Newline];
      assert out[0] == Red(t.AsStr());
    case Line(l) =>
      assert out == [Quote, Red(l), Quote, Newline];
      assert out[1] == Red(t.AsStr());
  }

  function Min(a: nat, b: nat): nat { if a <= b then a else b }

  /** `print_matches` as a whole: the samples paired with their searches as `zip` pairs them, each rendered in turn. */
  function RenderAll(ts: seq<Text>, cs: seq<Option<Captures>>): seq<Segment>
    requires Consistent(ts, cs)
    decreases |ts|
  {
    if ts == [] || cs == [] then []
    else RenderSample(ts[0], cs[0]) + RenderAll(ts[1..], cs[1..])
  }

  /**
   * The number of line ends printed: one per `println!`. Line breaks inside a
   * sample's own text (a file read by `#readfile`, say) are not counted.
   */
  function LineEnds(segs: seq<Segment>): nat
  {
    if segs == [] then 0 else (if segs[0].Newline? then 1 else 0) + LineEnds(segs[1..])
  }

  lemma {:induction false} LineEndsAppend(a: seq<Segment>, b: seq<Segment>)
    ensures LineEnds(a + b) == LineEnds(a) + LineEnds(b)
  {
    if a != [] {
      assert (a + b)[0] == a[0] && (a + b)[1..] == a[1..] + b;
      LineEndsAppend(a[1..], b);
    } else {
      assert a + b == b;
    }
  }

  lemma {:induction false} NoLineEnds(segs: seq<Segment>)
    requires forall k :: 0 <= k < |segs| ==> segs[k].Plain? || segs[k].Green?
    ensures LineEnds(segs) == 0
  {
    if segs != [] {
      assert forall k :: 0 <= k < |segs[1..]| ==> segs[1..][k] == segs[k + 1];
      NoLineEnds(segs[1..]);
    }
  }

  /** Each sample's output, matched or not, ends with exactly one line end (one `println!`) and holds no other. */
  lemma OneLineEndPerSample(t: Text, cap: Option<Captures>)
    requires cap.Some? ==> WellFormedCaptures(t.AsStr(), cap.value)
    ensures LineEnds(RenderSample(t, cap)) == 1
  {
    match cap
    case Some(c) =>
      ParticipatingIn(c, t.AsStr());
      var w := Walk(Participating(c), t.AsStr(), 0);
      var open: seq<Segment> := if t.IsLine() then [Quote] else [];
      var close: seq<Segment> := if t.IsLine() then [Quote, Newline] else [Newline];
      assert RenderSample(t, cap) == open + w + close;
      WalkShape(Participating(c), t.AsStr(), 0);
      NoLineEnds(w);
      assert LineEnds([Newline]) == 1 by { assert [Newline][1..] == []; }
      assert LineEnds([Quote, Newline]) == 1 by { assert [Quote, Newline][1..] == [Newline]; }
      LineEndsAppend(open + w, close);
      LineEndsAppend(open, w);
    case None =>
  }

  /** One line end per sample, up to the shorter of the samples and the searches; extra entries print nothing. */
  lemma {:induction false} OneLineEndPerPairedSample(ts: seq<Text>, cs: seq<Option<Captures>>)
    requires Consistent(ts, cs)
    ensures LineEnds(RenderAll(ts, cs)) == Min(|ts|, |cs|)
    decreases |ts|
  {
    if ts != [] && cs != [] {
      OneLineEndPerSample(ts[0], cs[0]);
      OneLineEndPerPairedSample(ts[1..], cs[1..]);
      LineEndsAppend(RenderSample(ts[0], cs[0]), RenderAll(ts[1..], cs[1..]));
    }
  }

  /** `print_matches`: one pass over the zipped samples and searches. */
  method PrintMatches(a: RegexAttempt) returns (out: seq<Segment>)
    requires Consistent(a.testStrings, a.captures)
    ensures out == RenderAll(a.testStrings, a.captures)
  {
    var ts, cs := a.testStrings, a.captures;
    var n := Min(|ts|, |cs|);
    out := [];
    for k := 0 to n
      invariant Consistent(ts[k..], cs[k..])
      invariant out + RenderAll(ts[k..], cs[k..]) == RenderAll(ts, cs)
    {
      assert ts[k..][1..] == ts[k + 1..] && cs[k..][1..] == cs[k + 1..];
      assert ts[k..][0] == ts[k] && cs[k..][0] == cs[k];
      ghost var before := out;
      ghost var rest := RenderAll(ts[k + 1..], cs[k + 1..]);
      assert RenderAll(ts[k..], cs[k..]) == RenderSample(ts[k], cs[k]) + rest;
      var piece;
      match cs[k] {
        case Some(cap) =>
          ParticipatingIn(cap, ts[k].AsStr());
          piece := PrintHighlights(Participating(cap), ts[k]);
        case None =>
          piece := Unmatched(ts[k]);
      }
      assert piece == RenderSample(ts[k], cs[k]);
      out := out + piece;
      AppendAssoc(before, piece, rest);
    }
    assert ts[n..] == [] || cs[n..] == [];
  }
}
