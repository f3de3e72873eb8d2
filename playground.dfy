/**
 * The interactive session of src/playground.rs: the sample list, the
 * `#`-command dispatch over it, and the read loop that drives it. The file
 * system, the regex engine and the line editor are parameters.
 */
module Playground {
  import opened Wrappers
  import opened TextSample
  import opened RegexEngine
  import opened Evaluator
  import opened Strings

  /** `fs::read_to_string` as an oracle: the file's contents, or None when it cannot be read. */
  type FileSystem = string -> Option<string>

  /** What submitting a line as a pattern shows: the rendered samples, or the compile error. */
  datatype Report = Rendered(segments: seq<Segment>) | RegexFailed(error: RegexError)

  /** One Word sample per token, in order. */
  function Words(tokens: seq<string>): (ws: seq<Text>)
    ensures |ws| == |tokens|
    ensures forall k :: 0 <= k < |tokens| ==> ws[k] == Word(tokens[k])
  {
    seq(|tokens|, k requires 0 <= k < |tokens| => Word(tokens[k]))
  }

  /** One more token is one more Word at the end. */
  lemma WordsAppend(tokens: seq<string>, t: string)
    ensures Words(tokens + [t]) == Words(tokens) + [Word(t)]
  {
  }

  /** The list after `load_from_file`: one more Line on a successful read, unchanged otherwise. */
  function AfterLoad(ts: seq<Text>, fs: FileSystem, filename: string): seq<Text>
  {
    match fs(filename)
    case Some(contents) => ts + [Line(contents)]
    case None => ts
  }

  /** Which branch of `parse` a left-trimmed line takes; the prefixes are tried in this order. */
  datatype Command = NotCommand | Help | Clear | AddWord | AddLine | ReadFile | Unknown

  /** The command a line names: the first of the prefixes it starts with, after the leading `#`. */
  function Classify(line: string): Command
  {
    if !StartsWith(line, "#") then NotCommand
    else if StartsWith(line, "#help") then Help
    else if StartsWith(line, "#clear") then Clear
    else if StartsWith(line, "#addword") then AddWord
    else if StartsWith(line, "#addline") then AddLine
    else if StartsWith(line, "#readfile") then ReadFile
    else Unknown
  }

  /** The sample list after `parse` has seen `raw`; commands are recognised on the left-trimmed line, first prefix first. */
  function Dispatch(ts: seq<Text>, raw: string, fs: FileSystem): seq<Text>
  {
    var line := TrimStart(raw);
    match Classify(line)
    case NotCommand => ts
    case Help => ts
    case Clear => []
    case AddWord => ts + Words(Split(line, ' ')[1..])
    case AddLine => if |line| > 9 then ts + [Line(line[9..])] else ts
    case ReadFile => if |line| > 10 then AfterLoad(ts, fs, line[10..]) else ts
    case Unknown => ts
  }

  /** Each command's own prefix selects it: none of the five prefixes starts with an earlier one. */
  lemma ClassifyByPrefix(l: string)
    ensures StartsWith(l, "#help") ==> Classify(l) == Help
    ensures StartsWith(l, "#clear") ==> Classify(l) == Clear
    ensures StartsWith(l, "#addword") ==> Classify(l) == AddWord
    ensures StartsWith(l, "#addline") ==> Classify(l) == AddLine
    ensures StartsWith(l, "#readfile") ==> Classify(l) == ReadFile
  {
    if |l| >= 5 {
      assert "#help"[1] == 'h' && "#clear"[1] == 'c' && "#addword"[1] == 'a';
      assert "#addline"[1] == 'a' && "#readfile"[1] == 'r';
      assert "#addword"[4] == 'w' && "#addline"[4] == 'l';
      if StartsWith(l, "#help") {
        assert l[0] == '#' && l[1] == 'h';
      }
      if StartsWith(l, "#clear") {
        assert l[0] == '#' && l[1] == 'c';
      }
      if StartsWith(l, "#addword") {
        assert l[0] == '#' && l[1] == 'a' && l[4] == 'w';
      }
      if StartsWith(l, "#addline") {
        assert l[0] == '#' && l[1] == 'a' && l[4] == 'l';
      }
      if StartsWith(l, "#readfile") {
        assert l[0] == '#' && l[1] == 'r';
      }
    }
  }

  /** What `parse` shows after the dispatch: the trimmed line tried as a pattern against the current samples. */
  function Evaluate(pattern: string, ts: seq<Text>, compile: Compiler): Report
    requires CompilerWellFormed(compile)
  {
    match New(compile, pattern, ts)
    case Failure(e) => RegexFailed(e)
    case Success(a) =>
      NewIsConsistent(compile, pattern, ts);
      Rendered(RenderAll(a.testStrings, a.captures))
  }

  /** A line that does not start with `#` once trimmed leaves the samples alone. */
  lemma NonCommandKeepsSamples(ts: seq<Text>, line: string, fs: FileSystem)
    requires !StartsWith(TrimStart(line), "#")
    ensures Dispatch(ts, line, fs) == ts
  {
  }

  /** `#help` is tried first and changes nothing, whatever follows it; `#clear` empties the list. */
  lemma HelpAndClear(ts: seq<Text>, line: string, fs: FileSystem)
    ensures StartsWith(TrimStart(line), "#help") ==> Dispatch(ts, line, fs) == ts
    ensures StartsWith(TrimStart(line), "#clear") ==> Dispatch(ts, line, fs) == []
  {
    ClassifyByPrefix(TrimStart(line));
  }

  /**
   * `#addword` appends one Word per space-separated token after the first,
   * empty tokens included, one per space in the line, and keeps every
   * sample already there.
   */
  lemma AddWordAppendsTokens(ts: seq<Text>, line: string, fs: FileSystem)
    requires StartsWith(TrimStart(line), "#addword")
    ensures var r := Dispatch(ts, line, fs);
      r == ts + Words(Split(TrimStart(line), ' ')[1..]) &&
      |r| == |ts| + Count(TrimStart(line), ' ') &&
      r[..|ts|] == ts
  {
    var l := TrimStart(line);
    ClassifyByPrefix(l);
    assert Classify(l) == AddWord;
    var r := Dispatch(ts, line, fs);
    assert r == ts + Words(Split(l, ' ')[1..]);
    SplitCount(l, ' ');
    assert r[..|ts|] == ts;
  }

  lemma {:induction false} SplitAfterFirst(a: string, b: string, sep: char)
    requires forall k :: 0 <= k < |a| ==> a[k] != sep
    ensures Split(a + [sep] + b, sep) == [a] + Split(b, sep)
  {
    if a == [] {
      assert ([] + [sep] + b)[1..] == b;
    } else {
      assert (a + [sep] + b)[1..] == a[1..] + [sep] + b;
      SplitAfterFirst(a[1..], b, sep);
      assert [a[0]] + a[1..] == a;
    }
  }

  lemma {:induction false} SplitNoSep(a: string, sep: char)
    requires sep !in a
    ensures Split(a, sep) == [a]
  {
    if a != [] {
      SplitNoSep(a[1..], sep);
      assert [a[0]] + a[1..] == a;
    }
  }

  /** A line typed as `#addword ` and then `rest` adds one Word per space-separated piece of `rest`. */
  lemma AddWordCommand(ts: seq<Text>, rest: string, fs: FileSystem)
    ensures Dispatch(ts, "#addword " + rest, fs) == ts + Words(Split(rest, ' '))
  {
    var l := "#addword " + rest;
    assert l == "#addword" + [' '] + rest;
    assert l[0] == '#';
    assert TrimStart(l) == l;
    assert StartsWith(l, "#addword");
    AddWordAppendsTokens(ts, l, fs);
    SplitAfterFirst("#addword", rest, ' ');
    assert Split(l, ' ')[1..] == Split(rest, ' ');
  }

  /** The words `#addword ` appends, joined back with single spaces, are exactly the text after the command. */
  lemma AddWordRoundTrip(ts: seq<Text>, rest: string, fs: FileSystem)
    ensures var r := Dispatch(ts, "#addword " + rest, fs);
      |r| >= |ts| && r[..|ts|] == ts &&
      exists tokens :: r[|ts|..] == Words(tokens) && Join(tokens, ' ') == rest
  {
    AddWordCommand(ts, rest, fs);
    var tokens := Split(rest, ' ');
    JoinSplit(rest, ' ');
    assert Dispatch(ts, "#addword " + rest, fs)[|ts|..] == Words(tokens);
  }

  /** Three pieces without spaces, joined by single spaces, split back into those three. */
  lemma SplitThree(a: string, b: string, c: string)
    requires ' ' !in a && ' ' !in b && ' ' !in c
    ensures Split(a + " " + b + " " + c, ' ') == [a, b, c]
  {
    var bc := b + [' '] + c;
    assert a + " " + b + " " + c == a + [' '] + bc;
    SplitNoSep(c, ' ');
    SplitAfterFirst(b, c, ' ');
    SplitAfterFirst(a, bc, ' ');
  }

  /** `#addword a b c` gives the three Words a, b and c, in that order, for any a, b, c without spaces. */
  lemma AddWordThree(ts: seq<Text>, a: string, b: string, c: string, fs: FileSystem)
    requires ' ' !in a && ' ' !in b && ' ' !in c
    ensures Dispatch(ts, "#addword " + a + " " + b + " " + c, fs) == ts + [Word(a), Word(b), Word(c)]
  {
    var abc := a + " " + b + " " + c;
    Regroup("#addword ", a, " ", b, " ", c);
    AddWordCommand(ts, abc, fs);
    SplitThree(a, b, c);
    var ws := Words([a, b, c]);
    assert ws == [Word(a), Word(b), Word(c)];
  }

  /** Regrouping a concatenation of six strings. */
  lemma Regroup(u: string, v: string, w: string, x: string, y: string, z: string)
    ensures u + v + w + x + y + z == u + (v + w + x + y + z)
  {
  }

  /** `#addline` appends the trimmed line from offset 9 on, verbatim, exactly when the line is longer than 9; otherwise nothing changes. */
  lemma AddLineFromOffsetNine(ts: seq<Text>, line: string, fs: FileSystem)
    requires StartsWith(TrimStart(line), "#addline")
    ensures var l := TrimStart(line);
      Dispatch(ts, line, fs) == if |l| > 9 then ts + [Line(l[9..])] else ts
  {
    var l := TrimStart(line);
    ClassifyByPrefix(l);
    assert Classify(l) == AddLine;
    if |l| > 9 {
      assert Dispatch(ts, line, fs) == ts + [Line(l[9..])];
    } else {
      assert Dispatch(ts, line, fs) == ts;
    }
  }

  /**
   * `#readfile` asks the file system for the name from offset 10 on, only when
   * the line is longer than 10; a readable file becomes one more Line, an
   * unreadable one changes nothing.
   */
  lemma ReadFileFromOffsetTen(ts: seq<Text>, line: string, fs: FileSystem)
    requires StartsWith(TrimStart(line), "#readfile")
    ensures var l := TrimStart(line);
      Dispatch(ts, line, fs) ==
        if |l| <= 10 then ts
        else if fs(l[10..]).Some? then ts + [Line(fs(l[10..]).value)]
        else ts
  {
    var l := TrimStart(line);
    ClassifyByPrefix(l);
    assert Classify(l) == ReadFile;
    if |l| > 10 {
      var name := l[10..];
      assert Dispatch(ts, line, fs) == AfterLoad(ts, fs, name);
      match fs(name) {
        case Some(contents) =>
          assert AfterLoad(ts, fs, name) == ts + [Line(contents)];
        case None =>
      }
    }
  }

  /** A `#` line that is none of the five commands changes nothing. */
  lemma UnknownCommandKeepsSamples(ts: seq<Text>, line: string, fs: FileSystem)
    requires StartsWith(TrimStart(line), "#")
    requires var l := TrimStart(line);
      !StartsWith(l, "#help") && !StartsWith(l, "#clear") && !StartsWith(l, "#addword") &&
      !StartsWith(l, "#addline") && !StartsWith(l, "#readfile")
    ensures Dispatch(ts, line, fs) == ts
  {
  }

  /** The tail of `parse`: build the attempt and print its matches, or show the compile error. */
  method TryPattern(pattern: string, ts: seq<Text>, compile: Compiler) returns (report: Report)
    requires CompilerWellFormed(compile)
    ensures report == Evaluate(pattern, ts, compile)
  {
    match New(compile, pattern, ts) {
      case Success(attempt) =>
        NewIsConsistent(compile, pattern, ts);
        var out := PrintMatches(attempt);
        report := Rendered(out);
      case Failure(e) =>
        report := RegexFailed(e);
    }
  }

  /** The session's data: the samples under test. The line editor it also owns is not part of this model. */
  class PlaygroundData {
    var testStrings: seq<Text>

    constructor ()
      ensures testStrings == []
    {
      testStrings := [];
    }

    /** `load_from_file`: push the file's contents as one Line, or leave the list as it is when the read fails. */
    method LoadFromFile(filename: string, fs: FileSystem)
      modifies this
      ensures testStrings == AfterLoad(old(testStrings), fs, filename)
    {
      match fs(filename) {
        case Some(contents) =>
          testStrings := testStrings + [Line(contents)];
        case None =>
      }
    }

    /** The `#addword` loop of `parse`: push every token after the command word, in order, as a Word. */
    method AddWords(words: seq<string>)
      requires |words| >= 1
      modifies this
      ensures testStrings == old(testStrings) + Words(words[1..])
    {
      var k := 1;
      while k < |words|
        invariant 1 <= k <= |words|
        invariant testStrings == old(testStrings) + Words(words[1..k])
      {
        assert words[1..k + 1] == words[1..k] + [words[k]];
        WordsAppend(words[1..k], words[k]);
        AppendAssoc(old(testStrings), Words(words[1..k]), [Word(words[k])]);
        testStrings := testStrings + [Word(words[k])];
        k := k + 1;
      }
      assert words[1..k] == words[1..];
    }

    /** `parse`: dispatch a command on the left-trimmed line, then try that line as a pattern. */
    method Parse(raw: string, fs: FileSystem, compile: Compiler) returns (report: Report)
      requires CompilerWellFormed(compile)
      modifies this
      ensures testStrings == Dispatch(old(testStrings), raw, fs)
      ensures report == Evaluate(TrimStart(raw), testStrings, compile)
    {
      var line := TrimStart(raw);
      ghost var expected := Dispatch(testStrings, raw, fs);
      if StartsWith(line, "#") {
        var words := Split(line, ' ');
        // the guarded arms are tried in order, as Classify does
        match Classify(line) {
          case Help =>
            assert testStrings == expected;
          case Clear =>
            testStrings := [];
            assert testStrings == expected;
          case AddWord =>
            AddWords(words);
            assert testStrings == expected;
          case AddLine =>
            if |line| > 9 {
              testStrings := testStrings + [Line(line[9..])];
            }
            assert testStrings == expected;
          case ReadFile =>
            if |line| > 10 {
              LoadFromFile(line[10..], fs);
            }
            assert testStrings == expected;
          case _ =>
            assert testStrings == expected;
        }
      } else {
        assert testStrings == expected;
      }

      report := TryPattern(line, testStrings, compile);
    }
  }

  /** What the line editor hands back: a line, or the signal or error that ends the session. */
  datatype ReadResult = Read(line: string) | Interrupted | Eof | ReadFailed(description: string)

  /** The read loop's two states. */
  datatype SessionState = Running | Terminated

  /** The `k`-th read; once the input is used up the editor reports end of file. */
  function NextInput(input: seq<ReadResult>, k: nat): ReadResult
  {
    if k < |input| then input[k] else Eof
  }

  /** The index of the first read that is not a line (the input's length when there is none). */
  function StopAt(input: seq<ReadResult>): (n: nat)
    ensures n <= |input|
    ensures forall k :: 0 <= k < n ==> input[k].Read?
    ensures n < |input| ==> !input[n].Read?
  {
    if input == [] || !input[0].Read? then 0 else 1 + StopAt(input[1..])
  }

  /** The non-empty lines among `rs`, in order: the ones the loop passes to `parse`. */
  function Lines(rs: seq<ReadResult>): seq<string>
  {
    if rs == [] then []
    else Lines(rs[..|rs| - 1]) + (if rs[|rs| - 1].Read? && rs[|rs| - 1].line != [] then [rs[|rs| - 1].line] else [])
  }

  /** The samples after parsing `lines` one after another. */
  function Replay(ts: seq<Text>, lines: seq<string>, fs: FileSystem): seq<Text>
  {
    if lines == [] then ts else Dispatch(Replay(ts, lines[..|lines| - 1], fs), lines[|lines| - 1], fs)
  }

  /** What parsing `lines` one after another shows, one report per line. */
  function Reports(ts: seq<Text>, lines: seq<string>, fs: FileSystem, compile: Compiler): (rs: seq<Report>)
    requires CompilerWellFormed(compile)
    ensures |rs| == |lines|
  {
    if lines == [] then []
    else
      Reports(ts, lines[..|lines| - 1], fs, compile)
      + [Evaluate(TrimStart(lines[|lines| - 1]), Replay(ts, lines, fs), compile)]
  }

  /** The lines of two runs of reads are those of each run, in turn. */
  lemma {:induction false} LinesAppend(a: seq<ReadResult>, b: seq<ReadResult>)
    ensures Lines(a + b) == Lines(a) + Lines(b)
    decreases |b|
  {
    if b == [] {
      assert a + b == a;
    } else {
      var c := a + b;
      var front := b[..|b| - 1];
      assert c[..|c| - 1] == a + front && c[|c| - 1] == b[|b| - 1];
      LinesAppend(a, front);
    }
  }

  /** An empty line is skipped wherever it comes: it adds nothing to what is parsed. */
  lemma EmptyLinesIgnored(a: seq<ReadResult>, b: seq<ReadResult>)
    ensures Lines(a + [Read([])] + b) == Lines(a + b)
  {
    LinesAppend(a + [Read([])], b);
    LinesAppend(a, [Read([])]);
    LinesAppend(a, b);
    assert [Read([])][..0] == [];
  }

  lemma LinesStep(input: seq<ReadResult>, k: nat)
    requires k < |input|
    ensures Lines(input[..k + 1]) ==
      Lines(input[..k]) + (if input[k].Read? && input[k].line != [] then [input[k].line] else [])
  {
    assert input[..k + 1][..k] == input[..k];
  }

  lemma ReplayStep(ts: seq<Text>, lines: seq<string>, line: string, fs: FileSystem, compile: Compiler)
    requires CompilerWellFormed(compile)
    ensures Replay(ts, lines + [line], fs) == Dispatch(Replay(ts, lines, fs), line, fs)
    ensures Reports(ts, lines + [line], fs, compile) ==
      Reports(ts, lines, fs, compile) + [Evaluate(TrimStart(line), Replay(ts, lines + [line], fs), compile)]
  {
    assert (lines + [line])[..|lines|] == lines;
  }

  /**
   * `PlaygroundManager::start`: read lines until the editor reports an error
   * or a signal; parse each non-empty line, skip empty ones, and on the first
   * error save the history once and stop. Returns the final samples, the
   * reports shown, the number of reads made and the number of history saves.
   */
  method Start(input: seq<ReadResult>, fs: FileSystem, compile: Compiler)
    returns (testStrings: seq<Text>, transcript: seq<Report>, readCount: nat, historySaves: nat)
    requires CompilerWellFormed(compile)
    ensures readCount == StopAt(input) + 1
    ensures historySaves == 1
    ensures testStrings == Replay([], Lines(input[..StopAt(input)]), fs)
    ensures transcript == Reports([], Lines(input[..StopAt(input)]), fs, compile)
  {
    var data := new PlaygroundData();
    var state := Running;
    ghost var lines: seq<string> := [];
    transcript, readCount, historySaves := [], 0, 0;
    while state == Running
      invariant state == Running ==> readCount <= StopAt(input) && historySaves == 0
      invariant state == Terminated ==> readCount == StopAt(input) + 1 && historySaves == 1
      invariant lines == Lines(input[..Min(readCount, StopAt(input))])
      invariant data.testStrings == Replay([], lines, fs)
      invariant transcript == Reports([], lines, fs, compile)
      decreases |input| + 1 - readCount
    {
      match NextInput(input, readCount) {
        case Read(line) =>
          LinesStep(input, readCount);
          readCount := readCount + 1;
          if line != [] {
            var report := data.Parse(line, fs, compile);
            transcript := transcript + [report];
            ReplayStep([], lines, line, fs, compile);
            lines := lines + [line];
          }
        case _ =>
          readCount := readCount + 1;
          historySaves := historySaves + 1;
          state := Terminated;
      }
    }
    testStrings := data.testStrings;
  }
}
