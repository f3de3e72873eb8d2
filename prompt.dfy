/**
 * The command hints of src/prompt.rs: when the typed line is the start of a
 * command, the editor shows the rest of it and can complete it.
 */
module Prompt {
  import opened Wrappers

  /** A hint: the text shown, and how much of it a completion accepts. */
  datatype CommandHint = CommandHint(display: string, completeUpTo: nat) {

    /** The completion length never runs past the text. */
    predicate Valid()
    {
      completeUpTo <= |display|
    }

    /** `CommandHint::new`: show `text`, complete up to the length of `prefix`, which `text` starts with. */
    static function New(text: string, prefix: string): (h: CommandHint)
      requires prefix <= text
      ensures h.Valid()
      ensures h.display == text && h.completeUpTo == |prefix|
    {
      CommandHint(text, |prefix|)
    }

    /** `suffix`: drop the first `strip` characters; the completion length shrinks by as much, stopping at zero. */
    function Suffix(strip: nat): (h: CommandHint)
      requires strip <= |display|
      requires Valid()
      ensures h.Valid()
      ensures display == display[..strip] + h.display
      ensures h.completeUpTo == if completeUpTo <= strip then 0 else completeUpTo - strip
    {
      CommandHint(display[strip..], if completeUpTo <= strip then 0 else completeUpTo - strip)
    }

    /** `completion`: the accepted prefix of the text, or None when it is empty. */
    function Completion(): (c: Option<string>)
      requires Valid()
      ensures c.None? <==> completeUpTo == 0
      ensures c.Some? ==> c.value <= display && |c.value| == completeUpTo
    {
      if completeUpTo > 0 then Some(display[..completeUpTo]) else None
    }
  }

  /** A hint made by `new` completes to exactly the prefix it was given. */
  lemma NewCompletesToPrefix(text: string, prefix: string)
    requires prefix <= text
    ensures CommandHint.New(text, prefix).Completion() == if prefix == [] then None else Some(prefix)
  {
    assert text[..|prefix|] == prefix;
  }

  /** Stripping twice is stripping the sum at once. */
  lemma SuffixComposes(h: CommandHint, a: nat, b: nat)
    requires h.Valid() && a + b <= |h.display|
    ensures h.Suffix(a).Suffix(b) == h.Suffix(a + b)
  {
    assert h.display[a..][b..] == h.display[a + b..];
  }

  /** The playground's five commands, each completing in full. */
  function PlaygroundHints(): (hints: set<CommandHint>)
    ensures |hints| == 5
    ensures forall h :: h in hints ==> h.Valid() && h.completeUpTo == |h.display| > 0
    ensures forall h :: h in hints ==> h.display in {"#help", "#clear", "#readfile", "#addline", "#addword"}
  {
    var hints: set<CommandHint> := {};
    var hints := hints + {CommandHint.New("#help", "#help")};
    var hints := hints + {CommandHint.New("#clear", "#clear")};
    var hints := hints + {CommandHint.New("#readfile", "#readfile")};
    var hints := hints + {CommandHint.New("#addline", "#addline")};
    var hints := hints + {CommandHint.New("#addword", "#addword")};
    hints
  }

  /** The hinter attached to the editor: a set of hints, visited in the set's own (unspecified) order. */
  datatype EditorHinter = EditorHinter(hints: set<CommandHint>) {

    /** Every hint is valid. */
    predicate Valid()
    {
      forall h :: h in hints ==> h.Valid()
    }

    /**
     * `hint`: nothing while the cursor is inside the line; otherwise the first
     * hint, in the visiting order `order`, whose text starts with the typed
     * line, stripped of what was typed. A line of length 0 gets no hint.
     */
    function Hint(order: seq<CommandHint>, line: string, pos: nat): (r: Option<CommandHint>)
      requires Valid()
      requires pos <= |line|
      requires forall h :: h in order <==> h in hints
      ensures r.None? <==>
        pos < |line| || pos == 0 || forall d :: d in hints ==> !(line[..pos] <= d.display)
      ensures r.Some? ==>
        exists d :: d in hints && line[..pos] <= d.display && r.value == d.Suffix(pos) &&
          line[..pos] + r.value.display == d.display
    {
      if pos < |line| then None else FirstMatch(order, line[..pos])
    }
  }

  /** The first hint of `order` that starts with the non-empty `typed`, stripped of it (the `filter_map` then `next`). */
  function FirstMatch(order: seq<CommandHint>, typed: string): (r: Option<CommandHint>)
    requires forall h :: h in order ==> h.Valid()
    ensures r.None? <==> typed == [] || forall d :: d in order ==> !(typed <= d.display)
    ensures r.Some? ==>
      exists d :: d in order && typed <= d.display && r.value == d.Suffix(|typed|)
  {
    if order == [] then None
    else if |typed| > 0 && typed <= order[0].display then Some(order[0].Suffix(|typed|))
    else
      var r := FirstMatch(order[1..], typed);
      assert forall d :: d in order[1..] ==> d in order;
      r
  }

  /** No hint before the one chosen matches: it is the first match in visiting order, as `filter_map` then `next` gives. */
  lemma {:induction false} FirstMatchIsFirst(order: seq<CommandHint>, typed: string)
    requires forall h :: h in order ==> h.Valid()
    ensures var r := FirstMatch(order, typed);
      r.Some? ==>
        exists j :: 0 <= j < |order| && typed <= order[j].display && r.value == order[j].Suffix(|typed|) &&
          forall m :: 0 <= m < j ==> !(typed <= order[m].display)
  {
    var r := FirstMatch(order, typed);
    if r.Some? && !(|typed| > 0 && typed <= order[0].display) {
      var tail := order[1..];
      assert forall h :: h in tail ==> h in order;
      FirstMatchIsFirst(tail, typed);
      var j :| 0 <= j < |tail| && typed <= tail[j].display && r.value == tail[j].Suffix(|typed|) &&
        forall m :: 0 <= m < j ==> !(typed <= tail[m].display);
      assert order[j + 1] == tail[j];
      forall m | 0 <= m < j + 1 ensures !(typed <= order[m].display) {
        if m > 0 {
          assert order[m] == tail[m - 1];
        }
      }
    }
  }

  /**
   * When every stored hint completes in full, a hint shown at the end of the
   * typed line completes to the whole rest of its command, or offers no
   * completion once the command is typed in full.
   */
  lemma FullHintCompletesRest(hinter: EditorHinter, order: seq<CommandHint>, line: string)
    requires hinter.Valid()
    requires forall h :: h in hinter.hints ==> h.completeUpTo == |h.display|
    requires forall h :: h in order <==> h in hinter.hints
    ensures var r := hinter.Hint(order, line, |line|);
      r.Some? ==>
        r.value.Valid() &&
        r.value.Completion() == if r.value.display == [] then None else Some(r.value.display)
  {
    var r := hinter.Hint(order, line, |line|);
    if r.Some? {
      var d :| d in hinter.hints && line[..|line|] <= d.display && r.value == d.Suffix(|line|);
      assert r.value.display[..r.value.completeUpTo] == r.value.display;
    }
  }

  /** The built-in hints are all full, so the lemma above applies to the editor's own hinter. */
  lemma BuiltinHintCompletesCommand(order: seq<CommandHint>, line: string)
    requires forall h :: h in order <==> h in PlaygroundHints()
    ensures EditorHinter(PlaygroundHints()).Valid()
    ensures var r := EditorHinter(PlaygroundHints()).Hint(order, line, |line|);
      r.Some? ==> r.value.Completion() == if r.value.display == [] then None else Some(r.value.display)
  {
    FullHintCompletesRest(EditorHinter(PlaygroundHints()), order, line);
  }
}
