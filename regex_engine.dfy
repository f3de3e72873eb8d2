/**
 * The regular-expression engine seen from outside. The engine itself (compiling
 * a pattern, searching a string) is a foreign library; the model takes it as a
 * parameter and fixes only the shape of what it returns.
 */
module RegexEngine {
  import opened Wrappers

  /** A byte range `start..end` of a searched string, as the engine reports a match. */
  datatype Range = Range(start: nat, end: nat)

  /** One entry per capture group of the pattern; None for a group that did not take part. */
  type Captures = seq<Option<Range>>

  /** Why a pattern failed to compile. */
  datatype RegexError =
    | Syntax(message: string)
    | CompiledTooBig(limit: nat)
    | Other(description: string)

  /** A compiled pattern: searches a string and gives its capture groups, or None when there is no match. */
  type Matcher = string -> Option<Captures>

  /** The compiler: turns a pattern into a matcher or an error. */
  type Compiler = string -> Result<Matcher, RegexError>

  /** A range lies inside `phrase`. */
  predicate RangeIn(r: Range, phrase: string) {
    r.start <= r.end <= |phrase|
  }

  /** Every participating group of `caps` lies inside `phrase`. */
  predicate WellFormedCaptures(phrase: string, caps: Captures) {
    forall k :: 0 <= k < |caps| && caps[k].Some? ==> RangeIn(caps[k].value, phrase)
  }

  /** What the engine guarantees: every range it reports lies inside the searched string. */
  ghost predicate MatcherWellFormed(re: Matcher) {
    forall s :: re(s).Some? ==> WellFormedCaptures(s, re(s).value)
  }

  /** Every pattern the compiler accepts yields a well-formed matcher. */
  ghost predicate CompilerWellFormed(compile: Compiler) {
    forall rule :: compile(rule).Success? ==> MatcherWellFormed(compile(rule).value)
  }
}
