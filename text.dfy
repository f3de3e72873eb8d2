/** A test sample of the playground: a single word or a whole line of text (src/text.rs). */
module TextSample {

  datatype Text = Word(word: string) | Line(line: string) {

    /** The string the sample holds, whichever variant it is. */
    function AsRef(): (s: string)
      ensures Word? ==> s == word
      ensures Line? ==> s == line
    {
      match this
      case Word(w) => w
      case Line(l) => l
    }

    /**
     * The program's tag test. As written it answers true for a Word and
     * false for a Line, the opposite of what its name says.
     */
    predicate IsLine(): (r: bool)
      ensures r <==> Word?
      ensures Line? ==> !r
    {
      Word?
    }

    /** Same as AsRef: the uniform string view used by the evaluator. */
    function AsStr(): (s: string)
      ensures s == AsRef()
      ensures Word? ==> s == word
      ensures Line? ==> s == line
    {
      AsRef()
    }
  }

  /** The string view forgets the variant: a Word and a Line over the same string read alike. */
  lemma SameStringSameView(s: string)
    ensures Word(s).AsStr() == Line(s).AsStr() == s
    ensures Word(s).IsLine() != Line(s).IsLine()
  {
  }
}
