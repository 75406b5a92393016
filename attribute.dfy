/** The directives a channel may carry, and the parser for their tokens. */
module Attributes {
  import opened Outcome

  /** The closed set of directives the program understands. */
  datatype Attribute = Hide | Area | Xaxis | Differentiate

  /** The one token that spells each directive. */
  function Token(a: Attribute): string {
    match a
    case Hide => "hide"
    case Area => "area"
    case Xaxis => "xaxis"
    case Differentiate => "differentiate"
  }

  /**
   * Parses a directive token by exact comparison with each known spelling,
   * in turn; anything else is rejected.  On success the token is exactly the
   * spelling of the directive returned, so no two tokens parse to the same
   * directive; on failure the token spells no directive at all.
   */
  function Parse(text: string): (r: Result<Attribute, ()>)
    ensures r.Ok? ==> Token(r.value) == text
    ensures r.Err? ==> forall a: Attribute :: Token(a) != text
  {
    if text == "hide" then Ok(Hide)
    else if text == "area" then Ok(Area)
    else if text == "xaxis" then Ok(Xaxis)
    else if text == "differentiate" then Ok(Differentiate)
    else Err(())
  }

  /** Every directive's own spelling parses back to it. */
  lemma ParseToken(a: Attribute)
    ensures Parse(Token(a)) == Ok(a)
  {
  }

  /** Distinct accepted tokens give distinct directives. */
  lemma ParseInjective(s: string, t: string)
    requires Parse(s).Ok? && Parse(s) == Parse(t)
    ensures s == t
  {
  }

  /** Matching is exact: no case folding, no trimming of padding. */
  lemma ParseIsExact()
    ensures Parse("Hide").Err? && Parse("HIDE").Err? && Parse(" hide").Err?
    ensures Parse("hide ").Err? && Parse("XAxis").Err? && Parse("").Err?
  {
  }
}
