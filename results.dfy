/** Failure kinds of the BibTeX reader and the small wrappers that carry them. */
module Results {

  /** One variant per `throw` of the reader; the message text is not modelled. */
  datatype ParseError =
    | TokenMismatch    // `match` did not find the expected token
    | Unterminated     // a braced or quoted value has no closing delimiter
    | RunawayKey       // a key runs to the end of the input
    | RunawayComment   // an `@comment` body has no closing brace
    | ValueExpected    // a bare value is neither a macro nor a digit string
    | EqualsMissing    // a field name is not followed by `=`

  datatype Option<+T> = None | Some(value: T)

  /** The outcome of a reader operation; usable with `:-`. */
  datatype Result<+T> = Ok(value: T) | Err(error: ParseError) {
    predicate IsFailure() { Err? }

    function PropagateFailure<U>(): Result<U>
      requires Err?
    {
      Err(error)
    }

    function Extract(): T
      requires Ok?
    {
      value
    }
  }

  /** A parsed value together with the cursor position the reader is left at. */
  datatype Step<+T> = Step(val: T, next: nat)

  /** Two equal steps of a reading, joined; stating the join through this
      lemma spares the solver from unfolding the readings on both sides. */
  lemma Chain<T>(a: T, b: T, c: T)
    requires a == b && b == c
    ensures a == c
  {
  }
}
