/** The shaping adapter of arabic_patch.py (`shape_arabic`).

    The contextual-joining library (`arabic_reshaper.reshape`) and the
    bidirectional reordering of Unicode Standard Annex #9 (`get_display`) are
    foreign code. They are an oracle here: two total functions that either
    return a text or fail, a failure standing for any exception they raise.
    Nothing is assumed about them: not that they keep the length, not that
    they are idempotent. */
module Shaping {
  import opened Script

  datatype Outcome = Ok(value: Text) | Fail

  datatype Oracle = Oracle(reshape: Text -> Outcome, reorder: Text -> Outcome)

  /** The body of the `try` block: reshape, then reorder the reshaped text. */
  function Pipeline(o: Oracle, t: Text): Outcome {
    match o.reshape(t)
    case Fail => Fail
    case Ok(reshaped) => o.reorder(reshaped)
  }

  /** `shape_arabic`: empty or non-Arabic text is returned as it is; otherwise
      the pipeline's result, or the input again when either stage fails. */
  function Shape(o: Oracle, t: Text): (r: Text)
    ensures !ContainsArabic(t) ==> r == t
    ensures Pipeline(o, t).Fail? ==> r == t
    ensures ContainsArabic(t) && Pipeline(o, t).Ok? ==> r == Pipeline(o, t).value
    ensures r == t || (ContainsArabic(t) && Pipeline(o, t) == Ok(r))
  {
    if t == [] || !ContainsArabic(t) then t
    else
      match Pipeline(o, t)
      case Ok(display) => display
      case Fail => t
  }

  /** Fail-open: an oracle whose reshaping stage always raises leaves every
      text as it is. */
  lemma ShapeFailOpenReshape(o: Oracle)
    requires forall t :: o.reshape(t) == Fail
    ensures forall t :: Shape(o, t) == t
  {
  }

  /** Fail-open: an oracle whose reordering stage always raises leaves every
      text as it is, whatever the reshaping stage returned. */
  lemma ShapeFailOpenReorder(o: Oracle)
    requires forall t :: o.reorder(t) == Fail
    ensures forall t :: Shape(o, t) == t
  {
  }
}
