/**
 * Values exchanged with the highlight store of a `text-doc` element:
 * the stored range records, the numbers callers pass in (which may be
 * "not a number"), the annotated copy a lookup returns, the reference a
 * removal takes, and the two ways an operation can fail.
 */
module Values {

  /**
   * The conventional optional value. `None` is an absent value: an omitted
   * (`undefined`) colour, a missing own property, or the `null` a failed
   * lookup returns.
   */
  datatype Option<+T> = None | Some(value: T) {
    function GetOr(default: T): T {
      match this
      case Some(v) => v
      case None => default
    }
  }

  /**
   * A caller-supplied JavaScript value as `isNaN` sees it: either a number
   * (positions are integers here) or something that is not a number
   * (`NaN`, `undefined`, an object, ...).
   */
  datatype Number = Num(value: int) | NotANumber

  /** The two failures the store can report. */
  datatype Error =
    | InvalidArgument   // addHighlight: a bound is not a number
    | NotFound          // removeHighlight by bounds: no record matches

  /** Completion of an operation that returns nothing: normal, or thrown. */
  datatype Outcome = Pass | Fail(error: Error)

  /** The colour a highlight gets when the caller gives none. */
  const DefaultColor: string := "#FFFF00"

  /** One stored highlight range `{start, end, color}`. The colour is opaque. */
  datatype Highlight = Highlight(start: int, end: int, color: string)

  /** The copy of a stored record that a lookup returns, annotated with its position. */
  datatype FoundHighlight = FoundHighlight(start: int, end: int, color: string, index: nat)

  /**
   * The object given to `removeHighlight`. Each field is `None` when the
   * object has no own property of that name.
   */
  datatype HighlightRef = HighlightRef(start: Option<Number>, end: Option<Number>, index: Option<Number>) {
    /** Both `start` and `end` are own properties: the removal goes by value. */
    predicate ByBounds() {
      start.Some? && end.Some?
    }
  }
}
