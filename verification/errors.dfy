/** Failure values shared by every module of the delineation model.

    The Python code signals failure by raising exceptions; the model returns
    a `Result` whose failure side names the exception class that would have
    been raised. */
module Errors {

  /** The exceptions the modelled code can raise. */
  datatype Exc =
    | KeyError              // dict lookup of an elevation that was never added
    | ShapefileError        // raw contour geometry that is not line geometry
    | ContourNotFound       // linear contour lookup found nothing
    | ComplexContourError   // clip points nearest to different parts of a contour
    | UnknownIntersection   // a BFE does not meet the low contour in a point
    | NoIntersection        // crossing filter removed a line without crossings
    | ShouldNeverGetHere    // crossing filter lost track of a neighbour
    | AssertionFailed       // a Python `assert` that does not hold
    | IndexError            // `xs[0]` or `xs[-1]` on an empty list
    | TypeError             // subscripting an object that has no item access
    | AttributeError        // geometry operation on a point that is `None`
    | ValueError            // BFE handed to the extent resolver; too few vertices for a line
    | ZeroDivisionError     // normalisation by a zero total distance
    | BareRaise             // a bare `raise`; see below
    | UnboundLocal          // reading a local variable that was never assigned

  // `BareRaise` stands for whatever a bare `raise` statement raises.  In
  // Python 2 that re-raises the last exception handled in the frame: on
  // the right side of `delineate` usually one the left side's pair loop
  // caught (a KeyError, or the TypeError of a single-part clip), and a
  // TypeError when nothing has been handled yet.  The model does not
  // track which, and names all of these one value.

  datatype Option<+T> = None | Some(value: T)

  datatype Result<+T> = Ok(value: T) | Err(exc: Exc) {

    predicate IsFailure() {
      Err?
    }

    function PropagateFailure<U>(): Result<U>
      requires Err?
    {
      Err(exc)
    }

    function Extract(): T
      requires Ok?
    {
      value
    }
  }
}
