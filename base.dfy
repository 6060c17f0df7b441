/** Failure-carrying wrappers shared by every module of the model. */
module Base {

  datatype Option<+T> = None | Some(value: T)

  /** The Java exceptions the modelled code can raise, as values. */
  datatype Error =
    | IllegalState          // java.lang.IllegalStateException
    | IndexOutOfBounds      // ArrayIndexOutOfBoundsException on a malformed event stream
    | Malformed             // an event stream no parser emits (see README, Left out)
    | NumberFormat          // java.lang.NumberFormatException
    | Arithmetic            // java.lang.ArithmeticException (xxxValueExact)
    | UnsupportedOperation  // java.lang.UnsupportedOperationException
    | NullPointer           // java.lang.NullPointerException
    | ClassCast             // java.lang.ClassCastException
    | NotModelled           // a toString() or conversion this model does not define

  datatype Result<+T> = Ok(value: T) | Err(error: Error)

  /**
   * Concatenation regrouped. Calling it spares the solver proving a
   * sequence equality element by element.
   */
  lemma AppendAssoc<T>(p: seq<T>, xs: seq<T>, ys: seq<T>)
    ensures (p + xs) + ys == p + (xs + ys)
  {
  }
}
