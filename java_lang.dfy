/** The parts of Java's runtime that the paging and record layer leans on:
    `null`, the exceptions it can raise, 32-bit `int`, and a string reference
    that may be `null`. */
module JavaLang {

  /** A Java reference that may be `null`: `None` is `null`. */
  datatype Option<+T> = None | Some(value: T)

  /** A value, or the exception that a Java expression throws instead. */
  datatype Result<+R, +E> = Success(value: R) | Failure(error: E) {
    predicate IsFailure() {
      Failure?
    }

    function PropagateFailure<U>(): Result<U, E>
      requires Failure?
    {
      Failure(error)
    }

    function Extract(): R
      requires Success?
    {
      value
    }
  }

  /** The unchecked exceptions this layer throws. */
  datatype Exception =
    | IllegalArgument   // IllegalArgumentException("Item is null or empty")
    | NullPointer       // a method called on a `null` reference
    | IndexOutOfBounds  // ArrayIndexOutOfBoundsException on a `String[]`
    | NoSuchElement     // Iterator.next() on an exhausted iterator

  /** Java's `int`. */
  newtype int32 = x: int | -0x8000_0000 <= x < 0x8000_0000

  /** A `java.lang.String` reference; `None` is `null`. */
  type JString = Option<string>
}
