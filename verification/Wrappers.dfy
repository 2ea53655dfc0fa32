/** Bytes, and outcomes of operations that the source ends with a value or an exception. */
module Wrappers {

  type Byte = b: int | 0 <= b < 256 witness 0

  datatype Option<+T> = None | Some(value: T) {
    predicate IsFailure() {
      None?
    }

    function PropagateFailure<U>(): Option<U>
      requires None?
    {
      None
    }

    function Extract(): T
      requires Some?
    {
      value
    }
  }
}
