/** The one failure the decoders can meet: a read past the buffer's limit. */
module Outcomes {

  /** Either a decoded value or `BufferUnderflow`, the stand-in for Java's
      `java.nio.BufferUnderflowException`. Usable with `:-`. */
  datatype Result<+T> = Ok(value: T) | BufferUnderflow {

    predicate IsFailure() {
      BufferUnderflow?
    }

    function PropagateFailure<U>(): Result<U>
      requires BufferUnderflow?
    {
      BufferUnderflow
    }

    function Extract(): T
      requires Ok?
    {
      value
    }
  }
}
