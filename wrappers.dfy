/** Option and Result, the shapes every raising operation of the library returns in this model. */
module Wrappers {

  /** A value that may be absent: Ruby's `nil` where the library treats nil as "not given". */
  datatype Option<+T> = None | Some(value: T)

  /** What a raising operation raises. */
  datatype Error =
    /** `GraphQL::DSL::Error` carrying the library's own message. */
    | DslError(message: string)
    /** An exception raised by Ruby itself (NoMethodError, ArgumentError, NotImplementedError). */
    | RubyError(message: string)

  /** The outcome of an operation that may raise; usable with `:-`. */
  datatype Result<+T> = Ok(value: T) | Err(error: Error) {

    predicate IsFailure() {
      Err?
    }

    function PropagateFailure<U>(): Result<U>
      requires Err?
    {
      Err(error)
    }

    function Extract(): T
      requires Ok?
    {
      value
    }
  }
}
