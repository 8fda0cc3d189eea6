/** Optional values and results.
    `Maybe<T>` stands for a JavaScript `T | undefined` and for the small
    `Maybe` wrapper the program uses to chain over such values; `Result`
    stands for a call that either returns or throws. */
module Maybes {

  /** `Nothing` is `undefined`. */
  datatype Maybe<+T> = Nothing | Just(value: T) {

    /** Applies `f` to a present value. As in the wrapper the program
        uses, a mapping function that yields `undefined` (here `Nothing`)
        turns the whole value into `Nothing`. */
    function Map<U>(f: T -> Maybe<U>): Maybe<U>
    {
      match this
      case Nothing => Nothing
      case Just(v) => f(v)
    }

    /** The present value, or `default` when there is none. */
    function GetValue(default: T): T
    {
      match this
      case Nothing => default
      case Just(v) => v
    }
  }

  /** The outcome of a call that may throw. */
  datatype Result<+T, +E> = Success(value: T) | Failure(error: E)
}
