/** Optional values and results, standing for JavaScript's null/undefined and thrown errors. */
module Wrappers {

  /** `None` stands for a property that is `null` or `undefined`. */
  datatype Option<+T> = None | Some(value: T)

  /** `Failure` stands for an exception thrown out of the call. */
  datatype Result<+T, +E> = Success(value: T) | Failure(error: E)

  /** JavaScript's `a ?? b`: falls back on `b` only when `a` is null or undefined. */
  function Coalesce<T>(a: Option<T>, b: Option<T>): Option<T>
  {
    if a.Some? then a else b
  }

  /** JavaScript truthiness of a value that is a string, null or undefined. */
  predicate Truthy(s: Option<string>)
  {
    s.Some? && s.value != ""
  }
}
