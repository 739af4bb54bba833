/** Optional values and results shared by every module of the model. */
module Prelude {
  datatype Option<+T> = None | Some(value: T)

  datatype Result<+T, +E> = Success(value: T) | Failure(error: E)
  {
    predicate IsFailure() { Failure? }
    function PropagateFailure<U>(): Result<U, E> requires Failure? { Failure(error) }
    function Extract(): T requires Success? { value }
  }

  /** One page of a listing and the token of the page after it; an empty token means the last page. */
  datatype Page<R> = Page(rows: seq<R>, next: string)

  function Min(a: int, b: int): int { if a < b then a else b }
}
