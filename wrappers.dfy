/** Shared value types: JavaScript's absent values and the iterator record. */
module Wrappers {

  /** A result that may be missing; stands for the `null`/`undefined` returns of the collections. */
  datatype Option<T> = None | Some(value: T)

  /**
   * A JavaScript value of type T that may also be one of the two absent values.
   * `undefined` (not yet assigned) and `null` (explicitly empty) are distinct.
   */
  datatype JsValue<T> = Undefined | Null | Present(value: T)

  /** The `{done, value}` record produced by the TypeScript-protocol iterators. */
  datatype IteratorResult<T> = IteratorResult(done: bool, value: Option<T>)
}
