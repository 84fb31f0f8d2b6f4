/** What every component shares. */
module Primitives {

  datatype Option<T> = None | Some(value: T)

  /** `Number.MAX_SAFE_INTEGER` */
  const MAX_SAFE_INTEGER: int := 9007199254740991
}
