/** Optional values: `None` stands for JavaScript's `null` (a missing attribute)
    or `NaN` (a failed parse), `Some` for a present value. */
module Wrappers {

  datatype Option<+T> = None | Some(value: T)
}
