/** Optional values: `None` stands for JavaScript's `undefined` (a missing storage key,
    a failed `find`, a message without a `note` field). */
module Wrappers {

  datatype Option<+T> = None | Some(value: T)

}
