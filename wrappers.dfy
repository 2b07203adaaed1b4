/** Optional values: the result of a dialog that may be cancelled, a name that may be unset. */
module Wrappers {

  datatype Option<+T> = None | Some(value: T)

  /** Python truthiness of an optional string: present and not empty. */
  predicate Given(x: Option<string>) {
    x.Some? && x.value != ""
  }
}
