/** The result of a selector's `.get()`: the first match, or nothing. */
module Wrappers {

  datatype Option<+T> = None | Some(value: T)

  /** Python truthiness of an optional string: `None` and `""` are falsy. */
  predicate Truthy(o: Option<string>) {
    o.Some? && o.value != ""
  }
}
