/** Optional values: a browser API that may return `null` (a storage key
    that is not set, an attribute that is absent). */
module Wrappers {

  datatype Option<+T> = None | Some(value: T)

  /** JavaScript truthiness of a string-or-null: `null` and `""` are false. */
  predicate Truthy(v: Option<string>) {
    v.Some? && v.value != ""
  }
}
