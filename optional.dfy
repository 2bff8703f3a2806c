/** Optional values: TypeScript's `T | undefined`. */
module Optional {

  datatype Option<+T> = None | Some(value: T)

  /** JavaScript truthiness of an optional string: `undefined` and `""` are falsy. */
  predicate Truthy(c: Option<string>)
  {
    c.Some? && c.value != ""
  }
}
