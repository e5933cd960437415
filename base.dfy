/** Optional values: `null`/`undefined` on the JavaScript side, a missing row on the SQL side. */
module Base {
  datatype Option<T> = None | Some(value: T)
}
