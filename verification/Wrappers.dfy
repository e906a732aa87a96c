/** Shared by every module: an optional value, for the source's `undefined`/`null`, a result, for its
    thrown errors, and the entry of a map as an optional value. */
module Wrappers {
  datatype Option<+T> = None | Some(value: T)

  datatype Result<+T, +E> = Ok(value: T) | Err(error: E)

  /** The entry under the key, with None for undefined. */
  function Lookup<V>(m: map<string, V>, key: string): Option<V> {
    if key in m then Some(m[key]) else None
  }

  /** The entry set, or removed. */
  function Replace<V>(m: map<string, V>, key: string, v: Option<V>): map<string, V> {
    if v.Some? then m[key := v.value] else m - {key}
  }
}
