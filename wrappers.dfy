/** Optional values, and the truthiness test the web front end applies to them. */
module Wrappers {

  /** A value that may be absent (`undefined` or `null` in the front end). */
  datatype Option<+T> = None | Some(value: T)

  /** JavaScript truthiness of an optional number: `undefined` and `0` are both falsy. */
  predicate Truthy(t: Option<int>)
  {
    t.Some? && t.value != 0
  }

  function Max(a: int, b: int): (m: int)
    ensures m >= a && m >= b
    ensures m == a || m == b
  {
    if a < b then b else a
  }
}
