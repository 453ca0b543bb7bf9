/** Small value wrappers shared by the rest of the model. */
module Wrappers {

  /** An optional value: the model's stand-in for Swift's `T?` and Kotlin's `T?`. */
  datatype Option<T> = None | Some(value: T)

  /** Keyed lookup in a dictionary that answers `None` for a missing key. */
  function Get<K, V>(m: map<K, V>, k: K): (r: Option<V>)
    ensures r.Some? <==> k in m
    ensures r.Some? ==> r.value == m[k]
  {
    if k in m then Some(m[k]) else None
  }
}
