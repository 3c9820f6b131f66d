/** Optional values: a JSON field that may be missing, a JavaScript number that may be NaN. */
module Wrappers {

  datatype Option<+T> = None | Some(value: T)

  /** `m[k]` on a JavaScript object: the value when the property exists, otherwise undefined. */
  function Get<K, V>(m: map<K, V>, k: K): Option<V> {
    if k in m then Some(m[k]) else None
  }
}
