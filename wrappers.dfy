/** The optional value used wherever the source has "a value or nothing". */
module Wrappers {

  datatype Option<+T> = None | Some(value: T)

  /** `d.get(k, default)` on a Python dictionary. */
  function Get<K, V>(m: map<K, V>, k: K, default: V): V
  {
    if k in m then m[k] else default
  }
}
