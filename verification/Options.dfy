/** An optional value, and counters kept in a map. */
module Options {

  datatype Option<T> = None | Some(value: T)

  /** A counter that was never raised is zero. */
  function Get<K>(m: map<K, nat>, k: K): nat {
    if k in m then m[k] else 0
  }
}
