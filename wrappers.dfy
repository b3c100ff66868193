/** Optional values and the outcome of a call that may raise. */
module Wrappers {

  /** Python's `None` or a present value. */
  datatype Option<T> = None | Some(value: T) {

    /** The value, or `default` when absent. */
    function GetOr(default: T): T {
      if Some? then value else default
    }
  }

  /** The outcome of a call that either raises an exception or returns a value. */
  datatype Try<T> = Raised | Returned(value: T)

  /** Dictionary lookup that yields `None` for a missing key (Python's `dict.get`). */
  function Lookup<K, V>(m: map<K, V>, k: K): (r: Option<V>)
    ensures r.Some? <==> k in m
    ensures r.Some? ==> r.value == m[k]
  {
    if k in m then Some(m[k]) else None
  }
}
