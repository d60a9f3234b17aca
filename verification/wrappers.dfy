/** The optional value the converter uses wherever Python returns `None`. */
module Wrappers {

  datatype Option<+T> = None | Some(value: T) {

    /** The wrapped value, or `default` for `None`. */
    function GetOr(default: T): T {
      match this
      case Some(v) => v
      case None => default
    }
  }

  /** Python's `x or ""` on an optional string: an absent value and an empty one coincide. */
  function OrEmpty(o: Option<string>): string
  {
    o.GetOr("")
  }

  /** A map lookup that yields nothing for a missing key. */
  function Get<K, V>(m: map<K, V>, k: K): Option<V>
  {
    if k in m then Some(m[k]) else None
  }
}
