/** Optional values and fallible results, the two shapes the uploader's
    Rust code gets from `Option` and `anyhow::Result`. */
module Results {

  datatype Option<+T> = None | Some(value: T) {

    /** The wrapped value, or `fallback` when there is none (Rust's `unwrap_or`). */
    function UnwrapOr(fallback: T): T {
      match this
      case Some(v) => v
      case None => fallback
    }
  }

  datatype Result<+T, +E> = Ok(value: T) | Err(error: E)

  /** Looks `k` up in `m`, as Rust's `HashMap::get` does. */
  function Get<K, V>(m: map<K, V>, k: K): (r: Option<V>)
    ensures r.Some? <==> k in m
    ensures r.Some? ==> r.value == m[k]
  {
    if k in m then Some(m[k]) else None
  }
}
