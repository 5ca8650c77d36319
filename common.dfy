/** Small helpers shared by the backup staging modules. */
module Common {

  datatype Option<+T> = None | Some(value: T)

  /** The value stored at `k` in `m`, or None: what a cache `get` or a DB `get_record` answers. */
  function Lookup<K, V>(m: map<K, V>, k: K): (r: Option<V>)
    ensures r.Some? <==> k in m
    ensures r.Some? ==> r.value == m[k]
  {
    if k in m then Some(m[k]) else None
  }

  /**
   * PHP truthiness of a string: "" and "0" are false, every other string is
   * true. Used by `get_stores`, whose `if ($backupid)` treats both as "no id".
   */
  predicate Truthy(s: string) {
    s != "" && s != "0"
  }
}
