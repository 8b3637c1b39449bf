/** Optional values, and reading a JavaScript object modelled as a map: an absent key reads as `undefined`. */
module Optional {

  datatype Option<+T> = None | Some(value: T)

  /** `obj[key]`: the value stored under `key`, or None (`undefined`) when the key is absent. */
  function Lookup<T>(m: map<string, T>, key: string): (r: Option<T>)
    ensures r.Some? <==> key in m
    ensures r.Some? ==> m[key] == r.value
  {
    if key in m then Some(m[key]) else None
  }
}
