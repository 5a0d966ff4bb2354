/** Values that may be absent. */
module Options {

  datatype Option<+T> = None | Some(value: T)

  function Lookup<V>(m: map<string, V>, k: string): Option<V>
  {
    if k in m then Some(m[k]) else None
  }
}
