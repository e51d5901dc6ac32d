/** The optional value used wherever the Java code may hold or return `null`. */
module Options {

  /** `None` stands for a Java `null` (and, as the argument of an `equals`,
      for any object that is not of the compared class). */
  datatype Option<+T> = None | Some(value: T)

  /** Looks a key up the way `HashMap.get` does: absent keys give `None`. */
  function Lookup<K, V>(m: map<K, V>, k: K): (r: Option<V>)
    ensures r.Some? <==> k in m
    ensures r.Some? ==> r.value == m[k]
  {
    if k in m then Some(m[k]) else None
  }
}
