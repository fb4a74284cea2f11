/** The result shapes shared by the modules of this project. */
module Wrappers {

  /** A value that may be missing: a null reference, an undefined entry, an absent row. */
  datatype Option<+T> = None | Some(value: T)

  /** What a map holds under a key, as an Option. */
  function Find<K, V>(m: map<K, V>, k: K): Option<V> {
    if k in m then Some(m[k]) else None
  }

  lemma Assoc<T>(a: seq<T>, b: seq<T>, c: seq<T>)
    ensures a + b + c == a + (b + c)
  {
  }
}
