/** Option and Result values standing for Java's null and for thrown exceptions. */
module Common {

  /** `None` is Java's `null`. */
  datatype Option<+T> = None | Some(value: T)

  /** `Failure` is an exception thrown by the modelled code. */
  datatype Result<+T, +E> = Success(value: T) | Failure(error: E)

  /** A second update of the same key overrides the first. */
  lemma UpdateTwice<K, V>(m: map<K, V>, k: K, a: V, b: V)
    ensures m[k := a][k := b] == m[k := b]
  {
  }

  /** Updating a key with the value it already has changes nothing. */
  lemma UpdateSame<K, V>(m: map<K, V>, k: K)
    requires k in m
    ensures m[k := m[k]] == m
  {
  }
}
