/** Maps that are changed at some keys. */
module Maps {

  /** The key holds in m' what it holds in m. */
  ghost predicate IsKept<K, V>(m: map<K, V>, m': map<K, V>, k: K) {
    (k in m' <==> k in m) && (k in m ==> m'[k] == m[k])
  }
}
