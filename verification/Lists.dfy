/** Lists as sets. */
module Lists {
  ghost function Elements<T>(s: seq<T>): set<T> { set x | x in s }

  ghost predicate Distinct<T>(s: seq<T>) { forall i, j | 0 <= i < j < |s| :: s[i] != s[j] }

  /** `order` lists the keys of a table, each once. */
  ghost predicate Listed<K(!new), V>(order: seq<K>, table: map<K, V>) {
    Distinct(order) && forall k :: k in order <==> k in table
  }
}
