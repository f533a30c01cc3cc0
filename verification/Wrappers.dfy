/** Notions that several components share. */
module Wrappers {

  datatype Option<T> = None | Some(value: T)

  /** Does each element occur once? */
  ghost predicate Once<T(!new)>(s: seq<T>) {
    forall i, j :: 0 <= i < j < |s| ==> s[i] != s[j]
  }

  /** Does `order` list each key of `data` once? */
  ghost predicate Lists<K(!new), V>(order: seq<K>, data: map<K, V>) {
    && (forall k :: k in order <==> k in data)
    && Once(order)
  }
}
