/** Optional values and query results over keyed tables, shared by the models. */
module Tables {

  datatype Option<T> = None | Some(value: T)

  /** Each key is listed once. */
  ghost predicate Distinct<K>(ids: seq<K>) {
    forall i, j | 0 <= i < j < |ids| :: ids[i] != ids[j]
  }

  /** Every listed key has a row. */
  predicate Stored<K(==), R>(tbl: map<K, R>, ids: seq<K>) {
    forall i | 0 <= i < |ids| :: ids[i] in tbl
  }

  /** A query over the whole table returns each row once, in some order. */
  ghost predicate Enumerates<K(!new), R>(tbl: map<K, R>, ids: seq<K>) {
    && Distinct(ids)
    && Stored(tbl, ids)
    && forall id | id in tbl :: id in ids
  }
}
