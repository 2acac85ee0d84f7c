/** The sparse two-key lookup table of the search: a map of maps with a
    configurable default (the `Table` class of BMAppx.java). */
module Tables {
  import opened Wrappers

  /** `rows` maps a first key to its row; a row maps a second key to a value.
      `default` is what `Get` answers for a missing row; it is `None` for a
      table built without a default (the Java `null`). */
  datatype Table<K1(==,!new), K2(==,!new), V> = Table(rows: map<K1, map<K2, V>>, default: Option<V>)
  {
    /** The value stored for `(t1, t2)`. A missing row yields the default,
        but a present row without a `t2` column yields `None`: the two
        "absent" cases are different. */
    function Get(t1: K1, t2: K2): (r: Option<V>)
      ensures t1 !in rows ==> r == default
      ensures t1 in rows ==> (r.Some? <==> t2 in rows[t1])
      ensures r.Some? && t1 in rows ==> r.value == rows[t1][t2]
    {
      if t1 !in rows then default
      else if t2 in rows[t1] then Some(rows[t1][t2])
      else None
    }

    /** Stores `v` under `(t1, t2)`, creating the row `t1` when it is missing. */
    function Put(t1: K1, t2: K2, v: V): (r: Table<K1, K2, V>)
      ensures r.default == default
      ensures r.rows.Keys == rows.Keys + {t1}
      ensures r.Get(t1, t2) == Some(v)
      ensures forall a, b :: a != t1 ==> r.Get(a, b) == Get(a, b)
      ensures t1 in rows ==> forall b :: b != t2 ==> r.Get(t1, b) == Get(t1, b)
      ensures t1 !in rows ==> forall b :: b != t2 ==> r.Get(t1, b) == None
    {
      var inner := if t1 in rows then rows[t1] else map[];
      Table(rows[t1 := inner[t2 := v]], default)
    }

    /** A table with no rows yet, answering `def` for every pair. */
    static function Empty(def: Option<V>): (t: Table<K1, K2, V>)
      ensures forall a, b :: t.Get(a, b) == def
      ensures t.rows.Keys == {}
    {
      Table(map[], def)
    }
  }
}
