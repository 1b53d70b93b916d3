/** A Redis keyspace seen through its clock: every key may carry an expiry time,
    and a key whose expiry has come is absent. Times are milliseconds. */
module Redis {
  import opened Wrappers

  const SECOND: int := 1000
  const MINUTE: int := 60 * SECOND
  const HOUR: int := 60 * MINUTE

  datatype Entry<+V> = Entry(value: V, expiry: Option<int>)

  predicate Alive<V>(e: Entry<V>, now: int) {
    e.expiry.None? || now < e.expiry.value
  }

  function Get<K, V>(db: map<K, Entry<V>>, key: K, now: int): Option<V> {
    if key in db && Alive(db[key], now) then Some(db[key].value) else None
  }
}
