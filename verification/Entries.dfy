/** Keyspace entries: a typed value and an optional deadline. */
module Entries {
  import opened ByteStrings

  datatype Entry = Entry(value: Bytes, typeName: Bytes, expireAt: Option<nat>)

  type Dict = map<Bytes, Entry>

  predicate IsExpired(e: Entry, now: nat) {
    e.expireAt.Some? && e.expireAt.value <= now
  }
}
