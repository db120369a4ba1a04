/** The memtable of `crates/lib/stones/src/memtable.rs`: the store's
    in-memory write buffer, a sorted byte-key to byte-value map. The
    read-write lock around the map is left out; each operation is one
    atomic step on an immutable value. */
module Memtable {
  import opened Wrappers
  import opened Lex
  import opened SortedMap

  datatype Memtable = Memtable(data: Table)

  /** The mapping the memtable holds. */
  function Contents(m: Memtable): map<Bytes, Bytes>
  {
    ToMap(m.data)
  }

  /** Number of entries, `data.len()`. */
  function Len(m: Memtable): nat
  {
    |m.data|
  }

  /** `Memtable::new`: a memtable holding nothing. */
  function New(): (m: Memtable)
    ensures Contents(m) == map[]
    ensures Len(m) == 0
  {
    Memtable([])
  }

  /** `Memtable::put`: the key now maps to the value; no other key changes. */
  function Put(m: Memtable, key: Bytes, value: Bytes): (r: Memtable)
    ensures Contents(r) == Contents(m)[key := value]
    ensures Len(r) == Len(m) + (if key in Contents(m) then 0 else 1)
  {
    var r := Memtable(Insert(m.data, key, value));
    TableSize(m.data);
    TableSize(r.data);
    r
  }

  /** `Memtable::get`: the value the key maps to, or nothing. */
  function Get(m: Memtable, key: Bytes): (r: Option<Bytes>)
    ensures r == (if key in Contents(m) then Some(Contents(m)[key]) else None)
  {
    Find(m.data, key)
  }

  /** `Memtable::delete`: the key maps to nothing afterwards; an absent key is
      no error and leaves the memtable as it was. */
  function Delete(m: Memtable, key: Bytes): (r: Memtable)
    ensures Contents(r) == Contents(m) - {key}
    ensures key !in Contents(m) ==> r == m
  {
    var r := Memtable(Remove(m.data, key));
    if key in Contents(m) then r
    else
      TableExtensional(r.data, m.data);
      r
  }

  /** `Memtable::is_full`: the number of distinct keys has reached `maxSize`. */
  function IsFull(m: Memtable, maxSize: nat): (r: bool)
    ensures r <==> |Contents(m)| >= maxSize
  {
    TableSize(m.data);
    Len(m) >= maxSize
  }

  /** Reading back what was just written gives the value; every other key
      reads as before. */
  lemma GetAfterPut(m: Memtable, key: Bytes, value: Bytes, other: Bytes)
    ensures Get(Put(m, key, value), key) == Some(value)
    ensures other != key ==> Get(Put(m, key, value), other) == Get(m, other)
  {
  }

  /** A second put of the same key overwrites the first. */
  lemma PutOverwrites(m: Memtable, key: Bytes, v1: Bytes, v2: Bytes)
    ensures Put(Put(m, key, v1), key, v2) == Put(m, key, v2)
  {
    TableExtensional(Put(Put(m, key, v1), key, v2).data, Put(m, key, v2).data);
  }

  /** After a delete the key reads as absent; every other key reads as before. */
  lemma GetAfterDelete(m: Memtable, key: Bytes, other: Bytes)
    ensures Get(Delete(m, key), key) == None
    ensures other != key ==> Get(Delete(m, key), other) == Get(m, other)
  {
  }
}
