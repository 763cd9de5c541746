/**
 * The storage engine handle the repository writes through (org.rocksdb.RocksDB),
 * reduced to what the repository uses: a mutable map from key to bytes, point
 * get/put/delete, and `keyMayExist`, a cheap existence hint with one-sided
 * error. The hint never answers "no" for a present key; for an absent key each
 * call may answer "maybe" or "no", and which it does is the parameter
 * `falsePositive` of that call. Whether a call throws `RocksDBException` is
 * the parameter `fails`.
 */
module Engine {
  import opened Wrappers
  import opened StoreSpec

  /** The exception the engine raises. */
  datatype EngineError = RocksDBException

  class RocksDB {
    /** The keyspace of the database directory. */
    var store: map<Key, Bytes>

    /** An engine opened on a directory that already holds `contents`. */
    constructor Open(contents: map<Key, Bytes>)
      ensures store == contents
    {
      store := contents;
    }

    /**
     * `keyMayExist`: "maybe" for every present key; for an absent key,
     * "maybe" exactly when this call gives a false positive.
     */
    method KeyMayExist(key: Key, falsePositive: bool) returns (maybe: bool)
      ensures key in store ==> maybe
      ensures key !in store ==> maybe == falsePositive
    {
      maybe := key in store || falsePositive;
    }

    /** `get`: the stored bytes, null (`None`) when absent, or an exception. */
    method Get(key: Key, fails: bool) returns (r: Result<Option<Bytes>, EngineError>)
      ensures fails <==> r.Failure?
      ensures r.Success? ==> r.value == Lookup(store, key)
    {
      if fails {
        r := Failure(RocksDBException);
      } else if key in store {
        r := Success(Some(store[key]));
      } else {
        r := Success(None);
      }
    }

    /** `put`: replaces any value under `key`; a failed put changes nothing. */
    method Put(key: Key, value: Bytes, fails: bool) returns (ok: bool)
      modifies this
      ensures ok == !fails
      ensures store == if ok then old(store)[key := value] else old(store)
    {
      ok := !fails;
      if ok {
        store := store[key := value];
      }
    }

    /** `delete`: removes `key` if present, a no-op otherwise; a failed delete changes nothing. */
    method Delete(key: Key, fails: bool) returns (ok: bool)
      modifies this
      ensures ok == !fails
      ensures store == if ok then old(store) - {key} else old(store)
    {
      ok := !fails;
      if ok {
        store := store - {key};
      }
    }
  }
}
