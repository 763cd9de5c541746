/**
 * The repository of cache.store: save, find and delete of binary entries
 * under string keys through a shared engine handle, with the
 * `overwriteExisting` guard on save. Engine failures inside save and delete
 * are swallowed; a read failure inside find reads as absence.
 */
module CacheStore {
  import opened Wrappers
  import opened StoreSpec
  import opened Engine

  class RocksDBRepositoryImpl {
    const dbDir: string
    /** The handle for `dbDir`; repositories over one directory share it. */
    const rocksDB: RocksDB
    var overwriteExisting: bool

    /**
     * Records the directory and the policy; `rocksDB` is the handle the
     * per-directory registry hands out for `dbDir`.
     */
    constructor (dbDir: string, overwriteExisting: bool, rocksDB: RocksDB)
      ensures this.dbDir == dbDir
      ensures this.overwriteExisting == overwriteExisting
      ensures this.rocksDB == rocksDB
    {
      this.overwriteExisting := overwriteExisting;
      this.dbDir := dbDir;
      this.rocksDB := rocksDB;
    }

    /**
     * `save(key, value)`. `falsePositive` says whether the hint, when it is
     * consulted, answers "maybe" for an absent key; `fails` says whether
     * reading the value or the put throws.
     */
    method Save(key: Key, value: Bytes, falsePositive: bool, fails: bool)
      modifies rocksDB
      ensures rocksDB.store ==
        StoreSpec.Save(old(rocksDB.store), overwriteExisting, key in old(rocksDB.store) || falsePositive, fails, key, value)
      // overwriting on: a save that does not fail stores the value
      ensures overwriteExisting && !fails ==> rocksDB.store == old(rocksDB.store)[key := value]
      // overwriting off: a present entry is never replaced
      ensures !overwriteExisting && key in old(rocksDB.store) ==> rocksDB.store == old(rocksDB.store)
      // overwriting off, key absent: stored unless the hint gives a false positive or the save fails
      ensures !overwriteExisting && key !in old(rocksDB.store) ==>
        rocksDB.store == if falsePositive || fails then old(rocksDB.store) else old(rocksDB.store)[key := value]
      // a failing save changes nothing
      ensures fails ==> rocksDB.store == old(rocksDB.store)
      // in every case: either the single update or no change at all
      ensures rocksDB.store == old(rocksDB.store)[key := value] || rocksDB.store == old(rocksDB.store)
    {
      if !overwriteExisting {
        var maybe := rocksDB.KeyMayExist(key, falsePositive);
        if maybe {
          return;
        }
      }
      var _ := rocksDB.Put(key, value, fails);
    }

    /**
     * `find(key)`: the stored bytes, or `None` (null) when the key is absent
     * or the read throws (`fails`). It changes nothing.
     */
    method Find(key: Key, fails: bool) returns (result: Option<Bytes>)
      ensures result == StoreSpec.Find(rocksDB.store, key, fails)
      ensures !fails && key in rocksDB.store ==> result == Some(rocksDB.store[key])
      ensures key !in rocksDB.store ==> result == None
      ensures fails ==> result == None
    {
      result := None;
      var bytes := rocksDB.Get(key, fails);
      if bytes.Success? && bytes.value.Some? {
        result := Some(bytes.value.value);
      }
    }

    /** `delete(key)`. `fails` says whether the engine's delete throws. */
    method Delete(key: Key, fails: bool)
      modifies rocksDB
      ensures rocksDB.store == StoreSpec.Delete(old(rocksDB.store), key, fails)
      // a delete that does not fail leaves the key absent
      ensures !fails ==> key !in rocksDB.store
      // every other key keeps its entry
      ensures forall k | k != key :: (k in rocksDB.store <==> k in old(rocksDB.store))
      ensures forall k | k != key && k in rocksDB.store :: rocksDB.store[k] == old(rocksDB.store)[k]
      // deleting an absent key is a no-op, so a second delete changes nothing
      ensures key !in old(rocksDB.store) ==> rocksDB.store == old(rocksDB.store)
    {
      var _ := rocksDB.Delete(key, fails);
    }

    /** `getDbDir()`: the directory given to the constructor. */
    method GetDbDir() returns (r: string)
      ensures r == dbDir
    {
      r := dbDir;
    }
  }
}
