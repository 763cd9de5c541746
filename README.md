# RocksDB-backed key-value repository, modelled in Dafny

This project models `RocksDBRepositoryImpl`. It is the access layer of a small persistent
cache. Entries are kept under string keys as binary payloads, in an embedded RocksDB
database rooted at a directory. The repository offers `save`, `find`, `delete` and
`getDbDir`. Its one policy is `overwriteExisting`. When that flag is off, `save` first asks
the engine's existence hint (`keyMayExist`) and skips the write when the hint answers
"maybe". The hint has one-sided error: it answers "maybe" for every present key, and
sometimes for absent keys too. Engine failures inside `save` and `delete` are caught and
logged. A read failure inside `find` gives the same null result as absence.

The files:

- `wrappers.dfy`: `Option` (a Java reference that may be null) and `Result` (a call that may throw).
- `store_spec.dfy` (module `StoreSpec`): the semantics on values. The store is a
  `map<Key, Bytes>`. `Save`, `Delete` and `Find` are functions of the store, of the hint's
  answer and of whether the engine call fails. A run of several calls is a sequence of `Op`s.
  Each call carries its own `overwriteExisting`, so a run can mix repositories with
  different policies over one shared handle. The lemmas about runs are proved by induction.
  - `LastWriterWins`: any run agrees with `LastWrite`, an independent backward definition.
  - `GuardedSavesNeverOverwrite`: with a sound hint, guarded saves never replace a present entry.
  - `UnrelatedKeysUntouched`: operations on other keys leave a key alone.
- `engine.dfy` (module `Engine`): class `RocksDB`, the engine handle, with a mutable
  `store`. `KeyMayExist` never answers "no" for a present key. For an absent key, each call
  answers "maybe" exactly when its `falsePositive` parameter is set, so nothing ties one
  answer to the next; RocksDB's `keyMayExist` allows false positives and promises no more.
  Whether a call throws is its `fails` parameter.
- `cache_store.dfy` (module `CacheStore`): class `RocksDBRepositoryImpl`. It has the
  source's fields `dbDir`, `rocksDB` and `overwriteExisting`. Its methods change only the
  engine handle's `store`. `Save` takes the hint's `falsePositive` for its one call of
  `keyMayExist`. Each method's postcondition ties the new store to the matching `StoreSpec`
  function and also states the outcome directly.
- `repository_tests.dfy` (module `RepositoryTests`): client methods. `TestSave`,
  `TestSaveWhenOverwriteExistingModeDisabled` and `TestDelete` are the single-threaded unit
  tests; their postconditions are the outcomes the model proves for them. `GuardedTestAfterDelete`
  and `GuardedSecondSaveKeepsEntry` belong to the finding below. `DeleteTwice` and
  `SharedHandleMixedPolicies` model no test; they state consequences of the contracts.

For a guarded save of an absent key, the code promises only "either stored or unchanged":
a false positive of `keyMayExist` skips the save. `testSaveWhenOverwriteExistingModeDisabled`
expects the first value to survive. The model shows that this holds only when the hint
says "no" on the first save, or when the key already held that value (see "## Findings").

## Model

| member | source | states |
|---|---|---|
| `StoreSpec.LastWriterWins` | src/main/java/cache/store/RocksDBRepositoryImpl.java:31-76 | After any run of saves and deletes, with no read error, `find(k)` returns what `LastWrite` says: the value of the last save of `k` that took effect. If a delete of `k` took effect after that save, it returns nothing. If no operation on `k` took effect, it returns the value from before the run. |
| `StoreSpec.GuardedSavesNeverOverwrite` | src/main/java/cache/store/RocksDBRepositoryImpl.java:34-38 | Assume the hint never answers "no" for a present key. Then a present entry keeps its value across any run that saves `k` only with `overwriteExisting` off and never deletes it. This holds whatever the other calls do and whichever of them fail. |
| `StoreSpec.UnrelatedKeysUntouched` | src/main/java/cache/store/RocksDBRepositoryImpl.java:40 | Saves and deletes of other keys leave key `k` as it was: present exactly when it was present before, and with the same value. |
| `Engine.RocksDB.Open` | src/main/java/cache/store/RocksDBRepositoryImpl.java:28 | An engine handle opened on a directory holds that directory's contents, and its hint is sound. |
| `Engine.RocksDB.KeyMayExist` | src/main/java/cache/store/RocksDBRepositoryImpl.java:34 | The hint answers "maybe" for every present key (no false negatives). For an absent key it answers "maybe" exactly when that call gives a false positive. |
| `Engine.RocksDB.Get` | src/main/java/cache/store/RocksDBRepositoryImpl.java:52 | `get` throws exactly when the read fails. Otherwise it returns the stored bytes, or null when the key is absent. |
| `Engine.RocksDB.Put` | src/main/java/cache/store/RocksDBRepositoryImpl.java:40 | `put` stores the value under the key and replaces any earlier value. A put that throws changes nothing. |
| `Engine.RocksDB.Delete` | src/main/java/cache/store/RocksDBRepositoryImpl.java:70 | `delete` removes the key, or does nothing when the key is absent. A delete that throws changes nothing. |
| `CacheStore.RocksDBRepositoryImpl.constructor` | src/main/java/cache/store/RocksDBRepositoryImpl.java:25-29 | Records `dbDir`, `overwriteExisting` and the engine handle. |
| `CacheStore.RocksDBRepositoryImpl.Save` | src/main/java/cache/store/RocksDBRepositoryImpl.java:31-46 | With overwriting on and no failure, the value is stored under the key and nothing else changes. With overwriting off and the key present, the store is unchanged. A failing save leaves the store unchanged. In every case the result is the single update or no change. With overwriting off and the key absent, the value is stored unless the hint gives a false positive or the save fails. The new store equals `StoreSpec.Save` applied to the old store, with the hint's answer: "maybe" when the key is present or on a false positive. |
| `CacheStore.RocksDBRepositoryImpl.Find` | src/main/java/cache/store/RocksDBRepositoryImpl.java:48-65 | Returns `Some(store[key])` when the key is present and the read succeeds. Returns `None` when the key is absent or the read fails. Changes nothing. |
| `CacheStore.RocksDBRepositoryImpl.Delete` | src/main/java/cache/store/RocksDBRepositoryImpl.java:67-76 | Unless the engine fails, the key is absent afterwards. Every other key keeps its entry. Deleting an absent key is a no-op. A failing delete changes nothing. |
| `CacheStore.RocksDBRepositoryImpl.GetDbDir` | src/main/java/cache/store/RocksDBRepositoryImpl.java:78-80 | Returns the directory given to the constructor. |
| `RepositoryTests.TestSave` | src/test/java/RocksDBRepositoryImplTest.java:27-37 | With overwriting on, `find` after `save(k, v)` returns `v`, on any engine contents. |
| `RepositoryTests.TestSaveWhenOverwriteExistingModeDisabled` | src/test/java/RocksDBRepositoryImplTest.java:39-54 | With overwriting off, save `entry` and then `newText` under a key, on any engine contents. There are four outcomes. A key that was present keeps its old value. For an absent key: if the first save gets no false positive, it stores `entry`, the second save is skipped, and `entry` is found. If only the first save gets a false positive, `newText` is found. If both do, nothing is found. |
| `RepositoryTests.GuardedTestAfterDelete` | src/test/java/RocksDBRepositoryImplTest.java:39-54 | Run that test on an engine where testDelete ran first, so the key is absent. Give the hint a false positive on the first save. The find then returns null, or `newText` when the second save gets no false positive. It never returns `entry` when the two values differ. |
| `RepositoryTests.GuardedSecondSaveKeepsEntry` | src/test/java/RocksDBRepositoryImplTest.java:45-53 | Once `entry` is stored under a key, a guarded save of `newText` under that key leaves `entry`, on any engine contents and whatever the hint answers. |
| `RepositoryTests.TestDelete` | src/test/java/RocksDBRepositoryImplTest.java:56-68 | A saved entry is found. After its delete, `find` returns nothing, and the store is the old store without the key. |
| `RepositoryTests.DeleteTwice` | src/main/java/cache/store/RocksDBRepositoryImpl.java:67-76 | Two deletes of a key leave the same store as one delete: delete is idempotent. |
| `RepositoryTests.SharedHandleMixedPolicies` | src/main/java/cache/store/RocksDBRepositoryImpl.java:21-29 | Take two repositories over one handle, one guarded and one overwriting. A value the guarded one saved is replaced by the overwriting one's save, and the guarded one then finds the replacement. |

## Findings

| source | as written | input that shows it | evidently intended | confidence | as-written member | corrected member |
|---|---|---|---|---|---|---|
| src/test/java/RocksDBRepositoryImplTest.java:42-53 | Two guarded saves followed by a find on the shared temporary directory. The test expects the first value, so it relies on `keyMayExist` saying "no" for a `Key1` that is absent. | `Key1` is absent, for example after testDelete ran on the same directory, and the hint gives a false positive on the first save, which is then skipped. If the hint also says "maybe" on the second save, `find` returns null and `IOUtils.copy` throws. If it says "no", "New text" is stored and found, and the assertEquals fails. | Check that a guarded save leaves an entry that is already stored, without depending on the hint's answer for an absent key. | low; not executed; needs RocksDB to give a false positive for the absent key | `RepositoryTests.GuardedTestAfterDelete` | `RepositoryTests.GuardedSecondSaveKeepsEntry` |

## Left out

- The per-directory handle registry (`RocksDBHandler.getRocksDB`) is not part of this model. The constructor receives the handle as a parameter. The registry's single-open guarantee and its open failure are not modelled.
- Concurrency is not modelled: threads, the engine's thread safety, and the race between the hint check and the put of two concurrent guarded saves. A run (`StoreSpec.Run`) treats each save as one atomic step. The multithreaded tests and their latch harness are not modelled.
- Logging is left out: it has no effect on state. The three log outcomes of `save` (saved, skipped, failed) appear only as `StoreSpec.SaveOutcome`.
- Input and output streams are left out: values are byte sequences. An `IOException` while reading the value stream is folded into `Save`'s `fails` flag, because it has the same effect as a failing put.
- Null keys and null values are left out: Dafny strings and sequences cannot be null. In the source these throw an uncaught `NullPointerException`.
- Key encoding is left out: keys are strings used directly. This assumes `getBytes()` is injective on the keys in use.
- RocksDB internals are left out: persistence, the on-disk layout, and the real filter behind `keyMayExist`. The engine is a map, and each hint answer for an absent key is a per-call parameter.
- The `KeyValueRepository` interface is not part of this model.
