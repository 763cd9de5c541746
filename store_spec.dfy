/**
 * The key-value semantics of the repository on values: the store is a map from
 * key to bytes, and save, delete and find are functions of the store, of the
 * answer of the existence hint and of whether the engine call fails. A run of
 * several operations, possibly issued by repositories with different
 * `overwriteExisting` policies over one shared handle, is a sequence of `Op`s.
 */
module StoreSpec {
  import opened Wrappers

  /** A Java byte. The payload is opaque to the repository. */
  newtype byte = b: int | -128 <= b < 128

  type Bytes = seq<byte>

  /** Keys are strings; their platform-charset encoding is taken to be injective. */
  type Key = string

  type Store = map<Key, Bytes>

  /** The three ways a save ends, as the source's log lines tell them apart. */
  datatype SaveOutcome = Saved | Skipped | Failed

  /**
   * The guard is consulted first and only when overwriting is off; a failure
   * of reading the value or of the put can only happen after the guard has let
   * the save through.
   */
  function SaveOutcomeOf(overwriteExisting: bool, mayExist: bool, fails: bool): SaveOutcome
  {
    if !overwriteExisting && mayExist then Skipped
    else if fails then Failed
    else Saved
  }

  /** The store after `save(k, v)`; `mayExist` is the hint's answer for `k`. */
  function Save(s: Store, overwriteExisting: bool, mayExist: bool, fails: bool, k: Key, v: Bytes): Store
  {
    if SaveOutcomeOf(overwriteExisting, mayExist, fails) == Saved then s[k := v] else s
  }

  /** The store after `delete(k)`: a failed delete changes nothing. */
  function Delete(s: Store, k: Key, fails: bool): Store
  {
    if fails then s else s - {k}
  }

  /** The value stored under `k`, or `None` when there is none. */
  function Lookup(s: Store, k: Key): Option<Bytes>
  {
    if k in s then Some(s[k]) else None
  }

  /** What `find(k)` returns: a read error looks like absence. */
  function Find(s: Store, k: Key, fails: bool): Option<Bytes>
  {
    if fails then None else Lookup(s, k)
  }

  /** One call of save or delete, with the hint's answer and the fault it meets. */
  datatype Op =
    | SaveOp(key: Key, value: Bytes, overwriteExisting: bool, mayExist: bool, fails: bool)
    | DeleteOp(key: Key, fails: bool)

  function Step(s: Store, op: Op): Store
  {
    match op
    case SaveOp(k, v, overwrite, mayExist, fails) => Save(s, overwrite, mayExist, fails, k, v)
    case DeleteOp(k, fails) => Delete(s, k, fails)
  }

  /** The store after the operations `ops`, applied in order from `s`. */
  function Run(s: Store, ops: seq<Op>): Store
    decreases |ops|
  {
    if ops == [] then s else Run(Step(s, ops[0]), ops[1..])
  }

  /** The hint honours its one-sided contract for `op` in store `s`: no false negatives. */
  predicate HintSound(s: Store, op: Op)
  {
    op.SaveOp? && !op.overwriteExisting && op.key in s ==> op.mayExist
  }

  /** The hint honours its contract at every step of the run. */
  predicate HintsSound(s: Store, ops: seq<Op>)
    decreases |ops|
  {
    ops == [] || (HintSound(s, ops[0]) && HintsSound(Step(s, ops[0]), ops[1..]))
  }

  /** The operation changes the store: a save that was not skipped and did not fail, or a delete that did not fail. */
  predicate Effective(op: Op)
  {
    match op
    case SaveOp(_, _, overwrite, mayExist, fails) => SaveOutcomeOf(overwrite, mayExist, fails) == Saved
    case DeleteOp(_, fails) => !fails
  }

  /**
   * Reference definition of the value under `k` after `ops`: the last effective
   * operation on `k` decides it, and `init` stands when there is none.
   */
  function LastWrite(init: Option<Bytes>, ops: seq<Op>, k: Key): Option<Bytes>
    decreases |ops|
  {
    if ops == [] then init
    else
      var op := ops[|ops| - 1];
      if op.key == k && Effective(op) then
        (if op.SaveOp? then Some(op.value) else None)
      else
        LastWrite(init, ops[..|ops| - 1], k)
  }

  /** Running `ops` and then `op` is running `op` on the result of `ops`. */
  lemma {:induction false} RunSnoc(s: Store, ops: seq<Op>, op: Op)
    ensures Run(s, ops + [op]) == Step(Run(s, ops), op)
    decreases |ops|
  {
    if ops == [] {
      assert ops + [op] == [op];
      assert [op][1..] == [];
    } else {
      assert (ops + [op])[0] == ops[0];
      assert (ops + [op])[1..] == ops[1..] + [op];
      RunSnoc(Step(s, ops[0]), ops[1..], op);
    }
  }

  /**
   * Last writer wins: after any run, `find(k)` without a read error returns
   * the value of the last save of `k` that took effect, or nothing if a
   * delete of `k` took effect after it, or the value from before the run if
   * no operation on `k` took effect.
   */
  lemma {:induction false} LastWriterWins(s: Store, ops: seq<Op>, k: Key)
    ensures Find(Run(s, ops), k, false) == LastWrite(Lookup(s, k), ops, k)
    decreases |ops|
  {
    if ops != [] {
      var prefix, op := ops[..|ops| - 1], ops[|ops| - 1];
      assert ops == prefix + [op];
      RunSnoc(s, prefix, op);
      LastWriterWins(s, prefix, k);
    }
  }

  /** No operation of `ops` replaces or removes the entry under `k`. */
  predicate NeverReplaced(ops: seq<Op>, k: Key)
  {
    forall i | 0 <= i < |ops| :: ops[i].key == k ==> ops[i].SaveOp? && !ops[i].overwriteExisting
  }

  /**
   * Guarded saves never overwrite: when the hint has no false negatives, an
   * entry that is present keeps its value across any run in which `k` is only
   * saved with `overwriteExisting` off, whatever the hint answers for other
   * keys and whichever calls fail.
   */
  lemma {:induction false} GuardedSavesNeverOverwrite(s: Store, ops: seq<Op>, k: Key)
    requires HintsSound(s, ops)
    requires NeverReplaced(ops, k)
    requires k in s
    ensures k in Run(s, ops) && Run(s, ops)[k] == s[k]
    decreases |ops|
  {
    if ops != [] {
      var next := Step(s, ops[0]);
      assert ops[0].key == k ==> ops[0].SaveOp? && !ops[0].overwriteExisting;
      assert k in next && next[k] == s[k];
      assert NeverReplaced(ops[1..], k) by {
        forall i | 0 <= i < |ops[1..]| ensures ops[1..][i].key == k ==> ops[1..][i].SaveOp? && !ops[1..][i].overwriteExisting {
          assert ops[1..][i] == ops[i + 1];
        }
      }
      GuardedSavesNeverOverwrite(next, ops[1..], k);
    }
  }

  /**
   * Operations on other keys never disturb the entry under `k`: it is present
   * after the run exactly when it was before, with the same value.
   */
  lemma {:induction false} UnrelatedKeysUntouched(s: Store, ops: seq<Op>, k: Key)
    requires forall i | 0 <= i < |ops| :: ops[i].key != k
    ensures Lookup(Run(s, ops), k) == Lookup(s, k)
    decreases |ops|
  {
    if ops != [] {
      assert ops[0].key != k;
      assert forall i | 0 <= i < |ops[1..]| :: ops[1..][i] == ops[i + 1];
      UnrelatedKeysUntouched(Step(s, ops[0]), ops[1..], k);
    }
  }
}
