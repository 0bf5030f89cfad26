/**
 * What flushing an overlay does to the committed registry map.  Flush visits
 * the staged entries and then the erase set, writing each staged entry to the
 * store before publishing it, and stops at the first write the store refuses
 * or the first erase target the registry does not hold.  Whatever was
 * published before such a stop stays published.  The model fixes the visiting
 * order as ascending id order; that order decides only what a failed flush
 * leaves published.
 */
module ScCommit {
  import opened ScTypes
  import opened ScRules
  import opened ScOverlay

  /** The smallest identifier in `s`, if any. */
  ghost function Least(s: set<ScId>): (r: Option<ScId>)
    ensures r.None? <==> s == {}
    ensures r.Some? ==> r.value in s && forall x :: x in s ==> r.value <= x
    decreases s
  {
    if s == {} then None
    else
      var x :| x in s;
      var rest := Least(s - {x});
      assert forall y :: y in s ==> y == x || y in s - {x};
      if rest.Some? && rest.value < x then rest else Some(x)
  }

  lemma LeastIs(s: set<ScId>, m: ScId)
    requires m in s && forall x :: x in s ==> m <= x
    ensures Least(s) == Some(m)
  {
  }

  /** The identifiers of `s` that come before `bound`. */
  function Below(s: set<ScId>, bound: ScId): set<ScId>
  {
    set k | k in s && k < bound
  }

  /** The entries of `m` whose ids are in `keys`. */
  function Restrict(m: ScInfoMap, keys: set<ScId>): ScInfoMap
  {
    map k | k in keys && k in m :: m[k]
  }

  /** The committed map after a flush, and Flush's result. */
  datatype FlushResult = FlushResult(registry: ScInfoMap, ok: bool)

  /**
   * The first phase of Flush: publish the staged entries into `committed` in
   * ascending id order, stopping at the first whose write the store refuses.
   */
  ghost function WriteStaged(committed: ScInfoMap, staged: ScInfoMap, failingWrites: set<ScId>): (r: FlushResult)
    ensures r.ok <==> staged.Keys !! failingWrites
    ensures r.ok ==> r.registry == committed + staged
    ensures forall id :: id in r.registry ==>
      (id in committed && r.registry[id] == committed[id]) || (id in staged && r.registry[id] == staged[id])
    ensures committed.Keys <= r.registry.Keys
    ensures forall id :: id in committed && id !in staged ==> r.registry[id] == committed[id]
  {
    match Least(staged.Keys * failingWrites)
    case Some(f) =>
      FlushResult(committed + Restrict(staged, Below(staged.Keys, f)), false)
    case None =>
      assert staged.Keys !! failingWrites by {
        forall k | k in staged.Keys ensures k !in failingWrites {
          assert k !in staged.Keys * failingWrites;
        }
      }
      FlushResult(committed + staged, true)
  }

  /**
   * The second phase of Flush: drop the ids of `erasing` from `registry` in
   * ascending order, stopping at the first the registry does not hold.
   */
  ghost function EraseAll(registry: ScInfoMap, erasing: set<ScId>): (r: FlushResult)
    ensures r.ok <==> erasing <= registry.Keys
    ensures r.ok ==> r.registry == registry - erasing
    ensures forall id :: id in r.registry ==> id in registry && r.registry[id] == registry[id]
    ensures forall id :: id in registry && id !in erasing ==> id in r.registry
  {
    match Least(erasing - registry.Keys)
    case Some(e) => FlushResult(registry - Below(erasing, e), false)
    case None =>
      assert erasing <= registry.Keys by {
        forall k | k in erasing ensures k in registry.Keys {
          assert k !in erasing - registry.Keys;
        }
      }
      FlushResult(registry - erasing, true)
  }

  /**
   * Flush of the overlay state `v` into the committed map `committed`, when
   * the store refuses exactly the writes of `failingWrites`: the erasures run
   * only when every write went through.
   */
  ghost function FlushSpec(committed: ScInfoMap, v: View, failingWrites: set<ScId>): (r: FlushResult)
    ensures r.ok <==> v.staged.Keys !! failingWrites && v.erasing <= (committed + v.staged).Keys
    ensures r.ok ==> r.registry == (committed + v.staged) - v.erasing
    ensures forall id :: id in r.registry ==>
      (id in committed && r.registry[id] == committed[id]) || (id in v.staged && r.registry[id] == v.staged[id])
    ensures forall id :: id in committed && id !in v.staged && id !in v.erasing ==>
      id in r.registry && r.registry[id] == committed[id]
  {
    var written := WriteStaged(committed, v.staged, failingWrites);
    if !written.ok then written else EraseAll(written.registry, v.erasing)
  }

  /**
   * A failed write stops Flush before anything is erased: every entry the
   * registry held is still there, and the refused entry was not published.
   */
  lemma {:induction false} WriteFailureErasesNothing(committed: ScInfoMap, v: View, failingWrites: set<ScId>, scId: ScId)
    requires scId in v.staged && scId in failingWrites
    ensures !FlushSpec(committed, v, failingWrites).ok
    ensures committed.Keys <= FlushSpec(committed, v, failingWrites).registry.Keys
    ensures scId in committed ==>
      FlushSpec(committed, v, failingWrites).registry[scId] == committed[scId]
  {
    var f := Least(v.staged.Keys * failingWrites);
    assert scId in v.staged.Keys * failingWrites;
    assert f.Some? && f.value <= scId;
    assert scId !in Below(v.staged.Keys, f.value);
    assert FlushSpec(committed, v, failingWrites) == WriteStaged(committed, v.staged, failingWrites);
  }

  /**
   * The erase-set check of Flush is reachable: an overlay over `committed`
   * that applies a transaction creating a sidechain `committed` lacks and then
   * undoes it holds that sidechain in its erase set only, and its Flush fails
   * whatever the store does.
   */
  lemma CreateThenUndoInOneOverlayFailsFlush(
    committed: ScInfoMap, tx: Transaction, blockHash: Hash, height: int, failingWrites: set<ScId>)
    requires NonNegative(committed)
    requires IsTxApplicableToState(tx, map[], Some(committed))
    requires DistinctIds(tx.creations) && tx.creations != []
    requires forall i :: 0 <= i < |tx.forwardTransfers| ==> tx.forwardTransfers[i].amount >= 0
    ensures var applied := ApplyTx(View(committed, {}), tx, blockHash, height);
            var undone := UndoTx(applied.view, UndoRecordOf(tx));
            && applied.ok && undone.ok && !FlushSpec(committed, undone.view, failingWrites).ok
            && tx.creations[0].scId in undone.view.erasing
            && tx.creations[0].scId !in undone.view.staged
  {
    var v := View(committed, {});
    ApplyThenUndoRestores(v, tx, blockHash, height);
    var undone := UndoTx(ApplyTx(v, tx, blockHash, height).view, UndoRecordOf(tx));
    var x := tx.creations[0].scId;
    assert x in undone.view.erasing;
    assert x !in committed;
  }

  /** Flushing an overlay that erases nothing and stages every committed id publishes the staged map. */
  lemma FlushOfCompleteOverlay(committed: ScInfoMap, w: View, failingWrites: set<ScId>)
    requires w.erasing == {} && committed.Keys <= w.staged.Keys && w.staged.Keys !! failingWrites
    ensures FlushSpec(committed, w, failingWrites) == FlushResult(w.staged, true)
  {
    assert committed + w.staged == w.staged;
    assert (committed + w.staged) - {} == committed + w.staged;
  }

  /** Flushing an overlay that stages `committed` and erases the ids `registry` has beyond it yields `committed`. */
  lemma FlushOfRestoringOverlay(registry: ScInfoMap, committed: ScInfoMap, ids: set<ScId>, failingWrites: set<ScId>)
    requires registry.Keys == committed.Keys + ids && ids !! committed.Keys
    requires committed.Keys !! failingWrites
    ensures FlushSpec(registry, View(committed, ids), failingWrites) == FlushResult(committed, true)
  {
    assert (registry + committed) - ids == committed;
  }

  /**
   * A transaction that creates a sidechain `x` and sends it `amount`, applied
   * to a fresh overlay and flushed, registers `x` with its creation record
   * and a balance of exactly `amount`.
   */
  lemma CreateFundFlushScenario(
    committed: ScInfoMap, x: ScId, epochLength: int, amount: Amount,
    blockHash: Hash, height: int, txHash: Hash, failingWrites: set<ScId>)
    requires x !in committed && amount >= 0
    requires failingWrites !! committed.Keys + {x}
    ensures var tx := Transaction(txHash, true, 0, [CreationOut(x, epochLength)], [ForwardTransfer(x, amount)]);
            var applied := ApplyTx(View(committed, {}), tx, blockHash, height);
            var flushed := FlushSpec(committed, applied.view, failingWrites);
            && applied.ok && flushed.ok && x in flushed.registry
            && flushed.registry[x] == NewScInfo(blockHash, height, txHash, epochLength).(balance := amount)
  {
    var tx := Transaction(txHash, true, 0, [CreationOut(x, epochLength)], [ForwardTransfer(x, amount)]);
    var v := View(committed, {});
    var created := Create(v, tx.creations, blockHash, height, tx.hash);
    CreateOkIff(v, tx.creations, blockHash, height, tx.hash);
    assert CreatedIds(tx.creations) == {x};
    assert SentTo(tx.forwardTransfers, x) == amount;
    var credited := UpdateBalance(created.view, x, amount);
    assert credited.ok;
    assert tx.forwardTransfers[1..] == [];
    TransfersStep(created.view, tx.forwardTransfers, false);
    assert ApplyTransfers(credited.view, [], false) == Outcome(credited.view, true);
    var applied := ApplyTransfers(created.view, tx.forwardTransfers, false);
    assert applied == Outcome(credited.view, true);
  }

  /**
   * Connecting a transaction (apply to a fresh overlay, flush) and then
   * disconnecting it (apply its undo record to a fresh overlay, flush) gives
   * back the committed map, provided the store accepts the writes.
   */
  lemma ConnectThenDisconnectRestoresRegistry(
    committed: ScInfoMap, tx: Transaction, blockHash: Hash, height: int, failingWrites: set<ScId>)
    requires NonNegative(committed)
    requires IsTxApplicableToState(tx, map[], Some(committed))
    requires DistinctIds(tx.creations)
    requires forall i :: 0 <= i < |tx.forwardTransfers| ==> tx.forwardTransfers[i].amount >= 0
    requires failingWrites !! committed.Keys + CreatedIds(tx.creations)
    ensures var applied := ApplyTx(View(committed, {}), tx, blockHash, height);
            var connected := FlushSpec(committed, applied.view, failingWrites);
            var undone := UndoTx(View(connected.registry, {}), UndoRecordOf(tx));
            && applied.ok && connected.ok && undone.ok
            && FlushSpec(connected.registry, undone.view, failingWrites) == FlushResult(committed, true)
  {
    var v := View(committed, {});
    ApplyTxShape(v, tx, blockHash, height);
    CreatedIdsFresh(v, tx);
    UndoOnFreshOverlay(v, tx, blockHash, height);
    var applied := ApplyTx(v, tx, blockHash, height);
    assert View(applied.view.staged, {}) == applied.view;
    FlushOfCompleteOverlay(committed, applied.view, failingWrites);
    FlushOfRestoringOverlay(applied.view.staged, committed, CreatedIds(tx.creations), failingWrites);
  }
}
