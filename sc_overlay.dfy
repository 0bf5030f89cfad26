/**
 * The overlay cache's operations as functions on its state.  The state is the
 * staged copy of the registry map together with the set of identifiers
 * pending erasure; every operation yields the new state and its boolean result.
 * A step that fails may already have changed the state (the caller must then
 * discard the whole overlay), and the functions say exactly how.
 */
module ScOverlay {
  import opened ScTypes
  import opened ScRules

  /** The overlay's state: the staged map (mUpdate) and the erase set (sErase). */
  datatype View = View(staged: ScInfoMap, erasing: set<ScId>)

  /** The state after an overlay step, and whether the step succeeded. */
  datatype Outcome = Outcome(view: View, ok: bool)

  /** Every forward transfer targets a staged sidechain and moves a non-negative amount. */
  predicate Fundable(staged: ScInfoMap, fts: seq<ForwardTransfer>)
  {
    forall i :: 0 <= i < |fts| ==> fts[i].scId in staged && fts[i].amount >= 0
  }

  /**
   * updateSidechainBalance: add `amount` to the balance of a staged sidechain.
   * A missing id fails with no change; a negative result fails but stays staged.
   */
  function UpdateBalance(v: View, scId: ScId, amount: Amount): (r: Outcome)
    ensures r.view.erasing == v.erasing && r.view.staged.Keys == v.staged.Keys
    ensures scId !in v.staged ==> r == Outcome(v, false)
    ensures scId in v.staged ==>
      && r.view.staged[scId] == v.staged[scId].(balance := v.staged[scId].balance + amount)
      && (r.ok <==> v.staged[scId].balance + amount >= 0)
    ensures forall id :: id in v.staged && id != scId ==> r.view.staged[id] == v.staged[id]
  {
    if scId !in v.staged then Outcome(v, false)
    else
      var info := v.staged[scId];
      var updated := info.(balance := info.balance + amount);
      Outcome(View(v.staged[scId := updated], v.erasing), updated.balance >= 0)
  }

  /** removeSidechain: mark `scId` for erasure and drop it from the staged map if present. */
  function Remove(v: View, scId: ScId): (r: View)
    ensures scId !in r.staged && scId in r.erasing
    ensures forall id :: id != scId ==> (id in r.erasing <==> id in v.erasing)
    ensures forall id :: id != scId ==>
      (id in r.staged <==> id in v.staged) && (id in r.staged ==> r.staged[id] == v.staged[id])
  {
    View(v.staged - {scId}, v.erasing + {scId})
  }

  /** deleteSidechain: only a staged sidechain whose balance is not positive can be deleted. */
  function Delete(v: View, scId: ScId): (r: Outcome)
    ensures r.ok <==> scId in v.staged && v.staged[scId].balance <= 0
    ensures r.view == if r.ok then Remove(v, scId) else v
  {
    if scId !in v.staged then Outcome(v, false)
    else if v.staged[scId].balance > 0 then Outcome(v, false)
    else Outcome(Remove(v, scId), true)
  }

  /**
   * createSidechain: stage a fresh zero-balance record for each creation
   * output in order, stopping at the first id that is already staged.
   */
  function Create(v: View, cs: seq<CreationOut>, blockHash: Hash, height: int, txHash: Hash): (r: Outcome)
    decreases |cs|
    ensures r.view.erasing == v.erasing
    ensures forall id :: id in v.staged ==> id in r.view.staged && r.view.staged[id] == v.staged[id]
    ensures r.ok ==> r.view.staged.Keys == v.staged.Keys + CreatedIds(cs)
    ensures r.ok ==> forall i :: 0 <= i < |cs| ==>
      r.view.staged[cs[i].scId] == NewScInfo(blockHash, height, txHash, cs[i].withdrawalEpochLength)
  {
    if cs == [] then Outcome(v, true)
    else if cs[0].scId in v.staged then Outcome(v, false)
    else
      var info := NewScInfo(blockHash, height, txHash, cs[0].withdrawalEpochLength);
      var v' := View(v.staged[cs[0].scId := info], v.erasing);
      var r := Create(v', cs[1..], blockHash, height, txHash);
      CreatedIdsCons(cs);
      r
  }

  /**
   * createSidechain succeeds exactly when no creation output names a staged
   * sidechain and no two name the same one.
   */
  lemma {:induction false} CreateOkIff(v: View, cs: seq<CreationOut>, blockHash: Hash, height: int, txHash: Hash)
    ensures Create(v, cs, blockHash, height, txHash).ok
        <==> (forall i :: 0 <= i < |cs| ==> cs[i].scId !in v.staged) && DistinctIds(cs)
    decreases |cs|
  {
    if cs != [] && cs[0].scId !in v.staged {
      var info := NewScInfo(blockHash, height, txHash, cs[0].withdrawalEpochLength);
      CreateOkIff(View(v.staged[cs[0].scId := info], v.erasing), cs[1..], blockHash, height, txHash);
      DistinctIdsCons(cs);
      assert (forall i :: 0 <= i < |cs| ==> cs[i].scId !in v.staged)
         <==> (forall i :: 0 <= i < |cs[1..]| ==> cs[1..][i].scId !in v.staged);
    }
  }

  /** The total amount that the forward transfers `fts` send to `scId`. */
  function SentTo(fts: seq<ForwardTransfer>, scId: ScId): Amount
  {
    if fts == [] then 0
    else (if fts[0].scId == scId then fts[0].amount else 0) + SentTo(fts[1..], scId)
  }

  /**
   * The forward-transfer loops: add each amount (or, undoing, subtract it) in
   * order, stopping at the first step that fails.
   */
  function ApplyTransfers(v: View, fts: seq<ForwardTransfer>, reverse: bool): (r: Outcome)
    decreases |fts|
    ensures r.view.erasing == v.erasing && r.view.staged.Keys == v.staged.Keys
    ensures forall id :: id in v.staged ==>
      r.view.staged[id] == v.staged[id].(balance := r.view.staged[id].balance)
    ensures Fundable(v.staged, fts) && !reverse && NonNegative(v.staged) ==> r.ok
  {
    if fts == [] then Outcome(v, true)
    else
      var step := UpdateBalance(v, fts[0].scId, if reverse then -fts[0].amount else fts[0].amount);
      if !step.ok then step
      else ApplyTransfers(step.view, fts[1..], reverse)
  }

  /**
   * The deletion loop of an undo: delete each created sidechain in order,
   * stopping at the first that is missing or still funded.
   */
  function DeleteAll(v: View, cs: seq<CreationOut>): (r: Outcome)
    decreases |cs|
    ensures r.ok <==>
      DistinctIds(cs) && forall i :: 0 <= i < |cs| ==>
        cs[i].scId in v.staged && v.staged[cs[i].scId].balance <= 0
    ensures r.ok ==> r.view == View(v.staged - CreatedIds(cs), v.erasing + CreatedIds(cs))
  {
    if cs == [] then Outcome(v, true)
    else
      var step := Delete(v, cs[0].scId);
      if !step.ok then step
      else
        CreatedIdsCons(cs);
        DistinctIdsCons(cs);
        DeleteAll(step.view, cs[1..])
  }

  /** UpdateScCoins(tx): create the transaction's sidechains, then credit its forward transfers. */
  function ApplyTx(v: View, tx: Transaction, blockHash: Hash, height: int): Outcome
  {
    var created := Create(v, tx.creations, blockHash, height, tx.hash);
    if !created.ok then created
    else ApplyTransfers(created.view, tx.forwardTransfers, false)
  }

  /** UpdateScCoins(txundo): debit every forward transfer first, then delete the created sidechains. */
  function UndoTx(v: View, undo: TxUndo): Outcome
  {
    var debited := ApplyTransfers(v, undo.forwardTransfers, true);
    if !debited.ok then debited
    else DeleteAll(debited.view, undo.creations)
  }

  /**
   * A creation output naming a sidechain the overlay already stages makes
   * UpdateScCoins(tx) fail before any forward transfer is credited: every
   * entry staged before is still there with its old record.
   */
  lemma CreationConflictStopsApply(v: View, tx: Transaction, blockHash: Hash, height: int, i: nat)
    requires i < |tx.creations| && tx.creations[i].scId in v.staged
    ensures !ApplyTx(v, tx, blockHash, height).ok
    ensures forall id :: id in v.staged ==>
      id in ApplyTx(v, tx, blockHash, height).view.staged
      && ApplyTx(v, tx, blockHash, height).view.staged[id] == v.staged[id]
  {
    CreateOkIff(v, tx.creations, blockHash, height, tx.hash);
  }

  // ---------------------------------------------------------------------------
  // Balances never go negative in a state reached by successful steps.

  lemma {:induction false} TransfersPreserveNonNegative(v: View, fts: seq<ForwardTransfer>, reverse: bool)
    requires NonNegative(v.staged)
    requires ApplyTransfers(v, fts, reverse).ok
    ensures NonNegative(ApplyTransfers(v, fts, reverse).view.staged)
    decreases |fts|
  {
    if fts != [] {
      var step := UpdateBalance(v, fts[0].scId, if reverse then -fts[0].amount else fts[0].amount);
      TransfersPreserveNonNegative(step.view, fts[1..], reverse);
    }
  }

  /** A successful UpdateScCoins(tx) keeps every staged balance non-negative. */
  lemma ApplyTxPreservesNonNegative(v: View, tx: Transaction, blockHash: Hash, height: int)
    requires NonNegative(v.staged)
    requires ApplyTx(v, tx, blockHash, height).ok
    ensures NonNegative(ApplyTx(v, tx, blockHash, height).view.staged)
  {
    var created := Create(v, tx.creations, blockHash, height, tx.hash);
    assert NonNegative(created.view.staged) by {
      forall id | id in created.view.staged ensures created.view.staged[id].balance >= 0 {
        if id !in v.staged {
          var i :| 0 <= i < |tx.creations| && tx.creations[i].scId == id;
        }
      }
    }
    TransfersPreserveNonNegative(created.view, tx.forwardTransfers, false);
  }

  /** A successful UpdateScCoins(txundo) keeps every staged balance non-negative. */
  lemma UndoTxPreservesNonNegative(v: View, undo: TxUndo)
    requires NonNegative(v.staged)
    requires UndoTx(v, undo).ok
    ensures NonNegative(UndoTx(v, undo).view.staged)
  {
    TransfersPreserveNonNegative(v, undo.forwardTransfers, true);
  }

  // ---------------------------------------------------------------------------
  // Undoing a transaction restores the staged map it was applied to.

  lemma ShiftsCommute(v: View, x: ScId, a: Amount, y: ScId, b: Amount)
    requires x in v.staged && y in v.staged
    ensures UpdateBalance(UpdateBalance(v, x, a).view, y, b).view
         == UpdateBalance(UpdateBalance(v, y, b).view, x, a).view
  {
  }

  /** Crediting `x` first and then the transfers equals crediting the transfers and then `x`. */
  lemma {:induction false} CreditShift(v: View, fts: seq<ForwardTransfer>, x: ScId, a: Amount)
    requires NonNegative(v.staged) && Fundable(v.staged, fts)
    requires x in v.staged && a >= 0
    ensures ApplyTransfers(UpdateBalance(v, x, a).view, fts, false)
         == Outcome(UpdateBalance(ApplyTransfers(v, fts, false).view, x, a).view, true)
    decreases |fts|
  {
    if fts != [] {
      var g := fts[0];
      var shifted := UpdateBalance(v, x, a).view;
      ShiftsCommute(v, x, a, g.scId, g.amount);
      var w := UpdateBalance(v, g.scId, g.amount).view;
      assert Fundable(w.staged, fts[1..]);
      CreditShift(w, fts[1..], x, a);
    }
  }

  /** Subtracting what was just added restores the balance. */
  lemma ShiftBack(v: View, x: ScId, a: Amount)
    requires x in v.staged
    ensures UpdateBalance(UpdateBalance(v, x, a).view, x, -a) == Outcome(v, v.staged[x].balance >= 0)
  {
    var w := UpdateBalance(v, x, a).view;
    var info := v.staged[x];
    assert info.(balance := info.balance + a).(balance := info.balance + a - a) == info;
    assert v.staged[x := info] == v.staged;
  }

  /** One successful step of the forward-transfer loop. */
  lemma TransfersStep(v: View, fts: seq<ForwardTransfer>, reverse: bool)
    requires fts != []
    requires UpdateBalance(v, fts[0].scId, if reverse then -fts[0].amount else fts[0].amount).ok
    ensures ApplyTransfers(v, fts, reverse)
         == ApplyTransfers(UpdateBalance(v, fts[0].scId, if reverse then -fts[0].amount else fts[0].amount).view, fts[1..], reverse)
  {
  }

  /**
   * A transfer loop that succeeds moves each staged balance by exactly the
   * total the transfers send to that id: credited forwards, debited in reverse.
   */
  lemma {:induction false} TransfersMoveBalances(v: View, fts: seq<ForwardTransfer>, reverse: bool)
    requires ApplyTransfers(v, fts, reverse).ok
    ensures forall id :: id in v.staged ==>
      ApplyTransfers(v, fts, reverse).view.staged[id].balance
        == v.staged[id].balance + (if reverse then -SentTo(fts, id) else SentTo(fts, id))
    decreases |fts|
  {
    if fts != [] {
      var step := UpdateBalance(v, fts[0].scId, if reverse then -fts[0].amount else fts[0].amount);
      TransfersMoveBalances(step.view, fts[1..], reverse);
    }
  }

  /** Debiting the forward transfers just credited gives back the state before the credit. */
  lemma {:induction false} CreditDebitCancel(v: View, fts: seq<ForwardTransfer>)
    requires NonNegative(v.staged) && Fundable(v.staged, fts)
    ensures ApplyTransfers(v, fts, false).ok
    ensures ApplyTransfers(ApplyTransfers(v, fts, false).view, fts, true) == Outcome(v, true)
    decreases |fts|
  {
    if fts != [] {
      var f, rest := fts[0], fts[1..];
      var c := ApplyTransfers(v, rest, false).view;
      CreditShift(v, rest, f.scId, f.amount);
      TransfersPreserveNonNegative(v, rest, false);
      var credited := UpdateBalance(c, f.scId, f.amount).view;
      TransfersStep(v, fts, false);
      assert ApplyTransfers(v, fts, false) == Outcome(credited, true);
      ShiftBack(c, f.scId, f.amount);
      assert UpdateBalance(credited, f.scId, -f.amount) == Outcome(c, true);
      TransfersStep(credited, fts, true);
      assert ApplyTransfers(credited, fts, true) == ApplyTransfers(c, rest, true);
      CreditDebitCancel(v, rest);
    }
  }

  /** The sidechains an applicable transaction creates are not staged yet. */
  lemma CreatedIdsFresh(v: View, tx: Transaction)
    requires IsTxApplicableToState(tx, map[], Some(v.staged))
    ensures CreatedIds(tx.creations) !! v.staged.Keys
  {
    forall id | id in CreatedIds(tx.creations) ensures id !in v.staged {
      var i :| 0 <= i < |tx.creations| && tx.creations[i].scId == id;
    }
  }

  /** The creations of an applicable transaction succeed and leave every forward transfer fundable. */
  lemma CreationsFundable(v: View, tx: Transaction, blockHash: Hash, height: int)
    requires NonNegative(v.staged)
    requires IsTxApplicableToState(tx, map[], Some(v.staged))
    requires DistinctIds(tx.creations)
    requires forall i :: 0 <= i < |tx.forwardTransfers| ==> tx.forwardTransfers[i].amount >= 0
    ensures var created := Create(v, tx.creations, blockHash, height, tx.hash);
      && created.ok
      && NonNegative(created.view.staged)
      && Fundable(created.view.staged, tx.forwardTransfers)
  {
    var created := Create(v, tx.creations, blockHash, height, tx.hash);
    CreateOkIff(v, tx.creations, blockHash, height, tx.hash);
    assert NonNegative(created.view.staged) by {
      forall id | id in created.view.staged ensures created.view.staged[id].balance >= 0 {
        if id !in v.staged {
          var i :| 0 <= i < |tx.creations| && tx.creations[i].scId == id;
        }
      }
    }
    forall i | 0 <= i < |tx.forwardTransfers|
      ensures tx.forwardTransfers[i].scId in created.view.staged
    {
      if tx.forwardTransfers[i].scId !in v.staged {
        assert Creates(tx, tx.forwardTransfers[i].scId);
      }
    }
  }

  /** Successful creations of fresh sidechains add zero-balance entries and nothing else. */
  lemma CreationsAddFreshEntries(v: View, tx: Transaction, blockHash: Hash, height: int)
    requires CreatedIds(tx.creations) !! v.staged.Keys
    requires Create(v, tx.creations, blockHash, height, tx.hash).ok
    ensures var created := Create(v, tx.creations, blockHash, height, tx.hash);
      && created.view.erasing == v.erasing
      && created.view.staged - CreatedIds(tx.creations) == v.staged
      && forall i :: 0 <= i < |tx.creations| ==>
           tx.creations[i].scId in created.view.staged && created.view.staged[tx.creations[i].scId].balance == 0
  {
    var created := Create(v, tx.creations, blockHash, height, tx.hash);
    var ids := CreatedIds(tx.creations);
    assert (created.view.staged - ids).Keys == v.staged.Keys;
    assert forall id :: id in v.staged ==> (created.view.staged - ids)[id] == v.staged[id];
  }

  /** The state an applicable transaction's creations leave, ready for its forward transfers. */
  lemma CreationsReady(v: View, tx: Transaction, blockHash: Hash, height: int)
    requires NonNegative(v.staged)
    requires IsTxApplicableToState(tx, map[], Some(v.staged))
    requires DistinctIds(tx.creations)
    requires forall i :: 0 <= i < |tx.forwardTransfers| ==> tx.forwardTransfers[i].amount >= 0
    ensures var created := Create(v, tx.creations, blockHash, height, tx.hash);
      && created.ok
      && NonNegative(created.view.staged)
      && Fundable(created.view.staged, tx.forwardTransfers)
      && created.view.erasing == v.erasing
      && created.view.staged - CreatedIds(tx.creations) == v.staged
      && forall i :: 0 <= i < |tx.creations| ==>
           tx.creations[i].scId in created.view.staged && created.view.staged[tx.creations[i].scId].balance == 0
  {
    CreationsFundable(v, tx, blockHash, height);
    CreatedIdsFresh(v, tx);
    CreationsAddFreshEntries(v, tx, blockHash, height);
  }

  /**
   * A successful UpdateScCoins(tx) of an applicable transaction adds exactly
   * the created sidechains to the staged map and leaves the erase set alone.
   */
  lemma ApplyTxShape(v: View, tx: Transaction, blockHash: Hash, height: int)
    requires NonNegative(v.staged)
    requires IsTxApplicableToState(tx, map[], Some(v.staged))
    requires DistinctIds(tx.creations)
    requires forall i :: 0 <= i < |tx.forwardTransfers| ==> tx.forwardTransfers[i].amount >= 0
    ensures ApplyTx(v, tx, blockHash, height).ok
    ensures ApplyTx(v, tx, blockHash, height).view.erasing == v.erasing
    ensures ApplyTx(v, tx, blockHash, height).view.staged.Keys == v.staged.Keys + CreatedIds(tx.creations)
  {
    CreationsReady(v, tx, blockHash, height);
  }

  /**
   * Applying a transaction to an overlay and then its undo record gives back
   * the staged map it started from, with the created sidechains marked for
   * erasure.  The transaction must be applicable to the overlay, create each
   * sidechain once, and move non-negative amounts.
   */
  lemma ApplyThenUndoRestores(v: View, tx: Transaction, blockHash: Hash, height: int)
    requires NonNegative(v.staged)
    requires IsTxApplicableToState(tx, map[], Some(v.staged))
    requires DistinctIds(tx.creations)
    requires forall i :: 0 <= i < |tx.forwardTransfers| ==> tx.forwardTransfers[i].amount >= 0
    ensures ApplyTx(v, tx, blockHash, height).ok
    ensures UndoTx(ApplyTx(v, tx, blockHash, height).view, UndoRecordOf(tx))
         == Outcome(View(v.staged, v.erasing + CreatedIds(tx.creations)), true)
  {
    var created := Create(v, tx.creations, blockHash, height, tx.hash);
    CreationsReady(v, tx, blockHash, height);
    CreditDebitCancel(created.view, tx.forwardTransfers);
    var applied := ApplyTransfers(created.view, tx.forwardTransfers, false);
    assert ApplyTx(v, tx, blockHash, height) == applied;
    var gone := DeleteAll(created.view, tx.creations);
    assert UndoTx(applied.view, UndoRecordOf(tx)) == gone;
    assert gone.ok;
  }

  /**
   * On an overlay that erases nothing, undoing an applied transaction from the
   * staged map alone gives back the original map with the created sidechains
   * marked for erasure.
   */
  lemma UndoOnFreshOverlay(v: View, tx: Transaction, blockHash: Hash, height: int)
    requires v.erasing == {}
    requires NonNegative(v.staged)
    requires IsTxApplicableToState(tx, map[], Some(v.staged))
    requires DistinctIds(tx.creations)
    requires forall i :: 0 <= i < |tx.forwardTransfers| ==> tx.forwardTransfers[i].amount >= 0
    ensures UndoTx(View(ApplyTx(v, tx, blockHash, height).view.staged, {}), UndoRecordOf(tx))
         == Outcome(View(v.staged, CreatedIds(tx.creations)), true)
  {
    ApplyTxShape(v, tx, blockHash, height);
    var applied := ApplyTx(v, tx, blockHash, height);
    assert View(applied.view.staged, {}) == applied.view;
    ApplyThenUndoRestores(v, tx, blockHash, height);
  }

  /**
   * Without non-negative amounts the undo is no inverse: a transaction that
   * creates `x` and sends it 5 and then -5 passes the semantic check, is
   * applicable and applies, but its undo fails at the first debit, which
   * would take the fresh sidechain's zero balance to -5.
   */
  lemma NegativeTransferBreaksUndo(v: View, x: ScId, epochLength: int, txHash: Hash, blockHash: Hash, height: int)
    requires x !in v.staged
    ensures var tx := Transaction(txHash, true, 0, [CreationOut(x, epochLength)],
                                  [ForwardTransfer(x, 5), ForwardTransfer(x, -5)]);
            var applied := ApplyTx(v, tx, blockHash, height);
            && CheckTxSemanticValidity(tx) == Valid
            && IsTxApplicableToState(tx, map[], Some(v.staged))
            && applied.ok
            && !UndoTx(applied.view, UndoRecordOf(tx)).ok
  {
    var tx := Transaction(txHash, true, 0, [CreationOut(x, epochLength)],
                          [ForwardTransfer(x, 5), ForwardTransfer(x, -5)]);
    assert Funds(tx, tx.creations[0].scId) by { assert tx.forwardTransfers[0].scId == x; }
    assert Creates(tx, x) by { assert tx.creations[0].scId == x; }
    var created := Create(v, tx.creations, blockHash, height, tx.hash);
    CreateOkIff(v, tx.creations, blockHash, height, tx.hash);
    assert CreatedIds(tx.creations) == {x};
    CreditThenRefundFails(created.view, x);
    var applied := ApplyTransfers(created.view, tx.forwardTransfers, false);
    assert ApplyTx(v, tx, blockHash, height) == applied;
    assert UndoTx(applied.view, UndoRecordOf(tx)) == ApplyTransfers(applied.view, tx.forwardTransfers, true);
  }

  /**
   * Applicability does not make a transaction apply: one that sends -1 to a
   * staged sidechain with a zero balance passes the semantic check and the
   * applicability check, and then fails at its credit.
   */
  lemma NegativeTransferFailsApply(v: View, x: ScId, txHash: Hash, blockHash: Hash, height: int)
    requires x in v.staged && v.staged[x].balance == 0
    ensures var tx := Transaction(txHash, true, 0, [], [ForwardTransfer(x, -1)]);
            && CheckTxSemanticValidity(tx) == Valid
            && IsTxApplicableToState(tx, map[], Some(v.staged))
            && !ApplyTx(v, tx, blockHash, height).ok
  {
    var tx := Transaction(txHash, true, 0, [], [ForwardTransfer(x, -1)]);
    assert ExistsIn(tx.forwardTransfers[0].scId, map[], Some(v.staged));
    assert Create(v, [], blockHash, height, txHash) == Outcome(v, true);
    assert !UpdateBalance(v, x, -1).ok;
  }

  /** Crediting 5 and then -5 to a zero-balance sidechain succeeds, but undoing it fails at the first debit. */
  lemma CreditThenRefundFails(w: View, x: ScId)
    requires x in w.staged && w.staged[x].balance == 0
    ensures var fts := [ForwardTransfer(x, 5), ForwardTransfer(x, -5)];
            var credited := ApplyTransfers(w, fts, false);
            credited.ok && !ApplyTransfers(credited.view, fts, true).ok
  {
    var fts := [ForwardTransfer(x, 5), ForwardTransfer(x, -5)];
    var plus := UpdateBalance(w, x, 5);
    TransfersStep(w, fts, false);
    assert fts[1..] == [ForwardTransfer(x, -5)];
    TransfersStep(plus.view, fts[1..], false);
    assert fts[1..][1..] == [];
  }

  /**
   * The creation step of UpdateScCoins(tx) fails on a transaction that
   * creates the same sidechain twice, so such a transaction never applies.
   */
  lemma DuplicateCreationFailsApply(v: View, tx: Transaction, blockHash: Hash, height: int)
    requires !DistinctIds(tx.creations)
    ensures !ApplyTx(v, tx, blockHash, height).ok
  {
    CreateOkIff(v, tx.creations, blockHash, height, tx.hash);
  }

  /**
   * A transaction that creates a new sidechain `x` twice and funds it passes
   * the semantic check and the applicability check, and then fails to apply.
   */
  lemma DuplicateCreationPassesChecks(v: View, x: ScId, epochLength: int, txHash: Hash, blockHash: Hash, height: int)
    requires x !in v.staged
    ensures var tx := Transaction(txHash, true, 0, [CreationOut(x, epochLength), CreationOut(x, epochLength)],
                                  [ForwardTransfer(x, 1)]);
            && CheckTxSemanticValidity(tx) == Valid
            && IsTxApplicableToState(tx, map[], Some(v.staged))
            && !ApplyTx(v, tx, blockHash, height).ok
  {
    var tx := Transaction(txHash, true, 0, [CreationOut(x, epochLength), CreationOut(x, epochLength)],
                          [ForwardTransfer(x, 1)]);
    assert Funds(tx, x) by { assert tx.forwardTransfers[0].scId == x; }
    assert Creates(tx, x) by { assert tx.creations[0].scId == x; }
    assert tx.creations[0].scId == tx.creations[1].scId;
    DuplicateCreationFailsApply(v, tx, blockHash, height);
  }

  // ---------------------------------------------------------------------------
  // Scenarios.

  /**
   * Undo drains before it deletes: a sidechain created by a transaction with
   * a single forward transfer of `amount` to it is deleted by that
   * transaction's undo, although deleting it first would fail.
   */
  lemma UndoDrainsBeforeDeleting(v: View, tx: Transaction, scId: ScId, amount: Amount)
    requires scId in v.staged && v.staged[scId].balance == amount && amount > 0
    requires tx.creations == [CreationOut(scId, 0)]
    requires tx.forwardTransfers == [ForwardTransfer(scId, amount)]
    ensures !Delete(v, scId).ok
    ensures UndoTx(v, UndoRecordOf(tx)) == Outcome(Remove(UpdateBalance(v, scId, -amount).view, scId), true)
  {
    var debited := UpdateBalance(v, scId, -amount);
    assert debited.ok;
    assert ApplyTransfers(v, tx.forwardTransfers, true) == ApplyTransfers(debited.view, [], true);
    assert CreatedIds(tx.creations) == {scId} by {
      assert tx.creations[0].scId == scId;
      forall id | id in CreatedIds(tx.creations) ensures id == scId {
        var i :| 0 <= i < |tx.creations| && tx.creations[i].scId == id;
      }
    }
    assert DeleteAll(debited.view, tx.creations) == Outcome(Remove(debited.view, scId), true);
  }

  /** Deleting a sidechain that still holds coins fails and leaves the overlay unchanged. */
  lemma DeleteFundedFails(v: View, scId: ScId)
    requires scId in v.staged && v.staged[scId].balance > 0
    ensures Delete(v, scId) == Outcome(v, false)
  {
  }
}
