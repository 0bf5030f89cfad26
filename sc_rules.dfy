/**
 * The consensus checks of the sidechain manager: read-only questions about a
 * transaction's creation and forward-transfer outputs, asked against the
 * committed registry, an overlay, or the mempool.  Each early-exit scan of the
 * source is a recursive function, or membership in the set of ids it looks
 * for, whose contract states what the scan decides.
 */
module ScRules {
  import opened ScTypes

  /** How a rejected transaction is classified (only REJECT_INVALID occurs here). */
  datatype RejectCode = RejectInvalid

  /** The validation state a check leaves behind: accepted, or rejected with a DoS score and a reason. */
  datatype ValidationState = Valid | Invalid(dos: nat, code: RejectCode, reason: string)

  const ReasonTxVersion := "sidechain-tx-version"
  const ReasonMissingFwd := "sidechain-creation-missing-fwd-transfer"
  const ReasonCreationConflict := "sidechain-creation"

  /** `tx` has a creation output for `scId`. */
  ghost predicate Creates(tx: Transaction, scId: ScId)
  {
    exists j :: 0 <= j < |tx.creations| && tx.creations[j].scId == scId
  }

  /** `tx` has a forward transfer to `scId`. */
  ghost predicate Funds(tx: Transaction, scId: ScId)
  {
    exists j :: 0 <= j < |tx.forwardTransfers| && tx.forwardTransfers[j].scId == scId
  }

  /**
   * Existence as the manager sees it: with an overlay supplied, membership in
   * the overlay's staged map only; otherwise membership in the committed map.
   */
  predicate ExistsIn(scId: ScId, registry: ScInfoMap, view: Option<ScInfoMap>)
  {
    match view
    case Some(staged) => scId in staged
    case None => scId in registry
  }

  /** The early-exit loop over forward transfers: some transfer targets `scId`. */
  function TransferScan(fts: seq<ForwardTransfer>, scId: ScId): (r: bool)
    ensures r <==> exists j :: 0 <= j < |fts| && fts[j].scId == scId
  {
    if fts == [] then false
    else fts[0].scId == scId || TransferScan(fts[1..], scId)
  }

  /** anyForwardTransaction: some forward transfer of `tx` targets `scId`. */
  function AnyForwardTransaction(tx: Transaction, scId: ScId): (r: bool)
    ensures r <==> Funds(tx, scId)
  {
    TransferScan(tx.forwardTransfers, scId)
  }

  /** hasSidechainCreationOutput: some creation output of `tx` creates `scId`. */
  function HasSidechainCreationOutput(tx: Transaction, scId: ScId): (r: bool)
    ensures r <==> Creates(tx, scId)
  {
    scId in CreatedIds(tx.creations)
  }

  /** The creation loop of IsTxApplicableToState: no creation output names an existing sidechain. */
  function NoneExists(cs: seq<CreationOut>, registry: ScInfoMap, view: Option<ScInfoMap>): (r: bool)
    ensures r <==> forall i :: 0 <= i < |cs| ==> !ExistsIn(cs[i].scId, registry, view)
  {
    if cs == [] then true
    else !ExistsIn(cs[0].scId, registry, view) && NoneExists(cs[1..], registry, view)
  }

  /** The forward-transfer loop of IsTxApplicableToState: every target exists or is created by `tx`. */
  function TargetsKnown(fts: seq<ForwardTransfer>, tx: Transaction, registry: ScInfoMap, view: Option<ScInfoMap>): (r: bool)
    ensures r <==> forall i :: 0 <= i < |fts| ==>
                      ExistsIn(fts[i].scId, registry, view) || Creates(tx, fts[i].scId)
  {
    if fts == [] then true
    else
      (ExistsIn(fts[0].scId, registry, view) || HasSidechainCreationOutput(tx, fts[0].scId))
      && TargetsKnown(fts[1..], tx, registry, view)
  }

  /**
   * IsTxApplicableToState: `tx` creates no sidechain that already exists, and
   * funds only sidechains that exist or that it creates itself.
   */
  function IsTxApplicableToState(tx: Transaction, registry: ScInfoMap, view: Option<ScInfoMap>): (r: bool)
    ensures r <==>
      (forall i :: 0 <= i < |tx.creations| ==> !ExistsIn(tx.creations[i].scId, registry, view))
      && (forall i :: 0 <= i < |tx.forwardTransfers| ==>
            ExistsIn(tx.forwardTransfers[i].scId, registry, view) || Creates(tx, tx.forwardTransfers[i].scId))
  {
    NoneExists(tx.creations, registry, view) && TargetsKnown(tx.forwardTransfers, tx, registry, view)
  }

  /** The creation loop of checkTxSemanticValidity: every creation output is funded within `tx`. */
  function AllFunded(cs: seq<CreationOut>, tx: Transaction): (r: bool)
    ensures r <==> forall i :: 0 <= i < |cs| ==> Funds(tx, cs[i].scId)
  {
    if cs == [] then true
    else AnyForwardTransaction(tx, cs[0].scId) && AllFunded(cs[1..], tx)
  }

  /** checkTxSemanticValidity. */
  function CheckTxSemanticValidity(tx: Transaction): (r: ValidationState)
    ensures r.Valid? <==>
      if tx.isScVersion
      then tx.joinSplitCount == 0 && forall i :: 0 <= i < |tx.creations| ==> Funds(tx, tx.creations[i].scId)
      else CcIsNull(tx)
    ensures r.Invalid? ==> r.dos == 100 && r.code == RejectInvalid
    ensures r.Invalid? ==>
      (r.reason == ReasonTxVersion <==> !tx.isScVersion || tx.joinSplitCount > 0)
    ensures r.Invalid? ==>
      (r.reason == ReasonMissingFwd <==> tx.isScVersion && tx.joinSplitCount == 0)
  {
    if !tx.isScVersion then
      if !CcIsNull(tx) then Invalid(100, RejectInvalid, ReasonTxVersion) else Valid
    else if tx.joinSplitCount > 0 then
      Invalid(100, RejectInvalid, ReasonTxVersion)
    else if !AllFunded(tx.creations, tx) then
      Invalid(100, RejectInvalid, ReasonMissingFwd)
    else
      Valid
  }

  /** The pool loop: no pooled transaction creates `scId`. */
  function NoPoolCreation(pool: seq<Transaction>, scId: ScId): (r: bool)
    ensures r <==> forall k :: 0 <= k < |pool| ==> !Creates(pool[k], scId)
  {
    if pool == [] then true
    else !HasSidechainCreationOutput(pool[0], scId) && NoPoolCreation(pool[1..], scId)
  }

  function NoConflicts(cs: seq<CreationOut>, pool: seq<Transaction>): (r: bool)
    ensures r <==> forall i, k :: 0 <= i < |cs| && 0 <= k < |pool| ==> !Creates(pool[k], cs[i].scId)
  {
    if cs == [] then true
    else NoPoolCreation(pool, cs[0].scId) && NoConflicts(cs[1..], pool)
  }

  /**
   * hasSCCreationConflictsInMempool.  Despite its name, it returns true when
   * there is NO conflict: no creation output of `tx` names a sidechain that a
   * pooled transaction also creates.
   */
  function HasScCreationConflictsInMempool(pool: seq<Transaction>, tx: Transaction): (r: bool)
    ensures r <==> forall i, k :: 0 <= i < |tx.creations| && 0 <= k < |pool| ==>
                      !Creates(pool[k], tx.creations[i].scId)
  {
    NoConflicts(tx.creations, pool)
  }

  /** IsTxAllowedInMempool: rejected exactly when `tx` would create a sidechain some pooled transaction creates. */
  function IsTxAllowedInMempool(pool: seq<Transaction>, tx: Transaction): (r: ValidationState)
    ensures r.Invalid? <==> exists i, k :: 0 <= i < |tx.creations| && 0 <= k < |pool| &&
                              Creates(pool[k], tx.creations[i].scId)
    ensures r.Invalid? ==> r == Invalid(0, RejectInvalid, ReasonCreationConflict)
  {
    if !HasScCreationConflictsInMempool(pool, tx) then
      Invalid(0, RejectInvalid, ReasonCreationConflict)
    else
      Valid
  }

  /**
   * Of two transactions that create the same sidechain, the one admitted first
   * makes the mempool reject the other.
   */
  lemma DoubleCreationRejected(pool: seq<Transaction>, first: Transaction, second: Transaction, scId: ScId)
    requires IsTxAllowedInMempool(pool, first) == Valid
    requires Creates(first, scId) && Creates(second, scId)
    ensures IsTxAllowedInMempool(pool + [first], second) == Invalid(0, RejectInvalid, ReasonCreationConflict)
  {
    var i :| 0 <= i < |second.creations| && second.creations[i].scId == scId;
    var pool' := pool + [first];
    assert pool'[|pool|] == first;
    assert Creates(pool'[|pool|], second.creations[i].scId);
  }

  /** A transaction accepted by the semantic check funds each sidechain it creates. */
  lemma SemanticallyValidCreationsAreFunded(tx: Transaction, scId: ScId)
    requires CheckTxSemanticValidity(tx) == Valid
    requires Creates(tx, scId)
    ensures tx.isScVersion && Funds(tx, scId)
  {
    var i :| 0 <= i < |tx.creations| && tx.creations[i].scId == scId;
    assert Funds(tx, tx.creations[i].scId);
  }

  /**
   * In a transaction applicable to a state, each forward transfer targets
   * either a sidechain that already exists there or one the transaction
   * creates, never both.
   */
  lemma ApplicableTransferTargets(tx: Transaction, registry: ScInfoMap, view: Option<ScInfoMap>, j: nat)
    requires IsTxApplicableToState(tx, registry, view)
    requires j < |tx.forwardTransfers|
    ensures ExistsIn(tx.forwardTransfers[j].scId, registry, view) <==> !Creates(tx, tx.forwardTransfers[j].scId)
  {
    if Creates(tx, tx.forwardTransfers[j].scId) {
      var i :| 0 <= i < |tx.creations| && tx.creations[i].scId == tx.forwardTransfers[j].scId;
      assert !ExistsIn(tx.creations[i].scId, registry, view);
    }
  }
}
