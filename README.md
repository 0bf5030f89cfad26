# Sidechain registry of zen, modelled in Dafny

This project models the sidechain registry of the zen node (`src/sc/sidechain.cpp`).
The registry has three parts:

- **ScMgr**, the process-wide manager. It owns the committed map from
  sidechain id to sidechain record (`mScInfo`) and the persistent store
  beside it. It answers existence, record and balance queries, and runs the
  consensus checks on a transaction's sidechain outputs:
  - semantic validity;
  - applicability to the registry or to an overlay;
  - creation conflicts with the mempool.
- **ScCoinsViewCache**, the overlay a block connect or disconnect works on.
  It holds a staged copy of the committed map (`mUpdate`) and a set of ids
  pending erasure (`sErase`):
  - it creates sidechains, credits forward transfers, and reverses both from
    an undo record;
  - `Flush` then publishes it into the manager: staged entries first, each
    written to the store before it becomes visible, then the erasures.
- **The records**: a sidechain record (creation block hash, height,
  transaction hash, withdrawal epoch length, balance), a transaction's
  creation and forward-transfer outputs, and its undo record.

The project has five modules, one file each:

- `sc_types.dfy` (`ScTypes`): the entities, as datatypes.
- `sc_rules.dfy` (`ScRules`): the read-only checks. Each early-exit scan is
  either a recursive function or membership in the set of ids it looks for
  (`HasSidechainCreationOutput` uses `CreatedIds`). Its contract says, with
  `forall`/`exists`, exactly what it decides.
- `sc_overlay.dfy` (`ScOverlay`): each overlay operation as a function from
  the overlay state (`View`: staged map and erase set) to the new state and
  the boolean result (`Outcome`). It also holds the lemmas about these
  operations, among them:
  - balances stay non-negative;
  - undoing a transaction restores the staged map it was applied to;
  - a creation conflict stops the transaction before any credit.
- `sc_commit.dfy` (`ScCommit`): what `Flush` does to the committed map,
  including the partial publication left by a failed flush. Lemmas:
  - connect-then-disconnect restores the registry;
  - a create-and-undo in one overlay makes the flush fail.
- `sc_registry.dfy` (`Sidechain`): the classes `ScMgr` and
  `ScCoinsViewCache`. Their fields are updated in place, and each
  state-changing method is proved against the `ScOverlay`/`ScCommit` function
  that specifies it. `Flush` visits keys in ascending order. This is a
  modelling assumption (see "## Left out"), and it pins down exactly what a
  failed flush leaves published.

Modelling choices:

- Sidechain ids and hashes (`uint256`) are `nat`; `CAmount` is `int`.
- The persistent store is a map. Its behaviour is fixed by two sets on the
  manager:
  - the ids whose writes it refuses;
  - the ids whose erasures it silently drops.

  One flush on a store that was never opened is modelled by a refused-writes
  set that holds every staged id and a dropped-erasures set that holds the
  whole erase set.
- Block and transaction hashes are given values.
- A mempool is a sequence of transactions.

## Model

| member | source | states |
|---|---|---|
| `ScRules.AnyForwardTransaction` | src/sc/sidechain.cpp:132-142 | true exactly when some forward transfer of the transaction targets the id |
| `ScRules.HasSidechainCreationOutput` | src/sc/sidechain.cpp:144-154 | true exactly when some creation output of the transaction names the id |
| `ScRules.IsTxApplicableToState` | src/sc/sidechain.cpp:94-130 | true exactly when (a) no creation output names a sidechain that exists and (b) every forward transfer targets a sidechain that exists or that the same transaction creates; existence means the overlay's staged map when an overlay is given, the committed map otherwise |
| `ScRules.ApplicableTransferTargets` | src/sc/sidechain.cpp:112-128 | in an applicable transaction each forward transfer's target exists if and only if the transaction does not create it |
| `ScRules.CheckTxSemanticValidity` | src/sc/sidechain.cpp:156-199 | valid exactly when a non-sidechain-version transaction has no sidechain output, or a sidechain-version one has no joinsplit and funds every sidechain it creates; every rejection has DoS 100 and REJECT_INVALID; the reason is "sidechain-tx-version" exactly for version or joinsplit mismatches and "sidechain-creation-missing-fwd-transfer" exactly for an unfunded creation |
| `ScRules.SemanticallyValidCreationsAreFunded` | src/sc/sidechain.cpp:186-196 | a transaction that passes the semantic check and creates a sidechain is sidechain-version and sends it a forward transfer |
| `ScRules.HasScCreationConflictsInMempool` | src/sc/sidechain.cpp:210-230 | true exactly when NO creation output of the transaction names a sidechain that a pooled transaction also creates (the inverted naming of the source) |
| `ScRules.IsTxAllowedInMempool` | src/sc/sidechain.cpp:200-208 | rejected exactly when some creation id of the transaction is created by a pooled transaction, and then with DoS 0, REJECT_INVALID, "sidechain-creation" |
| `ScRules.DoubleCreationRejected` | src/sc/sidechain.cpp:200-230 | of two transactions creating the same sidechain, once the first is pooled the second is rejected |
| `ScOverlay.UpdateBalance` | src/sc/sidechain.cpp:485-511 | a missing id fails with no change; otherwise the balance becomes old + amount, the result is false exactly when that is negative (the negative value stays staged), and no other entry, key or erasure changes |
| `ScOverlay.Remove` | src/sc/sidechain.cpp:518-526 | the id is added to the erase set and is no longer staged; every other id keeps its staging, record and erase membership |
| `ScOverlay.Delete` | src/sc/sidechain.cpp:561-581 | succeeds exactly when the id is staged with a balance that is not positive, and then removes it; on failure nothing changes |
| `ScOverlay.Create` | src/sc/sidechain.cpp:528-559 | never touches the erase set or an entry staged before; on success the staged keys grow by exactly the created ids, each holding a zero-balance record with the block hash, height, transaction hash and epoch length of its output |
| `ScOverlay.CreateOkIff` | src/sc/sidechain.cpp:533-557 | creation succeeds exactly when no creation output names a staged id and no two outputs name the same id |
| `ScOverlay.ApplyTransfers` | src/sc/sidechain.cpp:443-451 | the transfer loop keeps keys and erase set, changes nothing but balances, and cannot fail when every target is staged, balances are non-negative and amounts are credited non-negative |
| `ScOverlay.TransfersMoveBalances` | src/sc/sidechain.cpp:443-451 | a transfer loop that succeeds moves each staged balance by exactly the total the transfers send to that id (`SentTo`): credited by UpdateScCoins(tx), debited by UpdateScCoins(txundo) |
| `ScOverlay.DeleteAll` | src/sc/sidechain.cpp:474-481 | the deletion loop succeeds exactly when the ids are distinct and each is staged with a non-positive balance, and then unstages exactly those ids and adds them to the erase set |
| `ScOverlay.CreationConflictStopsApply` | src/sc/sidechain.cpp:433-441 | a creation output naming a staged sidechain makes UpdateScCoins(tx) fail with every earlier staged record intact, so no forward transfer is credited |
| `ScOverlay.TransfersPreserveNonNegative` | src/sc/sidechain.cpp:499-505 | a transfer loop that succeeds leaves every staged balance non-negative |
| `ScOverlay.ApplyTxPreservesNonNegative` | src/sc/sidechain.cpp:433-453 | a successful UpdateScCoins(tx) keeps every staged balance non-negative |
| `ScOverlay.UndoTxPreservesNonNegative` | src/sc/sidechain.cpp:461-483 | a successful UpdateScCoins(txundo) keeps every staged balance non-negative |
| `ScOverlay.CreditDebitCancel` | src/sc/sidechain.cpp:466-472 | debiting the forward transfers just credited succeeds and gives back exactly the overlay before the credit |
| `ScOverlay.CreationsReady` | src/sc/sidechain.cpp:528-559 | for a transaction that is applicable to an overlay with non-negative balances, creates distinct ids and sends non-negative amounts, the creations succeed, add exactly the created ids with zero balance, and leave every forward transfer fundable |
| `ScOverlay.ApplyTxShape` | src/sc/sidechain.cpp:433-453 | for a transaction that is applicable to an overlay with non-negative balances, creates distinct ids and sends non-negative amounts, UpdateScCoins(tx) succeeds, adds exactly the created ids and leaves the erase set alone |
| `ScOverlay.ApplyThenUndoRestores` | src/sc/sidechain.cpp:461-483 | UpdateScCoins(txundo) after UpdateScCoins(tx) succeeds and gives back the original staged map, with the created ids marked for erasure |
| `ScOverlay.UndoOnFreshOverlay` | src/sc/sidechain.cpp:461-483 | the same round trip when the undo runs on a new overlay over the connected state |
| `ScOverlay.NegativeTransferBreaksUndo` | src/sc/sidechain.cpp:433-483 | a transaction creating `x` and sending it 5 and then -5 passes the semantic check, is applicable and applies, yet its undo fails: the round trip needs non-negative amounts |
| `ScOverlay.NegativeTransferFailsApply` | src/sc/sidechain.cpp:433-451 | a transaction sending -1 to a staged zero-balance sidechain passes the semantic and applicability checks, and UpdateScCoins(tx) then fails at the credit |
| `ScOverlay.CreditThenRefundFails` | src/sc/sidechain.cpp:466-472 | on a zero balance, crediting 5 then -5 succeeds, but the reverse debits fail at the first one |
| `ScOverlay.DuplicateCreationFailsApply` | src/sc/sidechain.cpp:433-441 | a transaction that creates the same id twice never applies, whatever the overlay |
| `ScOverlay.DuplicateCreationPassesChecks` | src/sc/sidechain.cpp:94-130 | a transaction creating a new id twice and funding it passes the semantic and applicability checks and still fails to apply, so the creation step of UpdateScCoins(tx) can fail after those checks |
| `ScOverlay.UndoDrainsBeforeDeleting` | src/sc/sidechain.cpp:461-483 | a funded sidechain cannot be deleted directly, but the undo of the transaction that funded it debits it to zero first and then deletes it |
| `ScOverlay.DeleteFundedFails` | src/sc/sidechain.cpp:571-577 | deleting a sidechain with a positive balance fails and changes nothing |
| `ScCommit.WriteStaged` | src/sc/sidechain.cpp:589-600 | succeeds exactly when the store accepts every staged write, and then publishes the staged map over the committed one; on failure only entries below the refused id are published |
| `ScCommit.EraseAll` | src/sc/sidechain.cpp:603-617 | succeeds exactly when every id to erase is in the registry, and then removes exactly those ids; no surviving entry changes |
| `ScCommit.FlushSpec` | src/sc/sidechain.cpp:583-619 | Flush succeeds exactly when every staged write is accepted and every erase target is in the committed map after the writes; then the registry is the old one overwritten by the staged map minus the erase set; every entry comes from the old registry or the staged map, and entries neither staged nor erased keep their old record |
| `ScCommit.WriteFailureErasesNothing` | src/sc/sidechain.cpp:592-595 | a refused write fails the flush with every previously committed id still registered and the refused entry not published |
| `ScCommit.CreateThenUndoInOneOverlayFailsFlush` | src/sc/sidechain.cpp:612-616 | an overlay that creates an uncommitted sidechain and undoes it holds the id in its erase set and not in its staged map, and its Flush fails whatever the store does |
| `ScCommit.CreateFundFlushScenario` | src/sc/sidechain.cpp:433-600 | a transaction creating `x` and sending it `amount`, applied to a fresh overlay and flushed, registers `x` with its creation record and a balance of exactly `amount` |
| `ScCommit.ConnectThenDisconnectRestoresRegistry` | src/sc/sidechain.cpp:433-619 | connecting an applicable transaction through a fresh overlay and Flush, then disconnecting it through its undo record, a fresh overlay and Flush, gives back the committed map |
| `Sidechain.ScMgr.SidechainExists` | src/sc/sidechain.cpp:32-46 | with an overlay, true exactly when the overlay stages the id; without one, exactly when the committed map holds it |
| `Sidechain.ScMgr.GetScInfo` | src/sc/sidechain.cpp:67-79 | the record of a registered id, nothing for an unknown one |
| `Sidechain.ScMgr.GetSidechainBalance` | src/sc/sidechain.cpp:81-92 | the stored balance of a registered id, -1 for an unknown one; with non-negative balances a negative result means exactly "unknown" |
| `Sidechain.ScMgr.WriteToDb` | src/sc/sidechain.cpp:326-362 | false exactly for a refused write; on success the store holds the record |
| `Sidechain.ScMgr.EraseFromDb` | src/sc/sidechain.cpp:292-323 | the store drops the id unless it refuses, and the refusal is not reported |
| `Sidechain.ScCoinsViewCache.constructor` | src/sc/sidechain.cpp:455-459 | a new overlay stages a copy of the committed map and erases nothing |
| `Sidechain.ScCoinsViewCache.SidechainExists` | src/sc/sidechain.cpp:621-625 | true exactly when the id is staged |
| `Sidechain.ScCoinsViewCache.AddSidechain` | src/sc/sidechain.cpp:513-516 | inserts exactly when the id is not staged, and reports whether it did |
| `Sidechain.ScCoinsViewCache.UpdateSidechainBalance` | src/sc/sidechain.cpp:485-511 | the new overlay state and the result are those of `UpdateBalance` |
| `Sidechain.ScCoinsViewCache.RemoveSidechain` | src/sc/sidechain.cpp:518-526 | the new overlay state is that of `Remove` |
| `Sidechain.ScCoinsViewCache.DeleteSidechain` | src/sc/sidechain.cpp:561-581 | the new overlay state and the result are those of `Delete` |
| `Sidechain.ScCoinsViewCache.CreateSidechain` | src/sc/sidechain.cpp:528-559 | the new overlay state and the result are those of `Create`; the failure branch for a refused insertion is proved unreachable |
| `Sidechain.ScCoinsViewCache.ApplyForwardTransfers` | src/sc/sidechain.cpp:443-451 | the new overlay state and the result are those of `ApplyTransfers` |
| `Sidechain.ScCoinsViewCache.UpdateScCoins` | src/sc/sidechain.cpp:433-453 | creates, then credits the forward transfers only if every creation succeeded, as `ApplyTx` |
| `Sidechain.ScCoinsViewCache.UpdateScCoinsUndo` | src/sc/sidechain.cpp:461-483 | debits every forward transfer before deleting any created sidechain, stopping at the first failure, as `UndoTx` |
| `Sidechain.ScCoinsViewCache.Flush` | src/sc/sidechain.cpp:583-619 | the registry and the result are those of `FlushSpec`; if every registry entry was persisted before, it still is; on success the store is the old store overwritten by the staged map, minus the erased ids whose erasure the store did not drop; ids neither staged nor erased (or whose erasure was dropped) keep their stored record |
| `Sidechain.ScCoinsViewCache.WriteStagedEntries` | src/sc/sidechain.cpp:589-600 | the write loop, in ascending id order, has the effect of `WriteStaged` on the registry; on success the store is the old store overwritten by the staged map, and ids not staged keep their stored record even on failure |
| `Sidechain.ScCoinsViewCache.EraseEntries` | src/sc/sidechain.cpp:603-617 | the erase loop, in ascending id order, has the effect of `EraseAll` on the registry; on success the store has lost exactly the erased ids whose erasure it did not drop; ids not erased, or whose erasure was dropped, keep their stored record |

## Left out

- `initialUpdateFromDb` (store scan and deserialisation): the `ScMgr`
  constructor takes the loaded map, and the store starts out holding the
  same map.
- `dump_info` (both overloads) and `ScInfo::ToString`: diagnostics only.
- All logging.
- `getScIdSet` and `copyScInfoMap`: the overlay constructor reads the
  committed map directly.
- The `sc_lock` mutex and the `ScMgr::instance()` singleton: the model is
  sequential, and the manager is an object passed in.
- The batch and exception plumbing of `writeToDb`/`eraseFromDb`. A write's
  outcome is fixed per id by the manager's refused-writes set, and an
  erasure's by its dropped-erasures set. With `db == NULL`, every write fails
  and every erasure is a no-op. For one flush this is the case where the
  refused-writes set holds every staged id and the dropped-erasures set holds
  the erase set; the sets are finite, so they cannot cover every id at once.
- Computing block and transaction hashes: they are parameters.
- `CAmount` is a 64-bit integer in the source. The model uses unbounded
  integers, so `UpdateBalance` does not model overflow of `balance + amount`.
- The immature-amounts field of the sidechain record and the other fields
  of `ScInfo` that this file never reads or sets are not modelled.
- `ScOverlay.CreditDebitCancel`, `ScOverlay.CreationsReady`,
  `ScOverlay.ApplyTxShape`, `ScOverlay.ApplyThenUndoRestores`,
  `ScOverlay.UndoOnFreshOverlay`, `ScCommit.CreateThenUndoInOneOverlayFailsFlush`
  and `ScCommit.ConnectThenDisconnectRestoresRegistry` require every forward
  transfer amount to be non-negative. All but `CreditDebitCancel` also require
  distinct creation ids, and all require non-negative staged balances. So
  "applicable" alone does not make a transaction apply: a transaction that
  sends -1 to a staged zero-balance sidechain passes both checks and fails
  (`ScOverlay.NegativeTransferFailsApply`). Nothing in `sidechain.cpp` checks the
  sign of an amount; any range check the node applies to output values lives
  outside this file and is not part of this model.
  `ScOverlay.NegativeTransferBreaksUndo` shows that the round trip fails
  without this requirement.
- `WriteStaged`, `EraseAll`, `Sidechain.ScCoinsViewCache.WriteStagedEntries`,
  `Sidechain.ScCoinsViewCache.EraseEntries` and `Sidechain.ScCoinsViewCache.Flush`
  visit ids in ascending order. The container types of the registry, the
  staged map and the erase set are declared in `sc/sidechain.h`, which is not
  part of this model, so this order is an assumption. A flush that succeeds
  has the same result in any order. A flush that fails publishes exactly the
  entries below the failing id; another order would publish a different set
  of entries before the failure.
- `UndoTx` takes the undo record's forward-transfer and creation lists as
  given. How the undo record is built elsewhere is not part of this model;
  `UndoRecordOf` gives the record a transaction produces.

Behaviour of the code that the model keeps as written, where a reader
might expect otherwise:

- `deleteSidechain` rejects only a positive balance. A zero balance and a
  negative one both let deletion proceed; a negative one can only be staged
  after a failed balance update.
- The rejection reasons are the strings the code uses:
  "sidechain-tx-version", "sidechain-creation-missing-fwd-transfer" and
  "sidechain-creation".
- `IsTxApplicableToState` returns only a boolean, with no reason.
- `hasSCCreationConflictsInMempool` returns true when there is no conflict.
- `IsTxApplicableToState` does not reject a transaction that creates the
  same id twice, but `createSidechain` fails on it
  (`ScOverlay.DuplicateCreationFailsApply`,
  `ScOverlay.DuplicateCreationPassesChecks`), although `UpdateScCoins(tx)`
  expects that step never to fail. The round-trip lemmas therefore also
  require distinct creation ids.
