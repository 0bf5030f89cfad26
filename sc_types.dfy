/** Entities shared by the sidechain registry, the validation rules and the overlay cache. */
module ScTypes {

  /** A 256-bit sidechain identifier (uint256); the model visits ids in ascending order. */
  type ScId = nat

  /** A 256-bit block or transaction hash, taken as given. */
  type Hash = nat

  /** A signed amount of coins (CAmount). */
  type Amount = int

  datatype Option<T> = None | Some(value: T)

  /** Parameters fixed when a sidechain is created. */
  datatype CreationParameters = CreationParameters(withdrawalEpochLength: int)

  /** The registry's record of one sidechain (ScInfo). */
  datatype ScInfo = ScInfo(
    creationBlockHash: Hash,
    creationBlockHeight: int,
    creationTxHash: Hash,
    creationData: CreationParameters,
    balance: Amount)

  type ScInfoMap = map<ScId, ScInfo>

  /** A sidechain-creation output of a transaction. */
  datatype CreationOut = CreationOut(scId: ScId, withdrawalEpochLength: int)

  /** A forward-transfer output of a transaction: coins sent to a sidechain. */
  datatype ForwardTransfer = ForwardTransfer(scId: ScId, amount: Amount)

  /** The fields of a transaction that the sidechain code reads. */
  datatype Transaction = Transaction(
    hash: Hash,
    isScVersion: bool,
    joinSplitCount: nat,
    creations: seq<CreationOut>,
    forwardTransfers: seq<ForwardTransfer>)

  /** The sidechain part of a transaction's undo record. */
  datatype TxUndo = TxUndo(forwardTransfers: seq<ForwardTransfer>, creations: seq<CreationOut>)

  /** The undo record that reverses the sidechain effects of `tx`. */
  function UndoRecordOf(tx: Transaction): TxUndo
  {
    TxUndo(tx.forwardTransfers, tx.creations)
  }

  /** A transaction carries no sidechain output at all. */
  predicate CcIsNull(tx: Transaction)
  {
    tx.creations == [] && tx.forwardTransfers == []
  }

  /** The record a freshly created sidechain gets: creation metadata and a zero balance. */
  function NewScInfo(blockHash: Hash, height: int, txHash: Hash, epochLength: int): ScInfo
  {
    ScInfo(blockHash, height, txHash, CreationParameters(epochLength), 0)
  }

  /** Every balance in the map is non-negative. */
  predicate NonNegative(m: ScInfoMap)
  {
    forall id :: id in m ==> m[id].balance >= 0
  }

  /** `a` and `b` agree on `id`: both lack it, or both hold the same record. */
  predicate SameEntry(a: ScInfoMap, b: ScInfoMap, id: ScId)
  {
    (id in a <==> id in b) && (id in a ==> a[id] == b[id])
  }

  /** The identifiers created by a sequence of creation outputs. */
  function CreatedIds(cs: seq<CreationOut>): (ids: set<ScId>)
    ensures forall i :: 0 <= i < |cs| ==> cs[i].scId in ids
    ensures forall id :: id in ids ==> exists i :: 0 <= i < |cs| && cs[i].scId == id
  {
    set i | 0 <= i < |cs| :: cs[i].scId
  }

  /** No two creation outputs name the same sidechain. */
  predicate DistinctIds(cs: seq<CreationOut>)
  {
    forall i, j :: 0 <= i < j < |cs| ==> cs[i].scId != cs[j].scId
  }

  /** The identifiers created by a non-empty sequence: its head's, and its tail's. */
  lemma CreatedIdsCons(cs: seq<CreationOut>)
    requires cs != []
    ensures CreatedIds(cs) == {cs[0].scId} + CreatedIds(cs[1..])
  {
    forall id | id in CreatedIds(cs) ensures id in {cs[0].scId} + CreatedIds(cs[1..]) {
      var i :| 0 <= i < |cs| && cs[i].scId == id;
      if i > 0 { assert cs[1..][i - 1] == cs[i]; }
    }
  }

  /** A non-empty sequence names distinct sidechains when its tail does and its head is not among them. */
  lemma DistinctIdsCons(cs: seq<CreationOut>)
    requires cs != []
    ensures DistinctIds(cs) <==> DistinctIds(cs[1..]) && cs[0].scId !in CreatedIds(cs[1..])
  {
    if DistinctIds(cs[1..]) && cs[0].scId !in CreatedIds(cs[1..]) {
      forall i, j | 0 <= i < j < |cs| ensures cs[i].scId != cs[j].scId {
        assert cs[j] == cs[1..][j - 1];
        if i > 0 { assert cs[i] == cs[1..][i - 1]; }
      }
    }
    if DistinctIds(cs) {
      forall k | 0 <= k < |cs[1..]| ensures cs[1..][k].scId != cs[0].scId {
        assert cs[1..][k] == cs[k + 1];
      }
    }
  }
}
