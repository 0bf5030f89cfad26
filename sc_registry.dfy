/**
 * The sidechain manager and its overlay cache as objects with state.
 *
 * ScMgr holds the committed registry map (mScInfo) and the persistent store
 * beside it; ScCoinsViewCache is the per-block overlay (mUpdate, sErase) that
 * connect and disconnect work on before Flush publishes it.  Each method that
 * changes state is proved against the value-level function of ScOverlay or
 * ScCommit that specifies it.
 */
module Sidechain {
  import opened ScTypes
  import opened ScRules
  import opened ScOverlay
  import opened ScCommit

  /**
   * The registry manager.  The store is the map `db`; `failingWrites` are the
   * ids whose writes the store refuses (an uninitialised store refuses them
   * all) and `failingErases` the ids whose erasures it silently drops.
   */
  class ScMgr {
    var scInfo: ScInfoMap
    var db: ScInfoMap
    const failingWrites: set<ScId>
    const failingErases: set<ScId>

    /** Every published registry entry is in the store with the same record. */
    ghost predicate Persisted()
      reads this
    {
      forall id :: id in scInfo ==> id in db && db[id] == scInfo[id]
    }

    /** The manager as loaded from a store holding `stored`. */
    constructor (stored: ScInfoMap, failingWrites: set<ScId>, failingErases: set<ScId>)
      ensures scInfo == stored && db == stored && Persisted()
      ensures this.failingWrites == failingWrites && this.failingErases == failingErases
    {
      scInfo := stored;
      db := stored;
      this.failingWrites := failingWrites;
      this.failingErases := failingErases;
    }

    /**
     * sidechainExists: asked with an overlay, the overlay's staged map alone
     * decides; without one, the committed registry does.
     */
    method SidechainExists(scId: ScId, view: ScCoinsViewCache?) returns (b: bool)
      ensures b <==> ExistsIn(scId, scInfo, if view == null then None else Some(view.staged))
      ensures view == null ==> (b <==> scId in scInfo)
      ensures view != null ==> (b <==> scId in view.staged)
    {
      if view != null {
        b := view.SidechainExists(scId);
      } else {
        b := scId in scInfo;
      }
    }

    /** getScInfo: a copy of the registry's record of `scId`, or nothing. */
    method GetScInfo(scId: ScId) returns (r: Option<ScInfo>)
      ensures r.Some? <==> scId in scInfo
      ensures r.Some? ==> r.value == scInfo[scId]
    {
      if scId !in scInfo {
        return None;
      }
      r := Some(scInfo[scId]);
    }

    /**
     * getSidechainBalance: the balance of a registered sidechain, -1 for an
     * unknown one.  While balances stay non-negative the sentinel cannot be
     * confused with a balance.
     */
    method GetSidechainBalance(scId: ScId) returns (balance: Amount)
      ensures scId in scInfo ==> balance == scInfo[scId].balance
      ensures scId !in scInfo ==> balance == -1
      ensures NonNegative(scInfo) ==> (balance < 0 <==> scId !in scInfo)
    {
      if scId !in scInfo {
        return -1;
      }
      balance := scInfo[scId].balance;
    }

    /** writeToDb: store the record of `scId`; false when the store refuses. */
    method WriteToDb(scId: ScId, info: ScInfo) returns (ok: bool)
      modifies this`db
      ensures ok <==> scId !in failingWrites
      ensures db == if ok then old(db)[scId := info] else old(db)
    {
      ok := scId !in failingWrites;
      if ok {
        db := db[scId := info];
      }
    }

    /** eraseFromDb: drop the record of `scId` from the store; a refusal is only logged. */
    method EraseFromDb(scId: ScId)
      modifies this`db
      ensures db == if scId in failingErases then old(db) else old(db) - {scId}
    {
      if scId !in failingErases {
        db := db - {scId};
      }
    }
  }

  /** The overlay cache: staged copies of registry entries and ids pending erasure. */
  class ScCoinsViewCache {
    var staged: ScInfoMap
    var erasing: set<ScId>

    /** The overlay's state as a value. */
    function Snapshot(): View
      reads this
    {
      View(staged, erasing)
    }

    /** A fresh overlay starts from a copy of the committed registry and erases nothing. */
    constructor (mgr: ScMgr)
      ensures Snapshot() == View(mgr.scInfo, {})
    {
      staged := mgr.scInfo;
      erasing := {};
    }

    /** sidechainExists: whether the overlay stages `scId`. */
    method SidechainExists(scId: ScId) returns (b: bool)
      ensures b <==> scId in staged
    {
      b := scId in staged;
    }

    /** addSidechain: stage `info` under `scId` unless something is staged there already. */
    method AddSidechain(scId: ScId, info: ScInfo) returns (added: bool)
      modifies this`staged
      ensures added <==> scId !in old(staged)
      ensures staged == if added then old(staged)[scId := info] else old(staged)
    {
      added := scId !in staged;
      if added {
        staged := staged[scId := info];
      }
    }

    method UpdateSidechainBalance(scId: ScId, amount: Amount) returns (ok: bool)
      modifies this`staged
      ensures Outcome(Snapshot(), ok) == UpdateBalance(old(Snapshot()), scId, amount)
    {
      if scId !in staged {
        return false;
      }
      var info := staged[scId];
      staged := staged[scId := info.(balance := info.balance + amount)];
      ok := info.balance + amount >= 0;
    }

    method RemoveSidechain(scId: ScId)
      modifies this
      ensures Snapshot() == Remove(old(Snapshot()), scId)
    {
      erasing := erasing + {scId};
      staged := staged - {scId};
    }

    method DeleteSidechain(scId: ScId) returns (ok: bool)
      modifies this
      ensures Outcome(Snapshot(), ok) == Delete(old(Snapshot()), scId)
    {
      if scId !in staged {
        return false;
      }
      if staged[scId].balance > 0 {
        return false;
      }
      RemoveSidechain(scId);
      ok := true;
    }

    method CreateSidechain(tx: Transaction, blockHash: Hash, height: int) returns (ok: bool)
      modifies this
      ensures Outcome(Snapshot(), ok) == Create(old(Snapshot()), tx.creations, blockHash, height, tx.hash)
    {
      var i := 0;
      while i < |tx.creations|
        invariant 0 <= i <= |tx.creations|
        invariant Create(Snapshot(), tx.creations[i..], blockHash, height, tx.hash)
               == Create(old(Snapshot()), tx.creations, blockHash, height, tx.hash)
      {
        var sc := tx.creations[i];
        assert tx.creations[i..][0] == sc && tx.creations[i..][1..] == tx.creations[i + 1..];
        var known := SidechainExists(sc.scId);
        if known {
          return false;
        }
        var added := AddSidechain(sc.scId, NewScInfo(blockHash, height, tx.hash, sc.withdrawalEpochLength));
        // The source's failure branch for a refused insertion cannot be taken:
        // the id was just found absent.
        assert added;
        i := i + 1;
      }
      ok := true;
    }

    /** UpdateScCoins(tx): create the transaction's sidechains, then credit its forward transfers. */
    method UpdateScCoins(tx: Transaction, blockHash: Hash, height: int) returns (ok: bool)
      modifies this
      ensures Outcome(Snapshot(), ok) == ApplyTx(old(Snapshot()), tx, blockHash, height)
    {
      ok := CreateSidechain(tx, blockHash, height);
      if !ok {
        return;
      }
      ok := ApplyForwardTransfers(tx.forwardTransfers, false);
    }

    /** UpdateScCoins(txundo): debit the forward transfers, then delete the created sidechains. */
    method UpdateScCoinsUndo(undo: TxUndo) returns (ok: bool)
      modifies this
      ensures Outcome(Snapshot(), ok) == UndoTx(old(Snapshot()), undo)
    {
      ok := ApplyForwardTransfers(undo.forwardTransfers, true);
      if !ok {
        return;
      }
      var i := 0;
      while i < |undo.creations|
        invariant 0 <= i <= |undo.creations|
        invariant DeleteAll(Snapshot(), undo.creations[i..]) == UndoTx(old(Snapshot()), undo)
      {
        assert undo.creations[i..][0] == undo.creations[i] && undo.creations[i..][1..] == undo.creations[i + 1..];
        ok := DeleteSidechain(undo.creations[i].scId);
        if !ok {
          return;
        }
        i := i + 1;
      }
    }

    /** The forward-transfer loop shared by both UpdateScCoins overloads. */
    method ApplyForwardTransfers(fts: seq<ForwardTransfer>, reverse: bool) returns (ok: bool)
      modifies this
      ensures Outcome(Snapshot(), ok) == ApplyTransfers(old(Snapshot()), fts, reverse)
    {
      var i := 0;
      while i < |fts|
        invariant 0 <= i <= |fts|
        invariant ApplyTransfers(Snapshot(), fts[i..], reverse) == ApplyTransfers(old(Snapshot()), fts, reverse)
      {
        assert fts[i..][0] == fts[i] && fts[i..][1..] == fts[i + 1..];
        ok := UpdateSidechainBalance(fts[i].scId, if reverse then -fts[i].amount else fts[i].amount);
        if !ok {
          return;
        }
        i := i + 1;
      }
      ok := true;
    }

    /**
     * Flush: publish the overlay into `mgr`, staged entries first and then
     * erasures, each in ascending id order.  A failed phase ends the flush
     * with whatever it had published so far.
     */
    method Flush(mgr: ScMgr) returns (ok: bool)
      modifies mgr
      ensures FlushResult(mgr.scInfo, ok) == FlushSpec(old(mgr.scInfo), Snapshot(), mgr.failingWrites)
      ensures old(mgr.Persisted()) ==> mgr.Persisted()
      ensures ok ==> mgr.db == (old(mgr.db) + staged) - (erasing - mgr.failingErases)
      ensures forall id :: id !in staged && (id !in erasing || id in mgr.failingErases) ==>
        SameEntry(mgr.db, old(mgr.db), id)
    {
      ok := WriteStagedEntries(mgr);
      if !ok {
        return;
      }
      ok := EraseEntries(mgr);
    }

    /** The first loop of Flush: write each staged entry to the store, then to the registry. */
    method WriteStagedEntries(mgr: ScMgr) returns (ok: bool)
      modifies mgr
      ensures FlushResult(mgr.scInfo, ok) == WriteStaged(old(mgr.scInfo), staged, mgr.failingWrites)
      ensures old(mgr.Persisted()) ==> mgr.Persisted()
      ensures ok ==> mgr.db == old(mgr.db) + staged
      ensures forall id :: id !in staged ==> SameEntry(mgr.db, old(mgr.db), id)
    {
      ghost var committed := mgr.scInfo;
      ghost var stored := mgr.db;
      var todo := staged.Keys;
      ghost var done: set<ScId> := {};
      while todo != {}
        invariant todo + done == staged.Keys && todo !! done
        invariant forall d, t :: d in done && t in todo ==> d < t
        invariant done !! mgr.failingWrites
        invariant mgr.scInfo == committed + Restrict(staged, done)
        invariant mgr.db == stored + Restrict(staged, done)
        invariant old(mgr.Persisted()) ==> mgr.Persisted()
        decreases todo
      {
        var id := PickLeast(todo);
        var written := mgr.WriteToDb(id, staged[id]);
        if !written {
          WriteStopsAt(committed, staged, mgr.failingWrites, done, id, todo);
          RestrictKeepsOthers(stored, staged, done);
          return false;
        }
        mgr.scInfo := mgr.scInfo[id := staged[id]];
        PublishOneMore(committed, staged, done, id);
        PublishOneMore(stored, staged, done, id);
        todo := todo - {id};
        done := done + {id};
      }
      WriteCompletes(committed, staged, mgr.failingWrites, done);
      RestrictKeepsOthers(stored, staged, done);
      ok := true;
    }

    /** The second loop of Flush: drop each id pending erasure from the registry, then from the store. */
    method EraseEntries(mgr: ScMgr) returns (ok: bool)
      modifies mgr
      ensures FlushResult(mgr.scInfo, ok) == EraseAll(old(mgr.scInfo), erasing)
      ensures old(mgr.Persisted()) ==> mgr.Persisted()
      ensures ok ==> mgr.db == old(mgr.db) - (erasing - mgr.failingErases)
      ensures forall id :: id !in erasing || id in mgr.failingErases ==> SameEntry(mgr.db, old(mgr.db), id)
    {
      ghost var published := mgr.scInfo;
      ghost var stored := mgr.db;
      var pending := erasing;
      ghost var gone: set<ScId> := {};
      while pending != {}
        invariant pending + gone == erasing && pending !! gone
        invariant forall d, t :: d in gone && t in pending ==> d < t
        invariant gone <= published.Keys
        invariant mgr.scInfo == published - gone
        invariant mgr.db == stored - (gone - mgr.failingErases)
        invariant old(mgr.Persisted()) ==> mgr.Persisted()
        decreases pending
      {
        var id := PickLeast(pending);
        if id !in mgr.scInfo {
          PrefixBelow(erasing, gone, id, pending);
          LeastIs(erasing - published.Keys, id);
          return false;
        }
        mgr.scInfo := mgr.scInfo - {id};
        mgr.EraseFromDb(id);
        pending := pending - {id};
        gone := gone + {id};
      }
      ok := true;
    }
  }

  /** The smallest id of a non-empty set: the next one an ordered traversal visits. */
  method PickLeast(s: set<ScId>) returns (m: ScId)
    requires s != {}
    ensures m in s && forall x :: x in s ==> m <= x
  {
    ghost var l := Least(s);
    assert l.value in s && forall x :: x in s ==> l.value <= x;
    m :| m in s && forall x :: x in s ==> m <= x;
  }

  /** Publishing one more staged entry extends the published prefix by that entry. */
  lemma PublishOneMore(base: ScInfoMap, staged: ScInfoMap, done: set<ScId>, id: ScId)
    requires id in staged
    ensures (base + Restrict(staged, done))[id := staged[id]] == base + Restrict(staged, done + {id})
  {
    assert Restrict(staged, done)[id := staged[id]] == Restrict(staged, done + {id});
  }

  /** Overriding `base` with entries of `staged` leaves every id `staged` lacks as it was. */
  lemma RestrictKeepsOthers(base: ScInfoMap, staged: ScInfoMap, done: set<ScId>)
    ensures forall id :: id !in staged ==> SameEntry(base + Restrict(staged, done), base, id)
  {
  }

  /** A write refused halfway through an ordered traversal of `staged` leaves the ids visited before it published. */
  lemma WriteStopsAt(
    committed: ScInfoMap, staged: ScInfoMap, failingWrites: set<ScId>, done: set<ScId>, next: ScId, rest: set<ScId>)
    requires rest + done == staged.Keys && rest !! done
    requires forall d, t :: d in done && t in rest ==> d < t
    requires next in rest && forall x :: x in rest ==> next <= x
    requires next in failingWrites && done !! failingWrites
    ensures WriteStaged(committed, staged, failingWrites) == FlushResult(committed + Restrict(staged, done), false)
  {
    PrefixBelow(staged.Keys, done, next, rest);
    LeastIs(staged.Keys * failingWrites, next);
  }

  /** A traversal of `staged` whose writes all went through publishes all of it. */
  lemma WriteCompletes(committed: ScInfoMap, staged: ScInfoMap, failingWrites: set<ScId>, done: set<ScId>)
    requires done == staged.Keys && done !! failingWrites
    ensures WriteStaged(committed, staged, failingWrites) == FlushResult(committed + Restrict(staged, done), true)
    ensures Restrict(staged, done) == staged
  {
    assert Restrict(staged, done) == staged;
  }

  /** Halfway through an ordered traversal of `s`, the ids visited are those below the next one. */
  lemma PrefixBelow(s: set<ScId>, visited: set<ScId>, next: ScId, rest: set<ScId>)
    requires rest + visited == s && rest !! visited
    requires forall d, t :: d in visited && t in rest ==> d < t
    requires next in rest && forall x :: x in rest ==> next <= x
    ensures Below(s, next) == visited
  {
  }
}
