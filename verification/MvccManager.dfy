/**
 Transactions and their manager (nanograph-btree/src/mvcc_transaction.rs).  The manager keeps the calls it
 has answered: its state is the run of those calls in `MvccSnapshot`, so the theorems about runs of calls
 are theorems about these objects.
 */
module MvccManager {
  import opened Wrappers
  import opened Bytes
  import opened MvccModel
  import opened MvccLeaf
  import opened MvccSnapshot
  import opened Mvcc

  class MvccTransaction {
    const id: TxId
    const snapshotTs: nat
    const tree: MvccBPlusTree
    var writeBuffer: Writes
    var active: bool

    constructor (id: TxId, snapshotTs: nat, tree: MvccBPlusTree)
      ensures this.id == id && this.snapshotTs == snapshotTs && this.tree == tree && writeBuffer == map[] && active
    {
      this.id := id;
      this.snapshotTs := snapshotTs;
      this.tree := tree;
      writeBuffer := map[];
      active := true;
    }

    /** The buffered write if there is one, else the tree at the snapshot. */
    method Get(key: Key) returns (r: Result<Option<Value>>)
      requires tree.Valid()
      ensures r.Ok? <==> active
      ensures r.Ok? ==> r.value == if key in writeBuffer then writeBuffer[key]
              else ReadStore(tree.store, key, snapshotTs)
    {
      if !active {
        return Err("Transaction is not active");
      }
      if key in writeBuffer {
        return Ok(writeBuffer[key]);
      }
      var value := tree.Get(key, snapshotTs);
      r := Ok(value);
    }

    method Put(key: Key, value: Value) returns (r: Result<()>)
      modifies this
      ensures active == old(active) && (r.Ok? <==> active)
      ensures writeBuffer == if active then old(writeBuffer)[key := Some(value)] else old(writeBuffer)
    {
      if !active {
        return Err("Transaction is not active");
      }
      writeBuffer := writeBuffer[key := Some(value)];
      r := Ok(());
    }

    method Delete(key: Key) returns (r: Result<()>)
      modifies this
      ensures active == old(active) && (r.Ok? <==> active)
      ensures writeBuffer == if active then old(writeBuffer)[key := None] else old(writeBuffer)
    {
      if !active {
        return Err("Transaction is not active");
      }
      writeBuffer := writeBuffer[key := None];
      r := Ok(());
    }

    method Commit(commitTs: nat) returns (r: Result<()>)
      requires tree.Valid()
      modifies this, tree
      ensures tree.Valid() && tree.minSnapshotTs == old(tree.minSnapshotTs) && writeBuffer == old(writeBuffer)
              && !active
      ensures r.Ok? <==> old(active) && !Conflicts(old(tree.store), writeBuffer, snapshotTs)
      ensures r.Ok? <==> old(active) && forall k, j ::
                           k in writeBuffer && k in old(tree.store) && 0 <= j < |old(tree.store)[k]| ==>
                             0 < old(tree.store)[k][j].commitTs <= snapshotTs
      ensures tree.store == if !old(active) then old(tree.store)
                            else if r.Ok? then CommitStore(Install(old(tree.store), writeBuffer, id, 0), id, commitTs)
                            else RollbackStore(old(tree.store), id)
      ensures r.Ok? && AllCommitted(old(tree.store)) ==>
                tree.store == Install(old(tree.store), writeBuffer, id, commitTs)
    {
      if !active {
        return Err("Transaction is not active");
      }
      var ops := BufferedWrites();
      r := tree.AtomicCommit(ops, snapshotTs, id, commitTs, writeBuffer);
      active := false;
    }

    /** The buffered writes in whatever order the buffer yields them. */
    method BufferedWrites() returns (ops: seq<WriteOp>)
      ensures Lists(ops, writeBuffer)
    {
      ops := [];
      var todo := writeBuffer.Keys;
      while todo != {}
        invariant todo <= writeBuffer.Keys
        invariant forall i, j :: 0 <= i < j < |ops| ==> ops[i].key != ops[j].key
        invariant forall o: WriteOp :: o in ops <==>
                    o.key in writeBuffer && o.key !in todo && writeBuffer[o.key] == o.value
        decreases todo
      {
        var k :| k in todo;
        assert forall i :: 0 <= i < |ops| ==> ops[i] in ops;
        ops := ops + [WriteOp(k, writeBuffer[k])];
        todo := todo - {k};
      }
    }

    method Rollback() returns (r: Result<()>)
      requires tree.Valid()
      modifies this, tree
      ensures tree.Valid() && tree.minSnapshotTs == old(tree.minSnapshotTs) && !active && (r.Ok? <==> old(active))
      ensures r.Ok? ==> tree.store == RollbackStore(old(tree.store), id) && writeBuffer == map[]
      ensures r.Err? ==> tree.store == old(tree.store) && writeBuffer == old(writeBuffer)
    {
      if !active {
        return Err("Transaction is not active");
      }
      tree.RollbackVersions(id);
      writeBuffer := map[];
      active := false;
      r := Ok(());
    }
  }

  class MvccTransactionManager {
    const tree: MvccBPlusTree
    var nextTxId: TxId
    var nextCommitTs: nat
    var activeTransactions: map<TxId, MvccTransaction>
    var gcCounter: nat

    /** Every transaction handed out so far, the calls answered so far, and this manager as the call machine sees it. */
    ghost var issued: map<TxId, MvccTransaction>
    ghost var calls: seq<Call>
    ghost var model: Manager

    ghost predicate Files(id: TxId, tx: MvccTransaction, t: Tx)
      reads tx
    {
      tx.id == id && tx.tree == tree && tx.snapshotTs == t.snapshot && tx.writeBuffer == t.writes
        && tx.active == t.active
    }

    /** Every transaction handed out is filed under its own id and in the state the model gives it. */
    ghost predicate Filed()
      reads this`issued, this`model, this`activeTransactions, issued.Values
    {
      && issued.Keys == model.core.txs.Keys
      && (forall id {:trigger issued[id]} :: id in issued ==> Files(id, issued[id], model.core.txs[id]))
      && (forall id :: id in activeTransactions ==> id in issued && activeTransactions[id] == issued[id])
    }

    ghost predicate Tied()
      reads this`issued, this`model, this`activeTransactions, this`nextTxId, this`nextCommitTs, this`gcCounter, tree,
            issued.Values
    {
      && Filed() && tree.Valid()
      && nextTxId == model.core.nextTxId && nextCommitTs == model.core.nextCommitTs && tree.store == model.core.store
      && activeTransactions.Keys == model.live && tree.minSnapshotTs == model.watermark
      && gcCounter == model.gcCounter && tree.maxVersions == model.maxVersions
    }

    ghost predicate Valid()
      reads this, tree, issued.Values
    {
      Tied() && Answered()
    }

    /** The state of the machine is the run of the calls. */
    ghost predicate Answered()
      reads this`model, this`calls
    {
      model == RunCalls(tree.maxVersions, calls)
    }

    /** Notes the call that has just been answered. */
    ghost method Note(c: Call, before: Manager)
      requires before == RunCalls(tree.maxVersions, calls) && Issued(before) && model == DoCall(before, c)
      modifies this`calls
      ensures calls == old(calls) + [c] && Answered()
    {
      RunSnoc(tree.maxVersions, calls, c);
      calls := calls + [c];
    }

    ghost predicate Owns(tx: MvccTransaction)
      reads this, tx
    {
      tx.id in issued && issued[tx.id] == tx
    }

    constructor (tree: MvccBPlusTree)
      ensures this.tree == tree && nextTxId == 1 && nextCommitTs == 1 && activeTransactions == map[] && gcCounter == 0
      ensures issued == map[] && calls == []
      ensures tree.Valid() && tree.store == map[] && tree.minSnapshotTs == 0 ==> Valid()
    {
      this.tree := tree;
      nextTxId := 1;
      nextCommitTs := 1;
      activeTransactions := map[];
      gcCounter := 0;
      issued := map[];
      calls := [];
      model := RunCalls(tree.maxVersions, []);
    }

    /** Sets the tree's watermark to the smallest snapshot among the active transactions. */
    method UpdateMinSnapshotTs()
      requires Tied()
      modifies this`model, tree`minSnapshotTs
      ensures Tied() && Issued(old(model)) && model == Rewatermark(old(model))
    {
      var min := MinActiveSnapshot();
      tree.UpdateMinSnapshotTs(min);
      model := Rewatermark(model);
    }

    method MinActiveSnapshot() returns (ts: nat)
      requires Filed() && activeTransactions.Keys == model.live && nextCommitTs == model.core.nextCommitTs
      ensures Issued(model) && ts == MinSnapshot(model.core, model.live)
    {
      var todo := activeTransactions.Keys;
      var min: Option<nat> := None;
      while todo != {}
        invariant todo <= activeTransactions.Keys
        invariant min.None? <==> todo == activeTransactions.Keys
        invariant forall id :: id in model.live && id !in todo ==> min.Some? && min.value <= model.core.txs[id].snapshot
        invariant min.Some? ==> exists id :: id in model.live && model.core.txs[id].snapshot == min.value
        decreases todo
      {
        var id :| id in todo;
        assert issued[id] == activeTransactions[id];
        var snapshot := activeTransactions[id].snapshotTs;
        if min.None? || snapshot < min.value {
          min := Some(snapshot);
        }
        todo := todo - {id};
      }
      ts := if min.Some? then min.value else nextCommitTs;
    }

    method Begin() returns (tx: MvccTransaction)
      requires Valid()
      modifies this, tree
      ensures Valid() && fresh(tx) && issued == old(issued)[tx.id := tx] && calls == old(calls) + [CallBegin]
      ensures Issued(old(model)) && model == BeginCall(old(model))
    {
      BetweenCalls(tree.maxVersions, calls);
      tx := BeginTied();
      Note(CallBegin, old(model));
    }

    method BeginTied() returns (tx: MvccTransaction)
      requires Tied() && nextTxId !in model.core.txs
      modifies this, tree
      ensures Tied() && fresh(tx) && issued == old(issued)[tx.id := tx] && calls == old(calls)
      ensures Issued(old(model)) && model == BeginCall(old(model))
    {
      tx := Open();
      UpdateMinSnapshotTs();
    }

    /** Hands out the next id with the latest commit timestamp as snapshot. */
    method Open() returns (tx: MvccTransaction)
      requires Tied() && nextTxId !in model.core.txs
      modifies this
      ensures Tied() && fresh(tx) && issued == old(issued)[tx.id := tx] && calls == old(calls)
      ensures model == old(model).(core := DoBegin(old(model).core), live := old(model).live + {old(nextTxId)})
    {
      var snapshot := if nextCommitTs > 0 then nextCommitTs - 1 else 0;
      tx := new MvccTransaction(nextTxId, snapshot, tree);
      Enlist(tx);
    }

    /** Puts a new transaction on the active list. */
    method Enlist(tx: MvccTransaction)
      requires Tied() && nextTxId !in model.core.txs && tx !in issued.Values
      requires tx.id == nextTxId && tx.tree == tree && tx.writeBuffer == map[] && tx.active
      requires tx.snapshotTs == if nextCommitTs > 0 then nextCommitTs - 1 else 0
      modifies this
      ensures Tied() && issued == old(issued)[tx.id := tx] && calls == old(calls)
      ensures model == old(model).(core := DoBegin(old(model).core), live := old(model).live + {tx.id})
    {
      nextTxId := nextTxId + 1;
      activeTransactions := activeTransactions[tx.id := tx];
      issued := issued[tx.id := tx];
      model := model.(core := DoBegin(model.core), live := model.live + {tx.id});
    }

    method Rollback(tx: MvccTransaction) returns (r: Result<()>)
      requires Valid() && Owns(tx)
      modifies this, tree, tx
      ensures Valid() && issued == old(issued) && calls == old(calls) + [CallRollback(tx.id)]
              && (r.Ok? <==> old(tx.active))
      ensures Issued(old(model)) && model == RollbackCall(old(model), tx.id)
    {
      r := RollbackTied(tx);
      Note(CallRollback(tx.id), old(model));
    }

    method RollbackTied(tx: MvccTransaction) returns (r: Result<()>)
      requires Tied() && Owns(tx)
      modifies this, tree, tx
      ensures Tied() && issued == old(issued) && calls == old(calls) && (r.Ok? <==> old(tx.active))
      ensures Issued(old(model)) && model == RollbackCall(old(model), tx.id)
    {
      r := Close(tx);
      UpdateMinSnapshotTs();
    }

    /** Rolls the transaction back and takes it off the active list. */
    method Close(tx: MvccTransaction) returns (r: Result<()>)
      requires Tied() && Owns(tx)
      modifies this, tree, tx
      ensures Tied() && issued == old(issued) && calls == old(calls) && (r.Ok? <==> old(tx.active))
      ensures model == old(model).(core := DoAbort(old(model).core, tx.id), live := old(model).live - {tx.id})
    {
      r := tx.Rollback();
      activeTransactions := activeTransactions - {tx.id};
      model := model.(core := DoAbort(model.core, tx.id), live := model.live - {tx.id});
    }

    method Commit(tx: MvccTransaction) returns (r: Result<()>)
      requires Valid() && Owns(tx)
      modifies this, tree, tx
      ensures Valid() && issued == old(issued) && calls == old(calls) + [CallCommit(tx.id)]
      ensures Issued(old(model)) && model == CommitCall(old(model), tx.id)
      ensures r.Ok? <==> old(tx.active) && !Conflicts(old(tree.store), old(tx.writeBuffer), tx.snapshotTs)
      ensures tx.id in old(model).core.txs && (r.Ok? <==> old(tx.active) && !Overtaken(old(model).core, tx.id))
      ensures var s := old(model).core;
              var applied := DoApply(DoDraw(s, tx.id), tx.id, s.nextCommitTs).store;
              tree.store == if Hundredth(CommitCalls(tree.maxVersions, old(calls)) + 1)
                            then GcStore(applied, tree.minSnapshotTs, tree.maxVersions) else applied
    {
      BetweenCalls(tree.maxVersions, calls);
      ghost var before := calls;
      r := CommitNoted(tx);
      CommitFacts(tree.maxVersions, before, tx.id);
    }

    method CommitNoted(tx: MvccTransaction) returns (r: Result<()>)
      requires Tied() && Answered() && Owns(tx) && AllCommitted(tree.store) && model.core.drawn == {}
      modifies this, tree, tx
      ensures Valid() && issued == old(issued) && calls == old(calls) + [CallCommit(tx.id)]
      ensures Issued(old(model)) && tx.id in old(model).core.txs && model == CommitCall(old(model), tx.id)
      ensures var t := old(model).core.txs[tx.id];
              && old(tx.active) == t.active && old(tx.writeBuffer) == t.writes && tx.snapshotTs == t.snapshot
              && (r.Ok? <==> t.active && !Conflicts(old(model).core.store, t.writes, t.snapshot))
    {
      assert Files(tx.id, issued[tx.id], model.core.txs[tx.id]);
      r := CommitTied(tx);
      Note(CallCommit(tx.id), old(model));
    }

    method CommitTied(tx: MvccTransaction) returns (r: Result<()>)
      requires Tied() && Owns(tx) && AllCommitted(tree.store) && model.core.drawn == {}
      modifies this, tree, tx
      ensures Tied() && issued == old(issued) && calls == old(calls)
      ensures Issued(old(model)) && model == CommitCall(old(model), tx.id)
      ensures r.Ok? <==> old(tx.active) && !Conflicts(old(tree.store), old(tx.writeBuffer), tx.snapshotTs)
    {
      r := DrawAndApply(tx);
      UpdateMinSnapshotTs();
      CountCommit();
    }

    /** Takes the next commit timestamp, commits with it and takes the transaction off the active list. */
    method DrawAndApply(tx: MvccTransaction) returns (r: Result<()>)
      requires Tied() && Owns(tx) && AllCommitted(tree.store) && model.core.drawn == {}
      modifies this, tree, tx
      ensures Tied() && issued == old(issued) && calls == old(calls) && model == Committed(old(model), tx.id)
      ensures r.Ok? <==> old(tx.active) && !Conflicts(old(tree.store), old(tx.writeBuffer), tx.snapshotTs)
    {
      ApplyDrawn(model.core, tx.id);
      var commitTs := nextCommitTs;
      nextCommitTs := nextCommitTs + 1;
      r := tx.Commit(commitTs);
      activeTransactions := activeTransactions - {tx.id};
      model := Committed(model, tx.id);
    }

    /** Counts the commit; every hundredth collects garbage. */
    method CountCommit()
      requires Tied()
      modifies this, tree
      ensures Tied() && issued == old(issued) && calls == old(calls) && model == Counted(old(model))
    {
      gcCounter := gcCounter + 1;
      var shouldGc := gcCounter >= GC_INTERVAL;
      if shouldGc {
        gcCounter := 0;
        tree.GcVersions();
      }
      model := Counted(model);
    }

    /** `put` or `delete` of a transaction of this manager, as a call of the machine. */
    method Write(tx: MvccTransaction, key: Key, value: Option<Value>) returns (r: Result<()>)
      requires Valid() && Owns(tx)
      modifies this`model, this`calls, tx
      ensures Valid() && calls == old(calls) + [WriteOf(tx.id, key, value)] && (r.Ok? <==> old(tx.active))
      ensures Issued(old(model))
      ensures model == DoCall(old(model), WriteOf(tx.id, key, value))
    {
      r := Buffer(tx, key, value);
      Note(WriteOf(tx.id, key, value), old(model));
    }

    method Buffer(tx: MvccTransaction, key: Key, value: Option<Value>) returns (r: Result<()>)
      requires Tied() && Owns(tx)
      modifies this`model, tx
      ensures Tied() && (r.Ok? <==> old(tx.active))
      ensures model == old(model).(core := DoWrite(old(model).core, tx.id, key, value))
    {
      if value.Some? {
        r := tx.Put(key, value.value);
      } else {
        r := tx.Delete(key);
      }
      model := model.(core := DoWrite(model.core, tx.id, key, value));
    }

    method Gc() returns (r: Result<()>)
      requires Valid()
      modifies this`model, this`calls, tree
      ensures Valid() && calls == old(calls) + [CallGc] && Issued(old(model)) && model == DoCall(old(model), CallGc)
    {
      tree.GcVersions();
      model := DoCall(model, CallGc);
      Note(CallGc, old(model));
      r := Ok(());
    }

    /**
     `get` of a transaction of this manager: its own write or the state in which it began, whatever calls came
     after, if and only if gc has left the version it sees.
     */
    method Read(tx: MvccTransaction, key: Key) returns (r: Result<Option<Value>>)
      requires Valid() && Owns(tx)
      ensures r.Ok? <==> tx.active
      ensures var s := model.core;
              && tx.id in s.txs && s.txs[tx.id].began <= |s.log|
              && (r.Ok? ==>
                    (r.value == (if key in tx.writeBuffer then tx.writeBuffer[key]
                                 else Replay(s.log[..s.txs[tx.id].began], key))
                     <==> key in tx.writeBuffer || StillThere(s, key, tx.snapshotTs)))
      ensures CallGc !in calls && CommitCalls(tree.maxVersions, calls) < 100 && r.Ok? ==>
                r.value == if key in tx.writeBuffer then tx.writeBuffer[key]
                           else Replay(model.core.log[..model.core.txs[tx.id].began], key)
    {
      assert Files(tx.id, issued[tx.id], model.core.txs[tx.id]);
      ReadsBeginTimeState(tree.maxVersions, calls, tx.id, key);
      if CallGc !in calls && CommitCalls(tree.maxVersions, calls) < 100 {
        ReadsBeginTimeStateEarly(tree.maxVersions, calls, tx.id, key);
      }
      r := tx.Get(key);
    }
  }

  function WriteOf(id: TxId, key: Key, value: Option<Value>): Call {
    if value.Some? then CallPut(id, key, value.value) else CallDelete(id, key)
  }

  /**
   What the calls rely on between one another: no timestamp is drawn, every version is committed, the next id
   is new.
   */
  lemma BetweenCalls(maxVersions: nat, calls: seq<Call>)
    ensures var s := RunCalls(maxVersions, calls).core; s.drawn == {} && AllCommitted(s.store) && s.nextTxId !in s.txs
  {
    RunCallsInv(maxVersions, calls);
    CommittedStore(RunCalls(maxVersions, calls).core);
  }

  /** What decides the next commit of a transaction, and what it leaves in the store. */
  lemma CommitFacts(maxVersions: nat, calls: seq<Call>, id: TxId)
    requires id in RunCalls(maxVersions, calls).core.txs
    ensures var s, m := RunCalls(maxVersions, calls).core, RunCalls(maxVersions, calls + [CallCommit(id)]);
            var applied := DoApply(DoDraw(s, id), id, s.nextCommitTs).store;
            && (Conflicts(s.store, s.txs[id].writes, s.txs[id].snapshot) <==> Overtaken(s, id))
            && m.core.store == if Hundredth(CommitCalls(maxVersions, calls) + 1)
                               then GcStore(applied, m.watermark, maxVersions) else applied
  {
    RunCallsInv(maxVersions, calls);
    ConflictsIffOvertaken(RunCalls(maxVersions, calls), id);
    CollectsEveryHundredth(maxVersions, calls, id);
  }

  lemma CommittedStore(s: State)
    requires Inv(s)
    ensures AllCommitted(s.store)
  {
    forall k, i | k in s.store && 0 <= i < |s.store[k]| ensures s.store[k][i].commitTs > 0 {
      assert ChainIsPrefix(s, k);
      assert s.store[k][i] == Versions(s.log, k)[i];
    }
  }
}
