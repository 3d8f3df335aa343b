/**
 Snapshot-isolation transactions as a state machine (nanograph-btree/src/mvcc_transaction.rs,
 mvcc_tree.rs).  Drawing a commit timestamp and applying the writes under the tree lock are separate
 steps here, so any number of transactions may sit between the two.  `log` is a history variable: the
 commits in the order they were applied.
 */
module MvccModel {
  import opened Wrappers
  import opened Bytes
  import opened MvccChain

  type TxId = nat
  type Store = map<Key, Chain>
  type Writes = map<Key, Option<Value>>

  /** `began` is the length of the log when the transaction began. */
  datatype Tx = Tx(snapshot: nat, writes: Writes, active: bool, began: nat)

  datatype CommitRecord = CommitRecord(txId: TxId, snapshot: nat, ts: nat, writes: Writes, installed: set<Key>)

  type Log = seq<CommitRecord>

  datatype State = State(nextTxId: TxId, nextCommitTs: nat, txs: map<TxId, Tx>, store: Store,
                         drawn: set<(TxId, nat)>, log: Log)

  const INITIAL := State(1, 1, map[], map[], {}, [])

  // ---------- the version store ----------

  /** Deleting a key that has no chain installs nothing. */
  function Installed(store: Store, writes: Writes): set<Key> {
    set k | k in writes && (writes[k].Some? || k in store)
  }

  /** All writes of one transaction as one committed version each. */
  function Install(store: Store, writes: Writes, txId: TxId, ts: nat): Store {
    map k | k in store.Keys + Installed(store, writes) ::
      if k in writes then [Version(writes[k], txId, ts)] + (if k in store then store[k] else []) else store[k]
  }

  predicate Conflicts(store: Store, writes: Writes, snapshot: nat) {
    exists k :: k in writes && k in store && HasConflict(store[k], snapshot)
  }

  function RollbackStore(store: Store, txId: TxId): Store {
    map k | k in store && Rollback(store[k], txId) != [] :: Rollback(store[k], txId)
  }

  function GcStore(store: Store, watermark: nat, maxVersions: nat): Store {
    map k | k in store :: Kept(store[k], 0, watermark, maxVersions)
  }

  function ReadStore(store: Store, key: Key, snapshot: nat): Option<Value> {
    if key in store then Get(store[key], snapshot) else None
  }

  // ---------- steps ----------

  datatype Action =
    | Begin
    | Write(id: TxId, key: Key, value: Option<Value>)
    | Draw(id: TxId)
    | Apply(id: TxId, ts: nat)
    | Abort(id: TxId)
    | Gc(watermark: nat, maxVersions: nat)

  predicate IsActive(s: State, id: TxId) {
    id in s.txs && s.txs[id].active
  }

  function DoBegin(s: State): State {
    var snapshot := if s.nextCommitTs > 0 then s.nextCommitTs - 1 else 0;
    s.(nextTxId := s.nextTxId + 1, txs := s.txs[s.nextTxId := Tx(snapshot, map[], true, |s.log|)])
  }

  function DoWrite(s: State, id: TxId, key: Key, value: Option<Value>): State {
    if IsActive(s, id) then s.(txs := s.txs[id := s.txs[id].(writes := s.txs[id].writes[key := value])]) else s
  }

  /** `commit` of the manager up to the point where it has its timestamp. */
  function DoDraw(s: State, id: TxId): State {
    if id in s.txs then s.(nextCommitTs := s.nextCommitTs + 1, drawn := s.drawn + {(id, s.nextCommitTs)}) else s
  }

  function Retire(s: State, id: TxId): map<TxId, Tx>
    requires id in s.txs
  {
    s.txs[id := s.txs[id].(active := false)]
  }

  /** `commit` of the transaction with a timestamp drawn earlier. */
  function DoApply(s: State, id: TxId, ts: nat): State {
    if (id, ts) !in s.drawn || id !in s.txs then s
    else
      var s1 := s.(drawn := s.drawn - {(id, ts)});
      var tx := s.txs[id];
      if !tx.active then s1
      else if Conflicts(s.store, tx.writes, tx.snapshot) then s1.(store := RollbackStore(s.store, id),
                                                                  txs := Retire(s, id))
      else s1.(store := Install(s.store, tx.writes, id, ts), txs := Retire(s, id),
               log := s.log + [CommitRecord(id, tx.snapshot, ts, tx.writes, Installed(s.store, tx.writes))])
  }

  function DoAbort(s: State, id: TxId): State {
    if IsActive(s, id)
    then s.(store := RollbackStore(s.store, id), txs := s.txs[id := s.txs[id].(writes := map[], active := false)])
    else s
  }

  function DoGc(s: State, watermark: nat, maxVersions: nat): State {
    s.(store := GcStore(s.store, watermark, maxVersions))
  }

  function Do(s: State, a: Action): State {
    match a
    case Begin => DoBegin(s)
    case Write(id, key, value) => DoWrite(s, id, key, value)
    case Draw(id) => DoDraw(s, id)
    case Apply(id, ts) => DoApply(s, id, ts)
    case Abort(id) => DoAbort(s, id)
    case Gc(watermark, maxVersions) => DoGc(s, watermark, maxVersions)
  }

  /** The state after a whole run of interleaved steps. */
  function Run(actions: seq<Action>): State {
    if actions == [] then INITIAL else Do(Run(actions[..|actions| - 1]), actions[|actions| - 1])
  }

  // ---------- what the log says about a key ----------

  /** Every version of `key` ever installed, newest first. */
  ghost function Versions(log: Log, key: Key): Chain {
    if log == [] then []
    else
      var c := log[|log| - 1];
      var older := Versions(log[..|log| - 1], key);
      if key in c.installed && key in c.writes then [Version(c.writes[key], c.txId, c.ts)] + older else older
  }

  lemma VersionsSnoc(log: Log, c: CommitRecord, key: Key)
    ensures Versions(log + [c], key)
            == if key in c.installed && key in c.writes then [Version(c.writes[key], c.txId, c.ts)] + Versions(log, key)
               else Versions(log, key)
  {
    assert (log + [c])[..|log|] == log;
  }

  /** An installed write is among the versions, and every version is an installed write. */
  lemma {:induction false} VersionOf(log: Log, key: Key, i: nat) returns (m: nat)
    requires i < |log| && key in log[i].installed && key in log[i].writes
    ensures m < |Versions(log, key)| && Versions(log, key)[m] == Version(log[i].writes[key], log[i].txId, log[i].ts)
  {
    if i == |log| - 1 {
      m := 0;
    } else {
      var front := log[..|log| - 1];
      var k := VersionOf(front, key, i);
      var c := log[|log| - 1];
      m := if key in c.installed && key in c.writes then k + 1 else k;
    }
  }

  lemma {:induction false} CommitOf(log: Log, key: Key, m: nat) returns (i: nat)
    requires m < |Versions(log, key)|
    ensures i < |log| && key in log[i].installed && key in log[i].writes
    ensures Versions(log, key)[m] == Version(log[i].writes[key], log[i].txId, log[i].ts)
  {
    var front, c := log[..|log| - 1], log[|log| - 1];
    if key in c.installed && key in c.writes {
      if m == 0 {
        i := |log| - 1;
      } else {
        i := CommitOf(front, key, m - 1);
      }
    } else {
      i := CommitOf(front, key, m);
    }
  }

  /** Of two commits that installed the same key, the later one's snapshot covers the earlier one. */
  ghost predicate FirstCommitterWins(log: Log) {
    forall i, j, k :: 0 <= i < j < |log| && k in log[i].installed && k in log[j].installed ==>
             log[i].ts <= log[j].snapshot
  }

  /** A write went in unless it deleted a key that had no version. */
  ghost predicate RecordedRight(log: Log) {
    forall i :: 0 <= i < |log| ==>
      forall k :: k in log[i].installed <==>
        k in log[i].writes && (log[i].writes[k].Some? || Versions(log[..i], k) != [])
  }

  // ---------- the invariant ----------

  /** The chain of a key is what gc has left of its versions: a non-empty prefix, and none iff none was installed. */
  ghost predicate ChainIsPrefix(s: State, k: Key) {
    && (k in s.store <==> Versions(s.log, k) != [])
    && (k in s.store ==> s.store[k] != [] && s.store[k] <= Versions(s.log, k))
    && Settled(Versions(s.log, k))
  }

  ghost predicate TimesOk(s: State) {
    && s.nextCommitTs > 0
    && (forall id :: id in s.txs ==> id < s.nextTxId && s.txs[id].snapshot < s.nextCommitTs)
    && (forall id, ts :: (id, ts) in s.drawn ==> id in s.txs && s.txs[id].snapshot < ts < s.nextCommitTs)
    && (forall i :: 0 <= i < |s.log| ==> s.log[i].snapshot < s.log[i].ts < s.nextCommitTs)
    && (forall i :: 0 <= i < |s.log| ==> s.log[i].txId in s.txs && !s.txs[s.log[i].txId].active)
  }

  ghost predicate Inv(s: State) {
    && TimesOk(s)
    && (forall k :: ChainIsPrefix(s, k))
    && RecordedRight(s.log)
    && FirstCommitterWins(s.log)
  }

  /** No version in the store belongs to a transaction that is still active, so rolling one back changes nothing. */
  lemma RollbackChangesNothing(s: State, id: TxId)
    requires Inv(s) && IsActive(s, id)
    ensures RollbackStore(s.store, id) == s.store
  {
    forall k | k in s.store ensures Rollback(s.store[k], id) == s.store[k] != [] {
      assert ChainIsPrefix(s, k);
      var c := s.store[k];
      forall m | 0 <= m < |c| ensures c[m].createdTs != id {
        assert c[m] == Versions(s.log, k)[m];
        var i := CommitOf(s.log, k, m);
      }
      RollbackOfNothing(c, id);
    }
  }

  lemma InitInv()
    ensures Inv(INITIAL)
  {
  }

  lemma BeginInv(s: State)
    requires Inv(s)
    ensures Inv(DoBegin(s))
  {
    forall k ensures ChainIsPrefix(DoBegin(s), k) { assert ChainIsPrefix(s, k); }
  }

  lemma WriteInv(s: State, id: TxId, key: Key, value: Option<Value>)
    requires Inv(s)
    ensures Inv(DoWrite(s, id, key, value))
  {
    forall k ensures ChainIsPrefix(DoWrite(s, id, key, value), k) { assert ChainIsPrefix(s, k); }
  }

  lemma DrawInv(s: State, id: TxId)
    requires Inv(s)
    ensures Inv(DoDraw(s, id))
  {
    forall k ensures ChainIsPrefix(DoDraw(s, id), k) { assert ChainIsPrefix(s, k); }
  }

  lemma AbortInv(s: State, id: TxId)
    requires Inv(s)
    ensures Inv(DoAbort(s, id)) && DoAbort(s, id).store == s.store
  {
    if IsActive(s, id) { RollbackChangesNothing(s, id); }
    forall k ensures ChainIsPrefix(DoAbort(s, id), k) { assert ChainIsPrefix(s, k); }
  }

  lemma GcInv(s: State, watermark: nat, maxVersions: nat)
    requires Inv(s)
    ensures Inv(DoGc(s, watermark, maxVersions))
  {
    var s1 := DoGc(s, watermark, maxVersions);
    forall k ensures ChainIsPrefix(s1, k) {
      assert ChainIsPrefix(s, k);
      if k in s.store {
        GcKeepsLatest(s.store[k], watermark, maxVersions);
      }
    }
  }

  /** A transaction without conflict sees, for each key it writes, a newest version no newer than its snapshot. */
  lemma NoConflictHead(s: State, id: TxId, k: Key)
    requires Inv(s) && id in s.txs && !Conflicts(s.store, s.txs[id].writes, s.txs[id].snapshot)
    requires k in s.txs[id].writes && Versions(s.log, k) != []
    ensures Versions(s.log, k)[0].commitTs <= s.txs[id].snapshot
    ensures forall m :: 0 <= m < |Versions(s.log, k)| ==> Versions(s.log, k)[m].commitTs <= s.txs[id].snapshot
  {
    assert ChainIsPrefix(s, k);
    assert s.store[k][0] == Versions(s.log, k)[0];
  }

  lemma InstallChain(s: State, id: TxId, ts: nat, k: Key)
    requires Inv(s) && (id, ts) in s.drawn && IsActive(s, id)
    requires !Conflicts(s.store, s.txs[id].writes, s.txs[id].snapshot)
    ensures ChainIsPrefix(DoApply(s, id, ts), k)
  {
    assert ChainIsPrefix(s, k);
    var tx, s1 := s.txs[id], DoApply(s, id, ts);
    VersionsSnoc(s.log, s1.log[|s.log|], k);
    if k in Installed(s.store, tx.writes) {
      if Versions(s.log, k) != [] { NoConflictHead(s, id, k); }
      assert s1.store[k] == [Version(tx.writes[k], id, ts)] + (if k in s.store then s.store[k] else []);
    }
  }

  lemma ApplyWins(s: State, id: TxId, ts: nat)
    requires Inv(s) && (id, ts) in s.drawn && IsActive(s, id)
    requires !Conflicts(s.store, s.txs[id].writes, s.txs[id].snapshot)
    ensures FirstCommitterWins(DoApply(s, id, ts).log) && RecordedRight(DoApply(s, id, ts).log)
  {
    var log := DoApply(s, id, ts).log;
    var n := |s.log|;
    forall i, k | 0 <= i < n && k in log[i].installed && k in log[n].installed ensures log[i].ts <= log[n].snapshot {
      assert k in s.log[i].writes;
      var m := VersionOf(s.log, k, i);
      NoConflictHead(s, id, k);
    }
    forall i | 0 <= i < |log|
      ensures forall k :: k in log[i].installed <==>
                k in log[i].writes && (log[i].writes[k].Some? || Versions(log[..i], k) != [])
    {
      if i < n {
        assert log[..i] == s.log[..i];
      } else {
        assert log[..i] == s.log;
        forall k ensures k in s.store <==> Versions(s.log, k) != [] { assert ChainIsPrefix(s, k); }
      }
    }
  }

  lemma ApplyInv(s: State, id: TxId, ts: nat)
    requires Inv(s)
    ensures Inv(DoApply(s, id, ts))
  {
    var s1 := DoApply(s, id, ts);
    if (id, ts) in s.drawn && IsActive(s, id) {
      if Conflicts(s.store, s.txs[id].writes, s.txs[id].snapshot) {
        RollbackChangesNothing(s, id);
        forall k ensures ChainIsPrefix(s1, k) { assert ChainIsPrefix(s, k); }
      } else {
        ApplyWins(s, id, ts);
        forall k ensures ChainIsPrefix(s1, k) { InstallChain(s, id, ts, k); }
      }
    } else {
      forall k ensures ChainIsPrefix(s1, k) { assert ChainIsPrefix(s, k); }
    }
  }

  lemma StepInv(s: State, a: Action)
    requires Inv(s)
    ensures Inv(Do(s, a))
  {
    match a
    case Begin => BeginInv(s);
    case Write(id, key, value) => WriteInv(s, id, key, value);
    case Draw(id) => DrawInv(s, id);
    case Apply(id, ts) => ApplyInv(s, id, ts);
    case Abort(id) => AbortInv(s, id);
    case Gc(watermark, maxVersions) => GcInv(s, watermark, maxVersions);
  }

  lemma {:induction false} RunInv(actions: seq<Action>)
    ensures Inv(Run(actions))
  {
    if actions == [] {
      InitInv();
    } else {
      RunInv(actions[..|actions| - 1]);
      StepInv(Run(actions[..|actions| - 1]), actions[|actions| - 1]);
    }
  }
}
