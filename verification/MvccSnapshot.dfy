/** What the runs of the transaction machine guarantee to readers and committers. */
module MvccSnapshot {
  import opened Wrappers
  import opened Bytes
  import opened MvccChain
  import opened MvccModel

  // ---------- any interleaving ----------

  /**
   In every run, however draws, applies, aborts and collections interleave: of two commits that installed
   a version of one key the later-applied one had seen the earlier one, and every chain is fully
   committed and strictly descending.
   */
  lemma FirstCommitterAlwaysWins(actions: seq<Action>)
    ensures FirstCommitterWins(Run(actions).log)
    ensures var s := Run(actions); forall k :: k in s.store ==> s.store[k] != [] && Settled(s.store[k])
  {
    RunInv(actions);
    var s := Run(actions);
    forall k | k in s.store ensures s.store[k] != [] && Settled(s.store[k]) {
      assert ChainIsPrefix(s, k);
    }
  }

  /** A commit that meets a conflict, a commit of a finished transaction and an abort leave the versions alone. */
  lemma FailuresLeaveNoTrace(actions: seq<Action>, id: TxId, ts: nat)
    ensures var s := Run(actions);
            && DoAbort(s, id).store == s.store
            && (id in s.txs && (!s.txs[id].active || Conflicts(s.store, s.txs[id].writes, s.txs[id].snapshot)) ==>
                  DoApply(s, id, ts).store == s.store && DoApply(s, id, ts).log == s.log)
  {
    RunInv(actions);
    var s := Run(actions);
    AbortInv(s, id);
    if IsActive(s, id) { RollbackChangesNothing(s, id); }
  }

  /** What the conflict test asks of a store: is a version of a written key uncommitted or newer than the snapshot? */
  lemma ConflictsMean(store: Store, w: Writes, snapshot: nat)
    ensures Conflicts(store, w, snapshot) <==>
            exists k, j :: k in w && k in store && 0 <= j < |store[k]| && !(0 < store[k][j].commitTs <= snapshot)
  {
  }

  /** Some commit stamped after the snapshot installed a key of `w`. */
  ghost predicate Overwritten(log: Log, w: Writes, snapshot: nat) {
    exists i, k :: 0 <= i < |log| && k in w && k in log[i].installed && log[i].ts > snapshot
  }

  /**
   The converse of first-committer-wins, however steps interleave and whatever gc has dropped: a commit meets a
   conflict only if a commit stamped after its snapshot installed one of its keys, and then always.
   */
  lemma ConflictsIff(s: State, w: Writes, snapshot: nat)
    requires Inv(s)
    ensures Conflicts(s.store, w, snapshot) <==> Overwritten(s.log, w, snapshot)
  {
    if Conflicts(s.store, w, snapshot) {
      var k :| k in w && k in s.store && HasConflict(s.store[k], snapshot);
      ConflictLogged(s, k, snapshot);
    }
    if i, k :| 0 <= i < |s.log| && k in w && k in s.log[i].installed && s.log[i].ts > snapshot {
      LoggedConflicts(s, i, k, snapshot);
    }
  }

  lemma ConflictLogged(s: State, k: Key, snapshot: nat)
    requires Inv(s) && k in s.store && HasConflict(s.store[k], snapshot)
    ensures exists i :: 0 <= i < |s.log| && k in s.log[i].installed && s.log[i].ts > snapshot
  {
    assert ChainIsPrefix(s, k);
    var j :| 0 <= j < |s.store[k]| && (s.store[k][j].IsUncommitted() || s.store[k][j].commitTs > snapshot);
    assert s.store[k][j] == Versions(s.log, k)[j];
    var i := CommitOf(s.log, k, j);
  }

  /** The newest version of the key survives gc and is no older than the commit. */
  lemma LoggedConflicts(s: State, i: nat, k: Key, snapshot: nat)
    requires Inv(s) && i < |s.log| && k in s.log[i].installed && s.log[i].ts > snapshot
    ensures k in s.store && HasConflict(s.store[k], snapshot)
  {
    assert ChainIsPrefix(s, k) && k in s.log[i].writes;
    var m := VersionOf(s.log, k, i);
    assert s.store[k][0] == Versions(s.log, k)[0];
  }

  /** A commit that goes through is seen whole: from its timestamp on every one of its writes is read, below it none. */
  lemma CommitReadsWhole(s: State, id: TxId, ts: nat, k: Key, snapshot: nat)
    requires Inv(s) && (id, ts) in s.drawn && IsActive(s, id)
    requires !Conflicts(s.store, s.txs[id].writes, s.txs[id].snapshot)
    ensures ReadStore(DoApply(s, id, ts).store, k, snapshot)
            == if k in s.txs[id].writes && ts <= snapshot then s.txs[id].writes[k] else ReadStore(s.store, k, snapshot)
  {
    var w, s1 := s.txs[id].writes, DoApply(s, id, ts);
    assert 0 <= s.txs[id].snapshot < ts;
    if k in Installed(s.store, w) {
      var older := if k in s.store then s.store[k] else [];
      assert s1.store[k] == [Version(w[k], id, ts)] + older && s1.store[k][1..] == older;
      assert Get(s1.store[k], snapshot) == if ts <= snapshot then w[k] else Get(older, snapshot);
    } else {
      assert k in s1.store <==> k in s.store;
      assert k in s.store ==> k !in w && s1.store[k] == s.store[k];
    }
  }

  // ---------- reads are replays of the log ----------

  /** The value of `key` after replaying, in log order, the commits stamped at or before `snapshot`. */
  ghost function ReplayUpTo(log: Log, key: Key, snapshot: nat): Option<Value> {
    if log == [] then None
    else
      var c := log[|log| - 1];
      if c.ts <= snapshot && key in c.writes then c.writes[key] else ReplayUpTo(log[..|log| - 1], key, snapshot)
  }

  /** The value of `key` after replaying every commit. */
  ghost function Replay(log: Log, key: Key): Option<Value> {
    if log == [] then None
    else if key in log[|log| - 1].writes then log[|log| - 1].writes[key]
    else Replay(log[..|log| - 1], key)
  }

  ghost predicate Stamped(log: Log) {
    forall i :: 0 <= i < |log| ==> log[i].ts > 0
  }

  lemma {:induction false} VersionsReplay(log: Log, key: Key, snapshot: nat)
    requires RecordedRight(log) && Stamped(log)
    ensures Get(Versions(log, key), snapshot) == ReplayUpTo(log, key, snapshot)
  {
    if log != [] {
      var n := |log| - 1;
      var front, c := log[..n], log[n];
      forall i | 0 <= i < n
        ensures forall k :: k in front[i].installed <==>
                  k in front[i].writes && (front[i].writes[k].Some? || Versions(front[..i], k) != [])
      {
        assert front[..i] == log[..i];
      }
      VersionsReplay(front, key, snapshot);
      if key in c.installed {
        assert Versions(log, key)[1..] == Versions(front, key);
      }
    }
  }

  /** gc has left the version of `key` this snapshot sees, unless it sees none or a tombstone. */
  ghost predicate StillThere(s: State, key: Key, snapshot: nat) {
    key in s.store ==>
      var all := Versions(s.log, key);
      var i := SeenAt(all, snapshot);
      i == |all| || i < |s.store[key]| || all[i].value == None
  }

  /**
   While gc has taken nothing from the key's chain, or has left a version at or below the snapshot, it is
   still there.
   */
  lemma UntouchedIsThere(s: State, key: Key, snapshot: nat)
    requires Inv(s) && key in s.store
    requires var c := s.store[key];
             |c| == |Versions(s.log, key)| || (c != [] && c[|c| - 1].commitTs <= snapshot)
    ensures StillThere(s, key, snapshot)
  {
    assert ChainIsPrefix(s, key);
  }

  /**
   In every run, a read at a snapshot returns what replaying the applied commits stamped up to the
   snapshot gives, exactly as long as gc has left the version the snapshot sees.
   */
  lemma ReadIsReplay(s: State, key: Key, snapshot: nat)
    requires Inv(s)
    ensures ReadStore(s.store, key, snapshot) == ReplayUpTo(s.log, key, snapshot) <==> StillThere(s, key, snapshot)
  {
    assert ChainIsPrefix(s, key);
    VersionsReplay(s.log, key, snapshot);
    if key in s.store {
      var all, c := Versions(s.log, key), s.store[key];
      var i, k := SeenAt(all, snapshot), SeenAt(c, snapshot);
      if i < |c| {
        assert c[i] == all[i] && k == i;
      } else {
        assert k == |c|;
      }
    }
  }

  // ---------- manager calls as single steps ----------

  const GC_INTERVAL: nat := 100

  /** The transaction manager with its active set, gc watermark and gc counter. */
  datatype Manager = Manager(core: State, live: set<TxId>, watermark: nat, gcCounter: nat, maxVersions: nat)

  datatype Call = CallBegin | CallPut(id: TxId, key: Key, value: Value) | CallDelete(id: TxId, key: Key)
                | CallCommit(id: TxId) | CallRollback(id: TxId) | CallGc

  /** The smallest live snapshot, or the next commit timestamp if there is none. */
  ghost function MinSnapshot(s: State, live: set<TxId>): (w: nat)
    requires live <= s.txs.Keys
    ensures forall id :: id in live ==> w <= s.txs[id].snapshot
    ensures live == {} ==> w == s.nextCommitTs
    ensures live != {} ==> exists id :: id in live && s.txs[id].snapshot == w
  {
    if live == {} then s.nextCommitTs
    else
      var id :| id in live;
      var rest := live - {id};
      assert live == rest + {id};
      if rest == {} then s.txs[id].snapshot
      else
        var w := MinSnapshot(s, rest);
        if s.txs[id].snapshot < w then s.txs[id].snapshot else w
  }

  ghost predicate Issued(m: Manager) {
    m.live <= m.core.txs.Keys
  }

  ghost function Rewatermark(m: Manager): Manager
    requires Issued(m)
  {
    m.(watermark := MinSnapshot(m.core, m.live))
  }

  ghost function Committed(m: Manager, id: TxId): Manager {
    m.(core := DoApply(DoDraw(m.core, id), id, m.core.nextCommitTs), live := m.live - {id})
  }

  /** Counts a commit and collects garbage on every hundredth. */
  ghost function Counted(m: Manager): Manager {
    if m.gcCounter + 1 >= GC_INTERVAL
    then m.(gcCounter := 0, core := DoGc(m.core, m.watermark, m.maxVersions))
    else m.(gcCounter := m.gcCounter + 1)
  }

  ghost function CommitCall(m: Manager, id: TxId): Manager
    requires Issued(m) && id in m.core.txs
  {
    var m1 := Committed(m, id);
    assert m1.core.txs.Keys == m.core.txs.Keys;
    Counted(Rewatermark(m1))
  }

  ghost function RollbackCall(m: Manager, id: TxId): Manager
    requires Issued(m) && id in m.core.txs
  {
    Rewatermark(m.(core := DoAbort(m.core, id), live := m.live - {id}))
  }

  ghost function BeginCall(m: Manager): Manager
    requires Issued(m)
  {
    Rewatermark(m.(core := DoBegin(m.core), live := m.live + {m.core.nextTxId}))
  }

  ghost function DoCall(m: Manager, c: Call): Manager
    requires Issued(m)
  {
    match c
    case CallBegin => BeginCall(m)
    case CallPut(id, key, value) => m.(core := DoWrite(m.core, id, key, Some(value)))
    case CallDelete(id, key) => m.(core := DoWrite(m.core, id, key, None))
    case CallCommit(id) => if id in m.core.txs then CommitCall(m, id) else m
    case CallRollback(id) => if id in m.core.txs then RollbackCall(m, id) else m
    case CallGc => m.(core := DoGc(m.core, m.watermark, m.maxVersions))
  }

  ghost function RunCalls(maxVersions: nat, calls: seq<Call>): (m: Manager)
    ensures Issued(m)
  {
    if calls == [] then Manager(INITIAL, {}, 0, 0, maxVersions)
    else
      var m := RunCalls(maxVersions, calls[..|calls| - 1]);
      CallIssued(m, calls[|calls| - 1]);
      DoCall(m, calls[|calls| - 1])
  }

  /** No call takes a transaction out of the table. */
  lemma CallIssued(m: Manager, c: Call)
    requires Issued(m)
    ensures Issued(DoCall(m, c))
  {
    match c
    case CallBegin =>
    case CallPut(id, key, value) =>
    case CallDelete(id, key) =>
    case CallCommit(id) =>
      assert Committed(m, id).core.txs.Keys == m.core.txs.Keys;
      assert forall w: Manager :: Counted(w).core.txs == w.core.txs && Counted(w).live == w.live;
    case CallRollback(id) =>
      assert DoAbort(m.core, id).txs.Keys == m.core.txs.Keys;
    case CallGc =>
  }

  /** The snapshot separates the commits that were in the log when the transaction began from all later ones. */
  ghost predicate Splits(log: Log, tx: Tx) {
    && tx.began <= |log|
    && (forall i :: 0 <= i < tx.began ==> log[i].ts <= tx.snapshot)
    && (forall i :: tx.began <= i < |log| ==> log[i].ts > tx.snapshot)
  }

  ghost predicate SnapshotsSplit(s: State) {
    forall id :: id in s.txs ==> Splits(s.log, s.txs[id])
  }

  /** All of the invariant but the watermark. */
  ghost predicate CoreInv(m: Manager) {
    && Inv(m.core) && m.core.drawn == {} && SnapshotsSplit(m.core)
    && (forall id :: id in m.live <==> IsActive(m.core, id))
  }

  ghost predicate CallInv(m: Manager) {
    && CoreInv(m)
    && (forall id :: id in m.live ==> m.watermark <= m.core.txs[id].snapshot)
  }

  /** Draw and apply in one go: the new timestamp lies above every snapshot handed out so far. */
  lemma CommitCore(s: State, id: TxId)
    requires Inv(s) && s.drawn == {} && SnapshotsSplit(s) && id in s.txs
    ensures var s2 := DoApply(DoDraw(s, id), id, s.nextCommitTs);
            && Inv(s2) && s2.drawn == {} && SnapshotsSplit(s2) && SameTxs(s, s2, id)
  {
    DrawInv(s, id);
    ApplyInv(DoDraw(s, id), id, s.nextCommitTs);
    ApplyDrawn(s, id);
    SplitsKept(s, DoApply(DoDraw(s, id), id, s.nextCommitTs), id);
  }

  /** The same transactions with the same snapshots; only `id` is no longer active. */
  ghost predicate SameTxs(s: State, s2: State, id: TxId) {
    && s2.txs.Keys == s.txs.Keys
    && forall x :: x in s.txs ==>
         s2.txs[x].snapshot == s.txs[x].snapshot && (s2.txs[x].active <==> s.txs[x].active && x != id)
  }

  /** What drawing a timestamp and applying it at once leaves behind. */
  lemma ApplyDrawn(s: State, id: TxId)
    requires id in s.txs && s.drawn == {}
    ensures var s2 := DoApply(DoDraw(s, id), id, s.nextCommitTs);
            var tx := s.txs[id];
            && s2.nextTxId == s.nextTxId && s2.nextCommitTs == s.nextCommitTs + 1 && s2.drawn == {}
            && s2.txs == s.txs[id := tx.(active := false)]
            && s2.store == (if !tx.active then s.store
                            else if Conflicts(s.store, tx.writes, tx.snapshot) then RollbackStore(s.store, id)
                            else Install(s.store, tx.writes, id, s.nextCommitTs))
            && LogGrown(s, s2)
  {
  }

  ghost predicate LogGrown(s: State, s2: State) {
    s2.log == s.log
    || (|s2.log| == |s.log| + 1 && s2.log[..|s.log|] == s.log && s2.log[|s.log|].ts == s.nextCommitTs)
  }

  lemma SplitKept(s: State, s2: State, tx: Tx)
    requires Splits(s.log, tx) && tx.snapshot < s.nextCommitTs && LogGrown(s, s2)
    ensures Splits(s2.log, tx)
  {
  }

  lemma SplitsKept(s: State, s2: State, id: TxId)
    requires TimesOk(s) && SnapshotsSplit(s) && id in s.txs
    requires s2.txs == s.txs[id := s.txs[id].(active := false)] && LogGrown(s, s2)
    ensures SnapshotsSplit(s2) && SameTxs(s, s2, id)
  {
    forall x | x in s2.txs ensures Splits(s2.log, s2.txs[x]) {
      SplitKept(s, s2, s.txs[x]);
    }
  }

  /** Recomputing the watermark re-establishes what is asked of it. */
  lemma RewatermarkInv(m: Manager)
    requires Issued(m) && CoreInv(m)
    ensures CallInv(Rewatermark(m))
  {
  }

  lemma GcCallInv(m: Manager)
    requires CallInv(m)
    ensures CallInv(m.(core := DoGc(m.core, m.watermark, m.maxVersions)))
  {
    GcInv(m.core, m.watermark, m.maxVersions);
  }

  lemma CommittedInv(m: Manager, id: TxId)
    requires CoreInv(m) && id in m.core.txs
    ensures CoreInv(Committed(m, id))
  {
    CommitCore(m.core, id);
  }

  lemma CountedInv(m: Manager)
    requires CallInv(m)
    ensures CallInv(Counted(m))
  {
    GcCallInv(m);
  }

  lemma CommitCallInv(m: Manager, id: TxId)
    requires Issued(m) && CallInv(m) && id in m.core.txs
    ensures CallInv(CommitCall(m, id))
  {
    CommittedInv(m, id);
    RewatermarkInv(Committed(m, id));
    CountedInv(Rewatermark(Committed(m, id)));
  }

  lemma BeginCallInv(m: Manager)
    requires Issued(m) && CallInv(m)
    ensures CallInv(BeginCall(m))
  {
    BeginInv(m.core);
    RewatermarkInv(m.(core := DoBegin(m.core), live := m.live + {m.core.nextTxId}));
  }

  lemma RollbackCallInv(m: Manager, id: TxId)
    requires Issued(m) && CallInv(m) && id in m.core.txs
    ensures CallInv(RollbackCall(m, id))
  {
    AbortInv(m.core, id);
    var m1 := m.(core := DoAbort(m.core, id), live := m.live - {id});
    assert CoreInv(m1);
    RewatermarkInv(m1);
  }

  lemma WriteCallInv(m: Manager, id: TxId, key: Key, value: Option<Value>)
    requires CallInv(m)
    ensures CallInv(m.(core := DoWrite(m.core, id, key, value)))
  {
    WriteInv(m.core, id, key, value);
  }

  lemma DoCallInv(m: Manager, c: Call)
    requires Issued(m) && CallInv(m)
    ensures CallInv(DoCall(m, c))
  {
    match c
    case CallBegin => BeginCallInv(m);
    case CallPut(id, key, value) => WriteCallInv(m, id, key, Some(value));
    case CallDelete(id, key) => WriteCallInv(m, id, key, None);
    case CallCommit(id) => if id in m.core.txs { CommitCallInv(m, id); }
    case CallRollback(id) => if id in m.core.txs { RollbackCallInv(m, id); }
    case CallGc => GcCallInv(m);
  }

  lemma {:induction false} RunCallsInv(maxVersions: nat, calls: seq<Call>)
    ensures CallInv(RunCalls(maxVersions, calls))
  {
    if calls == [] {
      InitInv();
    } else {
      RunCallsInv(maxVersions, calls[..|calls| - 1]);
      DoCallInv(RunCalls(maxVersions, calls[..|calls| - 1]), calls[|calls| - 1]);
    }
  }

  /** Some commit since transaction `id` began installed a key that it writes. */
  ghost predicate Overtaken(s: State, id: TxId)
    requires id in s.txs
  {
    exists i, k :: s.txs[id].began <= i < |s.log| && k in s.txs[id].writes && k in s.log[i].installed
  }

  /** Between manager calls a commit meets a conflict exactly if one of its keys was committed since it began. */
  lemma ConflictsIffOvertaken(m: Manager, id: TxId)
    requires CallInv(m) && id in m.core.txs
    ensures var s := m.core; Conflicts(s.store, s.txs[id].writes, s.txs[id].snapshot) <==> Overtaken(s, id)
  {
    var s := m.core;
    ConflictsIff(s, s.txs[id].writes, s.txs[id].snapshot);
    assert Splits(s.log, s.txs[id]);
    if i, k :| s.txs[id].began <= i < |s.log| && k in s.txs[id].writes && k in s.log[i].installed {
      assert s.log[i].ts > s.txs[id].snapshot;
    }
  }

  // ---------- when garbage is collected ----------

  /** How many of the calls are commits of transactions that had begun. */
  ghost function CommitCalls(maxVersions: nat, calls: seq<Call>): nat {
    if calls == [] then 0
    else
      var front, last := calls[..|calls| - 1], calls[|calls| - 1];
      CommitCalls(maxVersions, front) + if IsCommit(RunCalls(maxVersions, front), last) then 1 else 0
  }

  ghost predicate IsCommit(m: Manager, c: Call) {
    c.CallCommit? && c.id in m.core.txs
  }

  lemma CounterStep(m: Manager, c: Call)
    requires Issued(m)
    ensures DoCall(m, c).maxVersions == m.maxVersions
    ensures DoCall(m, c).gcCounter
            == if !IsCommit(m, c) then m.gcCounter else if m.gcCounter >= 99 then 0 else m.gcCounter + 1
  {
  }

  /** The counter is what is left of the number of commits after taking out the hundreds. */
  lemma {:induction false} CounterIs(maxVersions: nat, calls: seq<Call>) returns (hundreds: nat)
    ensures var m := RunCalls(maxVersions, calls);
            && CommitCalls(maxVersions, calls) == 100 * hundreds + m.gcCounter && m.gcCounter < 100
            && m.maxVersions == maxVersions
  {
    hundreds := 0;
    if calls != [] {
      var front, c := calls[..|calls| - 1], calls[|calls| - 1];
      hundreds := CounterIs(maxVersions, front);
      var m := RunCalls(maxVersions, front);
      CounterStep(m, c);
      if IsCommit(m, c) && m.gcCounter == 99 {
        hundreds := hundreds + 1;
      }
    }
  }

  /** 100, 200, 300, ... */
  predicate Hundredth(n: nat) {
    n == 100 || (n > 100 && Hundredth(n - 100))
  }

  lemma {:induction false} HundredthIs(n: nat)
    ensures Hundredth(n) <==> n > 0 && n % 100 == 0
  {
    if n > 100 {
      HundredthIs(n - 100);
    }
  }

  lemma {:induction false} NextIsHundredth(n: nat, hundreds: nat, r: nat)
    requires n == 100 * hundreds + r && r < 100
    ensures Hundredth(n + 1) <==> r == 99
  {
    if hundreds > 0 {
      NextIsHundredth(n - 100, hundreds - 1, r);
    }
  }

  lemma CommitLeaves(m: Manager, id: TxId)
    requires Issued(m) && id in m.core.txs
    ensures var m2 := CommitCall(m, id);
            var applied := DoApply(DoDraw(m.core, id), id, m.core.nextCommitTs).store;
            m2.core.store == if m.gcCounter >= 99 then GcStore(applied, m2.watermark, m.maxVersions) else applied
  {
  }

  /** A commit collects garbage, at the watermark it has just computed, if it is the hundredth, two hundredth, ... */
  lemma CollectsEveryHundredth(maxVersions: nat, calls: seq<Call>, id: TxId)
    requires id in RunCalls(maxVersions, calls).core.txs
    ensures var s, m := RunCalls(maxVersions, calls).core, RunCalls(maxVersions, calls + [CallCommit(id)]);
            var applied := DoApply(DoDraw(s, id), id, s.nextCommitTs).store;
            m.core.store == if Hundredth(CommitCalls(maxVersions, calls) + 1)
                            then GcStore(applied, m.watermark, maxVersions) else applied
  {
    var m := RunCalls(maxVersions, calls);
    var hundreds := CounterIs(maxVersions, calls);
    NextIsHundredth(CommitCalls(maxVersions, calls), hundreds, m.gcCounter);
    RunSnoc(maxVersions, calls, CallCommit(id));
    CommitLeaves(m, id);
  }

  /** Nothing has been collected: every chain is all versions of its key. */
  ghost predicate Whole(s: State) {
    forall k :: k in s.store ==> s.store[k] == Versions(s.log, k)
  }

  lemma WholeApply(s: State, id: TxId, ts: nat)
    requires Inv(s) && Whole(s)
    ensures Whole(DoApply(s, id, ts))
  {
    var s1 := DoApply(s, id, ts);
    if (id, ts) in s.drawn && IsActive(s, id) {
      var tx := s.txs[id];
      if Conflicts(s.store, tx.writes, tx.snapshot) {
        RollbackChangesNothing(s, id);
      } else {
        forall k | k in s1.store ensures s1.store[k] == Versions(s1.log, k) {
          assert ChainIsPrefix(s, k);
          VersionsSnoc(s.log, s1.log[|s.log|], k);
        }
      }
    }
  }

  lemma WholeCommit(m: Manager, id: TxId)
    requires Issued(m) && CallInv(m) && Whole(m.core) && id in m.core.txs && m.gcCounter + 1 < 100
    ensures Whole(CommitCall(m, id).core)
  {
    DrawInv(m.core, id);
    WholeApply(DoDraw(m.core, id), id, m.core.nextCommitTs);
  }

  lemma WholeCall(m: Manager, c: Call)
    requires Issued(m) && CallInv(m) && Whole(m.core) && !c.CallGc?
    requires c.CallCommit? && c.id in m.core.txs ==> m.gcCounter + 1 < 100
    ensures Whole(DoCall(m, c).core)
  {
    match c
    case CallBegin =>
    case CallPut(id, key, value) =>
    case CallDelete(id, key) =>
    case CallCommit(id) => if id in m.core.txs { WholeCommit(m, id); }
    case CallRollback(id) => AbortInv(m.core, id);
  }

  /** As long as nobody asks for a collection and fewer than a hundred commits have been made, nothing is collected. */
  lemma {:induction false} NothingCollected(maxVersions: nat, calls: seq<Call>)
    requires CallGc !in calls && CommitCalls(maxVersions, calls) < 100
    ensures Whole(RunCalls(maxVersions, calls).core)
  {
    if calls != [] {
      var front := calls[..|calls| - 1];
      NothingCollected(maxVersions, front);
      RunCallsInv(maxVersions, front);
      var _ := CounterIs(maxVersions, front);
      assert calls[|calls| - 1] in calls && forall c :: c in front ==> c in calls;
      WholeCall(RunCalls(maxVersions, front), calls[|calls| - 1]);
    }
  }

  /** After every manager call the gc watermark is at most every live snapshot. */
  lemma WatermarkBelowSnapshots(maxVersions: nat, calls: seq<Call>)
    ensures var m := RunCalls(maxVersions, calls);
            forall id :: IsActive(m.core, id) ==> m.watermark <= m.core.txs[id].snapshot
  {
    RunCallsInv(maxVersions, calls);
  }

  lemma {:induction false} ReplaySplit(log: Log, n: nat, key: Key, snapshot: nat)
    requires n <= |log|
    requires forall i :: 0 <= i < n ==> log[i].ts <= snapshot
    requires forall i :: n <= i < |log| ==> log[i].ts > snapshot
    ensures ReplayUpTo(log, key, snapshot) == Replay(log[..n], key)
  {
    if log != [] {
      var front := log[..|log| - 1];
      if n == |log| {
        ReplaySplit(front, n - 1, key, snapshot);
        assert log[..n] == log && front[..n - 1] == front;
      } else {
        ReplaySplit(front, n, key, snapshot);
        assert front[..n] == log[..n];
      }
    }
  }

  /** `get` of a transaction: its own buffered write, or the tree at its snapshot. */
  function TxGet(s: State, id: TxId, key: Key): Option<Value>
    requires id in s.txs
  {
    var tx := s.txs[id];
    if key in tx.writes then tx.writes[key] else ReadStore(s.store, key, tx.snapshot)
  }

  /**
   Snapshot isolation over whole runs of manager calls: a transaction reads its own buffered write or
   else the state in which it began, whatever the other transactions did since, exactly as long as gc
   has left the version it sees.
   */
  lemma ReadsBeginTimeState(maxVersions: nat, calls: seq<Call>, id: TxId, key: Key)
    requires var s := RunCalls(maxVersions, calls).core;
             id in s.txs
    ensures var s := RunCalls(maxVersions, calls).core;
            && s.txs[id].began <= |s.log|
            && (TxGet(s, id, key)
                == (if key in s.txs[id].writes then s.txs[id].writes[key] else Replay(s.log[..s.txs[id].began], key))
                <==> key in s.txs[id].writes || StillThere(s, key, s.txs[id].snapshot))
  {
    RunCallsInv(maxVersions, calls);
    var s := RunCalls(maxVersions, calls).core;
    ReadIsReplay(s, key, s.txs[id].snapshot);
    ReplaySplit(s.log, s.txs[id].began, key, s.txs[id].snapshot);
  }

  /** Until the first collection snapshot isolation holds without a condition. */
  lemma ReadsBeginTimeStateEarly(maxVersions: nat, calls: seq<Call>, id: TxId, key: Key)
    requires CallGc !in calls && CommitCalls(maxVersions, calls) < 100 && id in RunCalls(maxVersions, calls).core.txs
    ensures var s := RunCalls(maxVersions, calls).core;
            && s.txs[id].began <= |s.log|
            && TxGet(s, id, key) == if key in s.txs[id].writes then s.txs[id].writes[key]
                                    else Replay(s.log[..s.txs[id].began], key)
  {
    NothingCollected(maxVersions, calls);
    RunCallsInv(maxVersions, calls);
    ReadsBeginTimeState(maxVersions, calls, id, key);
  }

  /** The watermark is the snapshot of the oldest live transaction, or the next timestamp if there is none. */
  ghost predicate OldestLive(m: Manager)
    requires Issued(m)
  {
    if m.live == {} then m.watermark == m.core.nextCommitTs
    else && (exists id :: id in m.live && m.core.txs[id].snapshot == m.watermark)
         && forall id :: id in m.live ==> m.watermark <= m.core.txs[id].snapshot
  }

  lemma OldestWrite(m: Manager, id: TxId, key: Key, value: Option<Value>)
    requires Issued(m) && OldestLive(m)
    ensures var m2 := m.(core := DoWrite(m.core, id, key, value)); Issued(m2) && OldestLive(m2)
  {
    var s2 := DoWrite(m.core, id, key, value);
    assert forall x :: x in m.core.txs ==> x in s2.txs && s2.txs[x].snapshot == m.core.txs[x].snapshot;
  }

  lemma OldestRewatermark(m: Manager)
    requires Issued(m)
    ensures OldestLive(Rewatermark(m))
  {
  }

  lemma OldestAfter(m: Manager, c: Call)
    requires Issued(m) && (m.core.txs == map[] ==> m.watermark == 0) && (m.core.txs != map[] ==> OldestLive(m))
    ensures var m2 := DoCall(m, c);
            && Issued(m2) && (m2.core.txs == map[] ==> m2.watermark == 0) && (m2.core.txs != map[] ==> OldestLive(m2))
  {
    CallIssued(m, c);
    match c
    case CallBegin =>
      OldestRewatermark(m.(core := DoBegin(m.core), live := m.live + {m.core.nextTxId}));
      assert m.core.nextTxId in DoBegin(m.core).txs;
    case CallPut(id, key, value) => if m.core.txs != map[] { OldestWrite(m, id, key, Some(value)); }
    case CallDelete(id, key) => if m.core.txs != map[] { OldestWrite(m, id, key, None); }
    case CallCommit(id) =>
      if id in m.core.txs {
        var m1 := Committed(m, id);
        assert m1.core.txs.Keys == m.core.txs.Keys;
        OldestRewatermark(m1);
        assert id in m1.core.txs;
      }
    case CallRollback(id) =>
      if id in m.core.txs {
        var m1 := m.(core := DoAbort(m.core, id), live := m.live - {id});
        assert m1.core.txs.Keys == m.core.txs.Keys;
        OldestRewatermark(m1);
        assert id in m1.core.txs;
      }
    case CallGc =>
  }

  /** After every run of manager calls; before the first begin the watermark is 0. */
  lemma {:induction false} WatermarkIsOldest(maxVersions: nat, calls: seq<Call>)
    ensures var m := RunCalls(maxVersions, calls);
            (m.core.txs == map[] ==> m.watermark == 0) && (m.core.txs != map[] ==> OldestLive(m))
  {
    if calls != [] {
      var front := calls[..|calls| - 1];
      WatermarkIsOldest(maxVersions, front);
      OldestAfter(RunCalls(maxVersions, front), calls[|calls| - 1]);
    }
  }

  // ---------- begins that fall between a draw and its apply ----------

  function RunFrom(s: State, actions: seq<Action>): State {
    if actions == [] then s else Do(RunFrom(s, actions[..|actions| - 1]), actions[|actions| - 1])
  }

  /** The log only grows, and what is added was stamped later or was already drawn. */
  ghost predicate Later(s: State, s2: State) {
    && s.log <= s2.log && s.nextCommitTs <= s2.nextCommitTs
    && (forall i :: |s.log| <= i < |s2.log| ==>
          s2.log[i].ts >= s.nextCommitTs || (s2.log[i].txId, s2.log[i].ts) in s.drawn)
    && (forall id, ts :: (id, ts) in s2.drawn ==> ts >= s.nextCommitTs || (id, ts) in s.drawn)
    && (forall id :: id in s.txs ==> id in s2.txs && s2.txs[id].snapshot == s.txs[id].snapshot)
  }

  lemma StepLater(s: State, s1: State, a: Action)
    requires Later(s, s1) && forall id :: id in s1.txs ==> id < s1.nextTxId
    ensures Later(s, Do(s1, a))
  {
  }

  lemma {:induction false} RunLater(s: State, actions: seq<Action>)
    requires Inv(s)
    ensures Inv(RunFrom(s, actions)) && Later(s, RunFrom(s, actions))
  {
    if actions != [] {
      var front := actions[..|actions| - 1];
      RunLater(s, front);
      StepInv(RunFrom(s, front), actions[|actions| - 1]);
      StepLater(s, RunFrom(s, front), actions[|actions| - 1]);
    }
  }

  /** With a timestamp drawn and not yet applied, the new snapshot covers a commit that lands after it. */
  lemma UnquietBeginCanSlip(key: Key, value: Value)
    ensures var s := Run([Begin, Write(1, key, Some(value)), Draw(1), Begin]);
            && 2 in s.txs && ReadStore(s.store, key, s.txs[2].snapshot) == None
            && ReadStore(DoApply(s, 1, 1).store, key, s.txs[2].snapshot) == Some(value)
  {
    var a := [Begin, Write(1, key, Some(value)), Draw(1), Begin];
    assert a[..3][..2] == a[..2] && a[..2][..1] == a[..1] && a[..1][..0] == [];
    var s1 := DoBegin(INITIAL);
    assert Run(a[..1]) == s1;
    var s2 := DoWrite(s1, 1, key, Some(value));
    assert Run(a[..2]) == s2;
    var s3 := DoDraw(s2, 1);
    assert Run(a[..3]) == s3;
    assert s2.txs[1].writes == map[key := Some(value)];
    InstallOne(map[], key, value, 1, 1);
  }

  // ---------- what garbage collection may take away ----------

  /** Exactly when a collection leaves a transaction's read of a key as it was. */
  lemma GcKeepsReadIff(m: Manager, id: TxId, key: Key)
    requires CallInv(m) && id in m.core.txs
    ensures var s, s1 := m.core, DoGc(m.core, m.watermark, m.maxVersions);
            TxGet(s1, id, key) == TxGet(s, id, key)
            <==> key in s.txs[id].writes || key !in s.store
                 || (var c := s.store[key];
                     var i := SeenAt(c, s.txs[id].snapshot);
                     i == |c| || i == 0 || (c[i].commitTs > m.watermark && i < m.maxVersions) || c[i].value == None)
  {
    if key in m.core.store {
      assert ChainIsPrefix(m.core, key);
      GcReadUnchangedIff(m.core.store[key], m.watermark, m.maxVersions, m.core.txs[id].snapshot);
    }
  }

  lemma RunSnoc(maxVersions: nat, calls: seq<Call>, c: Call)
    ensures RunCalls(maxVersions, calls + [c]) == DoCall(RunCalls(maxVersions, calls), c)
  {
  }

  lemma InstallOne(store: Store, key: Key, value: Value, id: TxId, ts: nat)
    ensures Install(store, map[key := Some(value)], id, ts)
            == store[key := [Version(Some(value), id, ts)] + (if key in store then store[key] else [])]
  {
  }

  /** One transaction puts `key` and commits. */
  lemma FirstCommit(key: Key, v1: Value) returns (calls: seq<Call>)
    ensures var m := RunCalls(10, calls);
            && m.core.nextTxId == 2 && m.core.nextCommitTs == 2 && m.live == {}
            && m.gcCounter == 1 && m.maxVersions == 10
            && m.core.store == map[key := [Version(Some(v1), 1, 1)]] && m.core.drawn == {}
  {
    calls := [] + [CallBegin] + [CallPut(1, key, v1)] + [CallCommit(1)];
    RunSnoc(10, [], CallBegin);
    RunSnoc(10, [] + [CallBegin], CallPut(1, key, v1));
    RunSnoc(10, [] + [CallBegin] + [CallPut(1, key, v1)], CallCommit(1));
    var m := RunCalls(10, [] + [CallBegin] + [CallPut(1, key, v1)]);
    assert m.core.txs[1] == Tx(0, map[key := Some(v1)], true, 0) && m.core.store == map[];
    InstallOne(map[], key, v1, 1, 1);
    assert [Version(Some(v1), 1, 1)] + [] == [Version(Some(v1), 1, 1)];
  }

  /** Transactions 2 and 3 are active at snapshot 1; 3 has written `key`. */
  ghost predicate Overwriting(m: Manager, key: Key, v1: Value, v2: Value) {
    && m.live == {2, 3} && 2 in m.core.txs && 3 in m.core.txs
    && m.core.txs[2].snapshot == 1 && m.core.txs[2].writes == map[] && m.core.txs[2].active
    && m.core.txs[3].snapshot == 1 && m.core.txs[3].writes == map[key := Some(v2)] && m.core.txs[3].active
    && m.core.nextCommitTs == 2 && m.gcCounter == 1 && m.maxVersions == 10 && m.core.drawn == {}
    && m.core.store == map[key := [Version(Some(v1), 1, 1)]]
  }

  /** A reader and a writer begin; the writer overwrites `key`. */
  lemma SecondWrite(m: Manager, key: Key, v1: Value, v2: Value)
    requires m.core.nextTxId == 2 && m.core.nextCommitTs == 2 && m.live == {} && m.gcCounter == 1 && m.maxVersions == 10
    requires m.core.store == map[key := [Version(Some(v1), 1, 1)]] && m.core.drawn == {}
    ensures Issued(m) && Issued(BeginCall(m)) && Issued(BeginCall(BeginCall(m)))
    ensures Overwriting(DoCall(BeginCall(BeginCall(m)), CallPut(3, key, v2)), key, v1, v2)
  {
    var m2 := DoCall(BeginCall(BeginCall(m)), CallPut(3, key, v2));
    assert m2.core.txs[3].writes == map[key := Some(v2)];
  }

  /** The writer commits: two versions, and the watermark is the reader's snapshot. */
  lemma SecondCommit(m: Manager, key: Key, v1: Value, v2: Value)
    requires Overwriting(m, key, v1, v2)
    ensures Issued(m)
    ensures var m3 := CommitCall(m, 3);
            && m3.watermark == 1 && m3.maxVersions == 10 && 2 in m3.core.txs
            && m3.core.txs[2].snapshot == 1 && m3.core.txs[2].writes == map[] && m3.core.txs[2].active
            && m3.core.store == map[key := [Version(Some(v2), 3, 2), Version(Some(v1), 1, 1)]]
  {
    ApplyDrawn(m.core, 3);
    var c := m.core.store[key];
    assert !HasConflict(c, 1);
    InstallOne(m.core.store, key, v2, 3, 2);
    assert [Version(Some(v2), 3, 2)] + c == [Version(Some(v2), 3, 2), Version(Some(v1), 1, 1)];
    assert m.live - {3} == {2};
  }

  /**
   A run in which collection takes a version away from a transaction that is still reading it: the
   reader's snapshot is the watermark, and the version it sees is no longer the head of its chain.
   */
  lemma GcLosesASnapshot(key: Key, v1: Value, v2: Value) returns (calls: seq<Call>, reader: TxId)
    ensures var m, m1 := RunCalls(10, calls), RunCalls(10, calls + [CallGc]);
            && IsActive(m.core, reader) && IsActive(m1.core, reader)
            && TxGet(m.core, reader, key) == Some(v1) && TxGet(m1.core, reader, key) == None
  {
    var c3 := FirstCommit(key, v1);
    var c4 := c3 + [CallBegin];
    var c5 := c4 + [CallBegin];
    var c6 := c5 + [CallPut(3, key, v2)];
    calls := c6 + [CallCommit(3)];
    reader := 2;
    RunSnoc(10, c3, CallBegin);
    RunSnoc(10, c4, CallBegin);
    RunSnoc(10, c5, CallPut(3, key, v2));
    RunSnoc(10, c6, CallCommit(3));
    RunSnoc(10, calls, CallGc);
    SecondWrite(RunCalls(10, c3), key, v1, v2);
    SecondCommit(RunCalls(10, c6), key, v1, v2);
    GcCanDropAVisibleVersion(v1, 1, v2, 3);
  }
}
