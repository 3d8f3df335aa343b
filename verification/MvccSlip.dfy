/** Commits that land below a snapshot taken before them: when the interleaving of draws and begins allows it. */
module MvccSlip {
  import opened Wrappers
  import opened Bytes
  import opened MvccChain
  import opened MvccModel
  import opened MvccSnapshot

  /** A commit of this transaction cannot go through any more. */
  ghost predicate Stuck(s: State, id: TxId) {
    id in s.txs && (!s.txs[id].active || Conflicts(s.store, s.txs[id].writes, s.txs[id].snapshot))
  }

  /** Some drawn timestamp belongs to a transaction whose commit would go through now. */
  ghost predicate Waiting(s: State) {
    exists id, ts :: (id, ts) in s.drawn && !Stuck(s, id)
  }

  /** From log position `n` on nothing was stamped below `bound`, and what was drawn below it is stuck. */
  ghost predicate Blocked(s: State, bound: nat, n: nat) {
    && bound <= s.nextCommitTs && n <= |s.log|
    && (forall i :: n <= i < |s.log| ==> s.log[i].ts >= bound)
    && (forall id, ts :: (id, ts) in s.drawn && ts < bound ==> Stuck(s, id))
  }

  /** Newer versions, a collection and a rollback leave a conflict in place. */
  lemma ConflictStays(s: State, store2: Store, writes: Writes, writes2: Writes, snapshot: nat)
    requires Conflicts(s.store, writes, snapshot)
    requires forall k :: k in writes ==> k in writes2
    requires forall k :: k in s.store && HasConflict(s.store[k], snapshot) ==>
               k in store2 && HasConflict(store2[k], snapshot)
    ensures Conflicts(store2, writes2, snapshot)
  {
  }

  lemma GcKeepsConflict(c: Chain, watermark: nat, maxVersions: nat, snapshot: nat)
    requires Settled(c) && HasConflict(c, snapshot)
    ensures HasConflict(Kept(c, 0, watermark, maxVersions), snapshot)
  {
    GcKeepsPrefix(c, 0, watermark, maxVersions);
    var k := Kept(c, 0, watermark, maxVersions);
    assert k[0] == c[0];
  }

  lemma StuckAfterGc(s: State, watermark: nat, maxVersions: nat, id: TxId)
    requires Inv(s) && Stuck(s, id)
    ensures Stuck(DoGc(s, watermark, maxVersions), id)
  {
    var s2, tx := DoGc(s, watermark, maxVersions), s.txs[id];
    if tx.active {
      forall k | k in s.store && HasConflict(s.store[k], tx.snapshot) ensures HasConflict(s2.store[k], tx.snapshot) {
        assert ChainIsPrefix(s, k);
        GcKeepsConflict(s.store[k], watermark, maxVersions, tx.snapshot);
      }
      ConflictStays(s, s2.store, tx.writes, tx.writes, tx.snapshot);
    }
  }

  lemma StuckAfterInstall(s: State, writes: Writes, writer: TxId, ts: nat, id: TxId, s2: State)
    requires Stuck(s, id) && s2.store == Install(s.store, writes, writer, ts)
    requires id in s2.txs && (s2.txs[id].active ==> s2.txs[id] == s.txs[id])
    ensures Stuck(s2, id)
  {
    var tx := s.txs[id];
    if s2.txs[id].active {
      forall k | k in s.store && HasConflict(s.store[k], tx.snapshot) ensures HasConflict(s2.store[k], tx.snapshot) {
        var c, c2 := s.store[k], s2.store[k];
        if k in writes {
          assert c2[1..] == c;
        }
      }
      ConflictStays(s, s2.store, tx.writes, tx.writes, tx.snapshot);
    }
  }

  lemma BlockedApply(s: State, id: TxId, ts: nat, bound: nat, n: nat)
    requires Inv(s) && Blocked(s, bound, n)
    ensures Blocked(DoApply(s, id, ts), bound, n)
  {
    var s2 := DoApply(s, id, ts);
    if (id, ts) in s.drawn && id in s.txs && s.txs[id].active {
      RollbackChangesNothing(s, id);
      var tx := s.txs[id];
      if !Conflicts(s.store, tx.writes, tx.snapshot) {
        forall x, t | (x, t) in s2.drawn && t < bound ensures Stuck(s2, x) {
          StuckAfterInstall(s, tx.writes, id, ts, x, s2);
        }
      }
    }
  }

  lemma BlockedStep(s: State, a: Action, bound: nat, n: nat)
    requires Inv(s) && Blocked(s, bound, n)
    ensures Blocked(Do(s, a), bound, n)
  {
    match a
    case Begin =>
    case Write(id, key, value) =>
      var s2 := Do(s, a);
      forall x, t | (x, t) in s2.drawn && t < bound ensures Stuck(s2, x) {
        if x == id && IsActive(s, id) {
          ConflictStays(s, s2.store, s.txs[x].writes, s2.txs[x].writes, s.txs[x].snapshot);
        }
      }
    case Draw(id) =>
    case Apply(id, ts) => BlockedApply(s, id, ts, bound, n);
    case Abort(id) =>
      if IsActive(s, id) {
        RollbackChangesNothing(s, id);
      }
    case Gc(watermark, maxVersions) =>
      var s2 := Do(s, a);
      forall x, t | (x, t) in s2.drawn && t < bound ensures Stuck(s2, x) {
        StuckAfterGc(s, watermark, maxVersions, x);
      }
  }

  lemma {:induction false} BlockedRun(s: State, actions: seq<Action>, bound: nat, n: nat)
    requires Inv(s) && Blocked(s, bound, n)
    ensures Inv(RunFrom(s, actions)) && Blocked(RunFrom(s, actions), bound, n)
  {
    if actions != [] {
      var front := actions[..|actions| - 1];
      BlockedRun(s, front, bound, n);
      StepInv(RunFrom(s, front), actions[|actions| - 1]);
      BlockedStep(RunFrom(s, front), actions[|actions| - 1], bound, n);
    }
  }

  /** After a begin in `s`, the run adds a commit at or below the new snapshot. */
  ghost predicate Slips(s: State, actions: seq<Action>) {
    var s2 := RunFrom(DoBegin(s), actions);
    exists i :: |s.log| <= i < |s2.log| && s2.log[i].ts < s.nextCommitTs
  }

  /** A later commit can land below a snapshot taken now if and only if some drawn commit would go through now. */
  lemma SlipsIff(s: State)
    requires Inv(s)
    ensures (exists actions :: Slips(s, actions)) <==> Waiting(s)
  {
    BeginInv(s);
    var s1 := DoBegin(s);
    if Waiting(s) {
      var id, ts :| (id, ts) in s.drawn && !Stuck(s, id);
      var s2 := DoApply(s1, id, ts);
      assert [Apply(id, ts)][..0] == [];
      assert RunFrom(s1, [Apply(id, ts)]) == s2;
      assert s2.log[|s.log|].ts == ts;
      assert Slips(s, [Apply(id, ts)]);
    } else {
      assert Blocked(s1, s.nextCommitTs, |s.log|);
      forall actions ensures !Slips(s, actions) {
        BlockedRun(s1, actions, s.nextCommitTs, |s.log|);
      }
    }
  }

  /**
   A transaction that begins while no drawn commit can go through keeps reading the state it began in,
   through any later interleaving of draws, applies, aborts and collections, exactly as long as gc has
   left the version it sees.
   */
  lemma QuietBeginReadsStable(s: State, actions: seq<Action>, key: Key)
    requires Inv(s) && !Waiting(s)
    ensures var s2 := RunFrom(DoBegin(s), actions);
            && s.nextTxId in s2.txs && s2.txs[s.nextTxId].snapshot == s.nextCommitTs - 1
            && (ReadStore(s2.store, key, s.nextCommitTs - 1) == Replay(s.log, key) <==>
                 StillThere(s2, key, s.nextCommitTs - 1))
  {
    BeginInv(s);
    var s1 := DoBegin(s);
    RunLater(s1, actions);
    BlockedRun(s1, actions, s.nextCommitTs, |s.log|);
    var s2, n := RunFrom(s1, actions), s.nextCommitTs - 1;
    ReadIsReplay(s2, key, n);
    assert forall i :: 0 <= i < |s.log| ==> s2.log[i] == s.log[i];
    ReplaySplit(s2.log, |s.log|, key, n);
    assert s2.log[..|s.log|] == s.log;
  }

  // ---------- what a reader sees ----------

  /** No commit of this transaction can change `key` any more: it is stuck, or writing `key` would make it so. */
  ghost predicate KeyStuck(s: State, id: TxId, key: Key) {
    id in s.txs && (Stuck(s, id) || (key in s.store && HasConflict(s.store[key], s.txs[id].snapshot)))
  }

  /** Some drawn timestamp belongs to a transaction that could still commit a write of `key`. */
  ghost predicate KeyWaiting(s: State, key: Key) {
    exists id, ts :: (id, ts) in s.drawn && !KeyStuck(s, id, key)
  }

  /** From log position `n` on nothing stamped below `bound` wrote `key`, and what was drawn below it cannot. */
  ghost predicate KeyBlocked(s: State, bound: nat, n: nat, key: Key) {
    && bound <= s.nextCommitTs && n <= |s.log|
    && (forall i :: n <= i < |s.log| ==> s.log[i].ts >= bound || key !in s.log[i].writes)
    && (forall id, ts :: (id, ts) in s.drawn && ts < bound ==> KeyStuck(s, id, key))
  }

  lemma KeyStuckAfterInstall(s: State, writes: Writes, writer: TxId, ts: nat, id: TxId, key: Key, s2: State)
    requires KeyStuck(s, id, key) && s2.store == Install(s.store, writes, writer, ts)
    requires id in s2.txs && s2.txs[id].snapshot == s.txs[id].snapshot
             && (s2.txs[id].active ==> s2.txs[id] == s.txs[id])
    ensures KeyStuck(s2, id, key)
  {
    if Stuck(s, id) {
      StuckAfterInstall(s, writes, writer, ts, id, s2);
    } else if key in writes {
      assert s2.store[key][1..] == s.store[key];
    }
  }

  /** Whoever is stuck on `key` commits without it. */
  lemma KeyBlockedApply(s: State, id: TxId, ts: nat, bound: nat, n: nat, key: Key)
    requires Inv(s) && KeyBlocked(s, bound, n, key)
    ensures KeyBlocked(DoApply(s, id, ts), bound, n, key)
  {
    var s2 := DoApply(s, id, ts);
    if (id, ts) in s.drawn && id in s.txs && s.txs[id].active {
      RollbackChangesNothing(s, id);
      var tx := s.txs[id];
      if !Conflicts(s.store, tx.writes, tx.snapshot) {
        forall x, t | (x, t) in s2.drawn && t < bound ensures KeyStuck(s2, x, key) {
          KeyStuckAfterInstall(s, tx.writes, id, ts, x, key, s2);
        }
      }
    }
  }

  lemma KeyStuckAfterGc(s: State, watermark: nat, maxVersions: nat, id: TxId, key: Key)
    requires Inv(s) && KeyStuck(s, id, key)
    ensures KeyStuck(DoGc(s, watermark, maxVersions), id, key)
  {
    if Stuck(s, id) {
      StuckAfterGc(s, watermark, maxVersions, id);
    } else {
      assert ChainIsPrefix(s, key);
      GcKeepsConflict(s.store[key], watermark, maxVersions, s.txs[id].snapshot);
    }
  }

  lemma KeyStuckAfterWrite(s: State, id: TxId, k: Key, value: Option<Value>, x: TxId, key: Key)
    requires KeyStuck(s, x, key)
    ensures KeyStuck(DoWrite(s, id, k, value), x, key)
  {
    var s2 := DoWrite(s, id, k, value);
    if Stuck(s, x) && x == id && IsActive(s, id) {
      ConflictStays(s, s2.store, s.txs[x].writes, s2.txs[x].writes, s.txs[x].snapshot);
    }
  }

  lemma KeyBlockedStep(s: State, a: Action, bound: nat, n: nat, key: Key)
    requires Inv(s) && KeyBlocked(s, bound, n, key)
    ensures KeyBlocked(Do(s, a), bound, n, key)
  {
    var s2 := Do(s, a);
    match a
    case Begin =>
    case Write(id, k, value) =>
      forall x, t | (x, t) in s2.drawn && t < bound ensures KeyStuck(s2, x, key) {
        KeyStuckAfterWrite(s, id, k, value, x, key);
      }
    case Draw(id) =>
    case Apply(id, ts) => KeyBlockedApply(s, id, ts, bound, n, key);
    case Abort(id) =>
      if IsActive(s, id) {
        RollbackChangesNothing(s, id);
      }
    case Gc(watermark, maxVersions) =>
      forall x, t | (x, t) in s2.drawn && t < bound ensures KeyStuck(s2, x, key) {
        KeyStuckAfterGc(s, watermark, maxVersions, x, key);
      }
  }

  lemma {:induction false} KeyBlockedRun(s: State, actions: seq<Action>, bound: nat, n: nat, key: Key)
    requires Inv(s) && KeyBlocked(s, bound, n, key)
    ensures Inv(RunFrom(s, actions)) && KeyBlocked(RunFrom(s, actions), bound, n, key)
  {
    if actions != [] {
      var front := actions[..|actions| - 1];
      KeyBlockedRun(s, front, bound, n, key);
      StepInv(RunFrom(s, front), actions[|actions| - 1]);
      KeyBlockedStep(RunFrom(s, front), actions[|actions| - 1], bound, n, key);
    }
  }

  /** Commits after the first `n` that are above the snapshot or do not write the key leave its replay alone. */
  lemma {:induction false} ReplaySkips(log: Log, n: nat, key: Key, snapshot: nat)
    requires n <= |log|
    requires forall i :: 0 <= i < n ==> log[i].ts <= snapshot
    requires forall i :: n <= i < |log| ==> log[i].ts > snapshot || key !in log[i].writes
    ensures ReplayUpTo(log, key, snapshot) == Replay(log[..n], key)
  {
    if n == |log| {
      assert log[..n] == log;
      ReplaySplit(log, n, key, snapshot);
    } else {
      var front := log[..|log| - 1];
      ReplaySkips(front, n, key, snapshot);
      assert front[..n] == log[..n];
    }
  }

  /** After a begin in `s`, the run makes the new snapshot read something else than the state it began in, gc apart. */
  ghost predicate ReadSlips(s: State, key: Key, actions: seq<Action>)
    requires s.nextCommitTs > 0
  {
    var s2 := RunFrom(DoBegin(s), actions);
    && ReadStore(s2.store, key, s.nextCommitTs - 1) != Replay(s.log, key)
    && StillThere(s2, key, s.nextCommitTs - 1)
  }

  lemma KeyQuietStable(s: State, actions: seq<Action>, key: Key)
    requires Inv(s) && !KeyWaiting(s, key)
    ensures !ReadSlips(s, key, actions)
  {
    BeginInv(s);
    var s1 := DoBegin(s);
    assert KeyBlocked(s1, s.nextCommitTs, |s.log|, key);
    RunLater(s1, actions);
    KeyBlockedRun(s1, actions, s.nextCommitTs, |s.log|, key);
    var s2, n := RunFrom(s1, actions), s.nextCommitTs - 1;
    ReadIsReplay(s2, key, n);
    assert forall i :: 0 <= i < |s.log| ==> s2.log[i] == s.log[i];
    ReplaySkips(s2.log, |s.log|, key, n);
    assert s2.log[..|s.log|] == s.log;
  }

  lemma RunTwo(s: State, a: Action, b: Action)
    ensures RunFrom(s, [a, b]) == Do(Do(s, a), b)
  {
    assert [a, b][..1] == [a] && [a][..0] == [];
    assert RunFrom(s, [a]) == Do(s, a);
  }

  /** A drawn commit that can still write `key` does so, and is read from its timestamp on. */
  lemma TakesUp(s: State, key: Key, value: Value, id: TxId, ts: nat, snapshot: nat)
    requires Inv(s) && (id, ts) in s.drawn && id in s.txs && !KeyStuck(s, id, key) && ts <= snapshot
    ensures var s3 := DoApply(DoWrite(s, id, key, Some(value)), id, ts);
            ReadStore(s3.store, key, snapshot) == Some(value) && StillThere(s3, key, snapshot)
  {
    var s2 := DoWrite(s, id, key, Some(value));
    var s3 := DoApply(s2, id, ts);
    WriteInv(s, id, key, Some(value));
    ApplyInv(s2, id, ts);
    assert !Conflicts(s2.store, s2.txs[id].writes, s2.txs[id].snapshot);
    CommitReadsWhole(s2, id, ts, key, snapshot);
    var older := if key in s.store then s.store[key] else [];
    assert s3.store[key] == [Version(Some(value), id, ts)] + older;
    assert ChainIsPrefix(s3, key);
    UntouchedIsThere(s3, key, snapshot);
  }

  /** It lands below a snapshot taken before it. */
  lemma KeyWaitingSlips(s: State, key: Key, value: Value, id: TxId, ts: nat)
    requires Inv(s) && (id, ts) in s.drawn && !KeyStuck(s, id, key) && Replay(s.log, key) != Some(value)
    ensures ReadSlips(s, key, [Write(id, key, Some(value)), Apply(id, ts)])
  {
    BeginInv(s);
    StuckAtBegin(s, id, key);
    var s1, n := DoBegin(s), s.nextCommitTs - 1;
    var a, b := Write(id, key, Some(value)), Apply(id, ts);
    RunTwo(s1, a, b);
    TakesUp(s1, key, value, id, ts, n);
    var s3 := Do(Do(s1, a), b);
    assert ReadStore(s3.store, key, n) == Some(value) && StillThere(s3, key, n);
  }

  /** A begin leaves everyone else as they were. */
  lemma StuckAtBegin(s: State, id: TxId, key: Key)
    requires Inv(s) && id in s.txs
    ensures id in DoBegin(s).txs && (KeyStuck(DoBegin(s), id, key) <==> KeyStuck(s, id, key))
  {
    assert id < s.nextTxId;
    assert DoBegin(s).txs[id] == s.txs[id];
  }

  /**
   Some later interleaving changes what a snapshot taken now reads for `key`, gc apart, if and only if some
   drawn commit would go through now and would still do so with a write of `key`.
   */
  lemma ReadSlipsIff(s: State, key: Key)
    requires Inv(s)
    ensures (exists actions :: ReadSlips(s, key, actions)) <==> KeyWaiting(s, key)
  {
    if KeyWaiting(s, key) {
      var id, ts :| (id, ts) in s.drawn && !KeyStuck(s, id, key);
      KeyWaitingSlips(s, key, if Replay(s.log, key) == Some([]) then [0] else [], id, ts);
    } else {
      forall actions ensures !ReadSlips(s, key, actions) {
        KeyQuietStable(s, actions, key);
      }
    }
  }
}
