/** Version chains (nanograph-btree/src/mvcc.rs): newest version first, read by snapshot timestamp. */
module MvccChain {
  import opened Wrappers
  import opened Bytes

  /** `value` is None for a deletion marker; `commitTs` is 0 until the version is committed. */
  datatype Version = Version(value: Option<Value>, createdTs: nat, commitTs: nat) {
    predicate IsVisible(snapshot: nat) {
      0 < commitTs <= snapshot
    }

    predicate IsUncommitted() {
      commitTs == 0
    }
  }

  type Chain = seq<Version>

  function AddVersion(c: Chain, value: Option<Value>, createdTs: nat): Chain {
    [Version(value, createdTs, 0)] + c
  }

  /** The first version visible at the snapshot decides. */
  function Get(c: Chain, snapshot: nat): Option<Value> {
    if c == [] then None else if c[0].IsVisible(snapshot) then c[0].value else Get(c[1..], snapshot)
  }

  function GetLatest(c: Chain): Option<Value> {
    if c == [] then None else if c[0].commitTs > 0 then c[0].value else GetLatest(c[1..])
  }

  /** The first committed version decides, and no other does. */
  lemma {:induction false} LatestIs(c: Chain)
    ensures (forall i :: 0 <= i < |c| ==> c[i].IsUncommitted()) ==> GetLatest(c) == None
    ensures forall i :: 0 <= i < |c| && c[i].commitTs > 0 && (forall j :: 0 <= j < i ==> c[j].IsUncommitted()) ==>
              GetLatest(c) == c[i].value
  {
    if c != [] && c[0].IsUncommitted() {
      LatestIs(c[1..]);
      forall i | 0 <= i < |c| && c[i].commitTs > 0 && (forall j :: 0 <= j < i ==> c[j].IsUncommitted())
        ensures GetLatest(c) == c[i].value
      {
        assert c[1..][i - 1] == c[i] && forall j :: 0 <= j < i - 1 ==> c[1..][j] == c[j + 1];
      }
      assert forall i :: 0 < i < |c| ==> c[i] == c[1..][i - 1];
    }
  }

  predicate HasConflict(c: Chain, snapshot: nat)
    ensures HasConflict(c, snapshot) <==> exists i :: 0 <= i < |c| && (c[i].IsUncommitted() || c[i].commitTs > snapshot)
  {
    if c == [] then false
    else if c[0].IsUncommitted() || c[0].commitTs > snapshot then true
    else
      assert forall i :: 0 < i < |c| ==> c[i] == c[1..][i - 1];
      HasConflict(c[1..], snapshot)
  }

  /** Every version of one transaction that is still uncommitted gets the commit timestamp. */
  function Commit(c: Chain, createdTs: nat, commitTs: nat): (r: Chain)
    ensures |r| == |c|
    ensures forall i :: 0 <= i < |c| ==>
              r[i] == if c[i].createdTs == createdTs && c[i].IsUncommitted() then c[i].(commitTs := commitTs) else c[i]
  {
    if c == [] then []
    else [if c[0].createdTs == createdTs && c[0].IsUncommitted() then c[0].(commitTs := commitTs) else c[0]]
         + Commit(c[1..], createdTs, commitTs)
  }

  /** The loop that stamps the versions of one transaction in place. */
  method CommitVersions(c: Chain, createdTs: nat, commitTs: nat) returns (r: Chain)
    ensures r == Commit(c, createdTs, commitTs)
  {
    ghost var stamped := Commit(c, createdTs, commitTs);
    r := c;
    for i := 0 to |c|
      invariant |r| == |c|
      invariant forall j :: 0 <= j < |c| ==> r[j] == if j < i then stamped[j] else c[j]
    {
      if r[i].createdTs == createdTs && r[i].IsUncommitted() {
        r := r[i := r[i].(commitTs := commitTs)];
      }
    }
  }

  /** Drops every version of one transaction. */
  function Rollback(c: Chain, createdTs: nat): Chain {
    if c == [] then []
    else if c[0].createdTs == createdTs then Rollback(c[1..], createdTs)
    else [c[0]] + Rollback(c[1..], createdTs)
  }

  /** Version by version and in order: each stays or goes by itself. */
  lemma {:induction false} RollbackSplits(a: Chain, b: Chain, createdTs: nat)
    ensures Rollback(a + b, createdTs) == Rollback(a, createdTs) + Rollback(b, createdTs)
    ensures |a| == 1 ==> Rollback(a, createdTs) == if a[0].createdTs == createdTs then [] else a
  {
    RollbackJoins(a, b, createdTs);
    if |a| == 1 {
      assert a == [a[0]] + [];
    }
  }

  lemma {:induction false} RollbackJoins(a: Chain, b: Chain, createdTs: nat)
    ensures Rollback(a + b, createdTs) == Rollback(a, createdTs) + Rollback(b, createdTs)
  {
    if a == [] {
      assert a + b == b;
    } else {
      RollbackJoins(a[1..], b, createdTs);
      RollbackHead(a + b, a[0], a[1..] + b, createdTs);
      RollbackHead(a, a[0], a[1..], createdTs);
    }
  }

  lemma RollbackHead(c: Chain, v: Version, rest: Chain, createdTs: nat)
    requires c == [v] + rest
    ensures Rollback(c, createdTs) == (if v.createdTs == createdTs then [] else [v]) + Rollback(rest, createdTs)
  {
    assert c[1..] == rest;
  }

  /** Exactly the versions of the other transactions stay. */
  lemma {:induction false} RollbackKeeps(c: Chain, createdTs: nat, v: Version)
    ensures v in Rollback(c, createdTs) <==> v in c && v.createdTs != createdTs
  {
    if c != [] {
      RollbackKeeps(c[1..], createdTs, v);
      assert c == [c[0]] + c[1..];
    }
  }

  lemma {:induction false} RollbackOfNothing(c: Chain, createdTs: nat)
    requires forall i :: 0 <= i < |c| ==> c[i].createdTs != createdTs
    ensures Rollback(c, createdTs) == c
  {
    if c != [] {
      RollbackOfNothing(c[1..], createdTs);
      assert c == [c[0]] + c[1..];
    }
  }

  // ---------- settled chains ----------

  /** Fully committed and strictly descending in commit timestamp. */
  ghost predicate Settled(c: Chain) {
    && (forall i :: 0 <= i < |c| ==> c[i].commitTs > 0)
    && (forall i, j :: 0 <= i < j < |c| ==> c[i].commitTs > c[j].commitTs)
  }

  /** The index of the version a snapshot sees, or the length if it sees none. */
  function SeenAt(c: Chain, snapshot: nat): (i: nat)
    ensures i <= |c|
    ensures forall j :: 0 <= j < i ==> !c[j].IsVisible(snapshot)
    ensures i < |c| ==> c[i].IsVisible(snapshot)
    ensures Get(c, snapshot) == if i < |c| then c[i].value else None
  {
    if c == [] || c[0].IsVisible(snapshot) then 0
    else
      assert forall j :: 0 < j < |c| ==> c[j] == c[1..][j - 1];
      1 + SeenAt(c[1..], snapshot)
  }

  /** A prefix of a settled chain reads like the whole chain from its oldest version on. */
  lemma PrefixReads(c: Chain, n: nat, snapshot: nat)
    requires Settled(c) && 0 < n <= |c| && c[n - 1].commitTs <= snapshot
    ensures Get(c[..n], snapshot) == Get(c, snapshot)
  {
    var i, j := SeenAt(c[..n], snapshot), SeenAt(c, snapshot);
    assert c[..n][n - 1] == c[n - 1];
    assert j <= n - 1 && c[..n][j] == c[j];
  }

  // ---------- garbage collection ----------

  /**
   What `retain` keeps with a running count: the first version, then those above the watermark while there is
   room.
   */
  function Kept(c: Chain, keepCount: nat, watermark: nat, maxVersions: nat): Chain {
    if c == [] then []
    else if keepCount == 0 || (c[0].commitTs > watermark && keepCount < maxVersions)
    then [c[0]] + Kept(c[1..], keepCount + 1, watermark, maxVersions)
    else Kept(c[1..], keepCount, watermark, maxVersions)
  }

  lemma {:induction false} KeptSnoc(c: Chain, v: Version, keepCount: nat, watermark: nat, maxVersions: nat)
    ensures var k := Kept(c, keepCount, watermark, maxVersions);
            Kept(c + [v], keepCount, watermark, maxVersions)
            == if keepCount + |k| == 0 || (v.commitTs > watermark && keepCount + |k| < maxVersions) then k + [v] else k
  {
    if c == [] {
      assert c + [v] == [v];
    } else {
      assert (c + [v])[1..] == c[1..] + [v];
      if keepCount == 0 || (c[0].commitTs > watermark && keepCount < maxVersions) {
        KeptSnoc(c[1..], v, keepCount + 1, watermark, maxVersions);
      } else {
        KeptSnoc(c[1..], v, keepCount, watermark, maxVersions);
      }
    }
  }

  method GcVersions(c: Chain, watermark: nat, maxVersions: nat) returns (kept: Chain)
    ensures kept == Kept(c, 0, watermark, maxVersions)
  {
    var keepCount := 0;
    kept := [];
    for i := 0 to |c|
      invariant kept == Kept(c[..i], 0, watermark, maxVersions) && keepCount == |kept|
    {
      assert c[..i + 1] == c[..i] + [c[i]];
      KeptSnoc(c[..i], c[i], 0, watermark, maxVersions);
      if keepCount == 0 {
        keepCount := keepCount + 1;
        kept := kept + [c[i]];
      } else if c[i].commitTs > watermark && keepCount < maxVersions {
        keepCount := keepCount + 1;
        kept := kept + [c[i]];
      }
    }
    assert c[..|c|] == c;
  }

  /** How many versions survive on a settled chain. */
  function KeepLen(c: Chain, keepCount: nat, watermark: nat, maxVersions: nat): (n: nat)
    ensures n <= |c|
  {
    if c != [] && (keepCount == 0 || (c[0].commitTs > watermark && keepCount < maxVersions))
    then 1 + KeepLen(c[1..], keepCount + 1, watermark, maxVersions)
    else 0
  }

  lemma {:induction false} NothingMoreKept(c: Chain, keepCount: nat, watermark: nat, maxVersions: nat)
    requires keepCount > 0 && forall i :: 0 <= i < |c| ==> c[i].commitTs <= watermark || keepCount >= maxVersions
    ensures Kept(c, keepCount, watermark, maxVersions) == []
  {
    if c != [] {
      NothingMoreKept(c[1..], keepCount, watermark, maxVersions);
    }
  }

  /** On a settled chain gc keeps a prefix, never an empty one, and says which versions it drops. */
  lemma {:induction false} GcKeepsPrefix(c: Chain, keepCount: nat, watermark: nat, maxVersions: nat)
    requires Settled(c)
    ensures var n := KeepLen(c, keepCount, watermark, maxVersions);
            && Kept(c, keepCount, watermark, maxVersions) == c[..n]
            && (c != [] && keepCount == 0 ==> n > 0)
            && (forall i :: 0 <= i < |c| ==>
                  (i < n <==> keepCount + i == 0 || (c[i].commitTs > watermark && keepCount + i < maxVersions)))
  {
    if c != [] {
      if keepCount == 0 || (c[0].commitTs > watermark && keepCount < maxVersions) {
        GcKeepsPrefix(c[1..], keepCount + 1, watermark, maxVersions);
        assert forall i :: 0 < i < |c| ==> c[i] == c[1..][i - 1];
      } else {
        NothingMoreKept(c, keepCount, watermark, maxVersions);
      }
    }
  }

  /** The latest committed value survives gc. */
  lemma GcKeepsLatest(c: Chain, watermark: nat, maxVersions: nat)
    requires Settled(c)
    ensures GetLatest(Kept(c, 0, watermark, maxVersions)) == GetLatest(c)
    ensures Settled(Kept(c, 0, watermark, maxVersions))
    ensures c != [] ==> Kept(c, 0, watermark, maxVersions) != [] && Kept(c, 0, watermark, maxVersions) <= c
  {
    GcKeepsPrefix(c, 0, watermark, maxVersions);
  }

  /** Reads at or above the oldest version gc keeps are unchanged. */
  lemma GcReadsAbove(c: Chain, watermark: nat, maxVersions: nat, snapshot: nat)
    requires Settled(c) && c != []
    requires var k := Kept(c, 0, watermark, maxVersions); k != [] && k[|k| - 1].commitTs <= snapshot
    ensures Get(Kept(c, 0, watermark, maxVersions), snapshot) == Get(c, snapshot)
  {
    GcKeepsPrefix(c, 0, watermark, maxVersions);
    PrefixReads(c, KeepLen(c, 0, watermark, maxVersions), snapshot);
  }

  /**
   Exactly when gc leaves a read alone: the version the snapshot sees is the head, or is above the
   watermark and within the version limit, or there is none, or it is a deletion marker.  A snapshot at
   the watermark that sees an older version is not among these.
   */
  lemma GcReadUnchangedIff(c: Chain, watermark: nat, maxVersions: nat, snapshot: nat)
    requires Settled(c)
    ensures Get(Kept(c, 0, watermark, maxVersions), snapshot) == Get(c, snapshot)
            <==> var i := SeenAt(c, snapshot);
                 i == |c| || i == 0 || (c[i].commitTs > watermark && i < maxVersions) || c[i].value == None
  {
    GcKeepsPrefix(c, 0, watermark, maxVersions);
    var n, i := KeepLen(c, 0, watermark, maxVersions), SeenAt(c, snapshot);
    var k := SeenAt(c[..n], snapshot);
    if i < n {
      assert c[..n][i] == c[i] && k == i;
    } else {
      assert k == n;
    }
  }

  /** The watermark equals the reader's snapshot, two versions, and the reader's version is dropped. */
  lemma GcCanDropAVisibleVersion(v1: Value, tx1: nat, v2: Value, tx2: nat)
    ensures var c := [Version(Some(v2), tx2, 2), Version(Some(v1), tx1, 1)];
            Settled(c) && Get(c, 1) == Some(v1) && Get(Kept(c, 0, 1, 10), 1) == None
  {
    var c := [Version(Some(v2), tx2, 2), Version(Some(v1), tx1, 1)];
    assert c[1..] == [Version(Some(v1), tx1, 1)] && c[1..][1..] == [];
    assert Kept(c[1..], 1, 1, 10) == Kept([], 1, 1, 10);
  }
}
