/** The versioned tree (nanograph-btree/src/mvcc_tree.rs): one leaf of version chains behind a lock. */
module Mvcc {
  import opened Wrappers
  import opened Bytes
  import opened MvccChain
  import opened MvccModel
  import opened MvccLeaf
  import opened MvccSnapshot

  /** A buffered write, as the commit hands it over: a value to put or a deletion. */
  datatype WriteOp = WriteOp(key: Key, value: Option<Value>)

  /** `ops` lists the bindings of `w`, each key once, in some order. */
  ghost predicate Lists(ops: seq<WriteOp>, w: Writes) {
    && (forall i, j :: 0 <= i < j < |ops| ==> ops[i].key != ops[j].key)
    && (forall o: WriteOp :: o in ops <==> o.key in w && w[o.key] == o.value)
  }

  ghost predicate AllCommitted(m: Store) {
    forall k, i :: k in m && 0 <= i < |m[k]| ==> m[k][i].commitTs > 0
  }

  class MvccBPlusTree {
    const maxVersions: nat
    var root: seq<LeafEntry>
    var minSnapshotTs: nat
    ghost var store: Store

    ghost predicate Valid()
      reads this
    {
      Represents(root, store)
    }

    constructor (maxVersions: nat)
      ensures Valid() && store == map[] && minSnapshotTs == 0 && this.maxVersions == maxVersions
    {
      this.maxVersions := maxVersions;
      root := [];
      minSnapshotTs := 0;
      store := map[];
    }

    method Get(key: Key, snapshot: nat) returns (value: Option<Value>)
      requires Valid()
      ensures value == ReadStore(store, key, snapshot)
    {
      FindDecides(root, store, key);
      match FindKeyIndex(root, key)
      case Found(i) => value := MvccChain.Get(root[i].chain, snapshot);
      case Missing(_) => value := None;
    }

    method HasConflict(key: Key, snapshot: nat) returns (conflict: bool)
      requires Valid()
      ensures conflict <==> key in store && MvccChain.HasConflict(store[key], snapshot)
    {
      FindDecides(root, store, key);
      match FindKeyIndex(root, key)
      case Found(i) => conflict := MvccChain.HasConflict(root[i].chain, snapshot);
      case Missing(_) => conflict := false;
    }

    /**
     Checks every write for a conflict, installs all of them uncommitted, then stamps them; on a conflict
     it rolls the transaction back instead.
     */
    method AtomicCommit(ops: seq<WriteOp>, snapshot: nat, createdTs: nat, commitTs: nat, ghost w: Writes)
        returns (r: Result<()>)
      requires Valid() && Lists(ops, w)
      modifies this
      ensures Valid() && minSnapshotTs == old(minSnapshotTs)
      ensures r.Ok? <==> !Conflicts(old(store), w, snapshot)
      ensures r.Ok? <==> forall k, j :: k in w && k in old(store) && 0 <= j < |old(store)[k]| ==>
                           0 < old(store)[k][j].commitTs <= snapshot
      ensures r.Ok? ==> store == CommitStore(Install(old(store), w, createdTs, 0), createdTs, commitTs)
      ensures r.Ok? && AllCommitted(old(store)) ==> store == Install(old(store), w, createdTs, commitTs)
      ensures r.Err? ==> store == RollbackStore(old(store), createdTs)
    {
      ConflictsMean(store, w, snapshot);
      var conflict := AnyConflict(ops, snapshot, w);
      if conflict {
        RollbackVersions(createdTs);
        return Err("Write conflict detected");
      }
      InstallAll(ops, createdTs, w);
      if AllCommitted(old(store)) {
        CommitInstalled(old(store), w, createdTs, commitTs);
      }
      CommitVersions(createdTs, commitTs);
      r := Ok(());
    }

    method AnyConflict(ops: seq<WriteOp>, snapshot: nat, ghost w: Writes) returns (found: bool)
      requires Valid() && Lists(ops, w)
      ensures found <==> Conflicts(store, w, snapshot)
    {
      for i := 0 to |ops|
        invariant forall j :: 0 <= j < i ==>
                    !(ops[j].key in store && MvccChain.HasConflict(store[ops[j].key], snapshot))
      {
        found := HasConflict(ops[i].key, snapshot);
        if found {
          assert ops[i] in ops;
          return;
        }
      }
      found := false;
      forall k | k in w && k in store ensures !MvccChain.HasConflict(store[k], snapshot) {
        assert WriteOp(k, w[k]) in ops;
      }
    }

    method InstallAll(ops: seq<WriteOp>, createdTs: nat, ghost w: Writes)
      requires Valid() && Lists(ops, w)
      modifies this
      ensures Valid() && minSnapshotTs == old(minSnapshotTs) && store == Install(old(store), w, createdTs, 0)
    {
      InstallNothing(store, createdTs);
      for i := 0 to |ops|
        invariant Valid() && minSnapshotTs == old(minSnapshotTs)
        invariant store == Install(old(store), AsWrites(ops[..i]), createdTs, 0)
      {
        NotYetWritten(ops, i, i);
        assert ops[..i + 1][..i] == ops[..i];
        WriteLeafSpec(root, store, ops[i].key, ops[i].value, createdTs);
        InstallMore(old(store), AsWrites(ops[..i]), ops[i].key, ops[i].value, createdTs);
        root := WriteLeaf(root, ops[i].key, ops[i].value, createdTs);
        store := Install(store, map[ops[i].key := ops[i].value], createdTs, 0);
      }
      assert ops[..|ops|] == ops;
      ListsAll(ops, w);
    }

    /** Stamps the uncommitted versions of one transaction in every chain. */
    method CommitVersions(createdTs: nat, commitTs: nat)
      requires Valid()
      modifies this
      ensures Valid() && minSnapshotTs == old(minSnapshotTs) && store == CommitStore(old(store), createdTs, commitTs)
    {
      ghost var es := root;
      for i := 0 to |root|
        invariant |root| == |es| && store == old(store) && minSnapshotTs == old(minSnapshotTs)
        invariant forall j :: 0 <= j < |es| ==>
                    root[j] == if j < i then LeafEntry(es[j].key, Commit(es[j].chain, createdTs, commitTs)) else es[j]
      {
        var chain := MvccChain.CommitVersions(root[i].chain, createdTs, commitTs);
        root := root[i := LeafEntry(root[i].key, chain)];
      }
      store := CommitStore(store, createdTs, commitTs);
      EntriesBound(es, old(store));
      SameKeys(es, old(store), root, store);
    }

    /** Collects old versions in every chain below the current watermark. */
    method GcVersions()
      requires Valid()
      modifies this
      ensures Valid() && minSnapshotTs == old(minSnapshotTs) && store == GcStore(old(store), minSnapshotTs, maxVersions)
    {
      ghost var es := root;
      var watermark := minSnapshotTs;
      for i := 0 to |root|
        invariant |root| == |es| && store == old(store) && minSnapshotTs == old(minSnapshotTs)
        invariant forall j :: 0 <= j < |es| ==>
                    root[j] == if j < i then LeafEntry(es[j].key, Kept(es[j].chain, 0, watermark, maxVersions))
                               else es[j]
      {
        var chain := MvccChain.GcVersions(root[i].chain, watermark, maxVersions);
        root := root[i := LeafEntry(root[i].key, chain)];
      }
      store := GcStore(store, watermark, maxVersions);
      EntriesBound(es, old(store));
      SameKeys(es, old(store), root, store);
    }

    /** Drops the versions of one transaction, and the entries left without a version. */
    method RollbackVersions(createdTs: nat)
      requires Valid()
      modifies this
      ensures Valid() && minSnapshotTs == old(minSnapshotTs) && store == RollbackStore(old(store), createdTs)
    {
      var kept: seq<LeafEntry> := [];
      for i := 0 to |root|
        invariant root == old(root) && store == old(store) && minSnapshotTs == old(minSnapshotTs)
        invariant kept == RolledBack(root[..i], createdTs)
      {
        assert root[..i + 1][..i] == root[..i];
        var chain := Rollback(root[i].chain, createdTs);
        if chain != [] {
          kept := kept + [LeafEntry(root[i].key, chain)];
        }
      }
      assert root[..|root|] == root;
      RolledBackRepresents(root, store, createdTs);
      root := kept;
      store := RollbackStore(store, createdTs);
    }

    method UpdateMinSnapshotTs(ts: nat)
      modifies this`minSnapshotTs
      ensures minSnapshotTs == ts
    {
      minSnapshotTs := ts;
    }
  }

  lemma InstallNothing(m: Store, id: TxId)
    ensures Install(m, map[], id, 0) == m
  {
  }

  lemma EntriesBound(es: seq<LeafEntry>, m: Store)
    requires Represents(es, m)
    ensures forall i :: 0 <= i < |es| ==> es[i].key in m && m[es[i].key] == es[i].chain
  {
    forall i | 0 <= i < |es| ensures es[i].key in m && m[es[i].key] == es[i].chain {
      assert es[i] in es;
    }
  }

  ghost function RolledBack(es: seq<LeafEntry>, createdTs: nat): seq<LeafEntry> {
    if es == [] then []
    else
      var front, e := RolledBack(es[..|es| - 1], createdTs), es[|es| - 1];
      var chain := Rollback(e.chain, createdTs);
      if chain != [] then front + [LeafEntry(e.key, chain)] else front
  }

  ghost predicate Remains(es: seq<LeafEntry>, f: LeafEntry, createdTs: nat) {
    f.chain != [] && exists c :: LeafEntry(f.key, c) in es && Rollback(c, createdTs) == f.chain
  }

  lemma {:induction false} RolledBackMembers(es: seq<LeafEntry>, createdTs: nat)
    ensures forall f :: f in RolledBack(es, createdTs) <==> Remains(es, f, createdTs)
  {
    if es != [] {
      var front, e := es[..|es| - 1], es[|es| - 1];
      RolledBackMembers(front, createdTs);
      assert es == front + [e] && e == LeafEntry(e.key, e.chain);
      forall f ensures Remains(es, f, createdTs) <==>
                       Remains(front, f, createdTs) || (f.key == e.key
                         && f.chain == Rollback(e.chain, createdTs) != []) {
      }
    }
  }

  lemma {:induction false} RolledBackSorted(es: seq<LeafEntry>, createdTs: nat)
    requires SortedLeaf(es)
    ensures SortedLeaf(RolledBack(es, createdTs))
  {
    if es != [] {
      var front, e := es[..|es| - 1], es[|es| - 1];
      RolledBackSorted(front, createdTs);
      RolledBackMembers(front, createdTs);
      var fs := RolledBack(front, createdTs);
      forall i | 0 <= i < |fs| ensures Rank(fs[i].key) < Rank(e.key) {
        assert fs[i] in fs && Remains(front, fs[i], createdTs);
        var c :| LeafEntry(fs[i].key, c) in front;
        var j :| 0 <= j < |front| && front[j] == LeafEntry(fs[i].key, c);
        assert es[j] == front[j];
      }
    }
  }

  lemma RolledBackRepresents(es: seq<LeafEntry>, m: Store, createdTs: nat)
    requires Represents(es, m)
    ensures Represents(RolledBack(es, createdTs), RollbackStore(m, createdTs))
  {
    RolledBackMembers(es, createdTs);
    RolledBackSorted(es, createdTs);
    var m1 := RollbackStore(m, createdTs);
    forall f: LeafEntry ensures Remains(es, f, createdTs) <==> f.key in m1 && m1[f.key] == f.chain {
      assert f.key in m ==> LeafEntry(f.key, m[f.key]) in es;
    }
  }

  // ---------- write lists ----------

  ghost function AsWrites(ops: seq<WriteOp>): Writes {
    if ops == [] then map[] else AsWrites(ops[..|ops| - 1])[ops[|ops| - 1].key := ops[|ops| - 1].value]
  }

  lemma {:induction false} NotYetWritten(ops: seq<WriteOp>, i: nat, n: nat)
    requires n <= i < |ops| && forall a, b :: 0 <= a < b < |ops| ==> ops[a].key != ops[b].key
    ensures ops[i].key !in AsWrites(ops[..n])
  {
    if n > 0 {
      NotYetWritten(ops, i, n - 1);
      assert ops[..n][..n - 1] == ops[..n - 1];
    }
  }

  lemma {:induction false} AsWritesBinds(ops: seq<WriteOp>, n: nat, k: Key)
    requires n <= |ops| && forall a, b :: 0 <= a < b < |ops| ==> ops[a].key != ops[b].key
    ensures k in AsWrites(ops[..n]) <==> exists o :: o in ops[..n] && o.key == k
    ensures k in AsWrites(ops[..n]) ==> WriteOp(k, AsWrites(ops[..n])[k]) in ops[..n]
  {
    if n > 0 {
      AsWritesBinds(ops, n - 1, k);
      assert ops[..n] == ops[..n - 1] + [ops[n - 1]] && ops[..n][..n - 1] == ops[..n - 1];
    }
  }

  lemma ListsAll(ops: seq<WriteOp>, w: Writes)
    requires Lists(ops, w)
    ensures AsWrites(ops) == w
  {
    assert ops[..|ops|] == ops;
    forall k ensures k in AsWrites(ops) <==> k in w {
      AsWritesBinds(ops, |ops|, k);
      assert k in w ==> WriteOp(k, w[k]) in ops;
    }
    forall k | k in w ensures AsWrites(ops)[k] == w[k] {
      AsWritesBinds(ops, |ops|, k);
    }
  }
}
