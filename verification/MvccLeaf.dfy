/** The versioned leaf (nanograph-btree/src/mvcc_node.rs): a vector of chains sorted by key, standing for a map. */
module MvccLeaf {
  import opened Wrappers
  import opened Bytes
  import opened BTreeNode
  import opened MvccChain
  import opened MvccModel

  datatype LeafEntry = LeafEntry(key: Key, chain: Chain)

  function LeafKeys(es: seq<LeafEntry>): seq<Key> {
    seq(|es|, i requires 0 <= i < |es| => es[i].key)
  }

  function FindKeyIndex(es: seq<LeafEntry>, key: Key): SearchResult {
    Search(LeafKeys(es), key)
  }

  ghost predicate SortedLeaf(es: seq<LeafEntry>) {
    forall i, j :: 0 <= i < j < |es| ==> Rank(es[i].key) < Rank(es[j].key)
  }

  /** The vector is sorted and lists exactly the bindings of `m`. */
  ghost predicate Represents(es: seq<LeafEntry>, m: Store) {
    && SortedLeaf(es)
    && forall e: LeafEntry :: e in es <==> e.key in m && m[e.key] == e.chain
  }

  lemma FindSorted(es: seq<LeafEntry>, key: Key)
    requires SortedLeaf(es)
    ensures var r := FindKeyIndex(es, key);
            && r.idx <= |es|
            && (r.Found? ==> r.idx < |es| && es[r.idx].key == key)
            && (r.Missing? ==> (forall j :: 0 <= j < r.idx ==> Rank(es[j].key) < Rank(key))
                               && (r.idx < |es| ==> Rank(key) < Rank(es[r.idx].key)))
  {
    assert forall j :: 0 <= j < |es| ==> LeafKeys(es)[j] == es[j].key;
  }

  lemma FindDecides(es: seq<LeafEntry>, m: Store, key: Key)
    requires Represents(es, m)
    ensures var r := FindKeyIndex(es, key);
            && (r.Found? <==> key in m)
            && (r.Found? ==> r.idx < |es| && es[r.idx] == LeafEntry(key, m[key]))
  {
    assert key in m ==> LeafEntry(key, m[key]) in es;
    FindSorted(es, key);
    var r := FindKeyIndex(es, key);
    if r.Found? {
      assert es[r.idx] in es;
    } else {
      forall j | 0 <= j < |es| ensures es[j].key != key {
        assert j > r.idx ==> Rank(es[r.idx].key) < Rank(es[j].key);
      }
    }
  }

  // ---------- updates ----------

  /** Replaces the chain at a position. */
  lemma ReplaceChain(es: seq<LeafEntry>, m: Store, i: nat, c: Chain)
    requires Represents(es, m) && i < |es|
    ensures Represents(es[i := LeafEntry(es[i].key, c)], m[es[i].key := c])
  {
    var fs, key := es[i := LeafEntry(es[i].key, c)], es[i].key;
    ReplaceMembers(es, i, c, fs);
    assert es[i] in es;
  }

  lemma ReplaceMembers(es: seq<LeafEntry>, i: nat, c: Chain, fs: seq<LeafEntry>)
    requires SortedLeaf(es) && i < |es| && fs == es[i := LeafEntry(es[i].key, c)]
    ensures SortedLeaf(fs)
    ensures forall e :: e in fs <==> e == LeafEntry(es[i].key, c) || (e in es && e.key != es[i].key)
  {
    assert fs[i] == LeafEntry(es[i].key, c);
    forall e | e in es && e.key != es[i].key ensures e in fs {
      var j :| 0 <= j < |es| && es[j] == e;
      assert fs[j] == e;
    }
  }

  lemma InsertChain(es: seq<LeafEntry>, m: Store, i: nat, e: LeafEntry)
    requires Represents(es, m) && i <= |es| && e.key !in m
    requires forall j :: 0 <= j < i ==> Rank(es[j].key) < Rank(e.key)
    requires i < |es| ==> Rank(e.key) < Rank(es[i].key)
    ensures Represents(InsertAt(es, i, e), m[e.key := e.chain])
  {
    InsertAtMembers(es, i, e);
    var fs := InsertAt(es, i, e);
    forall a, b | 0 <= a < b < |fs| ensures Rank(fs[a].key) < Rank(fs[b].key) {
      InsertAtIndex(es, i, e, a);
      InsertAtIndex(es, i, e, b);
    }
  }

  /** A new uncommitted version in front of the key's chain; a deletion of an unknown key does nothing. */
  function WriteLeaf(es: seq<LeafEntry>, key: Key, value: Option<Value>, createdTs: nat): seq<LeafEntry>
    requires FindKeyIndex(es, key).idx <= |es| && (FindKeyIndex(es, key).Found? ==> FindKeyIndex(es, key).idx < |es|)
  {
    match FindKeyIndex(es, key)
    case Found(i) => es[i := LeafEntry(es[i].key, AddVersion(es[i].chain, value, createdTs))]
    case Missing(i) => if value.Some? then InsertAt(es, i, LeafEntry(key, [Version(value, createdTs, 0)])) else es
  }

  lemma WriteLeafSpec(es: seq<LeafEntry>, m: Store, key: Key, value: Option<Value>, createdTs: nat)
    requires Represents(es, m)
    ensures FindKeyIndex(es, key).idx <= |es| && (FindKeyIndex(es, key).Found? ==> FindKeyIndex(es, key).idx < |es|)
    ensures Represents(WriteLeaf(es, key, value, createdTs), Install(m, map[key := value], createdTs, 0))
  {
    FindSorted(es, key);
    FindDecides(es, m, key);
    var i := FindKeyIndex(es, key).idx;
    InstallSingle(m, key, value, createdTs, 0);
    if FindKeyIndex(es, key).Found? {
      ReplaceChain(es, m, i, AddVersion(es[i].chain, value, createdTs));
    } else if value.Some? {
      InsertChain(es, m, i, LeafEntry(key, [Version(value, createdTs, 0)]));
    }
  }

  lemma InstallSingle(m: Store, key: Key, value: Option<Value>, id: TxId, ts: nat)
    ensures Install(m, map[key := value], id, ts)
            == if key in m then m[key := [Version(value, id, ts)] + m[key]]
               else if value.Some? then m[key := [Version(value, id, ts)]]
               else m
  {
    assert [Version(value, id, ts)] + [] == [Version(value, id, ts)];
    assert Installed(m, map[key := value]) == if key in m || value.Some? then {key} else {};
  }

  // ---------- whole-leaf loops ----------

  /** The store after every uncommitted version of the transaction has got its commit timestamp. */
  ghost function CommitStore(m: Store, createdTs: nat, commitTs: nat): Store {
    map k | k in m :: Commit(m[k], createdTs, commitTs)
  }

  /** Uncommitted versions installed for one transaction become committed ones, and nothing else changes. */
  lemma CommitInstalled(m: Store, writes: Writes, id: TxId, ts: nat)
    requires forall k, i :: k in m && 0 <= i < |m[k]| ==> m[k][i].commitTs > 0
    ensures CommitStore(Install(m, writes, id, 0), id, ts) == Install(m, writes, id, ts)
  {
    var a, b := Install(m, writes, id, 0), Install(m, writes, id, ts);
    forall k | k in a ensures Commit(a[k], id, ts) == b[k] {
      var older := if k in m then m[k] else [];
      CommitOlder(older, id, ts);
      if k in writes {
        assert a[k][1..] == older;
      }
    }
  }

  lemma {:induction false} CommitOlder(c: Chain, id: TxId, ts: nat)
    requires forall i :: 0 <= i < |c| ==> c[i].commitTs > 0
    ensures Commit(c, id, ts) == c
  {
  }

  /** Writes installed one key at a time add up to the whole, in whatever order. */
  lemma InstallMore(m: Store, w: Writes, key: Key, value: Option<Value>, id: TxId)
    requires key !in w
    ensures Install(Install(m, w, id, 0), map[key := value], id, 0) == Install(m, w[key := value], id, 0)
  {
    var a, b := Install(Install(m, w, id, 0), map[key := value], id, 0), Install(m, w[key := value], id, 0);
    var mid := Install(m, w, id, 0);
    assert key in mid <==> key in m;
    forall k ensures k in a <==> k in b {
    }
    forall k | k in a ensures a[k] == b[k] {
    }
  }

  /** Two vectors with the same keys in the same places. */
  lemma SameKeys(es: seq<LeafEntry>, m: Store, fs: seq<LeafEntry>, m2: Store)
    requires Represents(es, m) && |fs| == |es| && forall k :: k in m2 <==> k in m
    requires forall i :: 0 <= i < |es| ==> fs[i].key == es[i].key && es[i].key in m2 && m2[es[i].key] == fs[i].chain
    ensures Represents(fs, m2)
  {
    forall e: LeafEntry | e.key in m2 && m2[e.key] == e.chain ensures e in fs {
      assert LeafEntry(e.key, m[e.key]) in es;
      var j :| 0 <= j < |es| && es[j] == LeafEntry(e.key, m[e.key]);
      assert fs[j] == e;
    }
    forall e | e in fs ensures e.key in m2 && m2[e.key] == e.chain {
      var j :| 0 <= j < |fs| && fs[j] == e;
      assert es[j].key == e.key;
    }
  }
}
