/** Counting the keys of a tree, and how many a tree of a given height must hold. */
module BTreeStats {
  import opened Bytes
  import opened BTreeNode
  import opened BTreeShape
  import opened BTreeContents

  // ---------- counting by leaves ----------

  ghost function KeySet(es: seq<Entry>): set<Key> {
    set e | e in es :: e.key
  }

  lemma {:induction false} KeySetSize(es: seq<Entry>)
    requires SortedEntries(es)
    ensures |KeySet(es)| == |es|
  {
    if es != [] {
      var front, e := es[..|es| - 1], es[|es| - 1];
      KeySetSize(front);
      assert es == front + [e];
      assert KeySet(es) == KeySet(front) + {e.key};
      assert e.key !in KeySet(front);
    }
  }

  /** The keys stored in the nodes of `ids`. */
  ghost function KeysUnder(t: Table, ids: set<NodeId>): set<Key> {
    set id, e | id in ids && e in EntriesAt(t, id) :: e.key
  }

  /** One more leaf adds exactly as many keys as it has entries. */
  lemma AddLeaf(t: Table, g: Shape, root: NodeId, ids: set<NodeId>, id: NodeId)
    requires Wired(t, g, root) && ids <= t.Keys && id in t && id !in ids
    ensures |KeysUnder(t, ids + {id})| == |KeysUnder(t, ids)| + |EntriesAt(t, id)|
  {
    var es := EntriesAt(t, id);
    assert Shaped(t, g, id);
    KeySetSize(es);
    AddKeys(t, ids, id);
    forall k | k in KeySet(es) ensures k !in KeysUnder(t, ids) {
      OnlyHome(t, g, root, ids, id, k);
    }
    assert KeysUnder(t, ids) !! KeySet(es);
  }

  lemma AddKeys(t: Table, ids: set<NodeId>, id: NodeId)
    ensures KeysUnder(t, ids + {id}) == KeysUnder(t, ids) + KeySet(EntriesAt(t, id))
  {
  }

  lemma OnlyHome(t: Table, g: Shape, root: NodeId, ids: set<NodeId>, id: NodeId, k: Key)
    requires Wired(t, g, root) && ids <= t.Keys && id in t && id !in ids && k in KeySet(EntriesAt(t, id))
    ensures k !in KeysUnder(t, ids)
  {
    if k in KeysUnder(t, ids) {
      var e :| e in EntriesAt(t, id) && e.key == k;
      var o, f :| o in ids && f in EntriesAt(t, o) && f.key == k;
      assert Shaped(t, g, id) && Shaped(t, g, o);
      Disjoint(t, g, root, o, id);
    }
  }

  ghost function LeavesIn(t: Table, ids: set<NodeId>): set<NodeId> {
    set id | id in ids && id in t && t[id].Leaf?
  }

  ghost function InternalsIn(t: Table, ids: set<NodeId>): set<NodeId> {
    set id | id in ids && id in t && t[id].Internal?
  }

  lemma AddNode(t: Table, ids: set<NodeId>, id: NodeId)
    requires id in t && id !in ids
    ensures |LeavesIn(t, ids + {id})| == |LeavesIn(t, ids)| + if t[id].Leaf? then 1 else 0
    ensures |InternalsIn(t, ids + {id})| == |InternalsIn(t, ids)| + if t[id].Internal? then 1 else 0
  {
    assert LeavesIn(t, ids + {id}) == LeavesIn(t, ids) + if t[id].Leaf? then {id} else {};
    assert InternalsIn(t, ids + {id}) == InternalsIn(t, ids) + if t[id].Internal? then {id} else {};
  }

  lemma AllKeys(t: Table, m: Contents)
    requires Holds(t, m)
    ensures KeysUnder(t, t.Keys) == m.Keys
  {
    forall k | k in m ensures k in KeysUnder(t, t.Keys) {
      assert Stored(t, Entry(k, m[k]));
      var id :| Entry(k, m[k]) in EntriesAt(t, id);
    }
    forall k | k in KeysUnder(t, t.Keys) ensures k in m {
      var id, e :| id in t.Keys && e in EntriesAt(t, id) && e.key == k;
      assert Stored(t, e);
    }
  }

  // ---------- height against size ----------

  ghost function Pow(b: nat, e: nat): nat {
    if e == 0 then 1 else b * Pow(b, e - 1)
  }

  ghost function KeysIn(m: Contents, lo: real, hi: real): set<Key> {
    set k | k in m && lo <= Rank(k) < hi
  }

  lemma KeysInSplit(m: Contents, lo: real, mid: real, hi: real)
    requires lo <= mid <= hi
    ensures |KeysIn(m, lo, hi)| == |KeysIn(m, lo, mid)| + |KeysIn(m, mid, hi)|
  {
    assert KeysIn(m, lo, hi) == KeysIn(m, lo, mid) + KeysIn(m, mid, hi);
    assert KeysIn(m, lo, mid) !! KeysIn(m, mid, hi);
  }

  lemma LeafKeys(t: Table, g: Shape, root: NodeId, m: Contents, id: NodeId)
    requires Wired(t, g, root) && Holds(t, m) && id in t && id in g && t[id].Leaf?
    ensures |KeysIn(m, g[id].lo, g[id].hi)| == |t[id].entries|
  {
    assert Shaped(t, g, id);
    var es := t[id].entries;
    KeySetSize(es);
    forall k ensures k in KeysIn(m, g[id].lo, g[id].hi) <==> k in KeySet(es) {
      if k in KeySet(es) {
        var e :| e in es && e.key == k;
        assert e in EntriesAt(t, id);
        assert Stored(t, e);
      }
      if k in KeysIn(m, g[id].lo, g[id].hi) {
        LeafDecides(t, g, root, m, id, k);
        GetEntrySpec(es, k);
        assert Entry(k, m[k]) in es;
      }
    }
    assert KeysIn(m, g[id].lo, g[id].hi) == KeySet(es);
  }

  /** A node below the root at height `ht` covers at least `minKeys ^ (ht + 1)` keys. */
  lemma {:induction false} SubtreeSize(t: Table, g: Shape, root: NodeId, m: Contents, c: Config, id: NodeId)
    requires Wired(t, g, root) && Holds(t, m) && Balanced(c) && Occupied(t, root, c, {})
    requires id in t && id in g && id != root
    ensures |KeysIn(m, g[id].lo, g[id].hi)| >= Pow(c.minKeys, g[id].ht + 1)
    decreases if id in g then g[id].ht else 0, 1, 0
  {
    assert Shaped(t, g, id);
    if t[id].Leaf? {
      LeafKeys(t, g, root, m, id);
      assert Pow(c.minKeys, 1) == c.minKeys * Pow(c.minKeys, 0);
    } else {
      var n := |t[id].children|;
      ChildrenSize(t, g, root, m, c, id, n);
      TimesMonotone(c.minKeys, n, Pow(c.minKeys, g[id].ht));
    }
  }

  /** The first `n` children of an internal node cover at least `n` times what one child must. */
  lemma {:induction false} ChildrenSize(t: Table, g: Shape, root: NodeId, m: Contents, c: Config, id: NodeId, n: nat)
    requires Wired(t, g, root) && Holds(t, m) && Balanced(c) && Occupied(t, root, c, {})
    requires id in t && id in g && t[id].Internal? && 0 < n <= |t[id].children|
    ensures t[id].children[n - 1] in g
    ensures |KeysIn(m, g[id].lo, g[t[id].children[n - 1]].hi)| >= n * Pow(c.minKeys, g[id].ht)
    decreases if id in g then g[id].ht else 0, 0, n
  {
    assert Shaped(t, g, id) && Linked(t, g, root, id);
    var c1 := t[id].children[n - 1];
    assert Linked(t, g, root, c1);
    SubtreeSize(t, g, root, m, c, c1);
    if n > 1 {
      ChildrenSize(t, g, root, m, c, id, n - 1);
      KeysInSplit(m, g[id].lo, g[c1].lo, g[c1].hi);
      assert n * Pow(c.minKeys, g[id].ht) == (n - 1) * Pow(c.minKeys, g[id].ht) + Pow(c.minKeys, g[id].ht);
    } else {
      assert g[c1].lo == g[id].lo;
    }
  }

  lemma TimesMonotone(a: nat, b: nat, x: nat)
    requires a <= b
    ensures a * x <= b * x
  {
  }

  /** A tree of `h >= 2` levels holds at least `2 * minKeys ^ (h - 1)` keys. */
  lemma HeightBound(t: Table, g: Shape, root: NodeId, m: Contents, c: Config)
    requires Wired(t, g, root) && Holds(t, m) && Balanced(c) && Occupied(t, root, c, {})
    requires g[root].ht >= 1
    ensures |m| >= 2 * Pow(c.minKeys, g[root].ht)
  {
    assert Shaped(t, g, root);
    var n := |t[root].children|;
    ChildrenSize(t, g, root, m, c, root, n);
    TimesMonotone(2, n, Pow(c.minKeys, g[root].ht));
    assert KeysIn(m, 0.0, 1.0) == m.Keys;
  }
}
