/** The forward leaf chain: it visits every leaf once, left to right, and reads off the sorted contents. */
module BTreeChain {
  import opened Wrappers
  import opened Sets
  import opened Bytes
  import opened BTreeNode
  import opened BTreeShape
  import opened BTreeContents

  ghost predicate IsLeaf(t: Table, g: Shape, id: NodeId) {
    id in t && id in g && t[id].Leaf?
  }

  /** The leaves whose regions start at `lo` or later. */
  ghost function LeavesAbove(t: Table, g: Shape, lo: real): set<NodeId> {
    set id | id in t && IsLeaf(t, g, id) && g[id].lo >= lo
  }

  lemma FewerLeaves(t: Table, g: Shape, root: NodeId, id: NodeId)
    requires Wired(t, g, root) && IsLeaf(t, g, id) && t[id].next.Some?
    ensures IsLeaf(t, g, t[id].next.value) && g[t[id].next.value].lo == g[id].hi > g[id].lo
    ensures |LeavesAbove(t, g, g[id].hi)| < |LeavesAbove(t, g, g[id].lo)|
  {
    assert Linked(t, g, root, id) && Shaped(t, g, id);
    var a, b := LeavesAbove(t, g, g[id].hi), LeavesAbove(t, g, g[id].lo);
    assert id in b && id !in a && a <= b;
    SubsetSize(a, b - {id});
  }

  /** Two leaves are the same, or one lies before the other. */
  lemma LeavesApart(t: Table, g: Shape, root: NodeId, a: NodeId, b: NodeId)
    requires Wired(t, g, root) && IsLeaf(t, g, a) && IsLeaf(t, g, b)
    ensures g[a].lo < g[a].hi && g[b].lo < g[b].hi && (a == b || g[a].hi <= g[b].lo || g[b].hi <= g[a].lo)
  {
    assert Linked(t, g, root, a) && Shaped(t, g, a) && Linked(t, g, root, b) && Shaped(t, g, b);
    if g[a].lo < g[b].hi && g[b].lo < g[a].hi {
      Disjoint(t, g, root, a, b);
    }
  }

  /** The leaves met by following `next` from `id`. */
  ghost function LeavesFrom(t: Table, g: Shape, root: NodeId, id: NodeId): (ls: seq<NodeId>)
    requires Wired(t, g, root) && IsLeaf(t, g, id)
    ensures |ls| > 0 && ls[0] == id
    decreases |LeavesAbove(t, g, g[id].lo)|
  {
    if t[id].next.None? then [id]
    else
      FewerLeaves(t, g, root, id);
      [id] + LeavesFrom(t, g, root, t[id].next.value)
  }

  /** Left to right, without overlap. */
  ghost predicate Ascending(t: Table, g: Shape, ls: seq<NodeId>) {
    && (forall i :: 0 <= i < |ls| ==> IsLeaf(t, g, ls[i]))
    && (forall i, j :: 0 <= i < j < |ls| ==> g[ls[i]].hi <= g[ls[j]].lo)
  }

  lemma {:induction false} LeavesAscend(t: Table, g: Shape, root: NodeId, id: NodeId)
    requires Wired(t, g, root) && IsLeaf(t, g, id)
    ensures Ascending(t, g, LeavesFrom(t, g, root, id))
    decreases |LeavesAbove(t, g, g[id].lo)|
  {
    if t[id].next.Some? {
      FewerLeaves(t, g, root, id);
      var n := t[id].next.value;
      LeavesAscend(t, g, root, n);
      var ls, ms := LeavesFrom(t, g, root, id), LeavesFrom(t, g, root, n);
      assert ls[1..] == ms;
      forall j | 0 <= j < |ms| ensures g[id].hi <= g[ms[j]].lo {
        assert Linked(t, g, root, ms[0]);
        assert g[ms[0]].lo == g[id].hi;
        if j > 0 { assert g[ms[0]].hi <= g[ms[j]].lo; }
      }
      forall i, j | 0 <= i < j < |ls| ensures g[ls[i]].hi <= g[ls[j]].lo {
        assert ls[j] == ms[j - 1];
        if i > 0 { assert ls[i] == ms[i - 1]; }
      }
    }
  }

  /** No leaf at or beyond the start is left out. */
  lemma {:induction false} LeavesComplete(t: Table, g: Shape, root: NodeId, id: NodeId, x: NodeId)
    requires Wired(t, g, root) && IsLeaf(t, g, id) && IsLeaf(t, g, x) && g[x].lo >= g[id].lo
    ensures x in LeavesFrom(t, g, root, id)
    decreases |LeavesAbove(t, g, g[id].lo)|
  {
    assert Linked(t, g, root, id) && Shaped(t, g, id) && Linked(t, g, root, x) && Shaped(t, g, x);
    if g[x].lo < g[id].hi {
      Disjoint(t, g, root, x, id);
    } else {
      InUnit(t, g, root, x);
      FewerLeaves(t, g, root, id);
      LeavesComplete(t, g, root, t[id].next.value, x);
    }
  }

  /** From the leftmost leaf the chain visits every leaf of the table exactly once. */
  lemma ChainVisitsEveryLeafOnce(t: Table, g: Shape, root: NodeId, next: nat, left: NodeId, m: Contents)
    requires Inv(t, g, root, next, Some(left), m)
    ensures IsLeaf(t, g, left)
    ensures forall x :: x in LeavesFrom(t, g, root, left) <==> x in t && t[x].Leaf?
    ensures var ls := LeavesFrom(t, g, root, left); forall i, j :: 0 <= i < j < |ls| ==> ls[i] != ls[j]
  {
    var ls := LeavesFrom(t, g, root, left);
    LeavesAscend(t, g, root, left);
    forall i, j | 0 <= i < j < |ls| ensures ls[i] != ls[j] {
      assert Linked(t, g, root, ls[i]);
    }
    forall x | x in t && t[x].Leaf? ensures x in ls {
      assert Linked(t, g, root, x);
      InUnit(t, g, root, x);
      LeavesComplete(t, g, root, left, x);
    }
  }

  // ---------- the entries along the chain ----------

  /** The entries of the listed leaves, one leaf after the other. */
  ghost function Along(t: Table, ls: seq<NodeId>): seq<Entry> {
    if ls == [] then [] else EntriesAt(t, ls[0]) + Along(t, ls[1..])
  }

  lemma {:induction false} AlongMembers(t: Table, ls: seq<NodeId>, e: Entry)
    ensures e in Along(t, ls) <==> exists i :: 0 <= i < |ls| && e in EntriesAt(t, ls[i])
  {
    if ls != [] {
      AlongMembers(t, ls[1..], e);
      if i :| 0 <= i < |ls[1..]| && e in EntriesAt(t, ls[1..][i]) {
        assert e in EntriesAt(t, ls[i + 1]);
      }
      if i :| 0 < i < |ls| && e in EntriesAt(t, ls[i]) {
        assert e in EntriesAt(t, ls[1..][i - 1]);
      }
    }
  }

  lemma {:induction false} AlongSorted(t: Table, g: Shape, root: NodeId, ls: seq<NodeId>)
    requires Wired(t, g, root) && Ascending(t, g, ls)
    ensures SortedEntries(Along(t, ls))
    ensures ls != [] ==> forall i :: 0 <= i < |Along(t, ls)| ==> g[ls[0]].lo <= Rank(Along(t, ls)[i].key)
  {
    if ls != [] {
      assert Shaped(t, g, ls[0]) && Linked(t, g, root, ls[0]);
      AlongSorted(t, g, root, ls[1..]);
    }
  }

  /**
   The leaves from the leftmost one on, read one after the other, are the whole map in strictly ascending key
   order.
   */
  lemma ChainIsContents(t: Table, g: Shape, root: NodeId, next: nat, left: NodeId, m: Contents)
    requires Inv(t, g, root, next, Some(left), m)
    ensures IsLeaf(t, g, left)
    ensures var es := Along(t, LeavesFrom(t, g, root, left));
            SortedEntries(es) && forall e: Entry :: e in es <==> e.key in m && m[e.key] == e.value
  {
    var ls := LeavesFrom(t, g, root, left);
    LeavesAscend(t, g, root, left);
    AlongSorted(t, g, root, ls);
    ChainVisitsEveryLeafOnce(t, g, root, next, left, m);
    forall e: Entry ensures e in Along(t, ls) <==> e.key in m && m[e.key] == e.value {
      AlongMembers(t, ls, e);
      if Stored(t, e) {
        var o :| e in EntriesAt(t, o);
        assert o in ls;
      }
    }
  }

  // ---------- what a reader sees of it ----------

  /** What a reader following `next` sees: it stops at the end of the chain or at an empty leaf. */
  ghost function ChainFrom(t: Table, g: Shape, root: NodeId, id: NodeId): seq<Entry>
    requires Wired(t, g, root) && IsLeaf(t, g, id)
    decreases |LeavesAbove(t, g, g[id].lo)|
  {
    if t[id].entries == [] || t[id].next.None? then t[id].entries
    else
      FewerLeaves(t, g, root, id);
      t[id].entries + ChainFrom(t, g, root, t[id].next.value)
  }

  /** Where such a reader stops: at the start of the first empty leaf, or at the end of all regions. */
  ghost function Stop(t: Table, g: Shape, root: NodeId, id: NodeId): (r: real)
    requires Wired(t, g, root) && IsLeaf(t, g, id)
    ensures g[id].lo <= r
    decreases |LeavesAbove(t, g, g[id].lo)|
  {
    if t[id].entries == [] then g[id].lo
    else if t[id].next.None? then assert Linked(t, g, root, id); g[id].hi
    else
      FewerLeaves(t, g, root, id);
      Stop(t, g, root, t[id].next.value)
  }

  /** No empty leaf lies before a non-empty one. */
  ghost predicate NoGaps(t: Table, g: Shape) {
    forall a, b :: IsLeaf(t, g, a) && IsLeaf(t, g, b) && t[a].entries == [] && g[a].lo < g[b].lo ==> t[b].entries == []
  }

  /** In sound configurations only a lone root can be empty. */
  lemma SoundHasNoGaps(t: Table, g: Shape, root: NodeId, c: Config)
    requires Wired(t, g, root) && Sound(c) && Occupied(t, root, c, {})
    ensures forall a :: IsLeaf(t, g, a) && t[a].entries == [] ==> a == root && t.Keys == {root}
    ensures NoGaps(t, g)
  {
    forall a | IsLeaf(t, g, a) && t[a].entries == [] ensures a == root && t.Keys == {root} {
      assert a == root && Shaped(t, g, root);
      forall id | id in t ensures id == root {
        assert Linked(t, g, root, id);
        InUnit(t, g, root, id);
        Disjoint(t, g, root, id, root);
      }
    }
    forall a, b | IsLeaf(t, g, a) && IsLeaf(t, g, b) && t[a].entries == [] && g[a].lo < g[b].lo
      ensures t[b].entries == []
    {
      assert a == root;
      assert Linked(t, g, root, b);
      InUnit(t, g, root, b);
      assert Shaped(t, g, root) && Shaped(t, g, b);
      Disjoint(t, g, root, a, b);
    }
  }

  /** The entries along the chain are sorted and lie at or above the start of the first leaf's region. */
  lemma {:induction false} ChainSorted(t: Table, g: Shape, root: NodeId, id: NodeId)
    requires Wired(t, g, root) && IsLeaf(t, g, id)
    ensures var es := ChainFrom(t, g, root, id);
            SortedEntries(es) && forall i :: 0 <= i < |es| ==> g[id].lo <= Rank(es[i].key)
    decreases |LeavesAbove(t, g, g[id].lo)|
  {
    assert Shaped(t, g, id) && Linked(t, g, root, id);
    if t[id].entries != [] && t[id].next.Some? {
      FewerLeaves(t, g, root, id);
      ChainSorted(t, g, root, t[id].next.value);
    }
  }

  /** A leaf holds exactly the stored entries of its region. */
  lemma LeafHolds(t: Table, g: Shape, root: NodeId, id: NodeId, e: Entry)
    requires Wired(t, g, root) && IsLeaf(t, g, id)
    ensures e in t[id].entries <==> Stored(t, e) && g[id].lo <= Rank(e.key) < g[id].hi
  {
    assert Shaped(t, g, id) && Linked(t, g, root, id);
    assert e in EntriesAt(t, id) <==> e in t[id].entries;
    if Stored(t, e) && g[id].lo <= Rank(e.key) < g[id].hi {
      var o :| e in EntriesAt(t, o);
      assert Shaped(t, g, o) && Linked(t, g, root, o);
      Disjoint(t, g, root, o, id);
    }
  }

  /** The reader sees exactly the stored entries from the start of its leaf to where it stops. */
  lemma {:induction false} ChainExact(t: Table, g: Shape, root: NodeId, id: NodeId, e: Entry)
    requires Wired(t, g, root) && IsLeaf(t, g, id)
    ensures e in ChainFrom(t, g, root, id) <==> Stored(t, e) && g[id].lo <= Rank(e.key) < Stop(t, g, root, id)
    decreases |LeavesAbove(t, g, g[id].lo)|
  {
    LeafHolds(t, g, root, id, e);
    if t[id].entries != [] && t[id].next.Some? {
      FewerLeaves(t, g, root, id);
      ChainExact(t, g, root, t[id].next.value, e);
    }
  }

  /** The reader stops before the end exactly at an empty leaf. */
  lemma {:induction false} StopsAt(t: Table, g: Shape, root: NodeId, id: NodeId)
    requires Wired(t, g, root) && IsLeaf(t, g, id)
    ensures Stop(t, g, root, id) == 1.0
            || exists a :: IsLeaf(t, g, a) && t[a].entries == [] && g[a].lo == Stop(t, g, root, id)
    ensures forall a :: IsLeaf(t, g, a) && t[a].entries == [] && g[id].lo <= g[a].lo ==> Stop(t, g, root, id) <= g[a].lo
    decreases |LeavesAbove(t, g, g[id].lo)|
  {
    assert Shaped(t, g, id) && Linked(t, g, root, id);
    if t[id].entries != [] {
      forall a | IsLeaf(t, g, a) && t[a].entries == [] && g[id].lo <= g[a].lo ensures g[id].hi <= g[a].lo < 1.0 {
        InUnit(t, g, root, a);
        LeavesApart(t, g, root, a, id);
      }
      if t[id].next.Some? {
        FewerLeaves(t, g, root, id);
        StopsAt(t, g, root, t[id].next.value);
      }
    }
  }

  /** An empty leaf lies between `from` and the key. */
  ghost predicate Shadowed(t: Table, g: Shape, from: real, key: Key) {
    exists a :: IsLeaf(t, g, a) && t[a].entries == [] && from < g[a].hi && g[a].lo <= Rank(key)
  }

  /** The reader starting in the leaf around `from` sees exactly the stored entries that are not shadowed. */
  lemma ChainVisible(t: Table, g: Shape, root: NodeId, id: NodeId, from: real, e: Entry)
    requires Wired(t, g, root) && IsLeaf(t, g, id) && g[id].lo <= from < g[id].hi && from <= Rank(e.key)
    ensures e in ChainFrom(t, g, root, id) <==> Stored(t, e) && !Shadowed(t, g, from, e.key)
  {
    ChainExact(t, g, root, id, e);
    StopsAt(t, g, root, id);
    assert Linked(t, g, root, id) && Shaped(t, g, id);
    forall a | IsLeaf(t, g, a) && t[a].entries == [] ensures from < g[a].hi <==> g[id].lo <= g[a].lo {
      LeavesApart(t, g, root, a, id);
    }
    if Stop(t, g, root, id) <= Rank(e.key) {
      var a :| IsLeaf(t, g, a) && t[a].entries == [] && g[a].lo == Stop(t, g, root, id);
      assert Shadowed(t, g, from, e.key);
    }
  }

  /** Without gaps no stored entry is shadowed; with one, some entry is, from the very start. */
  lemma ShadowsIff(t: Table, g: Shape, root: NodeId)
    requires Wired(t, g, root)
    ensures NoGaps(t, g) ==> forall from, e: Entry :: Stored(t, e) ==> !Shadowed(t, g, from, e.key)
    ensures !NoGaps(t, g) ==> exists e: Entry :: Stored(t, e) && Shadowed(t, g, 0.0, e.key)
  {
    if NoGaps(t, g) {
      forall from, e: Entry | Stored(t, e) ensures !Shadowed(t, g, from, e.key) {
        if Shadowed(t, g, from, e.key) {
          var a :| IsLeaf(t, g, a) && t[a].entries == [] && from < g[a].hi && g[a].lo <= Rank(e.key);
          NotBehind(t, g, root, a, e);
        }
      }
    } else {
      var a, b :| IsLeaf(t, g, a) && IsLeaf(t, g, b) && t[a].entries == [] && g[a].lo < g[b].lo && t[b].entries != [];
      var e := t[b].entries[0];
      assert e in EntriesAt(t, b) && Stored(t, e);
      assert Shaped(t, g, b) && Linked(t, g, root, a);
      InUnit(t, g, root, a);
      assert Shadowed(t, g, 0.0, e.key);
    }
  }

  lemma NotBehind(t: Table, g: Shape, root: NodeId, a: NodeId, e: Entry)
    requires Wired(t, g, root) && NoGaps(t, g) && IsLeaf(t, g, a) && t[a].entries == [] && Stored(t, e)
    ensures Rank(e.key) < g[a].lo
  {
    var o :| e in EntriesAt(t, o);
    assert Shaped(t, g, o) && Linked(t, g, root, o);
    LeavesApart(t, g, root, o, a);
  }

  /** Reading from the leftmost leaf gives the whole map if and only if no empty leaf lies before a non-empty one. */
  lemma ReadsAllIff(t: Table, g: Shape, root: NodeId, next: nat, left: NodeId, m: Contents)
    requires Inv(t, g, root, next, Some(left), m)
    ensures IsLeaf(t, g, left)
    ensures (forall e: Entry :: e.key in m && m[e.key] == e.value ==> e in ChainFrom(t, g, root, left)) <==>
              NoGaps(t, g)
  {
    ShadowsIff(t, g, root);
    assert Linked(t, g, root, left);
    forall e: Entry
      ensures e in ChainFrom(t, g, root, left) <==> Stored(t, e) && !Shadowed(t, g, 0.0, e.key)
    {
      ChainVisible(t, g, root, left, 0.0, e);
    }
  }
}
