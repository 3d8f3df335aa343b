/** Splits: from a leaf up through any cascade of internal splits to a new root. */
module BTreeSplit {
  import opened Wrappers
  import opened Bytes
  import opened BTreeNode
  import opened BTreeShape

  /** A region strictly cut at `sep`: the separator's place among the parent's keys is the node's slot. */
  lemma {:induction false} SeparatorSlot(t: Table, g: Shape, root: NodeId, p: NodeId, i: nat, sep: Key)
    requires Wired(t, g, root) && p in t && p in g && t[p].Internal?
    requires i < |t[p].children|
    requires t[p].children[i] in g && g[t[p].children[i]].lo < Rank(sep) < g[t[p].children[i]].hi
    ensures Search(t[p].keys, sep) == Missing(i)
  {
    assert Shaped(t, g, p);
    InsideSlot(g[p], t[p].keys, i, sep);
  }

  /** A key strictly inside the region of slot `i` is missing and belongs there. */
  lemma {:induction false} InsideSlot(r: Region, ks: seq<Key>, i: nat, sep: Key)
    requires SortedKeys(ks) && r.ht > 0 && i <= |ks| && ChildRegion(r, ks, i).lo < Rank(sep) < ChildRegion(r, ks, i).hi
    ensures Search(ks, sep) == Missing(i)
  {
    assert i > 0 ==> Rank(ks[i - 1]) < Rank(sep);
    assert i < |ks| ==> Rank(sep) < Rank(ks[i]);
  }

  ghost function Cut(g: Shape, x: NodeId, at: real, right: NodeId): Shape
    requires x in g
  {
    g[x := g[x].(hi := at)][right := g[x].(lo := at)]
  }

  /** `t1` is `t` with `x` split at `sep` into `x` and the new `y`, the parent not yet told. */
  ghost predicate SplitReady(t: Table, g: Shape, t1: Table, x: NodeId, sep: Key, y: NodeId) {
    && x in t && x in g && y !in t
    && g[x].lo < Rank(sep) < g[x].hi
    && (forall c :: c in t1 <==> c in t || c == y)
    && Carried(t, t1, {x}, x, y)
    && (t[x].parent.Some? ==> var p := t[x].parent.value; p in t && p in g && t1[p] == t[p])
    && t1[x].id == x && t1[y].id == y && t1[x].parent == t1[y].parent == t[x].parent
    && t1[x].Leaf? == t[x].Leaf?
    && Owns(t1, x) && Owns(t1, y)
  }

  ghost predicate HalvesShaped(t1: Table, g: Shape, x: NodeId, sep: Key, y: NodeId)
    requires x in g
  {
    var g1 := Cut(g, x, Rank(sep), y);
    Shaped(t1, g1, x) && Shaped(t1, g1, y)
  }

  /** Once the parent has taken the separator and the new child, the split table is wired again. */
  lemma SplitStep(t: Table, g: Shape, root: NodeId, t1: Table, x: NodeId, p: NodeId, sep: Key, y: NodeId)
    requires Wired(t, g, root) && SplitReady(t, g, t1, x, sep, y) && t[x].parent == Some(p)
    requires HalvesShaped(t1, g, x, sep, y)
    ensures t[p].Internal? && |t[p].keys| < |t[p].children|
    ensures Wired(t1[p := t[p].InsertInternalEntry(sep, y)], Cut(g, x, Rank(sep), y), root)
  {
    var i := SplitSlot(t, g, root, t1, x, p, sep, y);
    InsertAtMembers(t[p].children, i + 1, y);
    SplitLinked(t, g, root, t1, x, p, t[p].InsertInternalEntry(sep, y), sep, y);
    SplitShaped(t, g, root, t1, t1[p := t[p].InsertInternalEntry(sep, y)], x, p, sep, y);
  }

  lemma SplitSlot(t: Table, g: Shape, root: NodeId, t1: Table, x: NodeId, p: NodeId, sep: Key, y: NodeId)
      returns (i: nat)
    requires Wired(t, g, root) && SplitReady(t, g, t1, x, sep, y) && t[x].parent == Some(p)
    ensures t[p].Internal? && i < |t[p].children| == |t[p].keys| + 1 && Search(t[p].keys, sep) == Missing(i)
    ensures Shaped(t1[p := t[p].InsertInternalEntry(sep, y)], Cut(g, x, Rank(sep), y), p)
  {
    var _, k := ParentSlot(t, g, root, x);
    i := k;
    SeparatorSlot(t, g, root, p, i, sep);
    assert Shaped(t, g, p);
    SplitRefills(t, g, t1, x, p, sep, y, t[p].InsertInternalEntry(sep, y));
    SlotFilled(t, g, t1[p := t[p].InsertInternalEntry(sep, y)], x, p, i, sep, y);
  }

  lemma EntryPlaced(n: Node, sep: Key, y: NodeId, i: nat)
    requires n.Internal? && |n.keys| < |n.children| && Search(n.keys, sep) == Missing(i)
    ensures var n2 := n.InsertInternalEntry(sep, y);
            n2.Internal? && n2.keys == InsertAt(n.keys, i, sep) && n2.children == InsertAt(n.children, i + 1, y)
  {
  }

  /** The parent with separator and new child put in at the slot of the split node. */
  lemma {:induction false} SlotFilled(t: Table, g: Shape, t2: Table, x: NodeId, p: NodeId, i: nat, sep: Key, y: NodeId)
    requires x in t && x in g && y !in t && x != p && g[x].lo < Rank(sep) < g[x].hi && Refilled(t, t2, p, y)
    requires Shaped(t, g, p) && t[p].Internal? && i < |t[p].children| && t[p].children[i] == x
    requires forall j :: 0 <= j < |t[p].children| && t[p].children[j] == x ==> j == i
    requires g[x] == ChildRegion(g[p], t[p].keys, i) && Search(t[p].keys, sep) == Missing(i)
    requires t2[p] == t[p].InsertInternalEntry(sep, y)
    ensures Shaped(t2, Cut(g, x, Rank(sep), y), p)
  {
    EntryPlaced(t[p], sep, y, i);
    KeyAdded(t[p].keys, t2[p].keys, i, sep, g[p]);
    InsertChild(t[p].children, i, y);
    SplitParent(t, g, t2, x, p, i, sep, y);
  }

  /** `ks2` is sorted, lies inside the region and cuts slot `i`. */
  ghost predicate Recut(ks: seq<Key>, ks2: seq<Key>, i: nat, sep: Key, r: Region) {
    && SlotCut(r, ks, ks2, i, sep) && SortedKeys(ks2)
    && forall j :: 0 <= j < |ks2| ==> r.lo < Rank(ks2[j]) < r.hi
  }

  lemma KeyAdded(ks: seq<Key>, ks2: seq<Key>, i: nat, sep: Key, r: Region)
    requires SortedKeys(ks) && i <= |ks| && r.ht > 0 && ks2 == InsertAt(ks, i, sep)
    requires forall j :: 0 <= j < |ks| ==> r.lo < Rank(ks[j]) < r.hi
    requires ChildRegion(r, ks, i).lo < Rank(sep) < ChildRegion(r, ks, i).hi
    ensures Recut(ks, ks2, i, sep, r)
  {
    InsertSlot(ks, i, sep, r);
    InsertOrder(ks, i, sep, r);
  }

  /** One node more, and what named `p` as its parent still does, as does the new node. */
  ghost predicate Refilled(t: Table, t2: Table, p: NodeId, y: NodeId) {
    && (forall c :: c in t2 <==> c in t || c == y)
    && (forall c :: c in t && c in t2 && t[c].parent == Some(p) ==> t2[c].parent == Some(p))
    && y in t2 && t2[y].parent == Some(p)
  }

  lemma SplitRefills(t: Table, g: Shape, t1: Table, x: NodeId, p: NodeId, sep: Key, y: NodeId, n: Node)
    requires SplitReady(t, g, t1, x, sep, y) && t[x].parent == Some(p) && x != p && n.parent == t[p].parent
    ensures Refilled(t, t1[p := n], p, y)
  {
  }

  lemma SplitShaped(t: Table, g: Shape, root: NodeId, t1: Table, t2: Table, x: NodeId, p: NodeId, sep: Key, y: NodeId)
    requires Wired(t, g, root) && SplitReady(t, g, t1, x, sep, y) && t[x].parent == Some(p) && t[p].Internal?
    requires HalvesShaped(t1, g, x, sep, y)
    requires p in t2 && t2 == t1[p := t2[p]] && t2[p].Internal? && t2[p].parent == t[p].parent
    requires Shaped(t2, Cut(g, x, Rank(sep), y), p)
    ensures AllShaped(t2, Cut(g, x, Rank(sep), y))
  {
    var g1 := Cut(g, x, Rank(sep), y);
    forall id | id in t2 ensures Shaped(t2, g1, id) {
      if id == x || id == y {
        ParentRewritten(t1, g1, p, t2[p], id);
      } else if id != p {
        assert Shaped(t, g, id);
        SplitOthers(t, g, t2, g1, x, p, y, id);
      }
    }
  }

  lemma SplitLinked(t: Table, g: Shape, root: NodeId, t1: Table, x: NodeId, p: NodeId, p1: Node, sep: Key, y: NodeId)
    requires Wired(t, g, root) && SplitReady(t, g, t1, x, sep, y) && t[x].parent == Some(p) && t[p].Internal?
    requires p1.Internal? && p1.id == t[p].id && p1.parent == t[p].parent
    requires forall c :: c in t[p].children || c == y ==> c in p1.children
    ensures AllLinked(t1[p := p1], Cut(g, x, Rank(sep), y), root)
  {
    assert Linked(t, g, root, x);
    var t2 := t1[p := p1];
    forall id | id in t2 ensures Linked(t2, Cut(g, x, Rank(sep), y), root, id) {
      if id != y { assert Linked(t, g, root, id); }
    }
  }

  lemma SplitOthers(t: Table, g: Shape, t2: Table, g1: Shape, x: NodeId, p: NodeId, y: NodeId, id: NodeId)
    requires Shaped(t, g, id) && id != x && id != p
    requires x in t && x in g && p in t && t[x].parent == Some(p) && y !in t && t[p].Internal?
    requires x in t2 && p in t2 && t2[x].Leaf? == t[x].Leaf?
    requires Carried(t, t2, {x, p}, x, y) && t2[p].parent == t[p].parent
    requires forall c :: c in t && c in g ==> c in g1 && g1[c].lo == g[c].lo && (c != x ==> g1[c] == g[c])
    ensures Shaped(t2, g1, id)
  {
    ShapedCarries(t, g, t2, g1, id);
  }

  /** `cs2` is `cs` with `y` put in after slot `i`. */
  ghost predicate SlotAdded(cs: seq<NodeId>, cs2: seq<NodeId>, i: nat, y: NodeId) {
    && i < |cs| && |cs2| == |cs| + 1 && cs2[i + 1] == y
    && (forall j :: 0 <= j <= i ==> cs2[j] == cs[j])
    && (forall j :: i + 1 < j < |cs2| ==> cs2[j] == cs[j - 1])
  }

  /** The keys `ks2` cut slot `i` of `ks` at `sep` and leave the other slots as they were. */
  ghost predicate SlotCut(r: Region, ks: seq<Key>, ks2: seq<Key>, i: nat, sep: Key) {
    && r.ht > 0 && i <= |ks| && |ks2| == |ks| + 1
    && ChildRegion(r, ks2, i) == ChildRegion(r, ks, i).(hi := Rank(sep))
    && ChildRegion(r, ks2, i + 1) == ChildRegion(r, ks, i).(lo := Rank(sep))
    && (forall j {:trigger ChildRegion(r, ks2, j)} :: 0 <= j < i ==> ChildRegion(r, ks2, j) == ChildRegion(r, ks, j))
    && (forall j {:trigger ChildRegion(r, ks2, j)} :: i + 1 < j <= |ks2| ==>
         ChildRegion(r, ks2, j) == ChildRegion(r, ks, j - 1))
  }

  /** The parent of a split node tiles its region again, one slot more. */
  lemma {:induction false} SplitParent(t: Table, g: Shape, t2: Table, x: NodeId, p: NodeId, i: nat, sep: Key, y: NodeId)
    requires Shaped(t, g, p) && t[p].Internal? && p in g
    requires x in t && x in g && y !in t && x != p
    requires i < |t[p].children| == |t[p].keys| + 1 && t[p].children[i] == x
    requires forall j :: 0 <= j < |t[p].children| && t[p].children[j] == x ==> j == i
    requires g[p].ht > 0 && g[x] == ChildRegion(g[p], t[p].keys, i)
    requires Refilled(t, t2, p, y) && t2[p].Internal?
    requires Recut(t[p].keys, t2[p].keys, i, sep, g[p]) && SlotAdded(t[p].children, t2[p].children, i, y)
    ensures Shaped(t2, Cut(g, x, Rank(sep), y), p)
  {
    var cs, cs2 := t[p].children, t2[p].children;
    var g1 := Cut(g, x, Rank(sep), y);
    forall j | 0 <= j < |cs2|
      ensures cs2[j] in t2 && cs2[j] in g1 && t2[cs2[j]].parent == Some(p)
      ensures g1[cs2[j]] == ChildRegion(g[p], t2[p].keys, j)
    {
      if j > i + 1 { assert cs2[j] == cs[j - 1]; }
    }
  }

  lemma InsertSlot(ks: seq<Key>, i: nat, sep: Key, r: Region)
    requires r.ht > 0 && i <= |ks|
    ensures SlotCut(r, ks, InsertAt(ks, i, sep), i, sep)
  {
  }

  lemma InsertChild(cs: seq<NodeId>, i: nat, y: NodeId)
    requires i < |cs|
    ensures SlotAdded(cs, InsertAt(cs, i + 1, y), i, y)
  {
  }

  lemma InsertOrder(ks: seq<Key>, i: nat, sep: Key, r: Region)
    requires SortedKeys(ks) && i <= |ks| && r.ht > 0
    requires forall j :: 0 <= j < |ks| ==> r.lo < Rank(ks[j]) < r.hi
    requires ChildRegion(r, ks, i).lo < Rank(sep) < ChildRegion(r, ks, i).hi
    ensures SortedKeys(InsertAt(ks, i, sep))
    ensures var ks2 := InsertAt(ks, i, sep); forall j :: 0 <= j < |ks2| ==> r.lo < Rank(ks2[j]) < r.hi
  {
    forall j | 0 <= j < i ensures Rank(ks[j]) < Rank(sep) {
      assert Rank(ks[j]) <= Rank(ks[i - 1]);
    }
    forall j | i <= j < |ks| ensures Rank(sep) < Rank(ks[j]) {
      assert Rank(ks[i]) <= Rank(ks[j]);
    }
    InsertSorted(ks, i, sep);
    var ks2 := InsertAt(ks, i, sep);
    forall j | 0 <= j < |ks2| ensures r.lo < Rank(ks2[j]) < r.hi {
      InsertAtIndex(ks, i, sep, j);
    }
  }

  lemma InsertSorted(ks: seq<Key>, i: nat, sep: Key)
    requires SortedKeys(ks) && i <= |ks|
    requires forall j :: 0 <= j < i ==> Rank(ks[j]) < Rank(sep)
    requires forall j :: i <= j < |ks| ==> Rank(sep) < Rank(ks[j])
    ensures SortedKeys(InsertAt(ks, i, sep))
  {
    var ks2 := InsertAt(ks, i, sep);
    forall a, b | 0 <= a < b < |ks2| ensures Rank(ks2[a]) < Rank(ks2[b]) {
      InsertAtIndex(ks, i, sep, a);
      InsertAtIndex(ks, i, sep, b);
    }
  }

  // ---------- split of a leaf, of an internal node, and of the root ----------

  lemma {:induction false} LeafSplitReady(t: Table, g: Shape, root: NodeId, x: NodeId, y: NodeId)
    requires Wired(t, g, root) && x in t && t[x].Leaf? && |t[x].entries| >= 2 && y !in t
    ensures x in g && t[x].SplitLeafRight(y).entries != []
    ensures var t1 := t[x := t[x].SplitLeafLeft(y)][y := t[x].SplitLeafRight(y)];
            var sep := t[x].SplitLeafRight(y).entries[0].key;
            SplitReady(t, g, t1, x, sep, y) && HalvesShaped(t1, g, x, sep, y)
  {
    assert Linked(t, g, root, x) && Shaped(t, g, x);
    LeafHalvesShaped(t, g, x, y);
    if t[x].parent.Some? {
      var p, i := ParentSlot(t, g, root, x);
    }
    forall id | id in t ensures t[id].parent != Some(x) && t[id].parent != Some(y) {
      assert Linked(t, g, root, id);
    }
  }

  lemma LeafHalvesShaped(t: Table, g: Shape, x: NodeId, y: NodeId)
    requires Shaped(t, g, x) && t[x].Leaf? && |t[x].entries| >= 2 && y !in t && g[x].lo < g[x].hi
    ensures t[x].SplitLeafRight(y).entries != []
    ensures var t1 := t[x := t[x].SplitLeafLeft(y)][y := t[x].SplitLeafRight(y)];
            var sep := t[x].SplitLeafRight(y).entries[0].key;
            g[x].lo < Rank(sep) < g[x].hi && HalvesShaped(t1, g, x, sep, y)
  {
    var es, mid := t[x].entries, |t[x].entries| / 2;
    assert g[x].lo <= Rank(es[0].key) < Rank(es[mid].key);
  }

  ghost function SplitInternalTable(t: Table, x: NodeId, y: NodeId): Table
    requires x in t && t[x].Internal? && |t[x].keys| > 0 && |t[x].children| == |t[x].keys| + 1
  {
    Reparent(t, t[x].SplitInternalRight(y).children, y)
      [x := t[x].SplitInternalLeft()][y := t[x].SplitInternalRight(y)]
  }

  /** The halves are the node cut in the middle, and an internal node gives its middle key up. */
  lemma SplitInHalf(n: Node, newId: NodeId)
    requires n.Internal? ==> |n.keys| > 0 && |n.children| == |n.keys| + 1
    ensures n.Leaf? ==>
              var left, right := n.SplitLeafLeft(newId), n.SplitLeafRight(newId);
              && left.entries + right.entries == n.entries && |left.entries| == |n.entries| / 2
              && left.next == Some(newId) && right.next == n.next && right.prev == Some(n.id) && left.prev == n.prev
    ensures n.Internal? ==>
              var left, right := n.SplitInternalLeft(), n.SplitInternalRight(newId);
              && left.keys + [n.keys[|n.keys| / 2]] + right.keys == n.keys && |left.keys| == |n.keys| / 2
              && left.children + right.children == n.children && |left.children| == |left.keys| + 1
  {
  }

  /** Reparenting in the stored table and storing both halves last gives the same table. */
  lemma SplitTableBuilt(nodes: Table, n: Node, y: NodeId, after: Table)
    requires n.id in nodes && n.Internal? && |n.keys| > 0 && |n.children| == |n.keys| + 1
    requires n.id !in n.children && y !in nodes
    requires after == Reparent(nodes, n.SplitInternalRight(y).children, y)
                        [n.id := n.SplitInternalLeft()][y := n.SplitInternalRight(y)]
    ensures after == SplitInternalTable(nodes[n.id := n], n.id, y)
  {
  }

  lemma InternalSplitReady(t: Table, g: Shape, root: NodeId, x: NodeId, y: NodeId)
    requires Wired(t, g, root) && x in t && t[x].Internal? && |t[x].keys| >= 1 && y !in t
    ensures x in g && |t[x].children| == |t[x].keys| + 1
    ensures SplitReady(t, g, SplitInternalTable(t, x, y), x, t[x].keys[|t[x].keys| / 2], y)
    ensures HalvesShaped(SplitInternalTable(t, x, y), g, x, t[x].keys[|t[x].keys| / 2], y)
  {
    assert Linked(t, g, root, x) && Shaped(t, g, x);
    DistinctChildren(t, g, x);
    LeftHalfShaped(t, g, x, y);
    RightHalfShaped(t, g, x, y);
    SplitOwners(t, g, root, x, y);
    if t[x].parent.Some? {
      var p, i := ParentSlot(t, g, root, x);
      assert p !in t[x].children;
    }
  }

  lemma SplitOwners(t: Table, g: Shape, root: NodeId, x: NodeId, y: NodeId)
    requires Wired(t, g, root) && x in t && x in g && t[x].Internal? && |t[x].keys| >= 1 && y !in t
    requires |t[x].children| == |t[x].keys| + 1 && x !in t[x].children
    ensures Owns(SplitInternalTable(t, x, y), x) && Owns(SplitInternalTable(t, x, y), y)
    ensures Carried(t, SplitInternalTable(t, x, y), {x}, x, y)
  {
    ChildrenNameParent(t, g, root, x);
    forall id | id in t ensures t[id].parent != Some(y) {
      assert Linked(t, g, root, id);
    }
    SplitOwnership(t, x, y);
  }

  lemma SplitOwnership(t: Table, x: NodeId, y: NodeId)
    requires x in t && t[x].Internal? && |t[x].keys| >= 1 && y !in t
    requires |t[x].children| == |t[x].keys| + 1 && x !in t[x].children
    requires forall id :: id in t ==> (t[id].parent == Some(x) <==> id in t[x].children) && t[id].parent != Some(y)
    ensures Owns(SplitInternalTable(t, x, y), x) && Owns(SplitInternalTable(t, x, y), y)
    ensures Carried(t, SplitInternalTable(t, x, y), {x}, x, y)
  {
    var cs, mid := t[x].children, |t[x].keys| / 2;
    assert forall c :: c in cs <==> c in cs[..mid + 1] || c in cs[mid + 1..] by {
      assert cs == cs[..mid + 1] + cs[mid + 1..];
    }
    SplitOwned(t, x, y, cs[..mid + 1], cs[mid + 1..], SplitInternalTable(t, x, y));
  }

  lemma SplitOwned(t: Table, x: NodeId, y: NodeId, ls: seq<NodeId>, rs: seq<NodeId>, t1: Table)
    requires x in t && y !in t && x !in rs
    requires forall id :: id in t ==> (t[id].parent == Some(x) <==> id in ls || id in rs) && t[id].parent != Some(y)
    requires x in t1 && y in t1 && t1[x].Internal? && t1[y].Internal? && t1[x].children == ls && t1[y].children == rs
    requires t1[x].parent == t1[y].parent == t[x].parent && x !in ls
    requires forall id :: id in t1 && id != x && id != y ==> id in t
    requires forall id :: id in t && id != x ==>
               id in t1 && t1[id] == if id in rs then t[id].SetParent(Some(y)) else t[id]
    ensures Owns(t1, x) && Owns(t1, y) && Carried(t, t1, {x}, x, y)
  {
  }

  lemma LeftHalfShaped(t: Table, g: Shape, x: NodeId, y: NodeId)
    requires Shaped(t, g, x) && t[x].Internal? && |t[x].keys| >= 1 && y !in t && x !in t[x].children
    requires forall i, j :: 0 <= i < j < |t[x].children| ==> t[x].children[i] != t[x].children[j]
    ensures Shaped(SplitInternalTable(t, x, y), Cut(g, x, Rank(t[x].keys[|t[x].keys| / 2]), y), x)
  {
    var t1, g1 := SplitInternalTable(t, x, y), Cut(g, x, Rank(t[x].keys[|t[x].keys| / 2]), y);
    var cs, cs1 := t[x].children, t1[x].children;
    forall j | 0 <= j < |cs1|
      ensures cs1[j] in t1 && cs1[j] in g1 && t1[cs1[j]].parent == Some(x)
      ensures g1[cs1[j]] == ChildRegion(g1[x], t1[x].keys, j)
    {
      assert cs1[j] == cs[j] && cs1[j] !in cs[|t[x].keys| / 2 + 1..];
    }
  }

  lemma RightHalfShaped(t: Table, g: Shape, x: NodeId, y: NodeId)
    requires Shaped(t, g, x) && t[x].Internal? && |t[x].keys| >= 1 && y !in t && x !in t[x].children
    ensures Shaped(SplitInternalTable(t, x, y), Cut(g, x, Rank(t[x].keys[|t[x].keys| / 2]), y), y)
  {
    var mid := |t[x].keys| / 2;
    var t1, g1 := SplitInternalTable(t, x, y), Cut(g, x, Rank(t[x].keys[mid]), y);
    var cs, cs1 := t[x].children, t1[y].children;
    forall j | 0 <= j < |cs1|
      ensures cs1[j] in t1 && cs1[j] in g1 && t1[cs1[j]].parent == Some(y)
      ensures g1[cs1[j]] == ChildRegion(g1[y], t1[y].keys, j)
    {
      assert cs1[j] == cs[mid + 1 + j];
    }
  }

  /** The table once a new root `z` has been put above the two halves of the old one. */
  ghost function NewRootTable(t1: Table, x: NodeId, sep: Key, y: NodeId, z: NodeId): Table
    requires x in t1 && y in t1
  {
    t1[x := t1[x].SetParent(Some(z))][y := t1[y].SetParent(Some(z))]
      [z := Internal(z, [], [x], None).InsertInternalEntry(sep, y)]
  }

  ghost function NewRootShape(g: Shape, x: NodeId, sep: Key, y: NodeId, z: NodeId): Shape
    requires x in g
  {
    Cut(g, x, Rank(sep), y)[z := Region(0.0, 1.0, g[x].ht + 1)]
  }

  lemma RootSplitStep(t: Table, g: Shape, root: NodeId, t1: Table, sep: Key, y: NodeId, z: NodeId)
    requires Wired(t, g, root) && SplitReady(t, g, t1, root, sep, y) && HalvesShaped(t1, g, root, sep, y)
    requires z !in t1
    ensures Wired(NewRootTable(t1, root, sep, y, z), NewRootShape(g, root, sep, y, z), z)
  {
    assert Linked(t, g, root, root);
    RootLinked(t, g, root, t1, sep, y, z);
    RootTop(g, root, t1, sep, y, z);
    RootHalves(t, g, root, t1, sep, y, z);
    RootCarried(t, g, root, t1, sep, y, z);
    RootShaped(t, g, root, NewRootTable(t1, root, sep, y, z), NewRootShape(g, root, sep, y, z), y, z);
  }

  lemma RootCarried(t: Table, g: Shape, root: NodeId, t1: Table, sep: Key, y: NodeId, z: NodeId)
    requires SplitReady(t, g, t1, root, sep, y) && z !in t1
    ensures var t2, g2 := NewRootTable(t1, root, sep, y, z), NewRootShape(g, root, sep, y, z);
            && Carried(t, t2, {root}, root, y) && root in t2 && t2[root].Leaf? == t[root].Leaf?
            && (forall c :: c in t2 ==> c in t || c == y || c == z)
            && (forall c :: c in t && c in g ==> c in g2 && g2[c].lo == g[c].lo && (c != root ==> g2[c] == g[c]))
  {
    RootKeeps(t, t1, root, sep, y, z);
    var g2 := NewRootShape(g, root, sep, y, z);
    assert forall c :: c in g && c != root && c != y && c != z ==> c in g2 && g2[c] == g[c];
  }

  lemma RootKeeps(t: Table, t1: Table, root: NodeId, sep: Key, y: NodeId, z: NodeId)
    requires root in t && y !in t && z !in t1 && (forall c :: c in t1 <==> c in t || c == y)
    requires Carried(t, t1, {root}, root, y) && t1[root].Leaf? == t[root].Leaf?
    ensures var t2 := NewRootTable(t1, root, sep, y, z);
            && Carried(t, t2, {root}, root, y) && root in t2 && t2[root].Leaf? == t[root].Leaf?
            && forall c :: c in t2 ==> c in t || c == y || c == z
  {
  }

  lemma RootHalves(t: Table, g: Shape, x: NodeId, t1: Table, sep: Key, y: NodeId, z: NodeId)
    requires SplitReady(t, g, t1, x, sep, y) && HalvesShaped(t1, g, x, sep, y) && t[x].parent == None && z !in t1
    ensures Shaped(NewRootTable(t1, x, sep, y, z), NewRootShape(g, x, sep, y, z), x)
    ensures Shaped(NewRootTable(t1, x, sep, y, z), NewRootShape(g, x, sep, y, z), y)
  {
    var t2, g2 := NewRootTable(t1, x, sep, y, z), NewRootShape(g, x, sep, y, z);
    RootHalf(t1, Cut(g, x, Rank(sep), y), x, y, z, x, t2, g2);
    RootHalf(t1, Cut(g, x, Rank(sep), y), x, y, z, y, t2, g2);
  }

  lemma RootLinked(t: Table, g: Shape, root: NodeId, t1: Table, sep: Key, y: NodeId, z: NodeId)
    requires Wired(t, g, root) && SplitReady(t, g, t1, root, sep, y) && z !in t1
    ensures var t2, g2 := NewRootTable(t1, root, sep, y, z), NewRootShape(g, root, sep, y, z);
            AllLinked(t2, g2, z)
  {
    var t2, g2 := NewRootTable(t1, root, sep, y, z), NewRootShape(g, root, sep, y, z);
    assert t2[z].children == [root, y];
    forall id | id in t2 ensures Linked(t2, g2, z, id) {
      if id in t { assert Linked(t, g, root, id); }
    }
  }

  lemma RootShaped(t: Table, g: Shape, root: NodeId, t2: Table, g2: Shape, y: NodeId, z: NodeId)
    requires Wired(t, g, root) && Carried(t, t2, {root}, root, y)
    requires root in t2 && t2[root].Leaf? == t[root].Leaf?
    requires forall c :: c in t2 ==> c in t || c == y || c == z
    requires forall c :: c in t && c in g ==> c in g2 && g2[c].lo == g[c].lo && (c != root ==> g2[c] == g[c])
    requires Shaped(t2, g2, root) && Shaped(t2, g2, y) && Shaped(t2, g2, z)
    ensures AllShaped(t2, g2)
  {
    forall id | id in t2 ensures Shaped(t2, g2, id) {
      if id != root && id != y && id != z {
        assert Shaped(t, g, id);
        RootOthers(t, g, t2, g2, root, y, id);
      }
    }
  }

  lemma RootTop(g: Shape, x: NodeId, t1: Table, sep: Key, y: NodeId, z: NodeId)
    requires x in t1 && y in t1 && z !in t1 && x != y && x in g
    requires g[x].lo == 0.0 < Rank(sep) < 1.0 == g[x].hi
    ensures Shaped(NewRootTable(t1, x, sep, y, z), NewRootShape(g, x, sep, y, z), z)
  {
    var t2, g2 := NewRootTable(t1, x, sep, y, z), NewRootShape(g, x, sep, y, z);
    assert t2[z].keys == [sep] && t2[z].children == [x, y];
    TwoSlots(t2, g2, x, y, z, sep, g[x].ht);
  }

  /** A node with one separator and two children that meet at it. */
  lemma TwoSlots(t2: Table, g2: Shape, x: NodeId, y: NodeId, z: NodeId, sep: Key, ht: nat)
    requires z in t2 && t2[z].Internal? && t2[z].keys == [sep] && t2[z].children == [x, y]
    requires x in t2 && y in t2 && t2[x].parent == t2[y].parent == Some(z)
    requires x in g2 && y in g2 && z in g2 && 0.0 < Rank(sep) < 1.0 && g2[z] == Region(0.0, 1.0, ht + 1)
    requires g2[x] == Region(0.0, Rank(sep), ht) && g2[y] == Region(Rank(sep), 1.0, ht)
    ensures Shaped(t2, g2, z)
  {
  }

  lemma RootHalf(t1: Table, g1: Shape, x: NodeId, y: NodeId, z: NodeId, id: NodeId, t2: Table, g2: Shape)
    requires Shaped(t1, g1, id) && (id == x || id == y) && x in t1 && y in t1 && z !in t1
    requires t1[x].parent == t1[y].parent == None
    requires (forall c :: c in t2 <==> c in t1 || c == z) && forall c :: c in t1 ==> SameBody(t1[c], t2[c])
    requires forall c :: c in t1 && c != x && c != y ==> t2[c] == t1[c]
    requires forall c :: c in g1 && c != z ==> c in g2 && g2[c] == g1[c]
    ensures Shaped(t2, g2, id)
  {
    ShapedCarries(t1, g1, t2, g2, id);
  }

  lemma RootOthers(t: Table, g: Shape, t2: Table, g2: Shape, x: NodeId, y: NodeId, id: NodeId)
    requires Shaped(t, g, id) && id != x && x in t && t[x].parent == None
    requires x in t2 && t2[x].Leaf? == t[x].Leaf?
    requires Carried(t, t2, {x}, x, y)
    requires forall c :: c in t && c in g ==> c in g2 && g2[c].lo == g[c].lo && (c != x ==> g2[c] == g[c])
    ensures Shaped(t2, g2, id)
  {
    ShapedCarries(t, g, t2, g2, id);
  }
}
