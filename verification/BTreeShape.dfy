/**
 The structural invariant of a B+Tree kept as a table of nodes (nanograph-btree/src/tree.rs).

 Every node is given a region: the half-open interval of key ranks it is responsible for, and its
 height above the leaves.  `Wired` says, node by node, that parent fields, child lists, separators,
 heights and the forward leaf chain agree with the regions.
 */
module BTreeShape {
  import opened Wrappers
  import opened Bytes
  import opened BTreeNode

  type Table = map<NodeId, Node>

  datatype Region = Region(lo: real, hi: real, ht: nat)

  type Shape = map<NodeId, Region>

  ghost function ChildRegion(r: Region, ks: seq<Key>, i: nat): Region
    requires i <= |ks| && r.ht > 0
  {
    Region(if i == 0 then r.lo else Rank(ks[i - 1]), if i == |ks| then r.hi else Rank(ks[i]), r.ht - 1)
  }

  ghost predicate Within(es: seq<Entry>, r: Region) {
    forall i :: 0 <= i < |es| ==> r.lo <= Rank(es[i].key) < r.hi
  }

  /** A leaf covers its region, and `next` is the leaf whose region starts where this one ends. */
  ghost predicate LeafShaped(t: Table, g: Shape, id: NodeId)
    requires id in t && id in g && t[id].Leaf?
  {
    && g[id].ht == 0
    && SortedEntries(t[id].entries)
    && Within(t[id].entries, g[id])
    && match t[id].next {
         case None => g[id].hi == 1.0
         case Some(n) => n in t && n in g && t[n].Leaf? && g[n].lo == g[id].hi
       }
  }

  /** The children of an internal node tile its region, cut at the separators, and point back at it. */
  ghost predicate InternalShaped(t: Table, g: Shape, id: NodeId)
    requires id in t && id in g && t[id].Internal?
  {
    var ks, cs := t[id].keys, t[id].children;
    && g[id].ht > 0
    && |cs| == |ks| + 1
    && SortedKeys(ks)
    && (forall i :: 0 <= i < |ks| ==> g[id].lo < Rank(ks[i]) < g[id].hi)
    && (forall i :: 0 <= i < |cs| ==>
          cs[i] in t && cs[i] in g && t[cs[i]].parent == Some(id) && g[cs[i]] == ChildRegion(g[id], ks, i))
  }

  ghost predicate Shaped(t: Table, g: Shape, id: NodeId) {
    id in t && id in g && if t[id].Leaf? then LeafShaped(t, g, id) else InternalShaped(t, g, id)
  }

  /** The node is filed under its own id, has a non-empty region, and is listed by the parent it names. */
  ghost predicate Linked(t: Table, g: Shape, root: NodeId, id: NodeId)
    requires root in g
  {
    && id in t && id in g
    && t[id].id == id
    && g[id].lo < g[id].hi
    && g[id].ht <= g[root].ht
    && match t[id].parent {
         case None => id == root
         case Some(p) => p in t && t[p].Internal? && id in t[p].children
       }
  }

  ghost predicate AllLinked(t: Table, g: Shape, root: NodeId)
    requires root in g
  {
    forall id {:trigger Linked(t, g, root, id)} :: id in t ==> Linked(t, g, root, id)
  }

  ghost predicate AllShaped(t: Table, g: Shape) {
    forall id {:trigger Shaped(t, g, id)} :: id in t ==> Shaped(t, g, id)
  }

  ghost predicate Wired(t: Table, g: Shape, root: NodeId) {
    && root in t && root in g
    && t[root].parent == None
    && g[root].lo == 0.0 && g[root].hi == 1.0
    && AllLinked(t, g, root)
    && AllShaped(t, g)
  }

  // ---------- reading the invariant ----------

  /** A node with a parent occupies exactly one slot of it, and its region is that slot's. */
  lemma ParentSlot(t: Table, g: Shape, root: NodeId, c: NodeId) returns (p: NodeId, i: nat)
    requires Wired(t, g, root) && c in t && t[c].parent.Some?
    ensures p == t[c].parent.value && p in t && p in g && t[p].Internal? && p != c
    ensures i < |t[p].children| && t[p].children[i] == c && i == Position(t[p].children, c)
    ensures |t[p].children| == |t[p].keys| + 1
    ensures c in g && g[p].ht > 0 && g[c] == ChildRegion(g[p], t[p].keys, i)
    ensures g[p].lo <= g[c].lo < g[c].hi <= g[p].hi
    ensures g[p].ht == g[c].ht + 1 <= g[root].ht
    ensures forall j :: 0 <= j < |t[p].children| && t[p].children[j] == c ==> j == i
  {
    assert Linked(t, g, root, c);
    p := t[c].parent.value;
    assert Shaped(t, g, p) && Linked(t, g, root, p);
    i := Position(t[p].children, c);
  }

  /** How far the parent lies below the root. */
  lemma ParentDepth(t: Table, g: Shape, root: NodeId, c: NodeId, p: NodeId) returns (h: nat)
    requires Wired(t, g, root) && c in t && t[c].parent == Some(p)
    ensures p in t && p != c && p in g && c in g && root in g && g[p].ht + h == g[root].ht
            && g[c].ht + h + 1 == g[root].ht
  {
    var _, _ := ParentSlot(t, g, root, c);
    h := g[root].ht - g[p].ht;
  }

  /** The regions of different children of one node do not overlap. */
  lemma SlotsApart(r: Region, ks: seq<Key>, i: nat, j: nat)
    requires SortedKeys(ks) && r.ht > 0 && i <= |ks| && j <= |ks|
    requires ChildRegion(r, ks, i).lo < ChildRegion(r, ks, j).hi && ChildRegion(r, ks, j).lo < ChildRegion(r, ks, i).hi
    ensures i == j
  {
  }

  /** Two nodes of one height never overlap. */
  lemma {:induction false} Disjoint(t: Table, g: Shape, root: NodeId, a: NodeId, b: NodeId)
    requires Wired(t, g, root) && a in t && b in t && a in g && b in g
    requires g[a].ht == g[b].ht
    requires g[a].lo < g[b].hi && g[b].lo < g[a].hi
    ensures a == b
    decreases g[root].ht - (if a in g then g[a].ht else 0)
  {
    assert Linked(t, g, root, a) && Linked(t, g, root, b);
    if t[a].parent.Some? && t[b].parent.Some? {
      var p, i := ParentSlot(t, g, root, a);
      var q, j := ParentSlot(t, g, root, b);
      Disjoint(t, g, root, p, q);
      assert Shaped(t, g, p);
      SlotsApart(g[p], t[p].keys, i, j);
    } else if t[a].parent.Some? {
      var p, i := ParentSlot(t, g, root, a);
    } else if t[b].parent.Some? {
      var q, j := ParentSlot(t, g, root, b);
    }
  }

  lemma {:induction false} InUnit(t: Table, g: Shape, root: NodeId, a: NodeId)
    requires Wired(t, g, root) && a in t
    ensures a in g && 0.0 <= g[a].lo < g[a].hi <= 1.0
    decreases g[root].ht - (if a in g then g[a].ht else 0)
  {
    assert Linked(t, g, root, a);
    if t[a].parent.Some? {
      var p, _ := ParentSlot(t, g, root, a);
      InUnit(t, g, root, p);
    }
  }

  /** A way down from the root, child by child. */
  ghost predicate Descends(t: Table, root: NodeId, path: seq<NodeId>) {
    && path != [] && path[0] == root
    && forall i :: 0 <= i < |path| - 1 ==> path[i] in t && t[path[i]].Internal? && path[i + 1] in t[path[i]].children
  }

  /** Every node of the table hangs below the root, at the depth its height says. */
  lemma {:induction false} EveryNodeReachable(t: Table, g: Shape, root: NodeId, id: NodeId) returns (path: seq<NodeId>)
    requires Wired(t, g, root) && id in t
    ensures Descends(t, root, path) && path[|path| - 1] == id
    ensures id in g && g[id].ht + |path| - 1 == g[root].ht
    decreases if id in g && root in g then g[root].ht - g[id].ht else 0
  {
    assert Linked(t, g, root, id);
    if t[id].parent.None? {
      path := [id];
    } else {
      var p := t[id].parent.value;
      assert Linked(t, g, root, p) && Shaped(t, g, p);
      var above := EveryNodeReachable(t, g, root, p);
      path := above + [id];
    }
  }

  /** Every way down from the root stays in the table, and all that end in a leaf are equally long. */
  lemma {:induction false} DescentStays(t: Table, g: Shape, root: NodeId, path: seq<NodeId>)
    requires Wired(t, g, root) && Descends(t, root, path)
    ensures var last := path[|path| - 1];
            last in t && last in g && g[last].ht + |path| - 1 == g[root].ht
              && (t[last].Leaf? <==> |path| == g[root].ht + 1)
    decreases |path|
  {
    var last := path[|path| - 1];
    if |path| > 1 {
      DescentStays(t, g, root, path[..|path| - 1]);
      assert Shaped(t, g, path[|path| - 2]);
    }
    assert Shaped(t, g, last);
  }

  /** Leaves with touching regions are chained to each other, and nothing else points at the second. */
  lemma Neighbours(t: Table, g: Shape, root: NodeId, a: NodeId, b: NodeId)
    requires Wired(t, g, root) && a in t && b in t && a in g && b in g && t[a].Leaf? && t[b].Leaf?
    requires g[a].hi == g[b].lo
    ensures t[a].next == Some(b)
    ensures forall q :: q in t && t[q].Leaf? && t[q].next == Some(b) ==> q == a
  {
    assert Shaped(t, g, a) && Shaped(t, g, b) && Linked(t, g, root, a) && Linked(t, g, root, b);
    InUnit(t, g, root, b);
    Disjoint(t, g, root, t[a].next.value, b) by {
      assert t[a].next.Some?;
      assert Linked(t, g, root, t[a].next.value) && Shaped(t, g, t[a].next.value);
    }
    forall q | q in t && t[q].Leaf? && t[q].next == Some(b) ensures q == a {
      assert Shaped(t, g, q) && Linked(t, g, root, q);
      Disjoint(t, g, root, q, a);
    }
  }

  /** The child chosen for any key is a node one level down. */
  lemma ChildOf(t: Table, g: Shape, root: NodeId, id: NodeId, key: Key)
    requires Wired(t, g, root) && id in t && id in g && t[id].Internal?
    ensures t[id].GetChildForKey(key).Some?
    ensures var c := t[id].GetChildForKey(key).value;
            && c in t && c in g && g[c].ht + 1 == g[id].ht
            && (g[id].lo <= Rank(key) < g[id].hi ==> g[c].lo <= Rank(key) < g[c].hi)
  {
    assert Shaped(t, g, id);
    var i := FindChildIndex(t[id].keys, key);
    RoutingSlot(t[id].keys, key);
    assert g[t[id].children[i]] == ChildRegion(g[id], t[id].keys, i);
  }

  /** The child chosen for a key inside the node's region has the key inside its own. */
  lemma ChildForKey(t: Table, g: Shape, root: NodeId, id: NodeId, key: Key)
    requires Wired(t, g, root) && id in t && id in g && t[id].Internal?
    requires g[id].lo <= Rank(key) < g[id].hi
    ensures t[id].GetChildForKey(key).Some?
    ensures var c := t[id].GetChildForKey(key).value;
            c in t && c in g && g[c].ht + 1 == g[id].ht && g[c].lo <= Rank(key) < g[c].hi
  {
    assert Shaped(t, g, id);
    var ks, i := t[id].keys, FindChildIndex(t[id].keys, key);
    RoutingSlot(ks, key);
    assert g[t[id].children[i]] == ChildRegion(g[id], ks, i);
  }

  /** The slot chosen for a key: the separator before it is at most the key, the one after it is greater. */
  lemma RoutingSlot(ks: seq<Key>, key: Key)
    requires SortedKeys(ks)
    ensures var i := FindChildIndex(ks, key);
            i <= |ks| && (i > 0 ==> Rank(ks[i - 1]) <= Rank(key)) && (i < |ks| ==> Rank(key) < Rank(ks[i]))
  {
  }

  /** No node occurs twice in a child list. */
  lemma DistinctChildren(t: Table, g: Shape, id: NodeId)
    requires Shaped(t, g, id) && t[id].Internal?
    requires g[id].lo < g[id].hi
    ensures forall i, j :: 0 <= i < j < |t[id].children| ==> t[id].children[i] != t[id].children[j]
    ensures id !in t[id].children
  {
    var ks, cs := t[id].keys, t[id].children;
    forall i, j | 0 <= i < j < |cs| ensures cs[i] != cs[j] {
      assert g[cs[i]].lo < Rank(ks[j - 1]);
    }
  }

  /** Parent fields and child lists agree both ways. */
  lemma ChildrenNameParent(t: Table, g: Shape, root: NodeId, x: NodeId)
    requires Wired(t, g, root) && x in t && t[x].Internal?
    ensures forall id :: id in t ==> (t[id].parent == Some(x) <==> id in t[x].children)
  {
    assert Shaped(t, g, x);
    forall id | id in t ensures t[id].parent == Some(x) <==> id in t[x].children {
      assert Linked(t, g, root, id);
    }
  }

  // ---------- edits ----------

  /** The two nodes differ at most in their parent and prev fields. */
  ghost predicate SameBody(n: Node, m: Node) {
    && n.Leaf? == m.Leaf? && n.id == m.id
    && (n.Leaf? ==> n.entries == m.entries && n.next == m.next)
    && (n.Internal? ==> n.keys == m.keys && n.children == m.children)
  }

  /** Every node but those in `except` keeps its body; nodes that leave parent `a` go to parent `b`. */
  ghost predicate Carried(t: Table, t1: Table, except: set<NodeId>, a: NodeId, b: NodeId) {
    forall id :: id in t && id !in except ==>
      && id in t1 && SameBody(t[id], t1[id])
      && (t1[id].parent == t[id].parent || (t[id].parent == Some(a) && t1[id].parent == Some(b)))
  }

  /** Every node that names `p` as its parent is among `p`'s children. */
  ghost predicate Owns(t: Table, p: NodeId) {
    p in t && forall id :: id in t && t[id].parent == Some(p) ==> t[p].Internal? && id in t[p].children
  }

  /** A node keeps its shape when its body, its region, and what it sees of its neighbours are kept. */
  lemma ShapedCarries(t: Table, g: Shape, t2: Table, g2: Shape, id: NodeId)
    requires Shaped(t, g, id)
    requires id in t2 && id in g2 && SameBody(t[id], t2[id]) && g2[id] == g[id]
    requires t[id].Leaf? && t[id].next.Some? ==>
               var n := t[id].next.value; n in t2 && n in g2 && t2[n].Leaf? && g2[n].lo == g[n].lo
    requires t[id].Internal? ==> forall c :: c in t[id].children ==>
               c in t2 && c in g2 && t2[c].parent == Some(id) && g2[c] == g[c]
    ensures Shaped(t2, g2, id)
  {
  }

  /** Rewriting an internal node without moving it up or down leaves the other nodes' shape alone. */
  lemma ParentRewritten(t: Table, g: Shape, p: NodeId, p1: Node, id: NodeId)
    requires Shaped(t, g, id) && id != p && p in t
    requires t[p].Internal? && p1.Internal? && p1.parent == t[p].parent
    ensures Shaped(t[p := p1], g, id)
  {
    ShapedCarries(t, g, t[p := p1], g, id);
  }

  /** The table after the nodes in `cs` have been handed to a new parent. */
  ghost function Reparent(t: Table, cs: seq<NodeId>, p: NodeId): Table {
    map id | id in t :: if id in cs then t[id].SetParent(Some(p)) else t[id]
  }

  /** A node that is stored again afterwards need not be stored before. */
  lemma StoredAgain(t: Table, n: Node, cs: seq<NodeId>, q: NodeId, a: NodeId, x: Node, y: Node)
    requires n.id in t && n.id !in cs
    ensures Reparent(t[n.id := n], cs, q)[a := x][n.id := y] == Reparent(t, cs, q)[a := x][n.id := y]
  {
  }
}
