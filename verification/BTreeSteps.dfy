/** Each table edit of the tree operations, taken through the whole invariant. */
module BTreeSteps {
  import opened Wrappers
  import opened Bytes
  import opened BTreeNode
  import opened BTreeShape
  import opened BTreeSplit
  import opened BTreeRebalance
  import opened BTreeMoves
  import opened BTreeContents

  // ---------- rewriting one leaf ----------

  lemma LeafEdited(t: Table, g: Shape, root: NodeId, id: NodeId, n: Node)
    requires Wired(t, g, root) && id in t && id in g && t[id].Leaf?
    requires n.Leaf? && n == t[id].(entries := n.entries) && SortedEntries(n.entries) && Within(n.entries, g[id])
    ensures Wired(t[id := n], g, root)
  {
    var t1 := t[id := n];
    forall x | x in t1 ensures Linked(t1, g, root, x) {
      assert Linked(t, g, root, x);
    }
    forall x | x in t1 ensures Shaped(t1, g, x) {
      assert Shaped(t, g, x);
      if x != id { ShapedCarries(t, g, t1, g, x); }
    }
  }

  /** A leaf rewritten inside its region, with only the binding of `key` changed. */
  lemma LeafStep(t: Table, g: Shape, root: NodeId, next: nat, left: Option<NodeId>, m: Contents, id: NodeId,
                 n: Node, key: Key, m1: Contents)
    requires Inv(t, g, root, next, left, m) && id in t && id in g && t[id].Leaf?
    requires n.Leaf? && n == t[id].(entries := n.entries) && SortedEntries(n.entries)
    requires g[id].lo <= Rank(key) < g[id].hi
    requires forall k :: k != key ==> (k in m <==> k in m1) && (k in m ==> m[k] == m1[k])
    requires forall e: Entry :: e.key != key ==> (e in n.entries <==> e in t[id].entries)
    requires forall v :: Entry(key, v) in n.entries <==> key in m1 && m1[key] == v
    ensures Inv(t[id := n], g, root, next, left, m1)
  {
    assert Shaped(t, g, id);
    forall i | 0 <= i < |n.entries| ensures g[id].lo <= Rank(n.entries[i].key) < g[id].hi {
      assert n.entries[i] in n.entries;
    }
    LeafEdited(t, g, root, id, n);
    LeafRewritten(t, g, root, m, id, n, key, m1);
  }

  /** Upserting into the leaf that covers the key is a map update. */
  lemma PutStep(t: Table, g: Shape, root: NodeId, next: nat, left: Option<NodeId>, m: Contents, id: NodeId, key: Key,
                value: Value)
    requires Inv(t, g, root, next, left, m) && id in t && id in g && t[id].Leaf?
    requires g[id].lo <= Rank(key) < g[id].hi
    ensures Inv(t[id := t[id].InsertEntry(key, value)], g, root, next, left, m[key := value])
    ensures |t[id].entries| <= |t[id].InsertEntry(key, value).entries| <= |t[id].entries| + 1
    ensures t[id].InsertEntry(key, value).entries != []
  {
    assert Shaped(t, g, id);
    PutEntrySpec(t[id].entries, key, value);
    LeafStep(t, g, root, next, left, m, id, t[id].InsertEntry(key, value), key, m[key := value]);
  }

  /** Deleting from the leaf that covers the key is a map removal, and the leaf knows whether the key was there. */
  lemma DropStep(t: Table, g: Shape, root: NodeId, next: nat, left: Option<NodeId>, m: Contents, id: NodeId, key: Key)
    requires Inv(t, g, root, next, left, m) && id in t && id in g && t[id].Leaf?
    requires g[id].lo <= Rank(key) < g[id].hi
    ensures Inv(t[id := t[id].DeleteEntry(key)], g, root, next, left, m - {key})
    ensures t[id].Get(key).Some? <==> key in m
    ensures |t[id].DeleteEntry(key).entries| == if key in m then |t[id].entries| - 1 else |t[id].entries|
  {
    assert Shaped(t, g, id);
    DropEntrySpec(t[id].entries, key);
    LeafDecides(t, g, root, m, id, key);
    LeafStep(t, g, root, next, left, m, id, t[id].DeleteEntry(key), key, m - {key});
  }

  // ---------- splits ----------

  lemma InternalRewritten(t: Table, m: Contents, p: NodeId, n: Node)
    requires Holds(t, m) && n.Internal? && (p in t ==> t[p].Internal?)
    ensures Holds(t[p := n], m)
  {
    Rearranged(t, t[p := n], m, p, p);
  }

  /** `t1` is the tree `t` with `x` split at `sep`; both halves are filled and the bindings are all there. */
  ghost predicate Halved(t: Table, g: Shape, root: NodeId, next: nat, left: Option<NodeId>, m: Contents, c: Config,
                         t1: Table, x: NodeId, sep: Key) {
    && Good(t, g, root, next, left, m, c, {x})
    && SplitReady(t, g, t1, x, sep, next) && HalvesShaped(t1, g, x, sep, next) && Holds(t1, m)
    && (Sound(c) ==> Filled(t1[x], false, c) && Filled(t1[next], false, c))
  }

  /** The root has no parent; every other node lies one level below its parent. */
  lemma HalvedDepth(t: Table, g: Shape, root: NodeId, next: nat, left: Option<NodeId>, m: Contents, c: Config,
                    t1: Table, x: NodeId, sep: Key, h: nat)
    requires Halved(t, g, root, next, left, m, c, t1, x, sep) && x in g && root in g && g[x].ht + h == g[root].ht
    ensures if t[x].parent.None? then x == root
            else var p := t[x].parent.value;
                 h > 0 && p in g && g[p].ht + h - 1 == g[root].ht && p != x && p != next
  {
    assert Linked(t, g, root, x);
    if t[x].parent.Some? {
      var _ := ParentDepth(t, g, root, x, t[x].parent.value);
    }
  }

  /** A split below a parent: the parent, with the separator taken in, is the one node left to look at. */
  lemma SplitInv(t: Table, g: Shape, root: NodeId, next: nat, left: Option<NodeId>, m: Contents, c: Config,
                 t1: Table, x: NodeId, sep: Key, p: NodeId)
    requires Halved(t, g, root, next, left, m, c, t1, x, sep) && t[x].parent == Some(p)
    ensures p in t1 && t1[p].Internal? && |t1[p].keys| < |t1[p].children| && t1[p].id == p
    ensures Sound(c) ==> Filled(t1[p], p == root, c)
    ensures Good(t1[p := t1[p].InsertInternalEntry(sep, next)], Cut(g, x, Rank(sep), next), root, next + 1, left, m,
                 c, {p})
  {
    SplitStep(t, g, root, t1, x, p, sep, next);
    assert Linked(t, g, root, p);
    var p1 := t1[p].InsertInternalEntry(sep, next);
    InternalRewritten(t1, m, p, p1);
    var _, _ := ParentSlot(t, g, root, x);
    if Sound(c) {
      SplitOccupied(t, root, c, t1, x, p, next, p1);
    }
  }

  lemma SplitOccupied(t: Table, root: NodeId, c: Config, t1: Table, x: NodeId, p: NodeId, y: NodeId, p1: Node)
    requires Occupied(t, root, c, {x}) && Carried(t, t1, {x}, x, y)
    requires forall id :: id in t1 <==> id in t || id == y
    requires x in t && y !in t && root in t && root != x
    requires Filled(t1[x], false, c) && Filled(t1[y], false, c)
    ensures Occupied(t1[p := p1], root, c, {p})
  {
  }

  /** A split of the root: a new root above the two halves, one level more. */
  lemma RootSplitInv(t: Table, g: Shape, root: NodeId, y: NodeId, left: Option<NodeId>, m: Contents, c: Config,
                     t1: Table, sep: Key, z: NodeId)
    requires Halved(t, g, root, y, left, m, c, t1, root, sep) && z == y + 1
    ensures Good(NewRootTable(t1, root, sep, y, z), NewRootShape(g, root, sep, y, z), z, z + 1, left, m, c, {})
  {
    RootSplitStep(t, g, root, t1, sep, y, z);
    Rearranged(t1, NewRootTable(t1, root, sep, y, z), m, z, z);
    if Sound(c) {
      RootSplitOccupied(t, g, root, c, t1, sep, y, z);
    }
  }

  lemma RootSplitOccupied(t: Table, g: Shape, root: NodeId, c: Config, t1: Table, sep: Key, y: NodeId, z: NodeId)
    requires Sound(c) && SplitReady(t, g, t1, root, sep, y) && z !in t1
    requires Occupied(t, root, c, {root}) && Filled(t1[root], false, c) && Filled(t1[y], false, c)
    ensures Occupied(NewRootTable(t1, root, sep, y, z), z, c, {})
  {
  }

  lemma LeafHalved(t: Table, g: Shape, root: NodeId, next: nat, left: Option<NodeId>, m: Contents, c: Config, x: NodeId)
    requires Good(t, g, root, next, left, m, c, {x}) && x in t && t[x].Leaf?
    requires c.maxKeys <= |t[x].entries| && (Balanced(c) ==> |t[x].entries| == c.maxKeys)
    ensures t[x].SplitLeafRight(next).entries != []
    ensures Halved(t, g, root, next, left, m, c, t[x := t[x].SplitLeafLeft(next)][next := t[x].SplitLeafRight(next)],
                   x, t[x].SplitLeafRight(next).entries[0].key)
  {
    LeafSplitReady(t, g, root, x, next);
    LeafSplitHolds(t, m, x, next);
  }

  lemma InternalHalved(t: Table, g: Shape, root: NodeId, next: nat, left: Option<NodeId>, m: Contents, c: Config,
                       x: NodeId)
    requires Good(t, g, root, next, left, m, c, {x}) && x in t && t[x].Internal?
    requires c.maxKeys <= |t[x].keys| && (Balanced(c) ==> |t[x].keys| <= c.maxKeys + 1)
    ensures |t[x].children| == |t[x].keys| + 1 && x !in t[x].children
    ensures forall d :: d in t[x].children ==> d in t && t[d].id == d
    ensures Halved(t, g, root, next, left, m, c, SplitInternalTable(t, x, next), x, t[x].keys[|t[x].keys| / 2])
  {
    InternalSplitReady(t, g, root, x, next);
    InternalSplitHolds(t, m, x, next);
    assert Shaped(t, g, x) && Linked(t, g, root, x);
    DistinctChildren(t, g, x);
    forall d | d in t[x].children ensures d in t && t[d].id == d {
      assert Linked(t, g, root, d);
    }
  }

  lemma LeafSplitHolds(t: Table, m: Contents, x: NodeId, y: NodeId)
    requires Holds(t, m) && x in t && t[x].Leaf? && y !in t
    ensures Holds(t[x := t[x].SplitLeafLeft(y)][y := t[x].SplitLeafRight(y)], m)
  {
    var es := t[x].entries;
    assert es == es[..|es| / 2] + es[|es| / 2..];
    Rearranged(t, t[x := t[x].SplitLeafLeft(y)][y := t[x].SplitLeafRight(y)], m, x, y);
  }

  lemma InternalSplitHolds(t: Table, m: Contents, x: NodeId, y: NodeId)
    requires Holds(t, m) && x in t && t[x].Internal? && |t[x].keys| > 0 && |t[x].children| == |t[x].keys| + 1 && y !in t
    ensures Holds(SplitInternalTable(t, x, y), m)
  {
    Rearranged(t, SplitInternalTable(t, x, y), m, x, y);
  }

  // ---------- borrows, merges, collapse ----------

  /** The leftmost leaf is never the right one of two siblings. */
  lemma NotLeftmost(t: Table, g: Shape, root: NodeId, p: NodeId, i: nat, a: NodeId, b: NodeId)
    requires Wired(t, g, root) && Siblings(t, p, i, a, b)
    ensures b in g && g[b].lo > 0.0
  {
    SiblingFacts(t, g, root, p, i, a, b);
    InUnit(t, g, root, a);
  }

  lemma BorrowInv(t: Table, g: Shape, root: NodeId, next: nat, left: Option<NodeId>, m: Contents,
                  t1: Table, p: NodeId, i: nat, a: NodeId, b: NodeId, sep: Key)
    requires Inv(t, g, root, next, left, m) && Siblings(t, p, i, a, b)
    requires BorrowReady(t, g, t1, p, a, b, sep) && PairShaped(t1, g, a, b, sep) && Holds(t1, m)
    ensures Inv(t1[p := NewSeparator(t[p], i, sep)], MoveBoundary(g, a, b, Rank(sep)), root, next, left, m)
  {
    BorrowStep(t, g, root, t1, p, i, a, b, sep);
    InternalRewritten(t1, m, p, NewSeparator(t[p], i, sep));
    NotLeftmost(t, g, root, p, i, a, b);
  }

  lemma BorrowOccupied(t: Table, root: NodeId, c: Config, t1: Table, p: NodeId, i: nat, a: NodeId, b: NodeId,
                       sep: Key, x: NodeId)
    requires Siblings(t, p, i, a, b) && p != a && p != b && Exchanged(t, t1, a, b)
    requires (x == a || x == b) && Occupied(t, root, c, {x}) && a != root && b != root
    requires forall id :: id in t1 <==> id in t
    requires a in t && b in t && Filled(t1[a], false, c) && Filled(t1[b], false, c)
    ensures Occupied(t1[p := NewSeparator(t[p], i, sep)], root, c, {})
  {
  }

  lemma MergeInv(t: Table, g: Shape, root: NodeId, next: nat, left: Option<NodeId>, m: Contents,
                 t1: Table, p: NodeId, i: nat, a: NodeId, b: NodeId)
    requires Inv(t, g, root, next, left, m) && Siblings(t, p, i, a, b)
    requires MergeReady(t, g, t1, p, a, b) && Holds(t1, m)
    ensures t1[p].Internal? && t1[p] == t[p]
    ensures t1[p].RemoveChild(b) == t[p].(keys := RemoveAt(t[p].keys, i - 1), children := RemoveAt(t[p].children, i))
    ensures Inv(t1[p := t1[p].RemoveChild(b)], Absorb(g, a, b), root, next, left, m)
  {
    MergeStep(t, g, root, t1, p, i, a, b);
    InternalRewritten(t1, m, p, t[p].RemoveChild(b));
    NotLeftmost(t, g, root, p, i, a, b);
  }

  lemma MergeOccupied(t: Table, root: NodeId, c: Config, t1: Table, p: NodeId, a: NodeId, b: NodeId, x: NodeId,
                      p1: Node)
    requires (x == a || x == b) && Occupied(t, root, c, {x}) && Carried(t, t1, {a, b}, b, a)
    requires forall id :: id in t1 <==> id in t && id != b
    requires a in t && a != b && a != root && Filled(t1[a], false, c)
    ensures Occupied(t1[p := p1], root, c, {p})
  {
  }

  lemma CollapseInv(t: Table, g: Shape, root: NodeId, next: nat, left: Option<NodeId>, m: Contents)
    requires Inv(t, g, root, next, left, m) && t[root].Internal? && |t[root].children| == 1
    ensures t[root].children[0] in t && t[root].children[0] != root
    ensures Inv(CollapseTable(t, root, t[root].children[0]), g, t[root].children[0], next, left, m)
  {
    CollapseStep(t, g, root);
    assert Shaped(t, g, root);
    Rearranged(t, CollapseTable(t, root, t[root].children[0]), m, root, root);
  }

  lemma CollapseOccupied(t: Table, root: NodeId, cfg: Config, c: NodeId)
    requires Sound(cfg) && Occupied(t, root, cfg, {root}) && c in t && c != root
    ensures Occupied(CollapseTable(t, root, c), c, cfg, {})
  {
  }

  lemma LeafRightHolds(t: Table, m: Contents, a: NodeId, b: NodeId)
    requires Holds(t, m) && a in t && b in t && t[a].Leaf? && t[b].Leaf? && t[a].entries != [] && a != b
    ensures Holds(LeafRight(t, a, b), m)
  {
    var es := t[a].entries;
    assert es == Front(es) + [Last(es)];
    Rearranged(t, LeafRight(t, a, b), m, a, b);
  }

  lemma LeafLeftHolds(t: Table, m: Contents, a: NodeId, b: NodeId)
    requires Holds(t, m) && a in t && b in t && t[a].Leaf? && t[b].Leaf? && t[b].entries != [] && a != b
    ensures Holds(LeafLeft(t, a, b), m)
  {
    var es := t[b].entries;
    assert es == [es[0]] + es[1..];
    Rearranged(t, LeafLeft(t, a, b), m, a, b);
  }

  lemma MergeLeavesHolds(t: Table, m: Contents, a: NodeId, b: NodeId)
    requires Holds(t, m) && a in t && b in t && t[a].Leaf? && t[b].Leaf? && a != b
    requires t[b].next != Some(a) && t[b].next != Some(b)
    ensures Holds(MergeLeaves(t, a, b), m)
  {
    Rearranged(t, MergeLeaves(t, a, b), m, a, b);
  }

  lemma MergeInternalsHolds(t: Table, m: Contents, a: NodeId, b: NodeId, sep: Key)
    requires Holds(t, m) && a in t && b in t && t[a].Internal? && t[b].Internal? && a != b
    ensures Holds(MergeInternals(t, a, b, sep), m)
  {
    Rearranged(t, MergeInternals(t, a, b, sep), m, a, b);
  }

  lemma ChildMovesHold(t: Table, m: Contents, a: NodeId, b: NodeId, sep: Key)
    requires Holds(t, m) && a in t && b in t && t[a].Internal? && t[b].Internal? && a != b
    ensures t[a].keys != [] && t[a].children != [] ==> Holds(ChildRight(t, a, b, sep), m)
    ensures t[b].keys != [] && t[b].children != [] ==> Holds(ChildLeft(t, a, b, sep), m)
  {
    if t[a].keys != [] && t[a].children != [] {
      Rearranged(t, ChildRight(t, a, b, sep), m, a, b);
    }
    if t[b].keys != [] && t[b].children != [] {
      Rearranged(t, ChildLeft(t, a, b, sep), m, a, b);
    }
  }

  // ---------- what an underflow may do ----------

  /** A node one deletion short: below `minKeys`, but no further than one step down can take it. */
  ghost predicate Starved(n: Node, c: Config) {
    && n.Len() < c.minKeys
    && (Balanced(c) ==> n.Len() >= c.minKeys - if n.Leaf? then 1 else 2)
  }

  lemma BorrowGood(t: Table, g: Shape, root: NodeId, next: nat, left: Option<NodeId>, m: Contents, c: Config,
                   t1: Table, p: NodeId, i: nat, a: NodeId, b: NodeId, sep: Key, x: NodeId)
    requires Good(t, g, root, next, left, m, c, {x}) && Siblings(t, p, i, a, b) && (x == a || x == b)
    requires BorrowReady(t, g, t1, p, a, b, sep) && PairShaped(t1, g, a, b, sep) && Holds(t1, m)
    requires Sound(c) ==> Filled(t1[a], false, c) && Filled(t1[b], false, c)
    ensures Good(t1[p := NewSeparator(t[p], i, sep)], MoveBoundary(g, a, b, Rank(sep)), root, next, left, m, c, {})
  {
    BorrowInv(t, g, root, next, left, m, t1, p, i, a, b, sep);
    SiblingFacts(t, g, root, p, i, a, b);
    if Sound(c) {
      BorrowOccupied(t, root, c, t1, p, i, a, b, sep, x);
    }
  }

  lemma LeafFromLeft(t: Table, g: Shape, root: NodeId, next: nat, left: Option<NodeId>, m: Contents, c: Config,
                     p: NodeId, i: nat, a: NodeId, b: NodeId)
    requires Good(t, g, root, next, left, m, c, {b}) && Siblings(t, p, i, a, b)
    requires a in t && b in t && t[a].Leaf? && t[b].Leaf? && Starved(t[b], c) && c.minKeys < |t[a].entries|
    ensures a in g && b in g
    ensures var sep := Last(t[a].entries).key;
            Good(LeafRight(t, a, b)[p := NewSeparator(t[p], i, sep)], MoveBoundary(g, a, b, Rank(sep)), root, next,
                 left, m, c, {})
  {
    LeafRightReady(t, g, root, p, i, a, b);
    LeafRightHolds(t, m, a, b);
    BorrowGood(t, g, root, next, left, m, c, LeafRight(t, a, b), p, i, a, b, Last(t[a].entries).key, b);
  }

  lemma LeafFromRight(t: Table, g: Shape, root: NodeId, next: nat, left: Option<NodeId>, m: Contents, c: Config,
                      p: NodeId, i: nat, a: NodeId, b: NodeId)
    requires Good(t, g, root, next, left, m, c, {a}) && Siblings(t, p, i, a, b)
    requires a in t && b in t && t[a].Leaf? && t[b].Leaf? && Starved(t[a], c) && c.minKeys < |t[b].entries|
    ensures a in g && b in g
    ensures var sep := t[b].entries[1].key;
            Good(LeafLeft(t, a, b)[p := NewSeparator(t[p], i, sep)], MoveBoundary(g, a, b, Rank(sep)), root, next,
                 left, m, c, {})
  {
    LeafLeftReady(t, g, root, p, i, a, b);
    LeafLeftHolds(t, m, a, b);
    BorrowGood(t, g, root, next, left, m, c, LeafLeft(t, a, b), p, i, a, b, t[b].entries[1].key, a);
  }

  lemma InternalFromLeft(t: Table, g: Shape, root: NodeId, next: nat, left: Option<NodeId>, m: Contents, c: Config,
                         p: NodeId, i: nat, a: NodeId, b: NodeId)
    requires Good(t, g, root, next, left, m, c, {b}) && Siblings(t, p, i, a, b)
    requires a in t && b in t && t[a].Internal? && t[b].Internal? && Starved(t[b], c) && c.minKeys < |t[a].keys|
    ensures a in g && b in g && t[a].children != []
    ensures var sep := Last(t[a].keys);
            Good(ChildRight(t, a, b, t[p].keys[i - 1])[p := NewSeparator(t[p], i, sep)],
                 MoveBoundary(g, a, b, Rank(sep)), root, next, left, m, c, {})
  {
    ChildRightReady(t, g, root, p, i, a, b);
    ChildMovesHold(t, m, a, b, t[p].keys[i - 1]);
    BorrowGood(t, g, root, next, left, m, c, ChildRight(t, a, b, t[p].keys[i - 1]), p, i, a, b, Last(t[a].keys), b);
  }

  lemma InternalFromRight(t: Table, g: Shape, root: NodeId, next: nat, left: Option<NodeId>, m: Contents, c: Config,
                          p: NodeId, i: nat, a: NodeId, b: NodeId)
    requires Good(t, g, root, next, left, m, c, {a}) && Siblings(t, p, i, a, b)
    requires a in t && b in t && t[a].Internal? && t[b].Internal? && Starved(t[a], c) && c.minKeys < |t[b].keys|
    ensures a in g && b in g && t[b].children != []
    ensures var sep := t[b].keys[0];
            Good(ChildLeft(t, a, b, t[p].keys[i - 1])[p := NewSeparator(t[p], i, sep)],
                 MoveBoundary(g, a, b, Rank(sep)), root, next, left, m, c, {})
  {
    ChildLeftReady(t, g, root, p, i, a, b);
    ChildMovesHold(t, m, a, b, t[p].keys[i - 1]);
    BorrowGood(t, g, root, next, left, m, c, ChildLeft(t, a, b, t[p].keys[i - 1]), p, i, a, b, t[b].keys[0], a);
  }

  /** The table of a merge of `a` and `b`, whichever kind of node they are. */
  ghost function Merged(t: Table, p: NodeId, i: nat, a: NodeId, b: NodeId): Table
    requires a in t && b in t && t[a].Leaf? == t[b].Leaf? && Siblings(t, p, i, a, b)
  {
    if t[a].Leaf? then MergeLeaves(t, a, b) else MergeInternals(t, a, b, t[p].keys[i - 1])
  }

  /** Merging a starved node with a sibling that has nothing to lend leaves only the parent to look at. */
  lemma MergeGood(t: Table, g: Shape, root: NodeId, next: nat, left: Option<NodeId>, m: Contents, c: Config,
                  p: NodeId, i: nat, a: NodeId, b: NodeId, x: NodeId)
    requires Good(t, g, root, next, left, m, c, {x}) && Siblings(t, p, i, a, b) && (x == a || x == b)
    requires a in t && b in t && t[a].Len() <= c.minKeys && t[b].Len() <= c.minKeys && Starved(t[x], c)
    ensures a in g && b in g && t[a].Leaf? == t[b].Leaf?
    ensures var t1 := Merged(t, p, i, a, b);
            && p in t1 && t1[p] == t[p]
            && t1[p].RemoveChild(b) == t[p].(keys := RemoveAt(t[p].keys, i - 1), children := RemoveAt(t[p].children, i))
            && Good(t1[p := t1[p].RemoveChild(b)], Absorb(g, a, b), root, next, left, m, c, {p})
  {
    SiblingFacts(t, g, root, p, i, a, b);
    var t1 := Merged(t, p, i, a, b);
    if t[a].Leaf? {
      MergeLeavesReady(t, g, root, p, i, a, b);
      MergeLeavesHolds(t, m, a, b);
    } else {
      MergeInternalsReady(t, g, root, p, i, a, b);
      MergeInternalsHolds(t, m, a, b, t[p].keys[i - 1]);
    }
    MergeInv(t, g, root, next, left, m, t1, p, i, a, b);
    if Sound(c) {
      MergeOccupied(t, root, c, t1, p, a, b, x, t1[p].RemoveChild(b));
    }
  }

  lemma CollapseGood(t: Table, g: Shape, root: NodeId, next: nat, left: Option<NodeId>, m: Contents, c: Config)
    requires Good(t, g, root, next, left, m, c, {root}) && t[root].Internal? && |t[root].children| == 1
    ensures t[root].children[0] in t && t[root].children[0] != root
    ensures Good(CollapseTable(t, root, t[root].children[0]), g, t[root].children[0], next, left, m, c, {})
  {
    CollapseInv(t, g, root, next, left, m);
    if Sound(c) {
      CollapseOccupied(t, root, c, t[root].children[0]);
    }
  }
}
