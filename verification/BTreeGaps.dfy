/** Runs that leave an empty leaf before a non-empty one, so that a scan stops early. */
module BTreeGaps {
  import opened Wrappers
  import opened Bytes
  import opened BTreeNode
  import opened BTreeShape
  import opened BTreeSplit
  import opened BTreeContents
  import opened BTreeChain
  import opened BTreeOutcome
  import opened BTree
  import opened BTreeIterator

  // ---------- at most two keys per node ----------

  /** The tree after 4. */
  ghost function One(v: Value): TreeState {
    TreeState(map[0 := Leaf(0, [Entry([4], v)], None, None, None)], 0, 1)
  }

  /** The tree after 4 and 3. */
  ghost function Two(v: Value): TreeState {
    TreeState(map[0 := Leaf(0, [Entry([3], v)], Some(1), None, Some(2)),
                  1 := Leaf(1, [Entry([4], v)], None, Some(0), Some(2)),
                  2 := Internal(2, [[4]], [0, 1], None)], 2, 3)
  }

  /** The tree after 4, 3 and 2: splitting the full root leaves its right half with one child and no key. */
  ghost function Three(v: Value): TreeState {
    TreeState(map[0 := Leaf(0, [Entry([2], v)], Some(3), None, Some(2)),
                  3 := Leaf(3, [Entry([3], v)], Some(1), Some(0), Some(2)),
                  1 := Leaf(1, [Entry([4], v)], None, Some(0), Some(4)),
                  2 := Internal(2, [[3]], [0, 3], Some(5)),
                  4 := Internal(4, [], [1], Some(5)),
                  5 := Internal(5, [[4]], [2, 4], None)], 5, 6)
  }

  /** The tree after 4, 3, 2 and 1. */
  ghost function Four(v: Value): TreeState {
    TreeState(map[0 := Leaf(0, [Entry([1], v)], Some(6), None, Some(2)),
                  6 := Leaf(6, [Entry([2], v)], Some(3), Some(0), Some(2)),
                  3 := Leaf(3, [Entry([3], v)], Some(1), Some(0), Some(7)),
                  1 := Leaf(1, [Entry([4], v)], None, Some(0), Some(4)),
                  2 := Internal(2, [[2]], [0, 6], Some(5)),
                  7 := Internal(7, [], [3], Some(5)),
                  4 := Internal(4, [], [1], Some(8)),
                  5 := Internal(5, [[3]], [2, 7], Some(9)),
                  8 := Internal(8, [], [4], Some(9)),
                  9 := Internal(9, [[4]], [5, 8], None)], 9, 10)
  }

  // ---------- small steps ----------

  lemma TopNode(x: NodeId, sep: Key, y: NodeId, z: NodeId)
    ensures Internal(z, [], [x], None).InsertInternalEntry(sep, y) == Internal(z, [sep], [x, y], None)
  {
  }

  /** One-byte keys in a row of one or two, and what goes in before them. */
  lemma SearchBefore(a: byte, b: byte)
    requires a < b
    ensures Search([[b]], [a]) == Missing(0)
    ensures Search([[b]], [b]) == Found(0)
  {
  }

  lemma PutBefore(a: byte, b: byte, v: Value)
    requires a < b
    ensures PutEntry([Entry([b], v)], [a], v) == [Entry([a], v), Entry([b], v)]
  {
    assert KeysOf([Entry([b], v)]) == [[b]];
    SearchBefore(a, b);
  }

  /** Splitting a leaf of two. */
  lemma Halves(leaf: Node, a: Entry, b: Entry, y: NodeId)
    requires leaf.Leaf? && leaf.entries == [a, b]
    ensures leaf.SplitLeafLeft(y) == leaf.(entries := [a], next := Some(y))
    ensures leaf.SplitLeafRight(y) == Leaf(y, [b], leaf.next, Some(leaf.id), leaf.parent)
  {
    assert [a, b][..1] == [a] && [a, b][1..] == [b];
  }

  lemma InsertOne(v: Value)
    ensures Inserted(TreeState(map[0 := NewLeaf(0)], 0, 1), [4], v, 2, 3) == Some(One(v))
  {
    var s := TreeState(map[0 := NewLeaf(0)], 0, 1);
    assert KeysOf([]) == [];
    assert PutEntry([], [4], v) == [Entry([4], v)];
    assert LeafFor(s.nodes, 0, [4], 3) == Some(0);
    assert s.nodes[0].InsertEntry([4], v) == Leaf(0, [Entry([4], v)], None, None, None);
    assert s.nodes[0 := One(v).nodes[0]] == One(v).nodes;
  }

  /** Splitting an internal node of two keys: the right half is left with one child and no key. */
  lemma InternalHalves(n: Node, a: Key, b: Key, x: NodeId, y: NodeId, z: NodeId, w: NodeId)
    requires n.Internal? && n.keys == [a, b] && n.children == [x, y, z]
    ensures n.SplitInternalLeft() == n.(keys := [a], children := [x, y])
    ensures n.SplitInternalRight(w) == Internal(w, [], [z], n.parent)
  {
    assert [a, b][..1] == [a] && [a, b][2..] == [] && [x, y, z][..2] == [x, y] && [x, y, z][2..] == [z];
  }

  lemma TakeIn(n: Node, a: byte, b: byte, x: NodeId, y: NodeId, z: NodeId)
    requires n.Internal? && a < b && n.keys == [[b]] && n.children == [x, z]
    ensures n.InsertInternalEntry([a], y) == n.(keys := [[a], [b]], children := [x, y, z])
  {
    SearchBefore(a, b);
    assert InsertAt([[b]], 0, [a]) == [[a], [b]] && InsertAt([x, z], 1, y) == [x, y, z];
  }

  /** A leaf that comes to hold two entries splits. */
  lemma InsertSplits(s: TreeState, id: NodeId, key: Key, v: Value, leaf: Node, a: Entry, b: Entry, t: Table, fuel: nat)
    requires LeafFor(s.nodes, s.rootId, key, fuel) == Some(id) && id in s.nodes
    requires leaf == s.nodes[id].InsertEntry(key, v) && leaf.Leaf? && leaf.id == id && leaf.entries == [a, b]
    requires t == s.nodes[id := leaf.(entries := [a], next := Some(s.nextNodeId))]
                         [s.nextNodeId := Leaf(s.nextNodeId, [b], leaf.next, Some(id), leaf.parent)]
    ensures Inserted(s, key, v, 2, fuel) == SplitUp(TreeState(t, s.rootId, s.nextNodeId + 1), leaf, b.key,
                                                    s.nextNodeId, 2, fuel)
  {
    LeafSplits(s, leaf, a, b, t, fuel);
  }

  lemma LeafSplits(s: TreeState, leaf: Node, a: Entry, b: Entry, t: Table, fuel: nat)
    requires leaf.Leaf? && leaf.entries == [a, b]
    requires t == s.nodes[leaf.id := leaf.(entries := [a], next := Some(s.nextNodeId))]
                         [s.nextNodeId := Leaf(s.nextNodeId, [b], leaf.next, Some(leaf.id), leaf.parent)]
    ensures LeafOutcome(s, leaf, 2, fuel)
            == SplitUp(TreeState(t, s.rootId, s.nextNodeId + 1), leaf, b.key, s.nextNodeId, 2, fuel)
  {
    Halves(leaf, a, b, s.nextNodeId);
  }

  /** An internal node that comes to hold two keys splits. */
  lemma ParentSplits(s: TreeState, p: NodeId, n: Node, a: byte, b: byte, x: NodeId, y: NodeId, z: NodeId, t: Table,
                     fuel: nat)
    requires p in s.nodes && s.nodes[p] == n && n.Internal? && n.id == p && a < b && n.keys == [[b]]
             && n.children == [x, z]
    requires z in s.nodes && z != p && s.nextNodeId !in s.nodes && fuel > 0
    requires t == s.nodes[z := s.nodes[z].SetParent(Some(s.nextNodeId))][p := n.(keys := [[a]], children := [x, y])]
                         [s.nextNodeId := Internal(s.nextNodeId, [], [z], n.parent)]
    ensures GivenUp(s, p, [a], y, 2, fuel)
            == SplitUp(TreeState(t, s.rootId, s.nextNodeId + 1), n.(keys := [[a], [b]], children := [x, y, z]), [b],
                       s.nextNodeId, 2, fuel - 1)
  {
    TakeIn(n, a, b, x, y, z);
    var n2 := n.(keys := [[a], [b]], children := [x, y, z]);
    InternalStep(s, n2, 2, fuel - 1);
    InternalTable(s, n2, [a], [b], x, y, z, t);
  }

  lemma InternalTable(s: TreeState, n: Node, a: Key, b: Key, x: NodeId, y: NodeId, z: NodeId, t: Table)
    requires n.Internal? && n.id in s.nodes && n.keys == [a, b] && n.children == [x, y, z]
    requires z in s.nodes && z != n.id && s.nextNodeId !in s.nodes
    requires t == s.nodes[z := s.nodes[z].SetParent(Some(s.nextNodeId))][n.id := n.(keys := [a], children := [x, y])]
                         [s.nextNodeId := Internal(s.nextNodeId, [], [z], n.parent)]
    ensures SplitInternalTable(s.nodes[n.id := n], n.id, s.nextNodeId) == t
  {
    InternalHalves(n, a, b, x, y, z, s.nextNodeId);
  }

  lemma InsertTwo(v: Value)
    ensures Inserted(One(v), [3], v, 2, 3) == Some(Two(v))
  {
    var s := One(v);
    PutBefore(3, 4, v);
    assert LeafFor(s.nodes, 0, [3], 3) == Some(0);
    var leaf := Leaf(0, [Entry([3], v), Entry([4], v)], None, None, None);
    var t := map[0 := Leaf(0, [Entry([3], v)], Some(1), None, None),
                 1 := Leaf(1, [Entry([4], v)], None, Some(0), None)];
    InsertSplits(s, 0, [3], v, leaf, Entry([3], v), Entry([4], v), t, 3);
    TopNode(0, [4], 1, 2);
    assert NewRootTable(t, 0, [4], 1, 2) == Two(v).nodes;
  }

  lemma InsertThree(v: Value)
    ensures Inserted(Two(v), [2], v, 2, 3) == Some(Three(v))
  {
    var s := Two(v);
    SearchBefore(2, 4);
    assert s.nodes[2].GetChildForKey([2]) == Some(0);
    assert LeafFor(s.nodes, 0, [2], 2) == Some(0);
    PutBefore(2, 3, v);
    var leaf := Leaf(0, [Entry([2], v), Entry([3], v)], Some(1), None, Some(2));
    InsertSplits(s, 0, [2], v, leaf, Entry([2], v), Entry([3], v), ThreeLow(v), 3);
    ThreeUp(v);
  }

  ghost function ThreeLow(v: Value): Table {
    map[0 := Leaf(0, [Entry([2], v)], Some(3), None, Some(2)),
        3 := Leaf(3, [Entry([3], v)], Some(1), Some(0), Some(2)),
        1 := Leaf(1, [Entry([4], v)], None, Some(0), Some(2)),
        2 := Internal(2, [[4]], [0, 1], None)]
  }

  ghost function ThreeHalf(v: Value): Table {
    map[0 := Leaf(0, [Entry([2], v)], Some(3), None, Some(2)),
        3 := Leaf(3, [Entry([3], v)], Some(1), Some(0), Some(2)),
        1 := Leaf(1, [Entry([4], v)], None, Some(0), Some(4)),
        2 := Internal(2, [[3]], [0, 3], None),
        4 := Internal(4, [], [1], None)]
  }

  /** A root that has split gets a new root above it. */
  lemma GrowTop(s: TreeState, n: Node, sep: Key, y: NodeId, t: Table, fuel: nat)
    requires n.parent == None && n.id in s.nodes && y in s.nodes
    requires var z := s.nextNodeId;
             t == s.nodes[n.id := s.nodes[n.id].SetParent(Some(z))][y := s.nodes[y].SetParent(Some(z))]
               [z := Internal(z, [sep], [n.id, y], None)]
    ensures SplitUp(s, n, sep, y, 2, fuel) == Some(TreeState(t, s.nextNodeId, s.nextNodeId + 1))
  {
    TopNode(n.id, sep, y, s.nextNodeId);
  }

  lemma ThreeTables(v: Value)
    ensures var t := ThreeLow(v);
            ThreeHalf(v) == t[1 := t[1].SetParent(Some(4))][2 := t[2].(keys := [[3]], children := [0, 3])]
              [4 := Internal(4, [], [1], None)]
    ensures var t := ThreeHalf(v);
            Three(v).nodes == t[2 := t[2].SetParent(Some(5))][4 := t[4].SetParent(Some(5))]
              [5 := Internal(5, [[4]], [2, 4], None)]
  {
  }

  lemma ThreeUp(v: Value)
    ensures GivenUp(TreeState(ThreeLow(v), 2, 4), 2, [3], 3, 2, 3) == Some(Three(v))
  {
    ThreeTables(v);
    ParentSplits(TreeState(ThreeLow(v), 2, 4), 2, ThreeLow(v)[2], 3, 4, 0, 3, 1, ThreeHalf(v), 3);
    GrowTop(TreeState(ThreeHalf(v), 2, 5), Internal(2, [[3], [4]], [0, 3, 1], None), [4], 4, Three(v).nodes, 2);
  }

  lemma InsertFour(v: Value)
    ensures Inserted(Three(v), [1], v, 2, 3) == Some(Four(v))
  {
    var s := Three(v);
    SearchBefore(1, 4);
    SearchBefore(1, 3);
    assert s.nodes[5].GetChildForKey([1]) == Some(2) && s.nodes[2].GetChildForKey([1]) == Some(0);
    assert LeafFor(s.nodes, 0, [1], 1) == Some(0);
    assert LeafFor(s.nodes, 2, [1], 2) == Some(0);
    PutBefore(1, 2, v);
    var leaf := Leaf(0, [Entry([1], v), Entry([2], v)], Some(3), None, Some(2));
    InsertSplits(s, 0, [1], v, leaf, Entry([1], v), Entry([2], v), FourLow(v), 3);
    FourUp(v);
  }

  /** The table once the leaf has split. */
  ghost function FourLow(v: Value): Table {
    map[0 := Leaf(0, [Entry([1], v)], Some(6), None, Some(2)),
        6 := Leaf(6, [Entry([2], v)], Some(3), Some(0), Some(2)),
        3 := Leaf(3, [Entry([3], v)], Some(1), Some(0), Some(2)),
        1 := Leaf(1, [Entry([4], v)], None, Some(0), Some(4)),
        2 := Internal(2, [[3]], [0, 3], Some(5)),
        4 := Internal(4, [], [1], Some(5)),
        5 := Internal(5, [[4]], [2, 4], None)]
  }

  /** The table once the lower internal node has split. */
  ghost function FourHalf(v: Value): Table {
    map[0 := Leaf(0, [Entry([1], v)], Some(6), None, Some(2)),
        6 := Leaf(6, [Entry([2], v)], Some(3), Some(0), Some(2)),
        3 := Leaf(3, [Entry([3], v)], Some(1), Some(0), Some(7)),
        1 := Leaf(1, [Entry([4], v)], None, Some(0), Some(4)),
        2 := Internal(2, [[2]], [0, 6], Some(5)),
        7 := Internal(7, [], [3], Some(5)),
        4 := Internal(4, [], [1], Some(5)),
        5 := Internal(5, [[4]], [2, 4], None)]
  }

  lemma HalfTable(v: Value)
    ensures var t := FourLow(v);
            FourHalf(v) == t[3 := t[3].SetParent(Some(7))][2 := t[2].(keys := [[2]], children := [0, 6])]
              [7 := Internal(7, [], [3], Some(5))]
  {
  }

  lemma FourUp(v: Value)
    ensures GivenUp(TreeState(FourLow(v), 5, 7), 2, [2], 6, 2, 3) == Some(Four(v))
  {
    HalfTable(v);
    ParentSplits(TreeState(FourLow(v), 5, 7), 2, FourLow(v)[2], 2, 3, 0, 6, 3, FourHalf(v), 3);
    FourTop(v);
  }

  lemma FourTop(v: Value)
    ensures GivenUp(TreeState(FourHalf(v), 5, 8), 5, [3], 7, 2, 2) == Some(Four(v))
  {
    var t := FourHalf(v);
    var t2 := t[4 := t[4].SetParent(Some(8))][5 := Internal(5, [[3]], [2, 7], None)][8 := Internal(8, [], [4], None)];
    ParentSplits(TreeState(t, 5, 8), 5, t[5], 3, 4, 2, 7, 4, t2, 2);
    GrowTop(TreeState(t2, 5, 9), Internal(5, [[3], [4]], [2, 7, 4], None), [4], 8, Four(v).nodes, 1);
  }

  /** The tree after 4, 3, 2 and 1, with 3 deleted again: its leaf has no sibling to borrow from or merge with. */
  ghost function Five(v: Value): TreeState {
    Four(v).(nodes := Four(v).nodes[3 := Leaf(3, [], Some(1), Some(0), Some(7))])
  }

  lemma DeleteThree(v: Value, minKeys: nat, fuel: nat)
    requires LeafFor(Four(v).nodes, 9, [3], fuel).Some?
    ensures Deleted(Four(v), [3], minKeys, fuel) == Some(Five(v))
  {
    var t := Four(v).nodes;
    SearchBefore(3, 4);
    assert t[9].GetChildForKey([3]) == Some(5) && t[5].GetChildForKey([3]) == Some(7)
           && t[7].GetChildForKey([3]) == Some(3);
    assert LeafFor(t, 3, [3], 0) == Some(3);
    assert LeafFor(t, 7, [3], 1) == Some(3);
    assert LeafFor(t, 5, [3], 2) == Some(3);
    assert LeafFor(t, 9, [3], 3) == Some(3);
    LeafForOne(t, 9, [3], 3, fuel);
    assert KeysOf([Entry([3], v)]) == [[3]];
    assert t[3].Get([3]) == Some(v) && t[3].DeleteEntry([3]) == Leaf(3, [], Some(1), Some(0), Some(7));
  }

  /** In such a tree the entry 4 is hidden behind an empty leaf and the entries 1 and 2 are not. */
  lemma FiveShadows(v: Value, g: Shape)
    requires Wired(Five(v).nodes, g, 9)
    ensures var t := Five(v).nodes;
            Shadowed(t, g, 0.0, [4]) && !Shadowed(t, g, 0.0, [1]) && !Shadowed(t, g, 0.0, [2])
  {
    var t := Five(v).nodes;
    FiveRegions(v, g);
    InUnit(t, g, 9, 3);
    assert IsLeaf(t, g, 3);
    assert forall a :: IsLeaf(t, g, a) && t[a].entries == [] ==> a == 3;
  }

  lemma FiveRegions(v: Value, g: Shape)
    requires Wired(Five(v).nodes, g, 9)
    ensures 3 in g && 0.0 < g[3].hi && Rank([1]) < g[3].lo && Rank([2]) < g[3].lo <= Rank([4])
  {
    var t := Five(v).nodes;
    assert Shaped(t, g, 0) && Shaped(t, g, 6) && Shaped(t, g, 3) && Shaped(t, g, 1);
    assert Linked(t, g, 9, 0) && Linked(t, g, 9, 6) && Linked(t, g, 9, 3) && Linked(t, g, 9, 1);
    assert t[1].entries[0].key == [4] && t[0].entries[0].key == [1] && t[6].entries[0].key == [2];
    InUnit(t, g, 9, 3);
  }

  /** With at most two keys per node, whatever the minimum: a scan of a tree with 1, 2 and 4 ends after 2. */
  method TwoKeyRun(minKeys: nat, v: Value) returns (tree: BPlusTree, out: seq<Entry>)
    ensures fresh(tree) && tree.Valid() && tree.config == Config(2, minKeys)
    ensures tree.contents == map[[1] := v, [2] := v, [4] := v]
    ensures out == [Entry([1], v), Entry([2], v)]
  {
    tree := FourInserted(minKeys, v);
    ThreeDeleted(tree, v);
    FiveShadows(v, tree.region);
    out := Scan(tree, Unbounded, Unbounded, None);
    TwoLeft(tree, v, out);
  }

  method FourInserted(minKeys: nat, v: Value) returns (tree: BPlusTree)
    ensures fresh(tree) && tree.Valid() && tree.config == Config(2, minKeys) && tree.State() == Four(v)
    ensures tree.contents == map[[4] := v][[3] := v][[2] := v][[1] := v]
  {
    tree := new BPlusTree(Config(2, minKeys));
    InsertAs(tree, [4], v, 2, tree.State(), One(v), 3) by {
      InsertOne(v);
    }
    InsertAs(tree, [3], v, 2, One(v), Two(v), 3) by {
      InsertTwo(v);
    }
    InsertAs(tree, [2], v, 2, Two(v), Three(v), 3) by {
      InsertThree(v);
    }
    InsertAs(tree, [1], v, 2, Three(v), Four(v), 3) by {
      InsertFour(v);
    }
  }

  method ThreeDeleted(tree: BPlusTree, v: Value)
    requires tree.Valid() && tree.State() == Four(v) && tree.contents == map[[4] := v][[3] := v][[2] := v][[1] := v]
    modifies tree
    ensures tree.Valid() && tree.State() == Five(v) && tree.contents == map[[1] := v, [2] := v, [4] := v]
  {
    WithoutThree(v);
    DeleteAs(tree, [3], Five(v)) by {
      if LeafFor(tree.nodes, tree.rootId, [3], tree.Top()).Some? {
        DeleteThree(v, tree.config.minKeys, tree.Top());
      }
    }
  }

  lemma WithoutThree(v: Value)
    ensures map[[4] := v][[3] := v][[2] := v][[1] := v] - {[3]} == map[[1] := v, [2] := v, [4] := v]
  {
  }

  /** A deletion whose outcome is known. */
  method DeleteAs(tree: BPlusTree, key: Key, ghost s: TreeState)
    requires tree.Valid()
    requires LeafFor(tree.nodes, tree.rootId, key, tree.Top()).Some? ==>
               Deleted(tree.State(), key, tree.config.minKeys, tree.Top()) == Some(s)
    modifies tree
    ensures tree.Valid() && tree.State() == s && tree.contents == old(tree.contents) - {key}
  {
    var _ := tree.Delete(key);
  }

  /** All that is not shadowed. */
  lemma TwoLeft(tree: BPlusTree, v: Value, out: seq<Entry>)
    requires tree.contents == map[[1] := v, [2] := v, [4] := v]
             && IsScan(out, Visible(tree, Unbounded, Unbounded), None)
    requires var t, g := tree.nodes, tree.region;
             Shadowed(t, g, 0.0, [4]) && !Shadowed(t, g, 0.0, [1]) && !Shadowed(t, g, 0.0, [2])
    ensures out == [Entry([1], v), Entry([2], v)]
  {
    var all := [Entry([1], v), Entry([2], v)];
    assert Less([1], [2]);
    forall e ensures e in out <==> e in all {
      assert e in Visible(tree, Unbounded, Unbounded) <==> e == Entry([1], v) || e == Entry([2], v);
    }
    RangeUnique(out, all);
  }

  /** An insertion whose outcome is known. */
  method InsertAs(tree: BPlusTree, key: Key, v: Value, maxKeys: nat, ghost s0: TreeState, ghost s: TreeState,
                  ghost fuel: nat)
    requires tree.Valid() && tree.config.maxKeys == maxKeys && tree.State() == s0
    requires Inserted(s0, key, v, maxKeys, fuel) == Some(s)
    modifies tree
    ensures tree.Valid() && tree.State() == s && tree.contents == old(tree.contents)[key := v]
  {
    var _ := tree.Insert(key, v);
    InsertedOne(s0, key, v, maxKeys, fuel, old(tree.Top()));
  }

  // ---------- no minimum ----------

  /** Keys in ascending order: the strings of zero bytes. */
  function Zeros(n: nat): Key {
    if n == 0 then [] else [0] + Zeros(n - 1)
  }

  lemma {:induction false} ZerosAscend(i: nat, j: nat)
    requires i < j
    ensures Less(Zeros(i), Zeros(j)) && Zeros(i) != Zeros(j)
  {
    if i > 0 {
      ZerosAscend(i - 1, j - 1);
      assert Zeros(i)[1..] == Zeros(i - 1) && Zeros(j)[1..] == Zeros(j - 1);
    }
  }

  /** The entries number `i`, `i + 1`, ..., `n - 1`. */
  ghost function Entries(i: nat, n: nat, v: Value): (es: seq<Entry>)
    requires i <= n
    ensures |es| == n - i && forall k :: 0 <= k < |es| ==> es[k] == Entry(Zeros(i + k), v)
    decreases n - i
  {
    if i == n then [] else [Entry(Zeros(i), v)] + Entries(i + 1, n, v)
  }

  /** The next key goes to the end. */
  lemma PutLast(n: nat, v: Value)
    ensures PutEntry(Entries(0, n, v), Zeros(n), v) == Entries(0, n + 1, v)
  {
    var es := Entries(0, n, v);
    var ks := KeysOf(es);
    forall k | 0 <= k < n ensures Rank(ks[k]) < Rank(Zeros(n)) && ks[k] != Zeros(n) {
      ZerosAscend(k, n);
    }
    assert Search(ks, Zeros(n)) == Missing(n);
    assert InsertAt(es, n, Entry(Zeros(n), v)) == Entries(0, n + 1, v);
  }

  /** The first key comes off the front. */
  lemma DropFirst(i: nat, n: nat, v: Value)
    requires i < n
    ensures GetEntry(Entries(i, n, v), Zeros(i)) == Some(v)
            && DropEntry(Entries(i, n, v), Zeros(i)) == Entries(i + 1, n, v)
  {
    var es := Entries(i, n, v);
    var ks := KeysOf(es);
    assert ks[0] == Zeros(i);
    assert Search(ks, Zeros(i)) == Found(0);
    assert RemoveAt(es, 0) == Entries(i + 1, n, v);
  }

  /** A lone leaf with the first `n` keys. */
  ghost function Lone(n: nat, v: Value): TreeState {
    TreeState(map[0 := Leaf(0, Entries(0, n, v), None, None, None)], 0, 1)
  }

  /** Two leaves, the first of which has lost its first `i` keys. */
  ghost function Pair(i: nat, n: nat, v: Value): TreeState
    requires i <= n / 2
  {
    TreeState(map[0 := Leaf(0, Entries(i, n / 2, v), Some(1), None, Some(2)),
                  1 := Leaf(1, Entries(n / 2, n, v), None, Some(0), Some(2)),
                  2 := Internal(2, [Zeros(n / 2)], [0, 1], None)], 2, 3)
  }

  lemma LoneInsert(n: nat, maxKeys: nat, v: Value)
    requires n + 1 < maxKeys
    ensures Inserted(Lone(n, v), Zeros(n), v, maxKeys, 0) == Some(Lone(n + 1, v))
  {
    PutLast(n, v);
    assert LeafFor(Lone(n, v).nodes, 0, Zeros(n), 0) == Some(0);
    assert Lone(n, v).nodes[0 := Lone(n + 1, v).nodes[0]] == Lone(n + 1, v).nodes;
  }

  /** The two halves before the new root is there. */
  ghost function Cleft(n: nat, v: Value): Table {
    map[0 := Leaf(0, Entries(0, n / 2, v), Some(1), None, None),
        1 := Leaf(1, Entries(n / 2, n, v), None, Some(0), None)]
  }

  lemma CleftHalves(n: nat, v: Value)
    ensures var leaf := Leaf(0, Entries(0, n, v), None, None, None);
            leaf.SplitLeafLeft(1) == Cleft(n, v)[0] && leaf.SplitLeafRight(1) == Cleft(n, v)[1]
  {
    var es, h := Entries(0, n, v), n / 2;
    assert es[..h] == Entries(0, h, v) && es[h..] == Entries(h, n, v);
  }

  lemma LoneSplit(n: nat, v: Value)
    requires 2 <= n
    ensures Inserted(Lone(n - 1, v), Zeros(n - 1), v, n, 0) == Some(Pair(0, n, v))
  {
    var s, leaf := Lone(n - 1, v), Leaf(0, Entries(0, n, v), None, None, None);
    PutLast(n - 1, v);
    assert LeafFor(s.nodes, 0, Zeros(n - 1), 0) == Some(0);
    assert s.nodes[0].InsertEntry(Zeros(n - 1), v) == leaf;
    CleftHalves(n, v);
    assert s.nodes[0 := Cleft(n, v)[0]][1 := Cleft(n, v)[1]] == Cleft(n, v);
    CleftTop(n, v, leaf);
  }

  lemma CleftTop(n: nat, v: Value, leaf: Node)
    requires 2 <= n && leaf == Leaf(0, Entries(0, n, v), None, None, None)
    ensures SplitUp(TreeState(Cleft(n, v), 0, 2), leaf, Zeros(n / 2), 1, n, 0) == Some(Pair(0, n, v))
  {
    TopNode(0, Zeros(n / 2), 1, 2);
    assert NewRootTable(Cleft(n, v), 0, Zeros(n / 2), 1, 2) == Pair(0, n, v).nodes;
  }

  lemma PairDelete(i: nat, n: nat, v: Value, fuel: nat)
    requires i < n / 2 && LeafFor(Pair(i, n, v).nodes, 2, Zeros(i), fuel).Some?
    ensures Deleted(Pair(i, n, v), Zeros(i), 0, fuel) == Some(Pair(i + 1, n, v))
  {
    var t := Pair(i, n, v).nodes;
    ZerosAscend(i, n / 2);
    assert Search([Zeros(n / 2)], Zeros(i)) == Missing(0);
    assert t[2].GetChildForKey(Zeros(i)) == Some(0);
    assert LeafFor(t, 0, Zeros(i), 0) == Some(0);
    assert LeafFor(t, 2, Zeros(i), 1) == Some(0);
    LeafForOne(t, 2, Zeros(i), 1, fuel);
    DropFirst(i, n / 2, v);
    assert t[0 := Pair(i + 1, n, v).nodes[0]] == Pair(i + 1, n, v).nodes;
  }

  lemma PairShadows(n: nat, v: Value, g: Shape, key: Key)
    requires Wired(Pair(n / 2, n, v).nodes, g, 2)
    ensures Shadowed(Pair(n / 2, n, v).nodes, g, 0.0, key)
  {
    var t := Pair(n / 2, n, v).nodes;
    assert Shaped(t, g, 2) && Linked(t, g, 2, 0);
    assert t[2].children[0] == 0;
    assert IsLeaf(t, g, 0) && t[0].entries == [];
  }

  /** Without a minimum, whatever the maximum: a scan of a tree that still has keys finds none of them. */
  method NoMinimumRun(maxKeys: nat, v: Value) returns (tree: BPlusTree, out: seq<Entry>)
    requires 2 <= maxKeys
    ensures fresh(tree) && tree.Valid() && tree.config == Config(maxKeys, 0)
    ensures Zeros(maxKeys - 1) in tree.contents && out == []
  {
    tree := SplitByOne(maxKeys, v);
    for i := 0 to maxKeys / 2
      invariant tree.Valid() && tree.config == Config(maxKeys, 0) && fresh(tree)
      invariant tree.State() == Pair(i, maxKeys, v) && Zeros(maxKeys - 1) in tree.contents
    {
      PairNext(tree, i, maxKeys, v);
    }
    out := Scan(tree, Unbounded, Unbounded, None);
    NothingSeen(tree, maxKeys, v, out);
  }

  /** The first leaf loses one more key. */
  method PairNext(tree: BPlusTree, i: nat, n: nat, v: Value)
    requires tree.Valid() && tree.config == Config(n, 0) && i < n / 2
    requires tree.State() == Pair(i, n, v) && Zeros(n - 1) in tree.contents
    modifies tree
    ensures tree.Valid() && tree.State() == Pair(i + 1, n, v) && Zeros(n - 1) in tree.contents
  {
    ZerosAscend(i, n - 1);
    DeleteAs(tree, Zeros(i), Pair(i + 1, n, v)) by {
      if LeafFor(tree.nodes, tree.rootId, Zeros(i), tree.Top()).Some? {
        PairDelete(i, n, v, tree.Top());
      }
    }
  }

  lemma NothingSeen(tree: BPlusTree, n: nat, v: Value, out: seq<Entry>)
    requires tree.Valid() && tree.State() == Pair(n / 2, n, v) && IsScan(out, Visible(tree, Unbounded, Unbounded), None)
    ensures out == []
  {
    assert out == [] || out[0] in out;
    forall e: Entry ensures e !in Visible(tree, Unbounded, Unbounded) {
      PairShadows(n, v, tree.region, e.key);
    }
  }

  /** The next key into the lone leaf, which has room for it. */
  method LoneNext(tree: BPlusTree, n: nat, v: Value)
    requires tree.Valid() && n + 1 < tree.config.maxKeys && tree.State() == Lone(n, v)
    modifies tree
    ensures tree.Valid() && tree.State() == Lone(n + 1, v)
  {
    InsertAs(tree, Zeros(n), v, tree.config.maxKeys, Lone(n, v), Lone(n + 1, v), 0) by {
      LoneInsert(n, tree.config.maxKeys, v);
    }
  }

  /** The key that splits it. */
  method LoneLast(tree: BPlusTree, n: nat, v: Value)
    requires tree.Valid() && 2 <= n == tree.config.maxKeys && tree.State() == Lone(n - 1, v)
    modifies tree
    ensures tree.Valid() && tree.State() == Pair(0, n, v) && Zeros(n - 1) in tree.contents
  {
    InsertAs(tree, Zeros(n - 1), v, n, Lone(n - 1, v), Pair(0, n, v), 0) by {
      LoneSplit(n, v);
    }
  }

  method LoneEmpty(maxKeys: nat, v: Value) returns (tree: BPlusTree)
    requires 2 <= maxKeys
    ensures fresh(tree) && tree.Valid() && tree.config == Config(maxKeys, 0) && tree.State() == Lone(0, v)
  {
    tree := new BPlusTree(Config(maxKeys, 0));
  }

  /** As many insertions as it takes to split the root leaf. */
  method SplitByOne(maxKeys: nat, v: Value) returns (tree: BPlusTree)
    requires 2 <= maxKeys
    ensures fresh(tree) && tree.Valid() && tree.config == Config(maxKeys, 0)
    ensures tree.State() == Pair(0, maxKeys, v) && Zeros(maxKeys - 1) in tree.contents
  {
    tree := LoneEmpty(maxKeys, v);
    for n := 0 to maxKeys - 1
      invariant fresh(tree) && tree.Valid() && tree.config == Config(maxKeys, 0) && tree.State() == Lone(n, v)
    {
      LoneNext(tree, n, v);
    }
    LoneLast(tree, maxKeys, v);
  }
}
