/**
 The exact table an insertion leaves behind, and a deletion that neither borrows nor merges: what the
 operations compute, for following a concrete run.  `fuel` bounds the depth; with too little of it, or
 off the ways covered here, there is no outcome.
 */
module BTreeOutcome {
  import opened Wrappers
  import opened Bytes
  import opened BTreeNode
  import opened BTreeShape
  import opened BTreeSplit

  datatype TreeState = TreeState(nodes: Table, rootId: NodeId, nextNodeId: nat)

  /** If there is an outcome, it is `s`. */
  ghost predicate Agrees(o: Option<TreeState>, s: TreeState) {
    o.Some? ==> o.value == s
  }

  ghost function LeafFor(t: Table, id: NodeId, key: Key, fuel: nat): Option<NodeId>
    decreases fuel
  {
    if id !in t then None
    else if t[id].Leaf? then Some(id)
    else if fuel == 0 || t[id].GetChildForKey(key).None? then None
    else LeafFor(t, t[id].GetChildForKey(key).value, key, fuel - 1)
  }

  /** A new root over the two halves of the old one. */
  ghost function NewTop(s: TreeState, x: NodeId, sep: Key, y: NodeId): Option<TreeState> {
    if x in s.nodes && y in s.nodes
    then Some(TreeState(NewRootTable(s.nodes, x, sep, y, s.nextNodeId), s.nextNodeId, s.nextNodeId + 1))
    else None
  }

  /** The separator of a stored split goes up. */
  ghost function SplitUp(s: TreeState, n: Node, sep: Key, y: NodeId, maxKeys: nat, fuel: nat): Option<TreeState>
    decreases fuel, 2
  {
    if n.parent.Some? then GivenUp(s, n.parent.value, sep, y, maxKeys, fuel) else NewTop(s, n.id, sep, y)
  }

  ghost function GivenUp(s: TreeState, p: NodeId, sep: Key, y: NodeId, maxKeys: nat, fuel: nat): Option<TreeState>
    decreases fuel, 1
  {
    if fuel == 0 || p !in s.nodes || !s.nodes[p].Internal? || |s.nodes[p].keys| >= |s.nodes[p].children| then None
    else
      var n := s.nodes[p].InsertInternalEntry(sep, y);
      if n.IsFull(maxKeys) then InternalOutcome(s, n, maxKeys, fuel - 1) else Some(s.(nodes := s.nodes[n.id := n]))
  }

  ghost function InternalOutcome(s: TreeState, n: Node, maxKeys: nat, fuel: nat): Option<TreeState>
    decreases fuel, 3
  {
    if !n.Internal? || n.keys == [] || |n.children| != |n.keys| + 1 then None
    else
      var t := SplitInternalTable(s.nodes[n.id := n], n.id, s.nextNodeId);
      SplitUp(TreeState(t, s.rootId, s.nextNodeId + 1), n, n.keys[|n.keys| / 2], s.nextNodeId, maxKeys, fuel)
  }

  lemma InternalStep(s: TreeState, n: Node, maxKeys: nat, fuel: nat)
    requires n.Internal? && n.keys != [] && |n.children| == |n.keys| + 1
    ensures InternalOutcome(s, n, maxKeys, fuel)
            == SplitUp(TreeState(SplitInternalTable(s.nodes[n.id := n], n.id, s.nextNodeId), s.rootId,
                                 s.nextNodeId + 1), n,
                       n.keys[|n.keys| / 2], s.nextNodeId, maxKeys, fuel)
  {
  }

  ghost function LeafOutcome(s: TreeState, leaf: Node, maxKeys: nat, fuel: nat): Option<TreeState> {
    if !leaf.Leaf? || leaf.entries == [] then None
    else
      var right := leaf.SplitLeafRight(s.nextNodeId);
      var t := s.nodes[leaf.id := leaf.SplitLeafLeft(s.nextNodeId)][s.nextNodeId := right];
      SplitUp(TreeState(t, s.rootId, s.nextNodeId + 1), leaf, right.entries[0].key, s.nextNodeId, maxKeys, fuel)
  }

  ghost function Inserted(s: TreeState, key: Key, value: Value, maxKeys: nat, fuel: nat): Option<TreeState> {
    var id := LeafFor(s.nodes, s.rootId, key, fuel);
    if id.None? || id.value !in s.nodes then None
    else
      var leaf := s.nodes[id.value].InsertEntry(key, value);
      if leaf.IsFull(maxKeys) then LeafOutcome(s, leaf, maxKeys, fuel) else Some(s.(nodes := s.nodes[leaf.id := leaf]))
  }

  ghost predicate HasSibling(t: Table, n: Node) {
    n.parent.Some? && n.parent.value in t && t[n.parent.value].Internal? && |t[n.parent.value].children| > 1
  }

  /** A key taken out of a leaf that stays where it is: full enough, the root, or without a sibling. */
  ghost function Deleted(s: TreeState, key: Key, minKeys: nat, fuel: nat): Option<TreeState> {
    var id := LeafFor(s.nodes, s.rootId, key, fuel);
    if id.None? || id.value !in s.nodes || s.nodes[id.value].Get(key).None? then None
    else
      var leaf := s.nodes[id.value].DeleteEntry(key);
      if leaf.Len() < minKeys && HasSibling(s.nodes, leaf) then None else Some(s.(nodes := s.nodes[leaf.id := leaf]))
  }

  // ---------- fuel ----------

  lemma {:induction false} LeafForOne(t: Table, id: NodeId, key: Key, f: nat, g: nat)
    requires LeafFor(t, id, key, f).Some? && LeafFor(t, id, key, g).Some?
    ensures LeafFor(t, id, key, f) == LeafFor(t, id, key, g)
    decreases f
  {
    if !t[id].Leaf? {
      LeafForOne(t, t[id].GetChildForKey(key).value, key, f - 1, g - 1);
    }
  }

  lemma {:induction false} SplitUpOne(s: TreeState, n: Node, sep: Key, y: NodeId, maxKeys: nat, f: nat, g: nat)
    requires SplitUp(s, n, sep, y, maxKeys, f).Some? && SplitUp(s, n, sep, y, maxKeys, g).Some?
    ensures SplitUp(s, n, sep, y, maxKeys, f) == SplitUp(s, n, sep, y, maxKeys, g)
    decreases f
  {
    if n.parent.Some? {
      var m := s.nodes[n.parent.value].InsertInternalEntry(sep, y);
      if m.IsFull(maxKeys) {
        assert InternalOutcome(s, m, maxKeys, f - 1).Some?;
        InternalStep(s, m, maxKeys, f - 1);
        InternalStep(s, m, maxKeys, g - 1);
        var t := SplitInternalTable(s.nodes[m.id := m], m.id, s.nextNodeId);
        SplitUpOne(TreeState(t, s.rootId, s.nextNodeId + 1), m, m.keys[|m.keys| / 2], s.nextNodeId, maxKeys, f - 1,
                   g - 1);
      }
    }
  }

  /** All the fuel that suffices gives the same outcome. */
  lemma InsertedOne(s: TreeState, key: Key, value: Value, maxKeys: nat, f: nat, g: nat)
    requires Inserted(s, key, value, maxKeys, f).Some? && Inserted(s, key, value, maxKeys, g).Some?
    ensures Inserted(s, key, value, maxKeys, f) == Inserted(s, key, value, maxKeys, g)
  {
    LeafForOne(s.nodes, s.rootId, key, f, g);
    var leaf := s.nodes[LeafFor(s.nodes, s.rootId, key, f).value].InsertEntry(key, value);
    if leaf.IsFull(maxKeys) {
      var right := leaf.SplitLeafRight(s.nextNodeId);
      var t := s.nodes[leaf.id := leaf.SplitLeafLeft(s.nextNodeId)][s.nextNodeId := right];
      SplitUpOne(TreeState(t, s.rootId, s.nextNodeId + 1), leaf, right.entries[0].key, s.nextNodeId, maxKeys, f, g);
    }
  }
}
