/**
 The B+Tree engine (nanograph-btree/src/tree.rs): a table of nodes, the root id, the id counter and the
 leftmost leaf, updated in place by insert, delete and clear.

 Each public operation is one step.  The ghost fields give every node its region and record the map
 the tree stands for; `Valid` ties them to the real fields.
 */
module BTree {
  import opened Wrappers
  import opened Bytes
  import opened BTreeNode
  import opened BTreeShape
  import opened BTreeSplit
  import opened BTreeRebalance
  import opened BTreeMoves
  import opened BTreeContents
  import opened BTreeSteps
  import opened BTreeStats
  import opened BTreeOutcome

  datatype BTreeStatistics = BTreeStatistics(numKeys: nat, numInternalNodes: nat, numLeafNodes: nat, height: nat)

  class BPlusTree {
    const config: Config
    var rootId: NodeId
    var nodes: Table
    var nextNodeId: nat
    var leftmostLeaf: Option<NodeId>

    ghost var region: Shape
    ghost var contents: Contents

    ghost predicate Valid()
      reads this
    {
      Good(nodes, region, rootId, nextNodeId, leftmostLeaf, contents, config, {})
    }

    /**
     `node` is a working copy not yet stored: the table would satisfy the invariant with it in place,
     its own key count apart.
     */
    ghost predicate Pending(node: Node)
      reads this
    {
      && node.id in nodes
      && Good(nodes[node.id := node], region, rootId, nextNodeId, leftmostLeaf, contents, config, {node.id})
    }

    ghost function State(): TreeState
      reads this
    {
      TreeState(nodes, rootId, nextNodeId)
    }

    /** The height of the root. */
    ghost function Top(): nat
      reads this
    {
      if rootId in region then region[rootId].ht else 0
    }

    /** How far `id` lies below the root. */
    ghost predicate Below(id: NodeId, h: nat)
      reads this
    {
      id in region && rootId in region && region[id].ht + h == region[rootId].ht
    }

    constructor (config: Config)
      ensures contents == map[] && this.config == config && State() == TreeState(map[0 := NewLeaf(0)], 0, 1)
      ensures 2 <= config.maxKeys ==> Valid()
    {
      this.config := config;
      rootId := 0;
      nodes := map[0 := NewLeaf(0)];
      nextNodeId := 1;
      leftmostLeaf := Some(0);
      region := map[0 := Region(0.0, 1.0, 0)];
      contents := map[];
    }

    method Clear()
      requires Valid()
      modifies this
      ensures Valid() && contents == map[]
    {
      nodes := map[0 := NewLeaf(0)];
      rootId := 0;
      nextNodeId := 1;
      leftmostLeaf := Some(0);
      region := map[0 := Region(0.0, 1.0, 0)];
      contents := map[];
    }

    // ---------- node access ----------

    method AllocateNodeId() returns (id: NodeId)
      modifies this`nextNodeId
      ensures id == old(nextNodeId) && nextNodeId == old(nextNodeId) + 1
    {
      id := nextNodeId;
      nextNodeId := nextNodeId + 1;
    }

    function GetNode(id: NodeId): (r: Result<Node>)
      reads this
      ensures r.Ok? <==> id in nodes
      ensures r.Ok? ==> r.value == nodes[id]
    {
      if id in nodes then Ok(nodes[id]) else Err("Node not found")
    }

    method UpdateNode(node: Node)
      modifies this`nodes
      ensures nodes == old(nodes)[node.id := node]
    {
      nodes := nodes[node.id := node];
    }

    method RemoveNode(id: NodeId)
      modifies this`nodes
      ensures nodes == old(nodes) - {id}
    {
      nodes := nodes - {id};
    }

    // ---------- lookup ----------

    method Get(key: Key) returns (r: Result<Option<Value>>)
      requires Valid()
      ensures r == Ok(if key in contents then Some(contents[key]) else None)
    {
      var leafId :- FindLeaf(rootId, key);
      var leaf :- GetNode(leafId);
      LeafDecides(nodes, region, rootId, contents, leafId, key);
      r := Ok(leaf.Get(key));
    }

    /**
     Down from any node: an error for a missing one, else a leaf, and the leaf of the key where the node
     covers it.
     */
    method FindLeaf(start: NodeId, key: Key) returns (r: Result<NodeId>)
      requires Valid()
      ensures r.Ok? <==> start in nodes
      ensures r.Ok? ==> r.value in nodes && r.value in region && nodes[r.value].Leaf?
      ensures start in nodes ==> start in region
      ensures r.Ok? && region[start].lo <= Rank(key) < region[start].hi ==>
                region[r.value].lo <= Rank(key) < region[r.value].hi
      ensures r.Ok? ==> LeafFor(nodes, start, key, region[start].ht) == Some(r.value)
    {
      if start !in nodes {
        return Err("Node not found");
      }
      assert Linked(nodes, region, rootId, start);
      var nodeId := start;
      while true
        invariant nodeId in nodes && nodeId in region
        invariant region[start].lo <= Rank(key) < region[start].hi ==>
                    region[nodeId].lo <= Rank(key) < region[nodeId].hi
        invariant LeafFor(nodes, start, key, region[start].ht) == LeafFor(nodes, nodeId, key, region[nodeId].ht)
        decreases region[nodeId].ht
      {
        var node :- GetNode(nodeId);
        if node.Leaf? {
          return Ok(nodeId);
        }
        ChildOf(nodes, region, rootId, nodeId, key);
        var child := node.GetChildForKey(key);
        if child.None? {
          return Err("Node not found");
        }
        nodeId := child.value;
      }
    }

    // ---------- insert ----------

    method Insert(key: Key, value: Value) returns (r: Result<()>)
      requires Valid()
      modifies this
      ensures r.Ok? && Valid() && contents == old(contents)[key := value]
      ensures Some(State()) == Inserted(old(State()), key, value, config.maxKeys, old(Top()))
    {
      var leafId :- FindLeaf(rootId, key);
      var leaf :- GetNode(leafId);
      PutStep(nodes, region, rootId, nextNodeId, leftmostLeaf, contents, leafId, key, value);
      assert Linked(nodes, region, rootId, leafId);
      leaf := leaf.InsertEntry(key, value);
      contents := contents[key := value];
      if leaf.IsFull(config.maxKeys) {
        r := SplitLeaf(leaf);
      } else {
        UpdateNode(leaf);
        r := Ok(());
      }
    }

    method SplitLeaf(leaf: Node) returns (r: Result<()>)
      requires leaf.Leaf? && Pending(leaf) && leaf.IsFull(config.maxKeys)
      requires Balanced(config) ==> |leaf.entries| == config.maxKeys
      modifies this
      ensures r.Ok? && Valid() && contents == old(contents)
      ensures Some(State()) == LeafOutcome(old(State()), leaf, config.maxKeys, old(Top()))
    {
      var newId, sep := HalveLeaf(leaf);
      r := PropagateSplit(leaf, sep, newId, old(nodes)[leaf.id := leaf], Top());
    }

    /** Stores an overfull leaf as two under a new id, the parent not yet told. */
    method HalveLeaf(leaf: Node) returns (newId: NodeId, sep: Key)
      requires leaf.Leaf? && Pending(leaf) && leaf.IsFull(config.maxKeys)
      requires Balanced(config) ==> |leaf.entries| == config.maxKeys
      modifies this`nodes, this`nextNodeId
      ensures newId + 1 == nextNodeId && newId == old(nextNodeId) && leaf.entries != []
      ensures Halved(old(nodes)[leaf.id := leaf], region, rootId, newId, leftmostLeaf, contents, config, nodes,
                     leaf.id, sep)
      ensures Below(leaf.id, Top())
      ensures var newLeaf := leaf.SplitLeafRight(newId);
              && sep == newLeaf.entries[0].key
              && nodes == old(nodes)[leaf.id := leaf.SplitLeafLeft(newId)][newId := newLeaf]
    {
      ghost var t: Table := nodes[leaf.id := leaf];
      LeafHalved(t, region, rootId, nextNodeId, leftmostLeaf, contents, config, leaf.id);
      assert Shaped(t, region, leaf.id) && Linked(t, region, rootId, leaf.id);
      newId := AllocateNodeId();
      var newLeaf := leaf.SplitLeafRight(newId);
      sep := newLeaf.entries[0].key;
      UpdateNode(leaf.SplitLeafLeft(newId));
      UpdateNode(newLeaf);
      assert nodes == t[leaf.id := leaf.SplitLeafLeft(newId)][newId := newLeaf];
    }

    /** The common tail of both splits: hand the separator to the parent, or grow a new root. */
    method PropagateSplit(node: Node, sep: Key, newId: NodeId, ghost t: Table, ghost h: nat) returns (r: Result<()>)
      requires newId + 1 == nextNodeId && node.id in t && t[node.id] == node && Below(node.id, h)
      requires Halved(t, region, rootId, newId, leftmostLeaf, contents, config, nodes, node.id, sep)
      modifies this
      ensures r.Ok? && Valid() && contents == old(contents)
      ensures Some(State()) == SplitUp(old(State()), node, sep, newId, config.maxKeys, h)
      decreases h, 0
    {
      HalvedDepth(t, region, rootId, newId, leftmostLeaf, contents, config, nodes, node.id, sep, h);
      if node.parent.Some? {
        r := HandUp(node.id, node.parent.value, sep, newId, t, h - 1);
      } else {
        r := CreateNewRoot(node.id, sep, newId, t);
      }
    }

    method HandUp(id: NodeId, p: NodeId, sep: Key, newId: NodeId, ghost t: Table, ghost h: nat) returns (r: Result<()>)
      requires newId + 1 == nextNodeId && id in t && t[id].parent == Some(p) && Below(p, h) && id != p && p != newId
      requires Halved(t, region, rootId, newId, leftmostLeaf, contents, config, nodes, id, sep)
      modifies this
      ensures r.Ok? && Valid() && contents == old(contents)
      ensures Some(State()) == GivenUp(old(State()), p, sep, newId, config.maxKeys, h + 1)
      decreases h, 3
    {
      SplitInv(t, region, rootId, newId, leftmostLeaf, contents, config, nodes, id, sep, p);
      region := Cut(region, id, Rank(sep), newId);
      r := InsertIntoParent(p, sep, newId, h);
    }

    method InsertIntoParent(parentId: NodeId, key: Key, rightChild: NodeId, ghost h: nat) returns (r: Result<()>)
      requires parentId in nodes && nodes[parentId].Internal? && |nodes[parentId].keys| < |nodes[parentId].children|
      requires nodes[parentId].id == parentId && Pending(nodes[parentId].InsertInternalEntry(key, rightChild))
      requires Sound(config) ==> Filled(nodes[parentId], parentId == rootId, config)
      requires Below(parentId, h)
      modifies this
      ensures r.Ok? && Valid() && contents == old(contents)
      ensures Some(State()) == GivenUp(old(State()), parentId, key, rightChild, config.maxKeys, h + 1)
      decreases h, 2
    {
      var parent :- GetNode(parentId);
      parent := parent.InsertInternalEntry(key, rightChild);
      if parent.IsFull(config.maxKeys) {
        r := SplitInternal(parent, h);
      } else {
        UpdateNode(parent);
        r := Ok(());
      }
    }

    method SplitInternal(internal: Node, ghost h: nat) returns (r: Result<()>)
      requires internal.Internal? && Pending(internal) && internal.IsFull(config.maxKeys)
      requires Balanced(config) ==> |internal.keys| <= config.maxKeys + 1
      requires Below(internal.id, h)
      modifies this
      ensures r.Ok? && Valid() && contents == old(contents)
      ensures Some(State()) == InternalOutcome(old(State()), internal, config.maxKeys, h)
      decreases h, 1
    {
      var newId := HalveInternal(internal);
      InternalStep(old(State()), internal, config.maxKeys, h);
      r := PropagateSplit(internal, internal.keys[|internal.keys| / 2], newId, old(nodes)[internal.id := internal], h);
    }

    /** Stores an overfull internal node as two under a new id, the parent not yet told. */
    method HalveInternal(internal: Node) returns (newId: NodeId)
      requires internal.Internal? && Pending(internal) && internal.IsFull(config.maxKeys)
      requires Balanced(config) ==> |internal.keys| <= config.maxKeys + 1
      modifies this`nodes, this`nextNodeId
      ensures newId + 1 == nextNodeId && internal.keys != []
      ensures Halved(old(nodes)[internal.id := internal], region, rootId, newId, leftmostLeaf, contents, config, nodes,
                     internal.id, internal.keys[|internal.keys| / 2])
      ensures |internal.children| == |internal.keys| + 1 && newId == old(nextNodeId)
      ensures nodes == SplitInternalTable(old(nodes)[internal.id := internal], internal.id, newId)
    {
      InternalHalved(nodes[internal.id := internal], region, rootId, nextNodeId, leftmostLeaf, contents, config,
                     internal.id);
      newId := AllocateNodeId();
      var _ := StoreHalves(internal, newId);
    }

    /** Hands the upper children to the new node and stores both halves. */
    method StoreHalves(internal: Node, newId: NodeId) returns (r: Result<()>)
      requires internal.Internal? && internal.keys != [] && |internal.children| == |internal.keys| + 1
      requires internal.id in nodes && internal.id !in internal.children && newId !in nodes
      requires var t := nodes[internal.id := internal]; forall d :: d in internal.children ==> d in t && t[d].id == d
      modifies this`nodes
      ensures r.Ok? && nodes == SplitInternalTable(old(nodes)[internal.id := internal], internal.id, newId)
    {
      var newInternal := internal.SplitInternalRight(newId);
      assert forall i :: 0 <= i < |newInternal.children| ==> newInternal.children[i] in internal.children;
      var _ :- ReparentChildren(newInternal.children, newId);
      UpdateNode(internal.SplitInternalLeft());
      UpdateNode(newInternal);
      SplitTableBuilt(old(nodes), internal, newId, nodes);
      r := Ok(());
    }

    /** The loop that hands every child in `cs` to parent `p`. */
    method ReparentChildren(cs: seq<NodeId>, p: NodeId) returns (r: Result<()>)
      requires forall i :: 0 <= i < |cs| ==> cs[i] in nodes && nodes[cs[i]].id == cs[i]
      modifies this`nodes
      ensures r.Ok? && nodes == Reparent(old(nodes), cs, p)
    {
      for i := 0 to |cs|
        invariant nodes == Reparent(old(nodes), cs[..i], p)
      {
        var child :- GetNode(cs[i]);
        UpdateNode(child.SetParent(Some(p)));
        assert cs[..i + 1] == cs[..i] + [cs[i]];
      }
      assert cs[..|cs|] == cs;
      r := Ok(());
    }

    method CreateNewRoot(leftChild: NodeId, key: Key, rightChild: NodeId, ghost t: Table) returns (r: Result<()>)
      requires leftChild == rootId && rightChild + 1 == nextNodeId
      requires Halved(t, region, rootId, rightChild, leftmostLeaf, contents, config, nodes, rootId, key)
      modifies this
      ensures r.Ok? && Valid() && contents == old(contents)
      ensures Some(State()) == NewTop(old(State()), leftChild, key, rightChild)
    {
      RootSplitInv(t, region, rootId, rightChild, leftmostLeaf, contents, config, nodes, key, nextNodeId);
      var newRootId := AllocateNodeId();
      var _ := StoreNewRoot(newRootId, leftChild, key, rightChild);
      region := NewRootShape(region, rootId, key, rightChild, newRootId);
      rootId := newRootId;
      r := Ok(());
    }

    method StoreNewRoot(newRootId: NodeId, leftChild: NodeId, key: Key, rightChild: NodeId) returns (r: Result<()>)
      requires leftChild in nodes && nodes[leftChild].id == leftChild && rightChild in nodes
               && nodes[rightChild].id == rightChild
      requires newRootId !in nodes && leftChild != rightChild
      modifies this`nodes
      ensures r.Ok? && nodes == NewRootTable(old(nodes), leftChild, key, rightChild, newRootId)
    {
      var newRoot := Internal(newRootId, [], [leftChild], None).InsertInternalEntry(key, rightChild);
      var left :- GetNode(leftChild);
      UpdateNode(left.SetParent(Some(newRootId)));
      var right :- GetNode(rightChild);
      UpdateNode(right.SetParent(Some(newRootId)));
      UpdateNode(newRoot);
      r := Ok(());
    }

    // ---------- delete ----------

    method Delete(key: Key) returns (r: Result<bool>)
      requires Valid()
      modifies this
      ensures Valid() && r == Ok(key in old(contents)) && contents == old(contents) - {key}
      ensures LeafFor(old(nodes), old(rootId), key, old(Top())).Some?
      ensures Agrees(Deleted(old(State()), key, config.minKeys, old(Top())), State())
    {
      var leafId :- FindLeaf(rootId, key);
      var leaf :- GetNode(leafId);
      DropStep(nodes, region, rootId, nextNodeId, leftmostLeaf, contents, leafId, key);
      assert Linked(nodes, region, rootId, leafId);
      var deleted := leaf.Get(key);
      if deleted.None? {
        assert contents == contents - {key};
        return Ok(false);
      }
      leaf := leaf.DeleteEntry(key);
      contents := contents - {key};
      if leaf.Len() < config.minKeys && leaf.parent.Some? {
        var _ :- HandleUnderflow(leaf, region[rootId].ht - region[leafId].ht);
      } else {
        UpdateNode(leaf);
      }
      r := Ok(true);
    }

    /** Borrows from a sibling that can spare an entry, else merges and goes on with the parent. */
    method HandleUnderflow(node: Node, ghost h: nat) returns (r: Result<()>)
      requires Pending(node) && node.parent.Some? && Starved(node, config) && Below(node.id, h)
      modifies this
      ensures r.Ok? && Valid() && contents == old(contents)
      ensures nodes.Keys <= old(nodes).Keys && node.parent.value in old(nodes)
      ensures Rebalanced(old(nodes), nodes, node.id, old(nodes)[node.parent.value], config.minKeys)
      ensures !HasSibling(old(nodes), node) ==> State() == old(State()).(nodes := old(nodes)[node.id := node])
      decreases h, 1
    {
      ghost var t := nodes[node.id := node];
      ghost var p, i := ParentSlot(t, region, rootId, node.id);
      assert Shaped(t, region, p) && Linked(t, region, rootId, p) && Linked(t, region, rootId, node.id);
      var parentId := node.parent.value;
      var parent :- GetNode(parentId);

      var leftSibling := LeftSibling(node.id, parent);
      if leftSibling.Some? {
        SiblingFacts(t, region, rootId, p, i, leftSibling.value, node.id);
        var sibling :- GetNode(leftSibling.value);
        if sibling.Len() > config.minKeys {
          r := BorrowFromLeft(node, leftSibling.value, i);
          return;
        }
      }
      var rightSibling := RightSibling(node.id, parent);
      if rightSibling.Some? {
        SiblingFacts(t, region, rootId, p, i + 1, node.id, rightSibling.value);
        var sibling :- GetNode(rightSibling.value);
        if sibling.Len() > config.minKeys {
          r := BorrowFromRight(node, rightSibling.value, i + 1);
          return;
        }
      }
      if leftSibling.Some? {
        r := MergeWithLeft(node, leftSibling.value, i, h);
      } else if rightSibling.Some? {
        r := MergeWithRight(node, rightSibling.value, i + 1, h);
      } else {
        UpdateNode(node);
        r := Ok(());
      }
    }

    static function LeftSibling(id: NodeId, parent: Node): Option<NodeId> {
      if parent.Internal? && id in parent.children && Position(parent.children, id) > 0
      then Some(parent.children[Position(parent.children, id) - 1])
      else None
    }

    static function RightSibling(id: NodeId, parent: Node): Option<NodeId> {
      if parent.Internal? && id in parent.children && Position(parent.children, id) + 1 < |parent.children|
      then Some(parent.children[Position(parent.children, id) + 1])
      else None
    }

    /**
     Who helps a node short of keys: the left sibling gives one if it can spare one, else the right one; else
     the node goes into the left sibling, else the right one into it.
     */
    static ghost predicate Rebalanced(t: Table, t1: Table, id: NodeId, parent: Node, minKeys: nat) {
      var left, right := LeftSibling(id, parent), RightSibling(id, parent);
      && (left.Some? ==> left.value in t) && (right.Some? ==> right.value in t)
      && if left.Some? && t[left.value].Len() > minKeys then
           t1.Keys == t.Keys && t1[left.value].Len() + 1 == t[left.value].Len()
         else if right.Some? && t[right.value].Len() > minKeys then
           t1.Keys == t.Keys && t1[right.value].Len() + 1 == t[right.value].Len()
         else if left.Some? then id !in t1
         else if right.Some? then right.value !in t1
         else t1.Keys == t.Keys
    }

    /** Sets the key before `childId` in its parent to the child's first key, if there are such keys. */
    method UpdateSeparatorKey(parentId: NodeId, childId: NodeId) returns (r: Result<()>)
      requires parentId in nodes && childId in nodes && nodes[parentId].id == parentId
      modifies this`nodes
      ensures r.Ok?
      ensures var p, c := old(nodes)[parentId], old(nodes)[childId];
              if p.Internal? && childId in p.children && c.Len() > 0 && 0 < Position(p.children, childId) <= |p.keys|
              then nodes == old(nodes)[parentId := NewSeparator(p, Position(p.children, childId),
                                                                if c.Leaf? then c.entries[0].key else c.keys[0])]
              else nodes == old(nodes)
    {
      var parent :- GetNode(parentId);
      var child :- GetNode(childId);
      if parent.Internal? && childId in parent.children {
        var pos := Position(parent.children, childId);
        if 0 < pos <= |parent.keys| {
          if child.Len() == 0 {
            return Ok(());
          }
          var separator := if child.Leaf? then child.entries[0].key else child.keys[0];
          UpdateNode(parent.(keys := parent.keys[pos - 1 := separator]));
        }
      }
      r := Ok(());
    }

    method BorrowFromLeft(node: Node, leftId: NodeId, ghost i: nat) returns (r: Result<()>)
      requires Pending(node) && node.parent.Some? && Starved(node, config)
      requires Siblings(nodes[node.id := node], node.parent.value, i, leftId, node.id)
      requires leftId in nodes && leftId != node.id && nodes[leftId].Len() > config.minKeys
      modifies this
      ensures r.Ok? && Valid() && contents == old(contents)
      ensures nodes.Keys == old(nodes).Keys && nodes[leftId].Len() + 1 == old(nodes)[leftId].Len()
    {
      ghost var t := nodes[node.id := node];
      var parentId := node.parent.value;
      SiblingFacts(t, region, rootId, parentId, i, leftId, node.id);
      var left :- GetNode(leftId);
      if node.Leaf? && left.Leaf? {
        r := BorrowEntryFromLeft(node, left, parentId, i);
      } else if node.Internal? && left.Internal? {
        r := BorrowChildFromLeft(node, left, parentId, i);
      } else {
        r := Err("Node type mismatch");
      }
    }

    /** The leaf half of `BorrowFromLeft`: the last entry moves over and becomes the separator. */
    method BorrowEntryFromLeft(node: Node, left: Node, parentId: NodeId, ghost i: nat) returns (r: Result<()>)
      requires Pending(node) && node.Leaf? && left.Leaf? && Starved(node, config) && left.Len() > config.minKeys
      requires left.id in nodes && nodes[left.id] == left && left.id != node.id && parentId !in {left.id, node.id}
      requires Siblings(nodes[node.id := node], parentId, i, left.id, node.id) && nodes[parentId].id == parentId
      requires Position(nodes[parentId].children, node.id) == i
      modifies this
      ensures r.Ok? && Valid() && contents == old(contents)
      ensures nodes.Keys == old(nodes).Keys && nodes[left.id].Len() + 1 == left.Len()
    {
      ghost var t := nodes[node.id := node];
      LeafFromLeft(t, region, rootId, nextNodeId, leftmostLeaf, contents, config, parentId, i, left.id, node.id);
      var entry := Last(left.entries);
      UpdateNode(left.(entries := Front(left.entries)));
      UpdateNode(node.(entries := [entry] + node.entries));
      r := UpdateSeparatorKey(parentId, node.id);
      assert nodes == LeafRight(t, left.id, node.id)[parentId := NewSeparator(t[parentId], i, entry.key)];
      region := MoveBoundary(region, left.id, node.id, Rank(entry.key));
    }

    /** The internal half of `BorrowFromLeft`: the last child moves over. */
    method BorrowChildFromLeft(node: Node, left: Node, parentId: NodeId, ghost i: nat) returns (r: Result<()>)
      requires Pending(node) && node.Internal? && left.Internal? && Starved(node, config) && left.Len() > config.minKeys
      requires left.id in nodes && nodes[left.id] == left && left.id != node.id && parentId !in {left.id, node.id}
      requires Siblings(nodes[node.id := node], parentId, i, left.id, node.id) && nodes[parentId].id == parentId
      requires Position(nodes[parentId].children, node.id) == i
      modifies this
      ensures r.Ok? && Valid() && contents == old(contents)
      ensures nodes.Keys == old(nodes).Keys && nodes[left.id].Len() + 1 == left.Len()
    {
      ghost var t := nodes[node.id := node];
      Bystanders(t, region, rootId, parentId, i, left.id, node.id);
      InternalFromLeft(t, region, rootId, nextNodeId, leftmostLeaf, contents, config, parentId, i, left.id, node.id);
      assert Last(left.children) in t[left.id].children + t[node.id].children;
      StoredAgain(nodes, node, [Last(left.children)], node.id, left.id,
                  left.(keys := Front(left.keys), children := Front(left.children)),
                  node.(keys := [t[parentId].keys[i - 1]] + node.keys,
                        children := [Last(left.children)] + node.children));
      r := RotateRight(node, left, parentId);
      region := MoveBoundary(region, left.id, node.id, Rank(Last(left.keys)));
    }

    /** A child moves right, keys rotate through the parent. */
    method RotateRight(node: Node, left: Node, parentId: NodeId) returns (r: Result<()>)
      requires node.Internal? && left.Internal? && left.keys != [] && left.children != []
      requires parentId in nodes && nodes[parentId].Internal? && nodes[parentId].id == parentId
      requires node.id in nodes[parentId].children
      requires 0 < Position(nodes[parentId].children, node.id) <= |nodes[parentId].keys|
      requires var c := Last(left.children); c in nodes && nodes[c].id == c && c !in {parentId, node.id, left.id}
      requires parentId !in {node.id, left.id} && node.id != left.id
      modifies this`nodes
      ensures r.Ok?
      ensures var c, p := Last(left.children), old(nodes)[parentId];
              var pos := Position(p.children, node.id);
              nodes == Reparent(old(nodes), [c], node.id)
                         [left.id := left.(keys := Front(left.keys), children := Front(left.children))]
                         [node.id := node.(keys := [p.keys[pos - 1]] + node.keys, children := [c] + node.children)]
                         [parentId := NewSeparator(p, pos, Last(left.keys))]
    {
      var parent :- GetNode(parentId);
      var pos := Position(parent.children, node.id);
      var separator := parent.keys[pos - 1];
      var child := Last(left.children);
      var childNode :- GetNode(child);
      UpdateNode(childNode.SetParent(Some(node.id)));
      UpdateNode(parent.(keys := parent.keys[pos - 1 := Last(left.keys)]));
      UpdateNode(left.(keys := Front(left.keys), children := Front(left.children)));
      UpdateNode(node.(keys := [separator] + node.keys, children := [child] + node.children));
      r := Ok(());
    }

    method BorrowFromRight(node: Node, rightId: NodeId, ghost i: nat) returns (r: Result<()>)
      requires Pending(node) && node.parent.Some? && Starved(node, config)
      requires Siblings(nodes[node.id := node], node.parent.value, i, node.id, rightId)
      requires rightId in nodes && rightId != node.id && nodes[rightId].Len() > config.minKeys
      modifies this
      ensures r.Ok? && Valid() && contents == old(contents)
      ensures nodes.Keys == old(nodes).Keys && nodes[rightId].Len() + 1 == old(nodes)[rightId].Len()
    {
      ghost var t := nodes[node.id := node];
      var parentId := node.parent.value;
      SiblingFacts(t, region, rootId, parentId, i, node.id, rightId);
      var right :- GetNode(rightId);
      if node.Leaf? && right.Leaf? {
        r := BorrowEntryFromRight(node, right, parentId, i);
      } else if node.Internal? && right.Internal? {
        r := BorrowChildFromRight(node, right, parentId, i);
      } else {
        r := Err("Node type mismatch");
      }
    }

    /** The leaf half of `BorrowFromRight`: the first entry moves over, the next one becomes the separator. */
    method BorrowEntryFromRight(node: Node, right: Node, parentId: NodeId, ghost i: nat) returns (r: Result<()>)
      requires Pending(node) && node.Leaf? && right.Leaf? && Starved(node, config) && right.Len() > config.minKeys
      requires right.id in nodes && nodes[right.id] == right && right.id != node.id && parentId !in {right.id, node.id}
      requires Siblings(nodes[node.id := node], parentId, i, node.id, right.id) && nodes[parentId].id == parentId
      requires Position(nodes[parentId].children, right.id) == i
      modifies this
      ensures r.Ok? && Valid() && contents == old(contents)
      ensures nodes.Keys == old(nodes).Keys && nodes[right.id].Len() + 1 == right.Len()
    {
      ghost var t := nodes[node.id := node];
      LeafFromRight(t, region, rootId, nextNodeId, leftmostLeaf, contents, config, parentId, i, node.id, right.id);
      var entry := right.entries[0];
      UpdateNode(right.(entries := right.entries[1..]));
      UpdateNode(node.(entries := node.entries + [entry]));
      r := UpdateSeparatorKey(parentId, right.id);
      assert nodes == LeafLeft(t, node.id, right.id)[parentId := NewSeparator(t[parentId], i, right.entries[1].key)];
      region := MoveBoundary(region, node.id, right.id, Rank(right.entries[1].key));
    }

    /** The internal half of `BorrowFromRight`: the first child moves over. */
    method BorrowChildFromRight(node: Node, right: Node, parentId: NodeId, ghost i: nat) returns (r: Result<()>)
      requires Pending(node) && node.Internal? && right.Internal? && Starved(node, config)
               && right.Len() > config.minKeys
      requires right.id in nodes && nodes[right.id] == right && right.id != node.id && parentId !in {right.id, node.id}
      requires Siblings(nodes[node.id := node], parentId, i, node.id, right.id) && nodes[parentId].id == parentId
      requires Position(nodes[parentId].children, node.id) == i - 1
      modifies this
      ensures r.Ok? && Valid() && contents == old(contents)
      ensures nodes.Keys == old(nodes).Keys && nodes[right.id].Len() + 1 == right.Len()
    {
      ghost var t := nodes[node.id := node];
      Bystanders(t, region, rootId, parentId, i, node.id, right.id);
      InternalFromRight(t, region, rootId, nextNodeId, leftmostLeaf, contents, config, parentId, i, node.id, right.id);
      assert right.children[0] in t[node.id].children + t[right.id].children;
      StoredAgain(nodes, node, [right.children[0]], node.id, right.id,
                  right.(keys := right.keys[1..], children := right.children[1..]),
                  node.(keys := node.keys + [t[parentId].keys[i - 1]],
                        children := node.children + [right.children[0]]));
      r := RotateLeft(node, right, parentId);
      region := MoveBoundary(region, node.id, right.id, Rank(right.keys[0]));
    }

    /** A child moves left, keys rotate through the parent. */
    method RotateLeft(node: Node, right: Node, parentId: NodeId) returns (r: Result<()>)
      requires node.Internal? && right.Internal? && right.keys != [] && right.children != []
      requires parentId in nodes && nodes[parentId].Internal? && nodes[parentId].id == parentId
      requires node.id in nodes[parentId].children
      requires Position(nodes[parentId].children, node.id) < |nodes[parentId].keys|
      requires var c := right.children[0]; c in nodes && nodes[c].id == c && c !in {parentId, node.id, right.id}
      requires parentId !in {node.id, right.id} && node.id != right.id
      modifies this`nodes
      ensures r.Ok?
      ensures var c, p := right.children[0], old(nodes)[parentId];
              var pos := Position(p.children, node.id);
              nodes == Reparent(old(nodes), [c], node.id)
                         [right.id := right.(keys := right.keys[1..], children := right.children[1..])]
                         [node.id := node.(keys := node.keys + [p.keys[pos]], children := node.children + [c])]
                         [parentId := NewSeparator(p, pos + 1, right.keys[0])]
    {
      var parent :- GetNode(parentId);
      var pos := Position(parent.children, node.id);
      var separator := parent.keys[pos];
      var child := right.children[0];
      var childNode :- GetNode(child);
      UpdateNode(childNode.SetParent(Some(node.id)));
      UpdateNode(parent.(keys := parent.keys[pos := right.keys[0]]));
      UpdateNode(right.(keys := right.keys[1..], children := right.children[1..]));
      UpdateNode(node.(keys := node.keys + [separator], children := node.children + [child]));
      r := Ok(());
    }

    method MergeWithLeft(node: Node, leftId: NodeId, ghost i: nat, ghost h: nat) returns (r: Result<()>)
      requires Pending(node) && node.parent.Some? && Starved(node, config) && Below(node.id, h)
      requires Siblings(nodes[node.id := node], node.parent.value, i, leftId, node.id)
      requires leftId in nodes && leftId != node.id && nodes[leftId].Len() <= config.minKeys
      modifies this
      ensures r.Ok? && Valid() && contents == old(contents)
      ensures nodes.Keys <= old(nodes).Keys - {node.id}
      decreases h, 0
    {
      ghost var t := nodes[node.id := node];
      var parentId := node.parent.value;
      SiblingFacts(t, region, rootId, parentId, i, leftId, node.id);
      MergeGood(t, region, rootId, nextNodeId, leftmostLeaf, contents, config, parentId, i, leftId, node.id, node.id);
      ghost var _, _ := ParentSlot(t, region, rootId, node.id);
      var sibling :- GetNode(leftId);
      Bystanders(t, region, rootId, parentId, i, leftId, node.id);
      var _ :- Join(sibling, node, parentId, t, i);
      region := Absorb(region, leftId, node.id);
      r := RemoveFromParent(parentId, node.id, h - 1);
    }

    method MergeWithRight(node: Node, rightId: NodeId, ghost i: nat, ghost h: nat) returns (r: Result<()>)
      requires Pending(node) && node.parent.Some? && Starved(node, config) && Below(node.id, h)
      requires Siblings(nodes[node.id := node], node.parent.value, i, node.id, rightId)
      requires rightId in nodes && rightId != node.id && nodes[rightId].Len() <= config.minKeys
      modifies this
      ensures r.Ok? && Valid() && contents == old(contents)
      ensures nodes.Keys <= old(nodes).Keys - {rightId}
      decreases h, 0
    {
      ghost var t := nodes[node.id := node];
      var parentId := node.parent.value;
      SiblingFacts(t, region, rootId, parentId, i, node.id, rightId);
      MergeGood(t, region, rootId, nextNodeId, leftmostLeaf, contents, config, parentId, i, node.id, rightId, node.id);
      ghost var _, _ := ParentSlot(t, region, rootId, node.id);
      var sibling :- GetNode(rightId);
      Bystanders(t, region, rootId, parentId, i, node.id, rightId);
      var _ :- Join(node, sibling, parentId, t, i);
      region := Absorb(region, node.id, rightId);
      r := RemoveFromParent(parentId, rightId, h - 1);
    }

    /** Merges `b` into its left neighbour `a`; internal nodes pull the separator between them down. */
    method Join(a: Node, b: Node, parentId: NodeId, ghost t: Table, ghost i: nat) returns (r: Result<()>)
      requires a.id in nodes && b.id in nodes && a.id != b.id && parentId !in {a.id, b.id} && a.Leaf? == b.Leaf?
      requires t == nodes[a.id := a][b.id := b] && Siblings(t, parentId, i, a.id, b.id)
      requires Position(t[parentId].children, a.id) == i - 1
      requires a.Leaf? && b.next.Some? ==> b.next.value in t && t[b.next.value].id == b.next.value
                                           && b.next.value !in {a.id, b.id}
      requires a.Internal? ==> forall c :: c in a.children + b.children ==> c in t && t[c].id == c && c !in {a.id, b.id}
      modifies this`nodes
      ensures r.Ok? && nodes == Merged(t, parentId, i, a.id, b.id)
    {
      if a.Leaf? && b.Leaf? {
        r := JoinLeaves(a, b);
      } else if a.Internal? && b.Internal? {
        var parent :- GetNode(parentId);
        r := JoinInternals(a, parent.keys[Position(parent.children, a.id)], b);
      } else {
        r := Err("Node type mismatch");
      }
    }

    /** Appends leaf `b` to leaf `a`, takes over its successor (whose `prev` is repaired) and drops `b`. */
    method JoinLeaves(a: Node, b: Node) returns (r: Result<()>)
      requires a.Leaf? && b.Leaf? && a.id in nodes && b.id in nodes && a.id != b.id
      requires b.next.Some? ==> b.next.value in nodes && nodes[b.next.value].id == b.next.value
                                && b.next.value !in {a.id, b.id}
      modifies this`nodes
      ensures r.Ok? && nodes == MergeLeaves(old(nodes)[a.id := a][b.id := b], a.id, b.id)
    {
      if b.next.Some? {
        var nextLeaf :- GetNode(b.next.value);
        if nextLeaf.Leaf? {
          nextLeaf := nextLeaf.(prev := Some(a.id));
        }
        UpdateNode(nextLeaf);
      }
      UpdateNode(a.(entries := a.entries + b.entries, next := b.next));
      RemoveNode(b.id);
      r := Ok(());
    }

    /** Appends the separator and internal node `b` to `a`, adopts all the children and drops `b`. */
    method JoinInternals(a: Node, separator: Key, b: Node) returns (r: Result<()>)
      requires a.Internal? && b.Internal? && a.id in nodes && b.id in nodes && a.id != b.id
      requires forall c :: c in a.children + b.children ==> c in nodes && nodes[c].id == c && c !in {a.id, b.id}
      modifies this`nodes
      ensures r.Ok? && nodes == MergeInternals(old(nodes)[a.id := a][b.id := b], a.id, b.id, separator)
    {
      var merged := a.(keys := a.keys + [separator] + b.keys, children := a.children + b.children);
      var _ :- ReparentChildren(merged.children, a.id);
      UpdateNode(merged);
      RemoveNode(b.id);
      r := Ok(());
    }

    /**
     Drops a merged child from its parent; a root left with one child gives way, any other node may underflow
     in turn.
     */
    method RemoveFromParent(parentId: NodeId, childId: NodeId, ghost h: nat) returns (r: Result<()>)
      requires parentId in nodes && nodes[parentId].Internal? && nodes[parentId].id == parentId
      requires Pending(nodes[parentId].RemoveChild(childId)) && Below(parentId, h)
      requires |nodes[parentId].RemoveChild(childId).keys| + 1 == |nodes[parentId].keys|
      requires Sound(config) ==> Filled(nodes[parentId], parentId == rootId, config)
      modifies this
      ensures r.Ok? && Valid() && contents == old(contents)
      ensures nodes.Keys <= old(nodes).Keys
      decreases h, 2
    {
      var parent :- GetNode(parentId);
      parent := parent.RemoveChild(childId);
      ghost var t := nodes[parentId := parent];
      assert Linked(t, region, rootId, parentId) && Shaped(t, region, parentId);
      if parent.parent.None? && |parent.children| == 1 {
        r := CollapseRoot(parent);
        return;
      }
      if parent.Len() < config.minKeys && parent.parent.Some? {
        r := HandleUnderflow(parent, h);
      } else {
        UpdateNode(parent);
        r := Ok(());
      }
    }

    /** The only child of the root takes its place. */
    method CollapseRoot(root: Node) returns (r: Result<()>)
      requires Pending(root) && root.id == rootId && root.Internal? && |root.children| == 1
      modifies this
      ensures r.Ok? && Valid() && contents == old(contents)
      ensures nodes.Keys <= old(nodes).Keys
    {
      ghost var t := nodes[rootId := root];
      CollapseGood(t, region, rootId, nextNodeId, leftmostLeaf, contents, config);
      var newRootId := root.children[0];
      assert Linked(t, region, rootId, newRootId);
      var newRoot :- GetNode(newRootId);
      UpdateNode(newRoot.SetParent(None));
      rootId := newRootId;
      RemoveNode(root.id);
      assert nodes == CollapseTable(t, root.id, newRootId);
      r := Ok(());
    }

    // ---------- leaf access and statistics ----------

    function GetLeftmostLeaf(): (r: Result<NodeId>)
      reads this
      ensures r.Ok? ==> Some(r.value) == leftmostLeaf
      ensures Valid() ==>
                r.Ok? && r.value in nodes && nodes[r.value].Leaf? && r.value in region && region[r.value].lo == 0.0
    {
      if leftmostLeaf.Some? then Ok(leftmostLeaf.value) else Err("No leftmost leaf")
    }

    function GetLeafEntries(id: NodeId): (r: Result<seq<Entry>>)
      reads this
      ensures r.Ok? <==> id in nodes && nodes[id].Leaf?
      ensures r.Ok? ==> r.value == nodes[id].entries
      ensures Valid() && r.Ok? ==>
                && SortedEntries(r.value)
                && forall e :: e in r.value ==> e.key in contents && contents[e.key] == e.value
    {
      assert Valid() && id in nodes ==> Shaped(nodes, region, id);
      assert forall e :: e in EntriesAt(nodes, id) ==> Stored(nodes, e);
      if id !in nodes then Err("Node not found")
      else if nodes[id].Leaf? then Ok(nodes[id].entries)
      else Err("Not a leaf node")
    }

    function GetNextLeaf(id: NodeId): (r: Result<Option<NodeId>>)
      reads this
      ensures r.Ok? <==> id in nodes && nodes[id].Leaf?
      ensures r.Ok? ==> r.value == nodes[id].next
      ensures Valid() && r.Ok? ==>
                && id in region
                && match r.value
                   case None => region[id].hi == 1.0
                   case Some(n) => n in nodes && nodes[n].Leaf? && n in region && region[n].lo == region[id].hi
    {
      assert Valid() && id in nodes ==> Shaped(nodes, region, id);
      if id !in nodes then Err("Node not found")
      else if nodes[id].Leaf? then Ok(nodes[id].next)
      else Err("Not a leaf node")
    }

    method Stats() returns (s: BTreeStatistics)
      requires Valid()
      ensures s.numKeys == |contents|
      ensures s.numInternalNodes == |InternalsIn(nodes, nodes.Keys)|
      ensures s.numLeafNodes == |LeavesIn(nodes, nodes.Keys)|
      ensures rootId in region && s.height == region[rootId].ht + 1
      ensures Balanced(config) && s.height >= 2 ==> s.numKeys >= 2 * Pow(config.minKeys, s.height - 1)
    {
      var numInternal, numLeaves, totalKeys := CountNodes();
      var height := Height();
      if Balanced(config) && height >= 2 {
        HeightBound(nodes, region, rootId, contents, config);
      }
      s := BTreeStatistics(totalKeys, numInternal, numLeaves, height);
    }

    /** The loop over all stored nodes, in whatever order the table yields them. */
    method CountNodes() returns (numInternal: nat, numLeaves: nat, totalKeys: nat)
      requires Valid()
      ensures totalKeys == |contents|
      ensures numInternal == |InternalsIn(nodes, nodes.Keys)|
      ensures numLeaves == |LeavesIn(nodes, nodes.Keys)|
    {
      numInternal, numLeaves, totalKeys := 0, 0, 0;
      var todo := nodes.Keys;
      ghost var done: set<NodeId> := {};
      while todo != {}
        invariant done !! todo && done + todo == nodes.Keys
        invariant numInternal == |InternalsIn(nodes, done)| && numLeaves == |LeavesIn(nodes, done)|
        invariant totalKeys == |KeysUnder(nodes, done)|
        decreases todo
      {
        var id :| id in todo;
        AddLeaf(nodes, region, rootId, done, id);
        AddNode(nodes, done, id);
        if nodes[id].Internal? {
          numInternal := numInternal + 1;
        } else {
          numLeaves := numLeaves + 1;
          totalKeys := totalKeys + |nodes[id].entries|;
        }
        todo := todo - {id};
        done := done + {id};
      }
      AllKeys(nodes, contents);
      assert done == nodes.Keys;
    }

    /** Descends towards the empty key, counting levels. */
    method Height() returns (height: nat)
      requires Valid()
      ensures rootId in region && height == region[rootId].ht + 1
    {
      height := 1;
      var node := nodes[rootId];
      ghost var id := rootId;
      assert Linked(nodes, region, rootId, rootId);
      while node.Internal?
        invariant id in nodes && id in region && nodes[id] == node
        invariant region[id].lo <= Rank([]) < region[id].hi
        invariant height + region[id].ht == region[rootId].ht + 1
        decreases region[id].ht
      {
        ChildForKey(nodes, region, rootId, id, []);
        var child := node.GetChildForKey([]);
        if child.None? || child.value !in nodes { break; }
        node := nodes[child.value];
        id := child.value;
        height := height + 1;
      }
      assert Shaped(nodes, region, id);
    }
  }
}
