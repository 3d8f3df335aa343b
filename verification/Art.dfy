/** The adaptive radix tree (nanograph-art/src/tree.rs). */
module Art {
  import opened Wrappers
  import opened Bytes
  import opened ArtNode
  import opened ArtLayout
  import opened ArtModel
  import opened ArtInsert
  import opened ArtReads
  import opened ArtIter
  import opened ArtScan

  /** The key is that of a leaf right below a Node48. */
  ghost predicate AtNode48(node: Node, path: Key, key: Key)
    requires WellFormed(node, path)
  {
    && node.Node48? && Stem(node, path) <= key && Stem(node, path) != key
    && var child := Child(node, key[|Stem(node, path)|]); child.Some? && child.value.Leaf? && child.value.key == key
  }

  method RemoveRecursive(node: Node, key: Key, depth: nat, ghost path: Key)
      returns (r: Result<(Option<Node>, Option<Value>)>)
    requires WellFormed(node, path) && path <= key && key != [] && depth == |path|
    ensures r.Ok? && (r.value.0.Some? ==> WellFormed(r.value.0.value, path))
    ensures Edited(node, path, r.value.0, key, None)
    ensures r.value.1 == Lookup(node, path, key)
    ensures node.Leaf? && node.key == key ==> r.value.0.None?
    ensures AtNode48(node, path, key) ==>
              r.value.0.Some? && Left48(node, key[|Stem(node, path)|], r.value.0.value)
    decreases node, 1
  {
    var partial := node.Partial();
    var mismatch := CheckPrefix(partial, key, depth);
    StemMatches(node, path, key, mismatch);
    if mismatch < |partial| {
      Absent(node, path, key);
      return Ok((Some(node), None));
    }
    var newDepth := depth + |partial|;
    if node.Leaf? {
      if node.key == key {
        return Ok((None, Some(node.leafValue)));
      }
      return Ok((Some(node), None));
    }
    if newDepth >= |key| {
      assert Stem(node, path) == key;
      var oldValue := node.header.value;
      if oldValue.Some? {
        ValueEdits(node, path, key, None);
        return Ok((Some(WithValue(node, None)), oldValue));
      }
      Absent(node, path, key);
      return Ok((Some(node), None));
    }
    NextByte(node, path, key);
    r := RemoveBelow(node, key, newDepth, path);
  }

  /** The key goes on below an inner node: in the child for its next byte, if there is one. */
  method RemoveBelow(node: Node, key: Key, depth: nat, ghost path: Key)
      returns (r: Result<(Option<Node>, Option<Value>)>)
    requires WellFormed(node, path) && !node.Leaf? && depth == |Stem(node, path)| < |key|
    requires Stem(node, path) + [key[depth]] <= key
    ensures r.Ok? && (r.value.0.Some? ==> WellFormed(r.value.0.value, path))
    ensures Edited(node, path, r.value.0, key, None)
    ensures r.value.1 == Lookup(node, path, key)
    ensures AtNode48(node, path, key) ==> r.value.0.Some? && Left48(node, key[depth], r.value.0.value)
    decreases node, 0
  {
    var b := key[depth];
    var child := FindChild(node, b);
    if child.None? {
      Absent(node, path, key);
      return Ok((Some(node), None));
    }
    var below := RemoveRecursive(child.value, key, depth + 1, Stem(node, path) + [b]);
    var newChild, value := below.value.0, below.value.1;
    if newChild.Some? {
      var n := ReplaceChild(node, b, newChild.value);
      UpdatedFormed(node, path, n, b, newChild);
      UpdatedEdits(node, path, n, b, newChild, key, None);
      r := Ok((Some(n), value));
    } else {
      var rest, left := RemoveChild(node, b);
      UpdatedFormed(node, path, left, b, None);
      UpdatedEdits(node, path, left, b, None, key, None);
      StandsIn(left, path, rest.value);
      r := Ok((rest.value, value));
    }
  }

  /** A node that does not store the key is its own result. */
  lemma Absent(node: Node, path: Key, key: Key)
    requires WellFormed(node, path) && !node.Leaf?
    requires !(Stem(node, path) <= key)
             || (Stem(node, path) == key && node.header.value.None?)
             || (Stem(node, path) < key && Child(node, key[|Stem(node, path)|]).None?)
    ensures Edited(node, path, Some(node), key, None)
  {
    forall v ensures !Holds(node, path, key, v) {
      Decide(node, path, key, v);
    }
  }

  /** The loop of `get`: down from the root, one stem and one byte at a time. */
  method Search(root: Node, key: Key) returns (r: Option<Value>)
    requires Navigable(root)
    ensures r == Fetch(root, [], key)
  {
    var node: Node, depth: nat := root, 0;
    while true
      invariant depth <= |key| && Navigable(node)
      invariant Fetch(node, key[..depth], key) == Fetch(root, [], key)
      decreases node
    {
      var next := Turn(node, key, depth);
      if next.Answered? {
        return next.value;
      }
      node, depth := next.node, next.depth;
    }
  }

  datatype Turned = Answered(value: Option<Value>) | Descend(node: Node, depth: nat)

  /** One turn of the loop: an answer, or the child to go on with and the depth it hangs at. */
  method Turn(node: Node, key: Key, depth: nat) returns (r: Turned)
    requires depth <= |key| && Navigable(node)
    ensures r.Answered? ==> r.value == Fetch(node, key[..depth], key)
    ensures r.Descend? ==> && r.node < node && r.depth <= |key| && Navigable(r.node)
                           && Fetch(r.node, key[..r.depth], key) == Fetch(node, key[..depth], key)
  {
    var partial := node.Partial();
    ghost var path := key[..depth];
    StemOnPath(node, path, key);
    if depth + |partial| > |key| || key[depth..depth + |partial|] != partial {
      return Answered(None);
    }
    var newDepth := depth + |partial|;
    if node.Leaf? {
      return Answered(if node.key == key then Some(node.leafValue) else None);
    }
    if newDepth >= |key| {
      return Answered(node.header.value);
    }
    var b := key[newDepth];
    var child := FindChild(node, b);
    if child.None? {
      return Answered(None);
    }
    assert key[..newDepth + 1] == Stem(node, path) + [b];
    r := Descend(child.value, newDepth + 1);
  }

  /** Runs an iterator to its end. */
  method Collect(it: ArtIterator) returns (items: seq<Item>)
    requires it.Valid()
    modifies it
    ensures it.Valid() && items == Remaining(old(it.visits))
  {
    items := [];
    while true
      invariant it.Valid() && Remaining(old(it.visits)) == items + Remaining(it.visits)
      decreases |Remaining(it.visits)|
    {
      ghost var rest := Remaining(it.visits);
      var next := it.Next();
      if next.None? {
        break;
      }
      Concat3(items, [next.value], Remaining(it.visits));
      items := items + [next.value];
    }
  }

  class AdaptiveRadixTree {
    var root: Option<Node>
    var size: nat
    ghost var contents: map<Key, Value>

    ghost predicate Valid()
      reads this
    {
      Represents(root, contents) && size == |contents|
    }

    /** No removals so far, and keys only in order: rows sorted, index tables packed, no inner node without a child. */
    ghost predicate OnlyGrown()
      reads this
    {
      root.Some? ==> Grown(root.value)
    }

    /** No removals so far: something is stored in every subtree. */
    ghost predicate OnlyInserted()
      reads this
    {
      root.Some? ==> Stocked(root.value, [])
    }

    constructor ()
      ensures Valid() && contents == map[] && root == None && OnlyGrown() && OnlyInserted()
    {
      root, size, contents := None, 0, map[];
    }

    method Len() returns (n: nat)
      requires Valid()
      ensures n == |contents|
    {
      n := size;
    }

    method Clear()
      modifies this
      ensures Valid() && contents == map[] && root == None && OnlyGrown() && OnlyInserted()
    {
      root, size, contents := None, 0, map[];
    }

    /** Every node has arrays of the right length: enough for reading, and kept even by unsafe insertions. */
    ghost predicate Readable()
      reads this
    {
      root.Some? ==> Navigable(root.value)
    }

    method Get(key: Key) returns (r: Option<Value>)
      requires Readable()
      ensures r == Answer(root, key)
      ensures Valid() ==> r == Bound(contents, key)
    {
      if Valid() {
        RepresentedAnswers(root, contents);
      }
      if key == [] || root.None? {
        return None;
      }
      r := Search(root.value, key);
    }

    method ContainsKey(key: Key) returns (r: bool)
      requires Readable()
      ensures r <==> Answer(root, key).Some?
      ensures Valid() ==> (r <==> key in contents)
    {
      var v := Get(key);
      r := v.Some?;
    }

    /**
     Keeps the tree in order exactly if the insertion is safe, in particular always while keys only arrive
     in order. A key that ends inside a partial key is a panic with the root taken out. Every later read is
     right exactly if the insertion neither panics nor hides a stored key; while nothing has been removed that
     is exactly if it is safe.
     */
    method Insert(key: Key, value: Value) returns (r: Result<Option<Value>>)
      requires Valid()
      modifies this
      ensures key == [] ==> r.Err? && Valid() && contents == old(contents) && root == old(root)
      ensures key != [] ==> contents == old(contents)[key := value] && Readable()
      ensures key != [] ==> r == OldValue(After(old(root), key, value)) && root == NewRoot(After(old(root), key, value))
      ensures key != [] ==> (Valid() <==> SafeFor(old(root), key))
      ensures key != [] ==> (r.Ok? && AnswersAs(root, contents) <==> ReadsFor(old(root), key))
      ensures r.Ok? ==> r.value == Bound(old(contents), key) && size == |contents|
      ensures old(OnlyInserted()) && key != [] ==> (r.Ok? && AnswersAs(root, contents) <==> SafeFor(old(root), key))
      ensures old(OnlyInserted()) && (key == [] || SafeFor(old(root), key)) ==> OnlyInserted()
      ensures old(OnlyGrown()) && key != []
              && (key in old(contents) || forall k :: k in old(contents) ==> Less(k, key)) ==>
                Valid() && OnlyGrown()
    {
      if key == [] {
        return Err("Key cannot be empty");
      }
      if root.None? {
        NothingStored(contents);
        FirstLeaf(key, value);
        LeafStocked(Leaf(key, value), []);
        root, size, contents := Some(Leaf(key, value)), size + 1, map[key := value];
        RepresentedAnswers(root, contents);
        return Ok(None);
      }
      var taken := root.value;
      ghost var was := contents;
      root := None;
      InsertedAnswers(taken, was, key, value);
      ArrivesInOrder(taken, was, key);
      var inserted := InsertRecursive(taken, key, 0, value, []);
      contents := contents[key := value];
      if inserted.Err? {
        if Represents(None, contents) {
          NothingStored(contents);
        }
        return Err(inserted.error);
      }
      root := Some(inserted.value.0);
      if inserted.value.1.None? {
        size := size + 1;
      }
      r := Ok(inserted.value.1);
    }

    /** An iterator over the tree as it is now. */
    method Iter() returns (it: ArtIterator, ghost t: Tree)
      requires Valid()
      ensures fresh(it) && it.Valid()
      ensures if root.Some? then Mirrors(root.value, t) && Remaining(it.visits) == Leaves(t)
              else Remaining(it.visits) == []
    {
      t := Fork([]);
      if root.Some? {
        t := MirrorExists(root.value, []);
      }
      it := new ArtIterator(root, t);
    }

    /** All that an iteration yields. */
    method Items() returns (items: seq<Item>)
      requires Valid()
      ensures forall item :: item in items ==> item.0 in contents && contents[item.0] == item.1
      ensures DistinctKeys(items) && (root.Some? && SortedRows(root.value) ==> AscendingKeys(items))
      ensures (forall k :: k in contents ==> (k, contents[k]) in items) <==> (root.Some? ==> NoInnerValues(root.value))
      ensures forall k, v :: (k, v) in items <==> root.Some? && InLeaf(root.value, k, v)
      ensures if root.Some? then InTreeOrder(root.value, [], items) else items == []
      ensures root.Some? ==> (AscendingKeys(items) <==> LinedUpAll(root.value))
      ensures OnlyGrown() ==> AscendingKeys(items)
    {
      var it, t := Iter();
      items := Collect(it);
      if root.Some? {
        IterationIsContents(root.value, contents, t);
        YieldedInTreeOrder(root.value, [], t);
        AscendingIff(root.value, [], t);
        forall k, v ensures (k, v) in items <==> InLeaf(root.value, k, v) {
          YieldedIsLeaf(root.value, t, k, v);
        }
        if OnlyGrown() {
          GrownIsSorted(root.value, []);
        }
      } else {
        NothingStored(contents);
      }
    }

    method Remove(key: Key) returns (r: Result<Option<Value>>)
      requires Valid()
      modifies this
      ensures Valid() && (r.Err? <==> key == [])
      ensures r.Err? ==> contents == old(contents)
      ensures r.Ok? ==> contents == old(contents) - {key}
                        && r.value == if key in old(contents) then Some(old(contents)[key]) else None
      ensures old(root).Some? && AtNode48(old(root).value, [], key) ==>
                root.Some? && Left48(old(root).value, key[|Stem(old(root).value, [])|], root.value)
    {
      if key == [] {
        return Err("Key cannot be empty");
      }
      if root.None? {
        NothingStored(contents);
        assert contents == map[];
        return Ok(None);
      }
      var taken := root.value;
      RepresentedRead(taken, contents, key);
      var below := RemoveRecursive(taken, key, 0, []);
      RepresentsEdited(taken, contents, below.value.0, key, None);
      root := below.value.0;
      contents := contents - {key};
      assert contents.Keys == old(contents).Keys - {key};
      if below.value.1.Some? {
        size := size - 1;
      }
      r := Ok(below.value.1);
    }
  }

  ghost predicate SafeFor(root: Option<Node>, key: Key)
    requires root.Some? ==> WellFormed(root.value, [])
  {
    root.None? || InsertSafe(root.value, [], key)
  }

  ghost predicate ReadsFor(root: Option<Node>, key: Key)
    requires root.Some? ==> WellFormed(root.value, [])
  {
    root.None? || InsertReads(root.value, [], key)
  }

  ghost function After(root: Option<Node>, key: Key, value: Value): Result<(Node, Option<Value>)>
    requires key != [] && (root.Some? ==> WellFormed(root.value, []))
  {
    if root.None? then Ok((Leaf(key, value), None)) else Inserted(root.value, [], key, value)
  }

  function OldValue(after: Result<(Node, Option<Value>)>): Result<Option<Value>> {
    if after.Err? then Err(after.error) else Ok(after.value.1)
  }

  function NewRoot(after: Result<(Node, Option<Value>)>): Option<Node> {
    if after.Err? then None else Some(after.value.0)
  }

  /** What an insertion does to the tree and to every later read, in terms of the map. */
  lemma InsertedAnswers(root: Node, contents: map<Key, Value>, key: Key, value: Value)
    requires Represents(Some(root), contents) && key != []
    ensures var r, after := Inserted(root, [], key, value), contents[key := value];
            && (r.Ok? ==> Navigable(r.value.0) && r.value.1 == Bound(contents, key))
            && (r.Ok? && Represents(Some(r.value.0), after) <==> InsertSafe(root, [], key))
            && (r.Ok? && AnswersAs(Some(r.value.0), after) <==> InsertReads(root, [], key))
            && (Grown(root) && InOrder(root, [], key) ==> InsertSafe(root, [], key) && r.Ok? && Grown(r.value.0))
            && (Stocked(root, []) ==> (InsertReads(root, [], key) <==> InsertSafe(root, [], key)))
            && (Stocked(root, []) && InsertSafe(root, [], key) ==> r.Ok? && Stocked(r.value.0, []))
  {
    var r, after := Inserted(root, [], key, value), contents[key := value];
    InsertedReads(root, [], key, value);
    RepresentedRead(root, contents, key);
    InsertedIs(root, [], key, value);
    SafeReads(root, [], key);
    if Stocked(root, []) && InsertSafe(root, [], key) {
      InsertedStocked(root, [], key, value);
    }
    if r.Ok? {
      UpdatedAnswers(root, contents, r.value.0, key, value);
      if InsertSafe(root, [], key) {
        RepresentsEdited(root, contents, Some(r.value.0), key, Some(value));
      }
    }
  }

  lemma FirstLeaf(key: Key, value: Value)
    requires key != []
    ensures Represents(Some(Leaf(key, value)), map[key := value])
  {
  }

  lemma ArrivesInOrder(root: Node, contents: map<Key, Value>, key: Key)
    requires Represents(Some(root), contents)
    ensures key in contents || (forall k :: k in contents ==> Less(k, key)) ==> InOrder(root, [], key)
  {
    RepresentedRead(root, contents, key);
    if key !in contents && forall k :: k in contents ==> Less(k, key) {
      forall k, v | Holds(root, [], k, v) ensures Less(k, key) {
        assert Stores(Some(root), [], k, v);
      }
    }
  }

  lemma NothingStored(contents: map<Key, Value>)
    requires Represents(None, contents)
    ensures contents == map[]
  {
    assert forall k :: k in contents ==> Stores(None, [], k, contents[k]);
  }
}
