/** What an adaptive radix tree stores, and how one changed child changes it. */
module ArtModel {
  import opened Wrappers
  import opened Bytes
  import opened ArtNode
  import opened ArtLayout

  /** The path at which the children of an inner node branch off. */
  function Stem(node: Node, path: Key): Key {
    path + node.Partial()
  }

  ghost predicate WellFormed(node: Node, path: Key) {
    if node.Leaf? then path <= node.key && node.key != []
    else
      && Fit(node) && (node.header.value.Some? ==> Stem(node, path) != [])
      && forall b: byte :: Child(node, b).Some? ==> WellFormed(Child(node, b).value, Stem(node, path) + [b])
  }

  /** Some leaf stores `k` with `v`, or `v` is the value of an inner node at the end of the path `k`. */
  ghost predicate Holds(node: Node, path: Key, k: Key, v: Value)
    decreases node, 1
  {
    if node.Leaf? then node.key == k && node.leafValue == v
    else
      && Sized(node)
      && ((node.header.value == Some(v) && Stem(node, path) == k) || exists b: byte :: HoldsVia(node, path, b, k, v))
  }

  ghost predicate HoldsVia(node: Node, path: Key, b: byte, k: Key, v: Value)
    requires Sized(node)
    decreases node, 0
  {
    Child(node, b).Some? && Holds(Child(node, b).value, Stem(node, path) + [b], k, v)
  }

  ghost predicate Stores(r: Option<Node>, path: Key, k: Key, v: Value) {
    r.Some? && Holds(r.value, path, k, v)
  }

  /** `r`, in the place of `node`, stores `val` under `key` and what `node` stored under every other key. */
  ghost predicate Edited(node: Node, path: Key, r: Option<Node>, key: Key, val: Option<Value>) {
    forall k, v {:trigger Stores(r, path, k, v)} ::
      Stores(r, path, k, v) <==> if k == key then val == Some(v) else Holds(node, path, k, v)
  }

  // ---------- the path of a stored key ----------

  lemma {:induction false} HeldExtends(node: Node, path: Key, k: Key, v: Value)
    requires WellFormed(node, path) && Holds(node, path, k, v)
    ensures Stem(node, path) <= k && k != []
  {
    if !node.Leaf? && !(node.header.value == Some(v) && Stem(node, path) == k) {
      var b: byte :| HoldsVia(node, path, b, k, v);
      HeldExtends(Child(node, b).value, Stem(node, path) + [b], k, v);
    }
  }

  /** The first position from `i` on at which `p` ends or differs from the key read from `depth`. */
  function Matching(p: Key, key: Key, depth: nat, i: nat): (n: nat)
    requires i <= |p| && depth + i <= |key|
    ensures i <= n <= |p| && depth + n <= |key|
    ensures forall j :: i <= j < n ==> p[j] == key[depth + j]
    ensures n < |p| && depth + n < |key| ==> p[n] != key[depth + n]
    decreases |p| - i
  {
    if i < |p| && depth + i < |key| && p[i] == key[depth + i] then Matching(p, key, depth, i + 1) else i
  }

  /** How many bytes of the partial key match the key from `depth` on. */
  method CheckPrefix(partial: Key, key: Key, depth: nat) returns (n: nat)
    requires depth <= |key|
    ensures n == Matching(partial, key, depth, 0)
    ensures n <= |partial| && depth + n <= |key| && partial[..n] == key[depth..depth + n]
    ensures n < |partial| ==> depth + n == |key| || partial[n] != key[depth + n]
  {
    var maxCmp := if |partial| < |key| - depth then |partial| else |key| - depth;
    for i := 0 to maxCmp
      invariant Matching(partial, key, depth, i) == Matching(partial, key, depth, 0)
    {
      if partial[i] != key[depth + i] {
        return i;
      }
    }
    n := maxCmp;
  }

  /** The partial key matches all the way exactly if the stem of the node is a prefix of the key. */
  lemma StemMatches(node: Node, path: Key, key: Key, n: nat)
    requires path <= key && n <= |node.Partial()| && |path| + n <= |key|
    requires node.Partial()[..n] == key[|path|..|path| + n]
    requires n < |node.Partial()| ==> |path| + n == |key| || node.Partial()[n] != key[|path| + n]
    ensures n == |node.Partial()| <==> Stem(node, path) <= key
  {
  }

  /** Comparing the slice of the key with the partial key decides whether the stem is a prefix of the key. */
  lemma StemOnPath(node: Node, path: Key, key: Key)
    requires path <= key
    ensures Stem(node, path) <= key <==>
            |Stem(node, path)| <= |key| && key[|path|..|Stem(node, path)|] == node.Partial()
  {
  }

  /** Only the child under the next byte of the key can hold it. */
  lemma RoutesTo(node: Node, path: Key, b: byte, k: Key, v: Value)
    requires WellFormed(node, path) && !node.Leaf? && HoldsVia(node, path, b, k, v)
    ensures |Stem(node, path)| < |k| && Stem(node, path) <= k && k[|Stem(node, path)|] == b
  {
    HeldExtends(Child(node, b).value, Stem(node, path) + [b], k, v);
  }

  /** Where `get` decides: the stem does not match, the key ends here, or one child is left to ask. */
  lemma Decide(node: Node, path: Key, key: Key, v: Value)
    requires WellFormed(node, path) && !node.Leaf?
    ensures var stem := Stem(node, path);
            Holds(node, path, key, v) <==>
            if !(stem <= key) then false
            else if stem == key then node.header.value == Some(v)
            else HoldsVia(node, path, key[|stem|], key, v)
  {
    if Holds(node, path, key, v) {
      HeldExtends(node, path, key, v);
      if b: byte :| HoldsVia(node, path, b, key, v) {
        RoutesTo(node, path, b, key, v);
      }
    }
  }

  /** `get` as a recursion: match the stem, stop where the key ends, else go on in the child for the next byte. */
  ghost function Lookup(node: Node, path: Key, key: Key): Option<Value>
    requires WellFormed(node, path)
  {
    var stem := Stem(node, path);
    if node.Leaf? then if node.key == key then Some(node.leafValue) else None
    else if !(stem <= key) then None
    else if stem == key then node.header.value
    else
      var b := key[|stem|];
      if Child(node, b).None? then None else Lookup(Child(node, b).value, stem + [b], key)
  }

  /** Following the key finds what is stored anywhere in the tree. */
  lemma {:induction false} LookupHolds(node: Node, path: Key, key: Key, v: Value)
    requires WellFormed(node, path)
    ensures Lookup(node, path, key) == Some(v) <==> Holds(node, path, key, v)
  {
    if !node.Leaf? {
      Decide(node, path, key, v);
      var stem := Stem(node, path);
      if stem <= key && stem != key && Child(node, key[|stem|]).Some? {
        LookupHolds(Child(node, key[|stem|]).value, stem + [key[|stem|]], key, v);
      }
    }
  }

  // ---------- reading any tree ----------

  /** Every node that a search can reach has arrays of the right length. */
  ghost predicate Navigable(node: Node) {
    Sized(node) && forall b: byte :: Found(node, b).Some? ==> Navigable(Found(node, b).value)
  }

  /** What `get` answers on any tree, rows in order or not. */
  ghost function Fetch(node: Node, path: Key, key: Key): Option<Value>
    requires Navigable(node)
  {
    var stem := Stem(node, path);
    if node.Leaf? then if node.key == key then Some(node.leafValue) else None
    else if !(stem <= key) then None
    else if stem == key then node.header.value
    else
      var b := key[|stem|];
      if Found(node, b).None? then None else Fetch(Found(node, b).value, stem + [b], key)
  }

  lemma {:induction false} FormedNavigable(node: Node, path: Key)
    requires WellFormed(node, path)
    ensures Navigable(node)
  {
    forall b: byte | Found(node, b).Some? ensures Navigable(Found(node, b).value) {
      FoundIsChild(node, b);
      FormedNavigable(Child(node, b).value, Stem(node, path) + [b]);
    }
  }

  /** In a well-formed tree `get` answers what is stored. */
  lemma {:induction false} FetchIsLookup(node: Node, path: Key, key: Key)
    requires WellFormed(node, path)
    ensures Navigable(node) && Fetch(node, path, key) == Lookup(node, path, key)
  {
    FormedNavigable(node, path);
    var stem := Stem(node, path);
    if !node.Leaf? && stem <= key && stem != key {
      var b := key[|stem|];
      FoundIsChild(node, b);
      if Child(node, b).Some? {
        FetchIsLookup(Child(node, b).value, stem + [b], key);
      }
    }
  }

  // ---------- one child changed ----------

  /** Well-formedness depends on the children of the updated node alone. */
  lemma UpdatedFormed(node: Node, path: Key, r: Node, b: byte, c: Option<Node>)
    requires WellFormed(node, path) && !node.Leaf? && Updated(node, r, b, c)
    ensures WellFormed(r, path) <==> (c.Some? ==> WellFormed(c.value, Stem(node, path) + [b]))
  {
  }

  lemma UpdatedEdits(node: Node, path: Key, r: Node, b: byte, c: Option<Node>, key: Key, val: Option<Value>)
    requires WellFormed(node, path) && !node.Leaf? && Updated(node, r, b, c) && Child(node, b).Some?
    requires Stem(node, path) + [b] <= key && Edited(Child(node, b).value, Stem(node, path) + [b], c, key, val)
    ensures Edited(node, path, Some(r), key, val)
  {
    forall k, v
      ensures Stores(Some(r), path, k, v) <==> if k == key then val == Some(v) else Holds(node, path, k, v)
    {
      EditedHere(node, path, r, b, c, key, val, k, v);
    }
  }

  lemma EditedAt(node: Node, path: Key, r: Option<Node>, key: Key, val: Option<Value>, k: Key, v: Value)
    requires Edited(node, path, r, key, val)
    ensures Stores(r, path, k, v) <==> if k == key then val == Some(v) else Holds(node, path, k, v)
  {
  }

  /** The other children hold what they held. */
  lemma ViaOthers(node: Node, path: Key, r: Node, b: byte, c: Option<Node>, x: byte, k: Key, v: Value)
    requires Sized(node) && !node.Leaf? && Updated(node, r, b, c)
    ensures Stem(r, path) == Stem(node, path)
    ensures x != b ==> (HoldsVia(r, path, x, k, v) <==> HoldsVia(node, path, x, k, v))
    ensures x == b ==> (HoldsVia(r, path, x, k, v) <==> Stores(c, Stem(node, path) + [b], k, v))
  {
  }

  lemma EditedHere(node: Node, path: Key, r: Node, b: byte, c: Option<Node>, key: Key, val: Option<Value>, k: Key,
                   v: Value)
    requires WellFormed(node, path) && !node.Leaf? && Updated(node, r, b, c) && Child(node, b).Some?
    requires Stem(node, path) + [b] <= key && Edited(Child(node, b).value, Stem(node, path) + [b], c, key, val)
    ensures Holds(r, path, k, v) <==> if k == key then val == Some(v) else Holds(node, path, k, v)
  {
    var stem := Stem(node, path);
    EditedAt(Child(node, b).value, stem + [b], c, key, val, k, v);
    forall x: byte
      ensures HoldsVia(r, path, x, k, v)
              <==> if x == b && k == key then val == Some(v) else HoldsVia(node, path, x, k, v)
    {
      ViaOthers(node, path, r, b, c, x, k, v);
    }
    ViaOthers(node, path, r, b, c, b, k, v);
    if k == key {
      assert stem != key && key[|stem|] == b;
      forall x: byte | x != b ensures !HoldsVia(node, path, x, k, v) {
        if HoldsVia(node, path, x, k, v) {
          RoutesTo(node, path, x, k, v);
        }
      }
    }
  }

  // ---------- path compression ----------

  lemma RepartialFit(node: Node, p: Key)
    requires Fit(node) && !node.Leaf?
    ensures var r := UpdatePartial(node, p);
            && Fit(r) && !r.Leaf? && r.header == node.header.(partial := p) && ChildBytes(r) == ChildBytes(node)
            && forall x: byte :: Child(r, x) == Child(node, x)
  {
    assert ChildBytes(UpdatePartial(node, p)) == ChildBytes(node);
  }

  /** Moving bytes between the path and the partial key changes nothing that is stored. */
  lemma Repartial(node: Node, path: Key, path2: Key, p: Key)
    requires WellFormed(node, path)
    requires if node.Leaf? then path2 <= path else path2 + p == Stem(node, path)
    ensures var r := UpdatePartial(node, p);
            WellFormed(r, path2) && forall k, v :: Holds(r, path2, k, v) <==> Holds(node, path, k, v)
  {
    if !node.Leaf? {
      RepartialFit(node, p);
      var r := UpdatePartial(node, p);
      assert Stem(r, path2) == Stem(node, path);
      forall k, v ensures Holds(r, path2, k, v) <==> Holds(node, path, k, v) {
        forall x: byte ensures HoldsVia(r, path2, x, k, v) <==> HoldsVia(node, path, x, k, v) {
        }
      }
    }
  }

  /** A Node4 with one child and no value holds what that child holds. */
  lemma OnlyChild(node: Node, path: Key, k: Key, v: Value)
    requires WellFormed(node, path) && node.Node4? && node.header.numChildren == 1 && node.header.value.None?
    ensures Child(node, node.keys[0]) == node.children[0] && node.children[0].Some?
    ensures Holds(node, path, k, v) <==> Holds(node.children[0].value, Stem(node, path) + [node.keys[0]], k, v)
  {
    var b := node.keys[0];
    IndexUnique(node.keys, 1, 0);
    assert HoldsVia(node, path, b, k, v) <==> Holds(node.children[0].value, Stem(node, path) + [b], k, v);
    forall x: byte | HoldsVia(node, path, x, k, v) ensures x == b {
      var i := IndexOf(node.keys, 0, 1, x);
    }
  }

  lemma CompressKeeps(node: Node, path: Key)
    requires WellFormed(node, path)
    ensures WellFormed(CompressNode(node), path)
    ensures forall k, v :: Holds(CompressNode(node), path, k, v) <==> Holds(node, path, k, v)
  {
    if node.Node4? && node.header.numChildren == 1 && node.header.value.None? {
      OnlyChild(node, path, [], []);
      var child, b := node.children[0].value, node.keys[0];
      var p := node.header.partial + [b] + child.Partial();
      assert path + p == Stem(child, Stem(node, path) + [b]);
      Repartial(child, Stem(node, path) + [b], path, p);
      forall k, v ensures Holds(UpdatePartial(child, p), path, k, v) <==> Holds(node, path, k, v) {
        OnlyChild(node, path, k, v);
      }
    }
  }

  /** Compression leaves the only child itself, with its stem where it was. */
  lemma CompressedIsChild(node: Node, path: Key)
    requires WellFormed(node, path) && node.Node4? && node.header.numChildren == 1 && node.header.value.None?
    ensures node.children[0].Some?
    ensures var child, r := node.children[0].value, CompressNode(node);
            if child.Leaf? then r == child
            else && !r.Leaf? && Sized(r) && r.header.value == child.header.value
                 && Stem(r, path) == Stem(child, Stem(node, path) + [node.keys[0]])
                 && forall x: byte :: Child(r, x) == Child(child, x)
  {
    OnlyChild(node, path, [], []);
    var child, b := node.children[0].value, node.keys[0];
    if !child.Leaf? {
      RepartialFit(child, node.header.partial + [b] + child.Partial());
    }
  }

  /** What replaces a node that has lost a child is well formed and stores the same. */
  lemma StandsIn(node: Node, path: Key, r: Option<Node>)
    requires WellFormed(node, path) && StandsFor(node, r)
    ensures r.Some? ==> WellFormed(r.value, path)
    ensures forall k, v {:trigger Stores(r, path, k, v)} :: Stores(r, path, k, v) <==> Stores(Some(node), path, k, v)
  {
    if r.Some? {
      CompressKeeps(node, path);
    } else {
      CountIsExact(node);
      assert forall b: byte :: Child(node, b).Some? ==> b in ChildBytes(node);
      assert forall b: byte, k, v :: !HoldsVia(node, path, b, k, v);
      assert forall k, v :: !Holds(node, path, k, v);
    }
  }

  // ---------- the value of an inner node ----------

  function WithValue(node: Node, val: Option<Value>): Node {
    match node
    case Leaf(_, _) => node
    case Node4(h, ks, cs) => Node4(h.(value := val), ks, cs)
    case Node16(h, ks, cs) => Node16(h.(value := val), ks, cs)
    case Node48(h, ix, cs) => Node48(h.(value := val), ix, cs)
    case Node256(h, cs) => Node256(h.(value := val), cs)
  }

  lemma WithValueFit(node: Node, val: Option<Value>)
    requires Fit(node) && !node.Leaf?
    ensures var r := WithValue(node, val);
            && Fit(r) && !r.Leaf? && r.header == node.header.(value := val)
            && (Orderly(node) ==> Orderly(r)) && forall x: byte :: Child(r, x) == Child(node, x)
  {
    assert ChildBytes(WithValue(node, val)) == ChildBytes(node);
  }

  lemma ValueEdits(node: Node, path: Key, key: Key, val: Option<Value>)
    requires WellFormed(node, path) && !node.Leaf? && Stem(node, path) == key && key != []
    ensures WellFormed(WithValue(node, val), path) && Edited(node, path, Some(WithValue(node, val)), key, val)
  {
    WithValueFit(node, val);
    var r := WithValue(node, val);
    assert Stem(r, path) == key;
    forall k, v
      ensures Stores(Some(r), path, k, v) <==> if k == key then val == Some(v) else Holds(node, path, k, v)
    {
      Decide(r, path, key, v);
      assert forall x: byte :: HoldsVia(r, path, x, k, v) <==> HoldsVia(node, path, x, k, v);
      assert k != key ==> (Holds(r, path, k, v) <==> exists x: byte :: HoldsVia(r, path, x, k, v));
    }
  }

  // ---------- whole trees ----------

  ghost predicate Represents(root: Option<Node>, contents: map<Key, Value>) {
    && (root.Some? ==> WellFormed(root.value, []))
    && forall k, v {:trigger Stores(root, [], k, v)} :: Stores(root, [], k, v) <==> k in contents && contents[k] == v
  }

  lemma RepresentedRead(root: Node, contents: map<Key, Value>, key: Key)
    requires Represents(Some(root), contents)
    ensures Lookup(root, [], key) == if key in contents then Some(contents[key]) else None
    ensures [] !in contents
  {
    forall v ensures Lookup(root, [], key) == Some(v) <==> key in contents && contents[key] == v {
      LookupHolds(root, [], key, v);
      assert Stores(Some(root), [], key, v) <==> Holds(root, [], key, v);
    }
    if [] in contents {
      assert Stores(Some(root), [], [], contents[[]]);
      HeldExtends(root, [], [], contents[[]]);
    }
  }

  /** A correct edit of the root is the corresponding edit of the map. */
  lemma RepresentsEdited(root: Node, contents: map<Key, Value>, r: Option<Node>, key: Key, val: Option<Value>)
    requires Represents(Some(root), contents) && Edited(root, [], r, key, val) && (r.Some? ==> WellFormed(r.value, []))
    ensures Represents(r, if val.Some? then contents[key := val.value] else contents - {key})
  {
    var after := if val.Some? then contents[key := val.value] else contents - {key};
    forall k, v ensures Stores(r, [], k, v) <==> k in after && after[k] == v {
      EditedAt(root, [], r, key, val, k, v);
      assert Stores(Some(root), [], k, v) <==> Holds(root, [], k, v);
    }
  }
}
