/** Insertion into the adaptive radix tree (nanograph-art/src/tree.rs), and exactly when it is safe. */
module ArtInsert {
  import opened Wrappers
  import opened Bytes
  import opened ArtNode
  import opened ArtLayout
  import opened ArtModel

  // ---------- new inner nodes ----------

  function NewNode4(partial: Key, value: Option<Value>): Node {
    Node4(Header(0, partial, value), [0, 0, 0, 0], [None, None, None, None])
  }

  /** Appends the child; nothing keeps the row sorted. */
  function AddChildUnchecked(node: Node, b: byte, c: Node): Node
    requires node.Node4? && Sized(node) && node.header.numChildren < 4
  {
    var n := node.header.numChildren;
    Node4(node.header.(numChildren := n + 1), node.keys[n := b], node.children[n := Some(c)])
  }

  function OneChild(partial: Key, value: Option<Value>, b: byte, c: Node): Node {
    AddChildUnchecked(NewNode4(partial, value), b, c)
  }

  function TwoChildren(partial: Key, b1: byte, c1: Node, b2: byte, c2: Node): Node {
    AddChildUnchecked(OneChild(partial, None, b1, c1), b2, c2)
  }

  lemma OneChildFit(partial: Key, value: Option<Value>, b: byte, c: Node)
    ensures var r := OneChild(partial, value, b, c);
            && Fit(r) && Orderly(r) && r.header.partial == partial && r.header.value == value
            && forall x: byte :: Child(r, x) == if x == b then Some(c) else None
  {
  }

  lemma TwoChildrenFit(partial: Key, b1: byte, c1: Node, b2: byte, c2: Node)
    requires b1 != b2
    ensures var r := TwoChildren(partial, b1, c1, b2, c2);
            && Fit(r) && (Orderly(r) <==> b1 < b2) && r.header.partial == partial && r.header.value == None
            && forall x: byte :: Child(r, x) == if x == b1 then Some(c1) else if x == b2 then Some(c2) else None
  {
    var r := TwoChildren(partial, b1, c1, b2, c2);
    assert r.keys[0] == b1 && r.keys[1] == b2;
    IndexUnique(r.keys, 2, 0);
    IndexUnique(r.keys, 2, 1);
  }

  lemma OneChildHolds(partial: Key, value: Option<Value>, b: byte, c: Node, path: Key, k: Key, v: Value)
    ensures Holds(OneChild(partial, value, b, c), path, k, v)
            <==> (value == Some(v) && path + partial == k) || Holds(c, path + partial + [b], k, v)
  {
    OneChildFit(partial, value, b, c);
    var r := OneChild(partial, value, b, c);
    assert Stem(r, path) == path + partial;
    assert HoldsVia(r, path, b, k, v) <==> Holds(c, path + partial + [b], k, v);
  }

  lemma TwoChildrenHold(partial: Key, b1: byte, c1: Node, b2: byte, c2: Node, path: Key, k: Key, v: Value)
    requires b1 != b2
    ensures Holds(TwoChildren(partial, b1, c1, b2, c2), path, k, v)
            <==> Holds(c1, path + partial + [b1], k, v) || Holds(c2, path + partial + [b2], k, v)
  {
    TwoChildrenFit(partial, b1, c1, b2, c2);
    var r := TwoChildren(partial, b1, c1, b2, c2);
    assert Stem(r, path) == path + partial;
    assert HoldsVia(r, path, b1, k, v) <==> Holds(c1, path + partial + [b1], k, v);
    assert HoldsVia(r, path, b2, k, v) <==> Holds(c2, path + partial + [b2], k, v);
  }

  /** What `lower` stores and the new key, below a common stem. */
  lemma Fork(node: Node, path: Key, lower: Node, common: Key, b1: byte, b2: byte, key: Key, value: Value)
    requires b1 != b2 && WellFormed(lower, path + common + [b1]) && path + common + [b2] <= key
    requires forall k, v :: Holds(lower, path + common + [b1], k, v) <==> Holds(node, path, k, v)
    ensures var r := TwoChildren(common, b1, lower, b2, Leaf(key, value));
            && WellFormed(r, path) && Edited(node, path, Some(r), key, Some(value))
            && (Grown(lower) && b1 < b2 ==> Grown(r))
  {
    var leaf, stem := Leaf(key, value), path + common;
    var r := TwoChildren(common, b1, lower, b2, leaf);
    TwoChildrenFit(common, b1, lower, b2, leaf);
    assert Stem(r, path) == stem && Child(r, b1).Some?;
    forall k, v
      ensures Stores(Some(r), path, k, v) <==> if k == key then Some(value) == Some(v) else Holds(node, path, k, v)
    {
      TwoChildrenHold(common, b1, lower, b2, leaf, path, k, v);
      if Holds(lower, stem + [b1], k, v) {
        HeldExtends(lower, stem + [b1], k, v);
        assert k[|stem|] == b1 && key[|stem|] == b2;
      }
    }
  }

  // ---------- splitting a partial key ----------

  function SplitNode(node: Node, key: Key, depth: nat, m: nat, value: Value): Node
    requires m < |node.Partial()| && depth + m < |key|
  {
    var p := node.Partial();
    TwoChildren(p[..m], p[m], UpdatePartial(node, p[m + 1..]), key[depth + m], Leaf(key, value))
  }

  lemma SplitPath(path: Key, p: Key, key: Key, m: nat)
    requires path <= key && m < |p| && |path| + m < |key| && p[..m] == key[|path|..|path| + m]
    ensures path + p[..m] + [p[m]] + p[m + 1..] == path + p
    ensures path + p[..m] + [key[|path| + m]] <= key
  {
  }

  lemma SplitEdits(node: Node, path: Key, key: Key, m: nat, value: Value)
    requires WellFormed(node, path) && path <= key && m < |node.Partial()| && |path| + m < |key|
    requires node.Partial()[..m] == key[|path|..|path| + m] && node.Partial()[m] != key[|path| + m]
    ensures var r := SplitNode(node, key, |path|, m, value);
            && WellFormed(r, path) && Edited(node, path, Some(r), key, Some(value))
            && (Grown(node) && node.Partial()[m] < key[|path| + m] ==> Grown(r))
  {
    var p := node.Partial();
    var lower, b1, b2 := UpdatePartial(node, p[m + 1..]), p[m], key[|path| + m];
    SplitPath(path, p, key, m);
    Repartial(node, path, path + p[..m] + [b1], p[m + 1..]);
    GrownRepartial(node, p[m + 1..]);
    Fork(node, path, lower, p[..m], b1, b2, key, value);
  }

  lemma GrownRepartial(node: Node, p: Key)
    requires Fit(node) && !node.Leaf?
    ensures Grown(node) ==> Grown(UpdatePartial(node, p))
  {
    RepartialFit(node, p);
    var r := UpdatePartial(node, p);
    if Grown(node) {
      var b: byte :| Child(node, b).Some?;
      assert Child(r, b).Some?;
    }
  }

  // ---------- two leaves ----------

  /** The keys agree in their first `n` bytes and no further. */
  predicate AgreeTo(e: Key, key: Key, n: nat) {
    && n <= |e| && n <= |key| && e[..n] == key[..n] && (n < |e| || n < |key|)
    && (n < |e| && n < |key| ==> e[n] != key[n])
  }

  /** A leaf and a new key that agree to `n`: they share a stem, and either may end there. */
  function JoinedAt(existing: Node, key: Key, depth: nat, n: nat, value: Value): Node
    requires existing.Leaf? && depth <= n && AgreeTo(existing.key, key, n)
  {
    var e, leaf := existing.key, Leaf(key, value);
    if n == |e| then OneChild(e[depth..n], Some(existing.leafValue), key[n], leaf)
    else if n == |key| then OneChild(e[depth..n], Some(value), e[n], existing)
    else TwoChildren(e[depth..n], e[n], existing, key[n], leaf)
  }

  function Joined(existing: Node, key: Key, depth: nat, value: Value): Node
    requires existing.Leaf? && existing.key != key && depth <= |existing.key| && depth <= |key|
    requires existing.key[..depth] == key[..depth]
  {
    JoinedPath(existing.key, key, depth);
    JoinedAt(existing, key, depth, Matching(existing.key, key, 0, depth), value)
  }

  lemma JoinedPath(e: Key, key: Key, depth: nat)
    requires e != key && depth <= |e| && depth <= |key| && e[..depth] == key[..depth]
    ensures AgreeTo(e, key, Matching(e, key, 0, depth))
  {
    var n := Matching(e, key, 0, depth);
    assert forall j :: 0 <= j < depth ==> e[..depth][j] == key[..depth][j];
    assert e[..n] == key[..n];
    assert e == e[..|e|] && key == key[..|key|];
  }

  /** What the keys share after the path, and how each goes on. */
  lemma SharedAfter(path: Key, e: Key, key: Key, n: nat)
    requires path <= e && path <= key && |path| <= n && AgreeTo(e, key, n)
    ensures var stem := path + e[|path|..n];
            && (if n < |e| then stem + [e[n]] <= e else stem == e)
            && (if n < |key| then stem + [key[n]] <= key else stem == key)
  {
    assert path + e[|path|..n] == e[..n];
    assert n < |e| ==> e[..n + 1] == e[..n] + [e[n]];
    assert n < |key| ==> key[..n + 1] == key[..n] + [key[n]];
  }

  lemma JoinedEdits(existing: Node, key: Key, n: nat, value: Value, path: Key)
    requires existing.Leaf? && WellFormed(existing, path) && path <= key && key != []
    requires |path| <= n && AgreeTo(existing.key, key, n)
    ensures var r := JoinedAt(existing, key, |path|, n, value);
            && WellFormed(r, path) && Edited(existing, path, Some(r), key, Some(value))
            && (Less(existing.key, key) ==> Grown(r))
  {
    var e := existing.key;
    var common := e[|path|..n];
    SharedAfter(path, e, key, n);
    if n == |e| {
      PrefixAbove(existing, key, value, path, common, key[n]);
    } else if n == |key| {
      PrefixBelow(existing, key, value, path, common, e[n]);
    } else {
      Fork(existing, path, existing, common, e[n], key[n], key, value);
      FirstDifference(e, key, n);
    }
  }

  method SharedLength(e: Key, key: Key, depth: nat) returns (n: nat)
    requires depth <= |e| && depth <= |key|
    ensures depth + n == Matching(e, key, 0, depth)
  {
    n := 0;
    while depth + n < |e| && depth + n < |key| && e[depth + n] == key[depth + n]
      invariant depth + n <= |e| && depth + n <= |key|
      invariant Matching(e, key, 0, depth + n) == Matching(e, key, 0, depth)
    {
      n := n + 1;
    }
  }

  method CreateInnerNode(existing: Node, key: Key, depth: nat, value: Value, ghost path: Key) returns (r: Node)
    requires existing.Leaf? && WellFormed(existing, path) && path <= key && key != [] && depth == |path|
    requires existing.key != key
    ensures r == Joined(existing, key, depth, value)
    ensures WellFormed(r, path) && Edited(existing, path, Some(r), key, Some(value))
    ensures Less(existing.key, key) ==> Grown(r)
  {
    var n := SharedLength(existing.key, key, depth);
    JoinedPath(existing.key, key, depth);
    JoinedEdits(existing, key, depth + n, value, path);
    r := JoinLeaves(existing, key, depth, n, value);
  }

  method JoinLeaves(existing: Node, key: Key, depth: nat, n: nat, value: Value) returns (r: Node)
    requires existing.Leaf? && AgreeTo(existing.key, key, depth + n)
    ensures r == JoinedAt(existing, key, depth, depth + n, value)
  {
    var e := existing.key;
    var common := e[depth..depth + n];
    var leaf := Leaf(key, value);
    if depth + n >= |e| {
      r := OneChild(common, Some(existing.leafValue), key[depth + n], leaf);
    } else if depth + n >= |key| {
      r := OneChild(common, Some(value), e[depth + n], existing);
    } else {
      r := TwoChildren(common, e[depth + n], existing, key[depth + n], leaf);
    }
  }

  lemma PrefixAbove(existing: Node, key: Key, value: Value, path: Key, common: Key, b: byte)
    requires existing.Leaf? && existing.key != [] && existing.key == path + common && path + common + [b] <= key
    ensures var r := OneChild(common, Some(existing.leafValue), b, Leaf(key, value));
            WellFormed(r, path) && Grown(r) && Edited(existing, path, Some(r), key, Some(value))
  {
    var leaf := Leaf(key, value);
    var r := OneChild(common, Some(existing.leafValue), b, leaf);
    OneChildFit(common, Some(existing.leafValue), b, leaf);
    assert Stem(r, path) == path + common && Child(r, b).Some?;
    forall k, v
      ensures Stores(Some(r), path, k, v) <==> if k == key then Some(value) == Some(v) else Holds(existing, path, k, v)
    {
      OneChildHolds(common, Some(existing.leafValue), b, leaf, path, k, v);
    }
  }

  lemma PrefixBelow(existing: Node, key: Key, value: Value, path: Key, common: Key, b: byte)
    requires existing.Leaf? && key != [] && key == path + common && path + common + [b] <= existing.key
    ensures var r := OneChild(common, Some(value), b, existing);
            WellFormed(r, path) && Grown(r) && Edited(existing, path, Some(r), key, Some(value))
  {
    var r := OneChild(common, Some(value), b, existing);
    OneChildFit(common, Some(value), b, existing);
    assert Stem(r, path) == path + common && Child(r, b).Some?;
    forall k, v
      ensures Stores(Some(r), path, k, v) <==> if k == key then Some(value) == Some(v) else Holds(existing, path, k, v)
    {
      OneChildHolds(common, Some(value), b, existing, path, k, v);
    }
  }

  /** The first byte in which two keys differ decides their order. */
  lemma {:induction false} FirstDifference(a: Key, b: Key, i: nat)
    requires i < |a| && i < |b| && a[..i] == b[..i] && a[i] != b[i]
    ensures Less(a, b) <==> a[i] < b[i]
  {
    if i > 0 {
      assert a[0] == a[..i][0] && b[0] == b[..i][0];
      assert a[1..][..i - 1] == a[..i][1..] && b[1..][..i - 1] == b[..i][1..];
      FirstDifference(a[1..], b[1..], i - 1);
    }
  }

  /** A key is not below one of its prefixes. */
  lemma {:induction false} PrefixNotAbove(a: Key, b: Key)
    requires a <= b
    ensures !Less(b, a)
  {
    if a != [] {
      assert a[0] == b[0] && a[1..] <= b[1..];
      PrefixNotAbove(a[1..], b[1..]);
    }
  }

  // ---------- trees that have only grown, in key order ----------

  /** Every inner node is orderly and has a child. */
  ghost predicate Grown(node: Node) {
    node.Leaf?
    || (&& Sized(node) && Orderly(node) && (exists b: byte :: Child(node, b).Some?)
        && forall b: byte :: Child(node, b).Some? ==> Grown(Child(node, b).value))
  }

  /** The key is there already, or above all that are. */
  ghost predicate InOrder(node: Node, path: Key, key: Key)
    requires WellFormed(node, path)
  {
    Lookup(node, path, key).Some? || forall k, v :: Holds(node, path, k, v) ==> Less(k, key)
  }

  lemma {:induction false} SomethingHeld(node: Node, path: Key) returns (k: Key, v: Value)
    requires WellFormed(node, path) && Grown(node)
    ensures Holds(node, path, k, v)
    decreases node
  {
    if node.Leaf? {
      k, v := node.key, node.leafValue;
    } else {
      var b: byte :| Child(node, b).Some?;
      k, v := SomethingHeld(Child(node, b).value, Stem(node, path) + [b]);
      assert HoldsVia(node, path, b, k, v);
    }
  }

  /** Where a key leaves the stem of a smaller key, it leaves it upwards and not by ending inside it. */
  lemma LeavesStem(path: Key, p: Key, key: Key, m: nat, k: Key)
    requires path <= key && path + p <= k && m < |p| && |path| + m <= |key| && p[..m] == key[|path|..|path| + m]
    requires (|path| + m < |key| ==> p[m] != key[|path| + m]) && Less(k, key)
    ensures |path| + m < |key| && p[m] < key[|path| + m]
  {
    var n := |path| + m;
    assert k[n] == p[m] && k[..n] == path + p[..m];
    assert key[..n] == path + key[|path|..n];
    if n == |key| {
      assert key == key[..n];
      PrefixNotAbove(key, k);
    } else {
      FirstDifference(k, key, n);
    }
  }

  lemma LeavesUpwards(node: Node, path: Key, key: Key, m: nat)
    requires WellFormed(node, path) && Grown(node) && InOrder(node, path, key) && !(Stem(node, path) <= key)
    requires path <= key && m < |node.Partial()| && |path| + m <= |key|
    requires node.Partial()[..m] == key[|path|..|path| + m]
    requires |path| + m < |key| ==> node.Partial()[m] != key[|path| + m]
    ensures |path| + m < |key| && node.Partial()[m] < key[|path| + m]
  {
    var k, v := SomethingHeld(node, path);
    HeldExtends(node, path, k, v);
    assert Lookup(node, path, key).None?;
    LeavesStem(path, node.Partial(), key, m, k);
  }

  lemma GrownUpdated(node: Node, r: Node, b: byte, c: Node)
    requires Fit(node) && !node.Leaf? && Grown(node) && Updated(node, r, b, Some(c)) && Orderly(r) && Grown(c)
    ensures Grown(r)
  {
  }

  lemma InOrderBelow(node: Node, path: Key, b: byte, key: Key)
    requires WellFormed(node, path) && !node.Leaf? && InOrder(node, path, key) && Child(node, b).Some?
    requires Stem(node, path) + [b] <= key
    ensures InOrder(Child(node, b).value, Stem(node, path) + [b], key)
  {
    var q, child := Stem(node, path) + [b], Child(node, b).value;
    if Lookup(node, path, key).None? {
      forall k, v | Holds(child, q, k, v) ensures Less(k, key) {
        assert HoldsVia(node, path, b, k, v);
        assert Holds(node, path, k, v);
      }
    }
  }

  // ---------- inserting ----------

  /**
   Exactly when an insertion works: the key does not end inside a partial key on its way, and a node
   that gets a new child has room for it.
   */
  ghost predicate InsertSafe(node: Node, path: Key, key: Key)
    requires WellFormed(node, path)
    decreases node
  {
    node.Leaf?
    || var stem := Stem(node, path);
       if !(stem <= key) then !(key <= stem)
       else stem == key
            || var b := key[|stem|];
               if Child(node, b).Some? then InsertSafe(Child(node, b).value, stem + [b], key) else RoomFor(node)
  }

  lemma AddedEdits(node: Node, path: Key, r: Node, b: byte, key: Key, value: Value)
    requires WellFormed(node, path) && !node.Leaf? && Child(node, b).None? && Stem(node, path) + [b] <= key
    requires Updated(node, r, b, Some(Leaf(key, value)))
    ensures WellFormed(r, path) && Edited(node, path, Some(r), key, Some(value))
  {
    UpdatedFormed(node, path, r, b, Some(Leaf(key, value)));
    forall k, v
      ensures Stores(Some(r), path, k, v) <==> if k == key then Some(value) == Some(v) else Holds(node, path, k, v)
    {
      AddedHere(node, path, r, b, key, value, k, v);
    }
  }

  lemma AddedHere(node: Node, path: Key, r: Node, b: byte, key: Key, value: Value, k: Key, v: Value)
    requires WellFormed(node, path) && !node.Leaf? && Child(node, b).None? && Stem(node, path) + [b] <= key
    requires Updated(node, r, b, Some(Leaf(key, value)))
    ensures Holds(r, path, k, v) <==> if k == key then v == value else Holds(node, path, k, v)
  {
    var leaf := Leaf(key, value);
    assert key[|Stem(node, path)|] == b;
    Decide(node, path, key, v);
    ViaOthers(node, path, r, b, Some(leaf), b, k, v);
    forall x: byte | x != b ensures HoldsVia(r, path, x, k, v) <==> HoldsVia(node, path, x, k, v) {
      ViaOthers(node, path, r, b, Some(leaf), x, k, v);
    }
    assert HoldsVia(r, path, b, k, v) <==> k == key && v == value;
    assert !HoldsVia(node, path, b, k, v);
  }

  /** What an insertion returns; an error stands for the index panic of a key that ends inside a partial key. */
  ghost function Inserted(node: Node, path: Key, key: Key, value: Value): Result<(Node, Option<Value>)>
    requires WellFormed(node, path) && path <= key && key != []
    decreases node, 1
  {
    var depth := |path|;
    var newDepth := depth + |node.Partial()|;
    var m := Matching(node.Partial(), key, depth, 0);
    if m < |node.Partial()| then
      if depth + m == |key| then Err("index out of bounds") else Ok((SplitNode(node, key, depth, m, value), None))
    else if node.Leaf? then
      if node.key == key then Ok((Leaf(key, value), Some(node.leafValue)))
      else Ok((Joined(node, key, depth, value), None))
    else if newDepth == |key| then Ok((WithValue(node, Some(value)), node.header.value))
    else
      NextByte(node, path, key);
      InsertedBelow(node, path, key, value)
  }

  ghost function InsertedBelow(node: Node, path: Key, key: Key, value: Value): Result<(Node, Option<Value>)>
    requires WellFormed(node, path) && !node.Leaf? && |Stem(node, path)| < |key|
    requires Stem(node, path) + [key[|Stem(node, path)|]] <= key
    decreases node, 0
  {
    var b := key[|Stem(node, path)|];
    var child := Child(node, b);
    if child.None? then Ok((Added(node, b, Leaf(key, value)), None))
    else
      var below := Inserted(child.value, Stem(node, path) + [b], key, value);
      if below.Err? then below else Ok((WithChild(node, b, below.value.0), below.value.1))
  }

  /** Past a partial key that matches, the key goes on with the byte under which the children branch off. */
  lemma NextByte(node: Node, path: Key, key: Key)
    requires path <= key && Matching(node.Partial(), key, |path|, 0) == |node.Partial()|
    ensures Stem(node, path) <= key
    ensures |Stem(node, path)| < |key| ==> Stem(node, path) + [key[|Stem(node, path)|]] <= key
  {
    GoesOn(path, node.Partial(), key);
  }

  lemma GoesOn(path: Key, p: Key, key: Key)
    requires path <= key && |path| + |p| <= |key| && forall j :: 0 <= j < |p| ==> p[j] == key[|path| + j]
    ensures path + p <= key
    ensures |path + p| < |key| ==> path + p + [key[|path + p|]] <= key
  {
    assert key[..|path|] + key[|path|..|path| + |p|] == key[..|path| + |p|];
    assert key[|path|..|path| + |p|] == p;
  }

  /**
   The result is well formed exactly if the insertion is safe, and then the key has the value and nothing
   else has changed. Keys that arrive in order are always safe.
   */
  ghost predicate InsertsRight(node: Node, path: Key, key: Key, value: Value, r: Result<(Node, Option<Value>)>)
    requires WellFormed(node, path)
  {
    && (r.Ok? && WellFormed(r.value.0, path) <==> InsertSafe(node, path, key))
    && (InsertSafe(node, path, key) ==> InsertsAs(node, path, key, value, r))
    && (Grown(node) && InOrder(node, path, key) ==> InsertSafe(node, path, key) && r.Ok? && Grown(r.value.0))
  }

  ghost predicate InsertsAs(node: Node, path: Key, key: Key, value: Value, r: Result<(Node, Option<Value>)>)
    requires WellFormed(node, path)
  {
    r.Ok? && Edited(node, path, Some(r.value.0), key, Some(value)) && r.value.1 == Lookup(node, path, key)
  }

  lemma {:induction false} InsertedIs(node: Node, path: Key, key: Key, value: Value)
    requires WellFormed(node, path) && path <= key && key != []
    ensures InsertsRight(node, path, key, value, Inserted(node, path, key, value))
    decreases node
  {
    var stem := Stem(node, path);
    if Matching(node.Partial(), key, |path|, 0) < |node.Partial()| {
      SplitIs(node, path, key, value);
    } else {
      NextByte(node, path, key);
      if node.Leaf? {
        LeafIs(node, path, key, value);
      } else if stem == key {
        ValueIs(node, path, key, value);
      } else {
        var b := key[|stem|];
        if Child(node, b).Some? {
          InsertedIs(Child(node, b).value, stem + [b], key, value);
          BelowIs(node, path, b, key, value, Inserted(Child(node, b).value, stem + [b], key, value));
        } else {
          AddedBelow(node, path, b, key, value);
        }
      }
    }
  }

  lemma SplitIs(node: Node, path: Key, key: Key, value: Value)
    requires WellFormed(node, path) && path <= key && key != []
    requires Matching(node.Partial(), key, |path|, 0) < |node.Partial()|
    ensures InsertsRight(node, path, key, value, Inserted(node, path, key, value))
  {
    var m := Matching(node.Partial(), key, |path|, 0);
    assert node.Partial()[..m] == key[|path|..|path| + m];
    StemMatches(node, path, key, m);
    EndsInside(node, path, key, m);
    if Grown(node) && InOrder(node, path, key) {
      LeavesUpwards(node, path, key, m);
    }
    if |path| + m < |key| {
      SplitEdits(node, path, key, m, value);
    }
  }

  lemma LeafIs(node: Node, path: Key, key: Key, value: Value)
    requires node.Leaf? && WellFormed(node, path) && path <= key && key != []
    ensures InsertsRight(node, path, key, value, Inserted(node, path, key, value))
  {
    if node.key != key {
      JoinedPath(node.key, key, |path|);
      JoinedIs(node, path, key, value, Matching(node.key, key, 0, |path|));
    }
  }

  lemma JoinedIs(node: Node, path: Key, key: Key, value: Value, n: nat)
    requires node.Leaf? && WellFormed(node, path) && path <= key && key != [] && |path| <= n
             && AgreeTo(node.key, key, n)
    ensures InsertsRight(node, path, key, value, Ok((JoinedAt(node, key, |path|, n, value), None)))
  {
    JoinedEdits(node, key, n, value, path);
    assert Holds(node, path, node.key, node.leafValue);
  }

  lemma ValueIs(node: Node, path: Key, key: Key, value: Value)
    requires WellFormed(node, path) && !node.Leaf? && Stem(node, path) == key && key != []
    ensures InsertsRight(node, path, key, value, Ok((WithValue(node, Some(value)), node.header.value)))
  {
    ValueEdits(node, path, key, Some(value));
    GrownWithValue(node, Some(value));
  }

  /** The insertion went on in a child. */
  lemma BelowIs(node: Node, path: Key, b: byte, key: Key, value: Value, below: Result<(Node, Option<Value>)>)
    requires WellFormed(node, path) && !node.Leaf? && Child(node, b).Some? && Stem(node, path) + [b] <= key
    requires InsertsRight(Child(node, b).value, Stem(node, path) + [b], key, value, below)
    ensures InsertsRight(node, path, key, value,
              if below.Err? then below else Ok((WithChild(node, b, below.value.0), below.value.1)))
  {
    if InOrder(node, path, key) {
      InOrderBelow(node, path, b, key);
    }
    if below.Ok? {
      ReplacedIs(node, b, below.value.0);
      Replaced(node, path, WithChild(node, b, below.value.0), b, below.value.0, key, value);
    }
  }

  /** The insertion added a leaf. */
  lemma AddedBelow(node: Node, path: Key, b: byte, key: Key, value: Value)
    requires WellFormed(node, path) && !node.Leaf? && Child(node, b).None? && Stem(node, path) + [b] <= key
    ensures InsertsRight(node, path, key, value, Ok((Added(node, b, Leaf(key, value)), None)))
  {
    var r := Added(node, b, Leaf(key, value));
    AddedIs(node, b, Leaf(key, value));
    if RoomFor(node) {
      AddedEdits(node, path, r, b, key, value);
      if Grown(node) {
        GrownUpdated(node, r, b, Leaf(key, value));
      }
    }
  }

  method InsertRecursive(node: Node, key: Key, depth: nat, value: Value, ghost path: Key)
      returns (r: Result<(Node, Option<Value>)>)
    requires WellFormed(node, path) && path <= key && key != [] && depth == |path|
    ensures r == Inserted(node, path, key, value)
    decreases node, 1
  {
    var partial := node.Partial();
    var mismatch := CheckPrefix(partial, key, depth);
    if mismatch < |partial| {
      if depth + mismatch >= |key| {
        return Err("index out of bounds");
      }
      return Ok((SplitNode(node, key, depth, mismatch, value), None));
    }
    var newDepth := depth + |partial|;
    if node.Leaf? {
      if node.key == key {
        return Ok((Leaf(key, value), Some(node.leafValue)));
      }
      var n := CreateInnerNode(node, key, newDepth, value, path);
      return Ok((n, None));
    }
    if newDepth >= |key| {
      return Ok((WithValue(node, Some(value)), node.header.value));
    }
    NextByte(node, path, key);
    r := InsertBelow(node, key, newDepth, value, path);
  }

  /** The key goes on below an inner node: in the child for its next byte, or in a new one. */
  method InsertBelow(node: Node, key: Key, depth: nat, value: Value, ghost path: Key)
      returns (r: Result<(Node, Option<Value>)>)
    requires WellFormed(node, path) && !node.Leaf? && depth == |Stem(node, path)| < |key|
    requires Stem(node, path) + [key[depth]] <= key
    ensures r == InsertedBelow(node, path, key, value)
    decreases node, 0
  {
    var b := key[depth];
    var child := FindChild(node, b);
    if child.Some? {
      var below := InsertRecursive(child.value, key, depth + 1, value, Stem(node, path) + [b]);
      if below.Err? {
        return below;
      }
      var n := ReplaceChild(node, b, below.value.0);
      return Ok((n, below.value.1));
    }
    var added := AddChild(node, b, Leaf(key, value));
    r := Ok((added.value, None));
  }

  lemma EndsInside(node: Node, path: Key, key: Key, m: nat)
    requires path <= key && m < |node.Partial()| && |path| + m <= |key|
    requires node.Partial()[..m] == key[|path|..|path| + m]
    requires |path| + m < |key| ==> node.Partial()[m] != key[|path| + m]
    ensures |path| + m == |key| <==> key <= Stem(node, path)
  {
  }

  lemma GrownWithValue(node: Node, val: Option<Value>)
    requires Fit(node) && !node.Leaf?
    ensures Grown(node) ==> Grown(WithValue(node, val))
  {
    WithValueFit(node, val);
    var r := WithValue(node, val);
    if Grown(node) {
      var b: byte :| Child(node, b).Some?;
      assert Child(r, b).Some?;
    }
  }

  /** A child rewritten by the insertion: the node is as good as the child. */
  lemma Replaced(node: Node, path: Key, r: Node, b: byte, c: Node, key: Key, value: Value)
    requires WellFormed(node, path) && !node.Leaf? && Child(node, b).Some? && Stem(node, path) + [b] <= key
    requires Updated(node, r, b, Some(c)) && (Orderly(node) ==> Orderly(r))
    ensures WellFormed(r, path) <==> WellFormed(c, Stem(node, path) + [b])
    ensures Edited(Child(node, b).value, Stem(node, path) + [b], Some(c), key, Some(value)) ==>
              Edited(node, path, Some(r), key, Some(value))
    ensures Grown(node) && Grown(c) ==> Grown(r)
  {
    UpdatedFormed(node, path, r, b, Some(c));
    if Edited(Child(node, b).value, Stem(node, path) + [b], Some(c), key, Some(value)) {
      UpdatedEdits(node, path, r, b, Some(c), key, Some(value));
    }
    if Grown(node) && Grown(c) {
      GrownUpdated(node, r, b, c);
    }
  }

  // ---------- where insertions go wrong ----------

  /** The key ends inside the partial key of some node on its way. */
  ghost predicate StopsInside(node: Node, path: Key, key: Key)
    requires WellFormed(node, path)
    decreases node
  {
    && !node.Leaf?
    && var stem := Stem(node, path);
       if !(stem <= key) then key <= stem
       else stem != key
            && var b := key[|stem|];
               Child(node, b).Some? && StopsInside(Child(node, b).value, stem + [b], key)
  }

  /** Exactly the keys that end inside a partial key make the insertion panic. */
  lemma {:induction false} PanicsIff(node: Node, path: Key, key: Key, value: Value)
    requires WellFormed(node, path) && path <= key && key != []
    ensures Inserted(node, path, key, value).Err? <==> StopsInside(node, path, key)
  {
    var stem := Stem(node, path);
    var m := Matching(node.Partial(), key, |path|, 0);
    assert node.Partial()[..m] == key[|path|..|path| + m];
    StemMatches(node, path, key, m);
    if m < |node.Partial()| {
      EndsInside(node, path, key, m);
    } else {
      NextByte(node, path, key);
      if !node.Leaf? && stem != key && Child(node, key[|stem|]).Some? {
        PanicsIff(Child(node, key[|stem|]).value, stem + [key[|stem|]], key, value);
      }
    }
  }

  lemma {:induction false} InjectionCard(bytes: set<byte>, ix: seq<byte>, slots: set<byte>)
    requires |ix| == 256 && (forall b :: b in bytes ==> ix[b] in slots)
    requires forall a, b :: a in bytes && b in bytes && a != b ==> ix[a] != ix[b]
    ensures |bytes| <= |slots|
  {
    if bytes != {} {
      var b :| b in bytes;
      InjectionCard(bytes - {b}, ix, slots - {ix[b]});
    }
  }

  /** In a packed index table every slot below the count is taken. */
  lemma PackedOnto(node: Node, s: byte) returns (b: byte)
    requires node.Node48? && Fit(node) && Orderly(node) && s < node.header.numChildren <= 48
    ensures node.childIndex[b] == s
  {
    var n := node.header.numChildren;
    if forall x: byte :: node.childIndex[x] != s {
      InjectionCard(ChildBytes(node), node.childIndex, BytesBelow(n) - {s});
      assert false;
    }
    b :| node.childIndex[b] == s;
  }

  lemma TableBound(node: Node)
    requires node.Node48? && Fit(node)
    ensures node.header.numChildren <= 48
  {
    InjectionCard(ChildBytes(node), node.childIndex, BytesBelow(48));
  }

  /**
   A packed Node48 that has lost a child has room for the next one if and only if it has shrunk to a sorted
   Node16 or the last slot was the one freed.
   */
  lemma HoleFails(node: Node, b: byte, left: Node)
    requires node.Node48? && Fit(node) && Orderly(node) && Child(node, b).Some? && Left48(node, b, left)
    ensures Sized(left) && (left.Node16? <==> node.header.numChildren <= 17)
    ensures RoomFor(left) <==> node.header.numChildren <= 17 || node.childIndex[b] == node.header.numChildren - 1
  {
    TableBound(node);
    if node.header.numChildren > 17 {
      Drop48(node, b);
      HoleIsLast(node, b);
    }
  }

  lemma HoleIsLast(node: Node, b: byte)
    requires node.Node48? && Fit(node) && Orderly(node) && node.header.numChildren <= 48 && Child(node, b).Some?
    ensures Sized(Dropped48(node, b))
    ensures RoomFor(Dropped48(node, b)) <==> node.childIndex[b] == node.header.numChildren - 1
  {
    assert b in ChildBytes(node);
    var n, r := node.header.numChildren, Dropped48(node, b);
    Drop48(node, b);
    var last := PackedOnto(node, n - 1);
    if last == b {
      assert forall x: byte :: r.childIndex[x] != n - 1;
    } else {
      assert r.childIndex[last] == n - 1;
    }
  }
}
