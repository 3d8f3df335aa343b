/** What a whole iteration over an adaptive radix tree yields. */
module ArtScan {
  import opened Wrappers
  import opened Bytes
  import opened ArtNode
  import opened ArtModel
  import opened ArtInsert
  import opened ArtIter

  // ---------- a node and its mirror ----------

  lemma MirrorKid(node: Node, t: Tree, i: nat) returns (b: byte, c: Node)
    requires Mirrors(node, t) && t.Fork? && i < |t.kids|
    ensures Fit(node) && !node.Leaf? && |KidBytes(node)| == |t.kids|
    ensures b == KidBytes(node)[i] && Child(node, b) == Some(c) && Mirrors(c, t.kids[i]) && c < node
  {
    assert Unlock(0);
    b := KidBytes(node)[i];
    c := Child(node, b).value;
  }

  /** Every live byte has its place among the mirrored children. */
  lemma KidIndex(node: Node, t: Tree, b: byte) returns (i: nat)
    requires Mirrors(node, t) && t.Fork? && Sized(node) && Child(node, b).Some?
    ensures i < |t.kids| && Mirrors(Child(node, b).value, t.kids[i])
    ensures Fit(node) && |KidBytes(node)| == |t.kids| && KidBytes(node)[i] == b
  {
    assert Unlock(0);
    KidBytesSpec(node);
    i :| 0 <= i < |KidBytes(node)| && KidBytes(node)[i] == b;
  }

  lemma {:induction false} MirrorExists(node: Node, path: Key) returns (t: Tree)
    requires WellFormed(node, path)
    ensures Mirrors(node, t)
    decreases node, 1
  {
    if node.Leaf? {
      t := Tip((node.key, node.leafValue));
    } else {
      KidBytesSpec(node);
      var kids := MirrorKids(node, path, |KidBytes(node)|);
      t := Fork(kids);
    }
  }

  lemma {:induction false} MirrorKids(node: Node, path: Key, n: nat) returns (kids: seq<Tree>)
    requires WellFormed(node, path) && !node.Leaf? && n <= |KidBytes(node)|
    ensures |kids| == n
    ensures forall i :: 0 <= i < n ==>
              Child(node, KidBytes(node)[i]).Some? && Mirrors(Child(node, KidBytes(node)[i]).value, kids[i])
    decreases node, 0, n
  {
    kids := [];
    if n > 0 {
      kids := MirrorKids(node, path, n - 1);
      KidBytesSpec(node);
      var b := KidBytes(node)[n - 1];
      assert b in KidBytes(node);
      var last := MirrorExists(Child(node, b).value, Stem(node, path) + [b]);
      kids := kids + [last];
    }
  }

  // ---------- which items ----------

  lemma {:induction false} LeavesAt(kids: seq<Tree>, item: Item)
    ensures item in LeavesOf(kids) <==> exists i :: 0 <= i < |kids| && item in Leaves(kids[i])
  {
    if kids != [] {
      LeavesAt(kids[1..], item);
      if i :| 0 <= i < |kids[1..]| && item in Leaves(kids[1..][i]) {
        assert item in Leaves(kids[i + 1]);
      }
      if i :| 0 <= i < |kids| && item in Leaves(kids[i]) && i > 0 {
        assert item in Leaves(kids[1..][i - 1]);
      }
    }
  }

  /** What is yielded is stored. */
  lemma {:induction false} YieldedIsStored(node: Node, path: Key, t: Tree, item: Item)
    requires WellFormed(node, path) && Mirrors(node, t) && item in Leaves(t)
    ensures Holds(node, path, item.0, item.1)
    decreases t
  {
    LeafMirror(node, t);
    if t.Fork? {
      LeavesAt(t.kids, item);
      var i :| 0 <= i < |t.kids| && item in Leaves(t.kids[i]);
      var b, c := MirrorKid(node, t, i);
      YieldedIsStored(c, Stem(node, path) + [b], t.kids[i], item);
      assert HoldsVia(node, path, b, item.0, item.1);
    }
  }

  /** What a child yields lies below its byte. */
  lemma YieldedBelow(node: Node, path: Key, t: Tree, i: nat, item: Item)
    requires WellFormed(node, path) && Mirrors(node, t) && t.Fork? && i < |t.kids| && item in Leaves(t.kids[i])
    ensures Fit(node) && !node.Leaf? && |KidBytes(node)| == |t.kids|
    ensures Stem(node, path) + [KidBytes(node)[i]] <= item.0
  {
    var b, c := MirrorKid(node, t, i);
    YieldedIsStored(c, Stem(node, path) + [b], t.kids[i], item);
    HeldExtends(c, Stem(node, path) + [b], item.0, item.1);
  }

  /** Some leaf stores `k` with `v`. */
  ghost predicate InLeaf(node: Node, k: Key, v: Value) {
    if node.Leaf? then node.key == k && node.leafValue == v
    else Sized(node) && exists b: byte :: Child(node, b).Some? && InLeaf(Child(node, b).value, k, v)
  }

  /** An iteration yields exactly what the leaves store. */
  lemma {:induction false} YieldedIsLeaf(node: Node, t: Tree, k: Key, v: Value)
    requires Mirrors(node, t)
    ensures (k, v) in Leaves(t) <==> InLeaf(node, k, v)
    decreases t
  {
    LeafMirror(node, t);
    if t.Fork? {
      LeavesAt(t.kids, (k, v));
      if i :| 0 <= i < |t.kids| && (k, v) in Leaves(t.kids[i]) {
        var b, c := MirrorKid(node, t, i);
        YieldedIsLeaf(c, t.kids[i], k, v);
      }
      if !node.Leaf? && InLeaf(node, k, v) {
        var b: byte :| Child(node, b).Some? && InLeaf(Child(node, b).value, k, v);
        var i := KidIndex(node, t, b);
        YieldedIsLeaf(Child(node, b).value, t.kids[i], k, v);
      }
    }
  }

  ghost predicate NoInnerValues(node: Node) {
    node.Leaf?
    || (&& Sized(node) && node.header.value.None?
        && forall b: byte :: Child(node, b).Some? ==> NoInnerValues(Child(node, b).value))
  }

  lemma {:induction false} StoredIsYielded(node: Node, path: Key, t: Tree, k: Key, v: Value)
    requires WellFormed(node, path) && Mirrors(node, t) && NoInnerValues(node) && Holds(node, path, k, v)
    ensures (k, v) in Leaves(t)
    decreases t
  {
    LeafMirror(node, t);
    if t.Fork? {
      var b: byte :| HoldsVia(node, path, b, k, v);
      var i := KidIndex(node, t, b);
      StoredIsYielded(Child(node, b).value, Stem(node, path) + [b], t.kids[i], k, v);
      LeavesAt(t.kids, (k, v));
    }
  }

  /** A value stored at an inner node is never yielded. */
  lemma {:induction false} InnerValueSkipped(node: Node, path: Key, t: Tree) returns (k: Key, v: Value)
    requires WellFormed(node, path) && Mirrors(node, t) && !NoInnerValues(node)
    ensures Holds(node, path, k, v) && (k, v) !in Leaves(t)
    decreases t
  {
    LeafMirror(node, t);
    var stem := Stem(node, path);
    if node.header.value.Some? {
      k, v := stem, node.header.value.value;
      NotBelow(node, path, t, v);
    } else {
      var b: byte :| Child(node, b).Some? && !NoInnerValues(Child(node, b).value);
      var i := KidIndex(node, t, b);
      k, v := InnerValueSkipped(Child(node, b).value, stem + [b], t.kids[i]);
      assert HoldsVia(node, path, b, k, v);
      OnlyThere(node, path, t, b, i, k, v);
    }
  }

  /** The stem itself is not below any child. */
  lemma NotBelow(node: Node, path: Key, t: Tree, v: Value)
    requires WellFormed(node, path) && Mirrors(node, t) && t.Fork?
    ensures (Stem(node, path), v) !in LeavesOf(t.kids)
  {
    var item := (Stem(node, path), v);
    LeavesAt(t.kids, item);
    forall i | 0 <= i < |t.kids| ensures item !in Leaves(t.kids[i]) {
      if item in Leaves(t.kids[i]) {
        YieldedBelow(node, path, t, i, item);
      }
    }
  }

  /** An item stored below one child is not yielded by another one. */
  lemma OnlyThere(node: Node, path: Key, t: Tree, b: byte, i: nat, k: Key, v: Value)
    requires WellFormed(node, path) && Mirrors(node, t) && t.Fork? && !node.Leaf? && HoldsVia(node, path, b, k, v)
    requires i < |t.kids| == |KidBytes(node)| && KidBytes(node)[i] == b && (k, v) !in Leaves(t.kids[i])
    ensures (k, v) !in LeavesOf(t.kids)
  {
    LeavesAt(t.kids, (k, v));
    forall j | 0 <= j < |t.kids| ensures (k, v) !in Leaves(t.kids[j]) {
      if j != i {
        NotElsewhere(node, path, t, b, j, k, v);
      }
    }
  }

  lemma NotElsewhere(node: Node, path: Key, t: Tree, b: byte, j: nat, k: Key, v: Value)
    requires WellFormed(node, path) && Mirrors(node, t) && t.Fork? && !node.Leaf? && HoldsVia(node, path, b, k, v)
    requires j < |t.kids| == |KidBytes(node)| && (exists i :: 0 <= i < |t.kids| && i != j && KidBytes(node)[i] == b)
    ensures (k, v) !in Leaves(t.kids[j])
  {
    RoutesTo(node, path, b, k, v);
    KidBytesSpec(node);
    var x := KidBytes(node)[j];
    assert x != b;
    if (k, v) in Leaves(t.kids[j]) {
      YieldedBelow(node, path, t, j, (k, v));
    }
  }

  // ---------- in which order ----------

  ghost predicate DistinctKeys(items: seq<Item>) {
    forall i, j :: 0 <= i < j < |items| ==> items[i].0 != items[j].0
  }

  ghost predicate AscendingKeys(items: seq<Item>) {
    forall i, j :: 0 <= i < j < |items| ==> Less(items[i].0, items[j].0)
  }

  ghost predicate SortedRows(node: Node) {
    node.Leaf?
    || (&& Fit(node) && (node.Node4? ==> Ascending(node.keys, node.header.numChildren))
        && forall b: byte :: Child(node, b).Some? ==> SortedRows(Child(node, b).value))
  }

  /** Keys that branch off a stem under different bytes are ordered as the bytes. */
  lemma BranchOrder(stem: Key, x: byte, y: byte, a: Key, b: Key)
    requires stem + [x] <= a && stem + [y] <= b && x != y
    ensures a != b && (Less(a, b) <==> x < y)
  {
    assert a[|stem|] == x && b[|stem|] == y;
    assert a[..|stem|] == stem && b[..|stem|] == stem;
    FirstDifference(a, b, |stem|);
  }

  lemma KidOrder(node: Node, i: nat, j: nat)
    requires Fit(node) && i < j < |KidBytes(node)|
    ensures KidBytes(node)[i] != KidBytes(node)[j] && (SortedRows(node) ==> KidBytes(node)[i] < KidBytes(node)[j])
  {
    KidBytesSpec(node);
  }

  /** Two items from different children: their keys differ in the byte after the stem. */
  lemma Apart(node: Node, path: Key, t: Tree, i: nat, j: nat, x: Item, y: Item)
    requires WellFormed(node, path) && Mirrors(node, t) && t.Fork? && i < j < |t.kids|
    requires x in Leaves(t.kids[i]) && y in Leaves(t.kids[j])
    ensures x.0 != y.0 && (SortedRows(node) ==> Less(x.0, y.0))
  {
    YieldedBelow(node, path, t, i, x);
    YieldedBelow(node, path, t, j, y);
    KidOrder(node, i, j);
    BranchOrder(Stem(node, path), KidBytes(node)[i], KidBytes(node)[j], x.0, y.0);
  }

  lemma Joined(a: seq<Item>, b: seq<Item>, sorted: bool)
    requires DistinctKeys(a) && DistinctKeys(b) && (sorted ==> AscendingKeys(a) && AscendingKeys(b))
    requires forall x, y :: x in a && y in b ==> x.0 != y.0 && (sorted ==> Less(x.0, y.0))
    ensures DistinctKeys(a + b) && (sorted ==> AscendingKeys(a + b))
  {
  }

  /** No key is yielded twice, and with sorted rows the keys come in ascending order. */
  lemma {:induction false} YieldedInOrder(node: Node, path: Key, t: Tree)
    requires WellFormed(node, path) && Mirrors(node, t)
    ensures DistinctKeys(Leaves(t)) && (SortedRows(node) ==> AscendingKeys(Leaves(t)))
    decreases t, 1
  {
    LeafMirror(node, t);
    if t.Fork? {
      InOrderFrom(node, path, t, 0);
      assert t.kids[0..] == t.kids;
    }
  }

  lemma {:induction false} InOrderFrom(node: Node, path: Key, t: Tree, i: nat)
    requires WellFormed(node, path) && Mirrors(node, t) && t.Fork? && i <= |t.kids|
    ensures DistinctKeys(LeavesOf(t.kids[i..])) && (SortedRows(node) ==> AscendingKeys(LeavesOf(t.kids[i..])))
    decreases t, 0, |t.kids| - i
  {
    if i < |t.kids| {
      var b, c := MirrorKid(node, t, i);
      YieldedInOrder(c, Stem(node, path) + [b], t.kids[i]);
      InOrderFrom(node, path, t, i + 1);
      assert t.kids[i..][1..] == t.kids[i + 1..];
      forall x, y | x in Leaves(t.kids[i]) && y in LeavesOf(t.kids[i + 1..])
        ensures x.0 != y.0 && (SortedRows(node) ==> Less(x.0, y.0))
      {
        LeavesAt(t.kids[i + 1..], y);
        var j :| 0 <= j < |t.kids[i + 1..]| && y in Leaves(t.kids[i + 1..][j]);
        Apart(node, path, t, i, i + 1 + j, x, y);
      }
      Joined(Leaves(t.kids[i]), LeavesOf(t.kids[i + 1..]), SortedRows(node));
    }
  }

  /** Where a child stands: its position in a row, its byte in a table. */
  function Slot(node: Node, b: byte): nat
    requires Sized(node)
  {
    if node.Node4? || node.Node16? then IndexOf(node.keys, 0, node.header.numChildren, b) else b
  }

  /** The key `x` is met before `y`: where their ways part, its child stands first. */
  ghost predicate Precedes(node: Node, path: Key, x: Key, y: Key)
    decreases node
  {
    var stem := Stem(node, path);
    && !node.Leaf? && Sized(node) && |stem| < |x| && |stem| < |y|
    && Child(node, x[|stem|]).Some? && Child(node, y[|stem|]).Some?
    && if x[|stem|] == y[|stem|] then Precedes(Child(node, x[|stem|]).value, stem + [x[|stem|]], x, y)
       else Slot(node, x[|stem|]) < Slot(node, y[|stem|])
  }

  ghost predicate InTreeOrder(node: Node, path: Key, items: seq<Item>) {
    forall i, j :: 0 <= i < j < |items| ==> Precedes(node, path, items[i].0, items[j].0)
  }

  lemma {:induction false} SlotOrder(node: Node, i: nat, j: nat)
    requires Fit(node) && !node.Leaf? && i < j < |KidBytes(node)|
    ensures KidBytes(node)[i] != KidBytes(node)[j] && Slot(node, KidBytes(node)[i]) < Slot(node, KidBytes(node)[j])
  {
    KidBytesSpec(node);
    if node.Node4? || node.Node16? {
      IndexUnique(node.keys, node.header.numChildren, i);
      IndexUnique(node.keys, node.header.numChildren, j);
    }
  }

  /** Two items from different children come in the order of the children. */
  lemma {:induction false} ApartInOrder(node: Node, path: Key, t: Tree, i: nat, j: nat, x: Item, y: Item)
    requires WellFormed(node, path) && Mirrors(node, t) && t.Fork? && i < j < |t.kids|
    requires x in Leaves(t.kids[i]) && y in Leaves(t.kids[j])
    ensures Precedes(node, path, x.0, y.0)
  {
    YieldedBelow(node, path, t, i, x);
    YieldedBelow(node, path, t, j, y);
    SlotOrder(node, i, j);
    KidBytesSpec(node);
    assert KidBytes(node)[i] in KidBytes(node) && KidBytes(node)[j] in KidBytes(node);
    PartHere(node, path, KidBytes(node)[i], KidBytes(node)[j], x.0, y.0);
  }

  lemma {:induction false} PartHere(node: Node, path: Key, a: byte, b: byte, x: Key, y: Key)
    requires !node.Leaf? && Sized(node) && Child(node, a).Some? && Child(node, b).Some?
    requires a != b && Slot(node, a) < Slot(node, b)
    requires Stem(node, path) + [a] <= x && Stem(node, path) + [b] <= y
    ensures Precedes(node, path, x, y)
  {
    var n := |Stem(node, path)|;
    assert x[n] == a && y[n] == b;
  }

  /** Two items of one child come in the order the child gives them. */
  lemma {:induction false} TogetherInOrder(node: Node, path: Key, t: Tree, i: nat, x: Item, y: Item)
    requires WellFormed(node, path) && Mirrors(node, t) && t.Fork? && i < |t.kids|
    requires x in Leaves(t.kids[i]) && y in Leaves(t.kids[i])
    requires Fit(node) && !node.Leaf? && |KidBytes(node)| == |t.kids| && Child(node, KidBytes(node)[i]).Some?
    requires Precedes(Child(node, KidBytes(node)[i]).value, Stem(node, path) + [KidBytes(node)[i]], x.0, y.0)
    ensures Precedes(node, path, x.0, y.0)
  {
    YieldedBelow(node, path, t, i, x);
    YieldedBelow(node, path, t, i, y);
    var n := |Stem(node, path)|;
    assert x.0[n] == KidBytes(node)[i] && y.0[n] == KidBytes(node)[i];
  }

  lemma {:induction false} JoinedInOrder(node: Node, path: Key, a: seq<Item>, b: seq<Item>)
    requires InTreeOrder(node, path, a) && InTreeOrder(node, path, b)
    requires forall x, y :: x in a && y in b ==> Precedes(node, path, x.0, y.0)
    ensures InTreeOrder(node, path, a + b)
  {
  }

  /** An iteration meets the keys in the order in which rows and tables hold the children, at every node. */
  lemma {:induction false} YieldedInTreeOrder(node: Node, path: Key, t: Tree)
    requires WellFormed(node, path) && Mirrors(node, t)
    ensures InTreeOrder(node, path, Leaves(t))
    decreases t, 1
  {
    LeafMirror(node, t);
    if t.Fork? {
      TreeOrderFrom(node, path, t, 0);
      assert t.kids[0..] == t.kids;
    }
  }

  lemma {:induction false} TreeOrderFrom(node: Node, path: Key, t: Tree, i: nat)
    requires WellFormed(node, path) && Mirrors(node, t) && t.Fork? && i <= |t.kids|
    ensures InTreeOrder(node, path, LeavesOf(t.kids[i..]))
    decreases t, 0, |t.kids| - i
  {
    if i < |t.kids| {
      TreeOrderAt(node, path, t, i);
      TreeOrderFrom(node, path, t, i + 1);
      assert t.kids[i..][1..] == t.kids[i + 1..];
      forall x, y | x in Leaves(t.kids[i]) && y in LeavesOf(t.kids[i + 1..]) ensures Precedes(node, path, x.0, y.0) {
        LeavesAt(t.kids[i + 1..], y);
        var j :| 0 <= j < |t.kids[i + 1..]| && y in Leaves(t.kids[i + 1..][j]);
        ApartInOrder(node, path, t, i, i + 1 + j, x, y);
      }
      JoinedInOrder(node, path, Leaves(t.kids[i]), LeavesOf(t.kids[i + 1..]));
    }
  }

  lemma {:induction false} TreeOrderAt(node: Node, path: Key, t: Tree, i: nat)
    requires WellFormed(node, path) && Mirrors(node, t) && t.Fork? && i < |t.kids|
    ensures InTreeOrder(node, path, Leaves(t.kids[i]))
    decreases t, 0, 0
  {
    var b, c := MirrorKid(node, t, i);
    YieldedInTreeOrder(c, Stem(node, path) + [b], t.kids[i]);
    var items := Leaves(t.kids[i]);
    forall p, q | 0 <= p < q < |items| ensures Precedes(node, path, items[p].0, items[q].0) {
      assert items[p] in items && items[q] in items;
      TogetherInOrder(node, path, t, i, items[p], items[q]);
    }
  }

  lemma {:induction false} PrecedesOneWay(node: Node, path: Key, x: Key, y: Key)
    requires Precedes(node, path, x, y)
    ensures !Precedes(node, path, y, x)
    decreases node
  {
    var stem := Stem(node, path);
    if x[|stem|] == y[|stem|] {
      PrecedesOneWay(Child(node, x[|stem|]).value, stem + [x[|stem|]], x, y);
    }
  }

  /** The order leaves no choice: the same items in tree order are the same sequence. */
  lemma {:induction false} OrderOnce(node: Node, path: Key, a: seq<Item>, b: seq<Item>)
    requires InTreeOrder(node, path, a) && InTreeOrder(node, path, b) && forall x :: x in a <==> x in b
    ensures a == b
    decreases |a|
  {
    assert b != [] ==> b[0] in b;
    if a != [] {
      SameFirst(node, path, a, b);
      RestInOrder(node, path, a);
      RestInOrder(node, path, b);
      OrderOnce(node, path, a[1..], b[1..]);
      assert a == [a[0]] + a[1..] && b == [b[0]] + b[1..];
    }
  }

  lemma {:induction false} SameFirst(node: Node, path: Key, a: seq<Item>, b: seq<Item>)
    requires InTreeOrder(node, path, a) && InTreeOrder(node, path, b) && a != [] && forall x :: x in a <==> x in b
    ensures b != [] && a[0] == b[0]
  {
    assert a[0] in b && b[0] in a;
    var i :| 0 <= i < |b| && b[i] == a[0];
    var j :| 0 <= j < |a| && a[j] == b[0];
    if i > 0 && j > 0 {
      PrecedesOneWay(node, path, b[0].0, a[0].0);
    }
  }

  lemma {:induction false} RestInOrder(node: Node, path: Key, a: seq<Item>)
    requires InTreeOrder(node, path, a) && a != []
    ensures InTreeOrder(node, path, a[1..]) && forall x :: x in a[1..] <==> x in a && x != a[0]
  {
    assert a == [a[0]] + a[1..];
    forall i | 0 < i < |a| ensures a[i] != a[0] {
      if a[i] == a[0] {
        PrecedesOneWay(node, path, a[0].0, a[i].0);
      }
    }
  }

  // ---------- when the order is that of the keys ----------

  /** There is a leaf somewhere below. */
  ghost predicate BearsLeaf(node: Node) {
    exists k, v :: InLeaf(node, k, v)
  }

  /** At this node children with leaves stand in the order of their bytes. */
  ghost predicate LinedUp(node: Node)
    requires Sized(node)
  {
    forall a: byte, b: byte ::
      && Child(node, a).Some? && Child(node, b).Some? && Slot(node, a) < Slot(node, b)
      && BearsLeaf(Child(node, a).value) && BearsLeaf(Child(node, b).value)
      ==> a < b
  }

  ghost predicate LinedUpAll(node: Node) {
    node.Leaf?
    || (&& Sized(node) && LinedUp(node)
        && forall b: byte :: Child(node, b).Some? ==> LinedUpAll(Child(node, b).value))
  }

  /** An iteration is ascending exactly if children with leaves are lined up at every node. */
  lemma {:induction false} AscendingIff(node: Node, path: Key, t: Tree)
    requires WellFormed(node, path) && Mirrors(node, t)
    ensures AscendingKeys(Leaves(t)) <==> LinedUpAll(node)
    decreases t
  {
    YieldedInTreeOrder(node, path, t);
    if LinedUpAll(node) {
      LinedUpAscends(node, path, t);
    } else if AscendingKeys(Leaves(t)) {
      LeafMirror(node, t);
      AscendingLinesUp(node, path, t);
      var b: byte :| Child(node, b).Some? && !LinedUpAll(Child(node, b).value);
      var i := KidIndex(node, t, b);
      AscendingBelow(node, path, t, i);
      AscendingIff(Child(node, b).value, Stem(node, path) + [b], t.kids[i]);
    }
  }

  lemma LinedUpAscends(node: Node, path: Key, t: Tree)
    requires WellFormed(node, path) && Mirrors(node, t) && LinedUpAll(node) && InTreeOrder(node, path, Leaves(t))
    ensures AscendingKeys(Leaves(t))
  {
    var items := Leaves(t);
    forall i, j | 0 <= i < j < |items| ensures Less(items[i].0, items[j].0) {
      assert items[i] in items && items[j] in items;
      LinedUpLess(node, path, t, items[i], items[j]);
    }
  }

  lemma {:induction false} LinedUpLess(node: Node, path: Key, t: Tree, x: Item, y: Item)
    requires WellFormed(node, path) && Mirrors(node, t) && LinedUpAll(node)
    requires x in Leaves(t) && y in Leaves(t) && Precedes(node, path, x.0, y.0)
    ensures Less(x.0, y.0)
    decreases t
  {
    LeafMirror(node, t);
    LeavesAt(t.kids, x);
    LeavesAt(t.kids, y);
    var i :| 0 <= i < |t.kids| && x in Leaves(t.kids[i]);
    var j :| 0 <= j < |t.kids| && y in Leaves(t.kids[j]);
    YieldedBelow(node, path, t, i, x);
    YieldedBelow(node, path, t, j, y);
    var stem := Stem(node, path);
    var a, c := MirrorKid(node, t, i);
    var b, d := MirrorKid(node, t, j);
    assert x.0[|stem|] == a && y.0[|stem|] == b;
    if i == j {
      LinedUpLess(c, stem + [a], t.kids[i], x, y);
    } else {
      KidOrder(node, if i < j then i else j, if i < j then j else i);
      YieldedIsLeaf(c, t.kids[i], x.0, x.1);
      YieldedIsLeaf(d, t.kids[j], y.0, y.1);
      BranchOrder(stem, a, b, x.0, y.0);
    }
  }

  /** In an ascending sequence in tree order what is met first is less. */
  lemma MetFirst(node: Node, path: Key, items: seq<Item>, x: Item, y: Item)
    requires InTreeOrder(node, path, items) && AscendingKeys(items)
    requires x in items && y in items && Precedes(node, path, x.0, y.0)
    ensures Less(x.0, y.0)
  {
    var p :| 0 <= p < |items| && items[p] == x;
    var q :| 0 <= q < |items| && items[q] == y;
    PrecedesOneWay(node, path, x.0, y.0);
  }

  lemma {:induction false} AscendingLinesUp(node: Node, path: Key, t: Tree)
    requires WellFormed(node, path) && Mirrors(node, t) && !node.Leaf? && t.Fork?
    requires InTreeOrder(node, path, Leaves(t)) && AscendingKeys(Leaves(t))
    ensures LinedUp(node)
  {
    forall a: byte, b: byte | && Child(node, a).Some? && Child(node, b).Some? && Slot(node, a) < Slot(node, b)
                              && BearsLeaf(Child(node, a).value) && BearsLeaf(Child(node, b).value)
      ensures a < b
    {
      var x := LeafBelow(node, path, t, a);
      var y := LeafBelow(node, path, t, b);
      PartHere(node, path, a, b, x.0, y.0);
      MetFirst(node, path, Leaves(t), x, y);
      BranchOrder(Stem(node, path), a, b, x.0, y.0);
    }
  }

  lemma LeafBelow(node: Node, path: Key, t: Tree, b: byte) returns (x: Item)
    requires WellFormed(node, path) && Mirrors(node, t) && !node.Leaf? && t.Fork?
    requires Child(node, b).Some? && BearsLeaf(Child(node, b).value)
    ensures x in Leaves(t) && Stem(node, path) + [b] <= x.0
  {
    var i := KidIndex(node, t, b);
    var k, v :| InLeaf(Child(node, b).value, k, v);
    x := (k, v);
    YieldedIsLeaf(Child(node, b).value, t.kids[i], k, v);
    YieldedBelow(node, path, t, i, x);
    LeavesAt(t.kids, x);
  }

  lemma {:induction false} AscendingBelow(node: Node, path: Key, t: Tree, i: nat)
    requires WellFormed(node, path) && Mirrors(node, t) && t.Fork? && i < |t.kids|
    requires InTreeOrder(node, path, Leaves(t)) && AscendingKeys(Leaves(t))
    ensures AscendingKeys(Leaves(t.kids[i]))
  {
    TreeOrderAt(node, path, t, i);
    var items := Leaves(t.kids[i]);
    forall p, q | 0 <= p < q < |items| ensures Less(items[p].0, items[q].0) {
      LeavesAt(t.kids, items[p]);
      LeavesAt(t.kids, items[q]);
      MetFirst(node, path, Leaves(t), items[p], items[q]);
    }
  }

  lemma {:induction false} GrownIsSorted(node: Node, path: Key)
    requires WellFormed(node, path) && Grown(node)
    ensures SortedRows(node)
  {
    if !node.Leaf? {
      forall b: byte | Child(node, b).Some? ensures SortedRows(Child(node, b).value) {
        GrownIsSorted(Child(node, b).value, Stem(node, path) + [b]);
      }
    }
  }

  // ---------- the whole tree ----------

  /**
   An iteration yields entries of the map only, each key once, in ascending order if rows are sorted;
   it yields all of them exactly if no inner node holds a value.
   */
  lemma IterationIsContents(root: Node, contents: map<Key, Value>, t: Tree)
    requires Represents(Some(root), contents) && Mirrors(root, t)
    ensures forall item :: item in Leaves(t) ==> item.0 in contents && contents[item.0] == item.1
    ensures DistinctKeys(Leaves(t)) && (SortedRows(root) ==> AscendingKeys(Leaves(t)))
    ensures (forall k :: k in contents ==> (k, contents[k]) in Leaves(t)) <==> NoInnerValues(root)
  {
    forall item | item in Leaves(t) ensures item.0 in contents && contents[item.0] == item.1 {
      YieldedIsStored(root, [], t, item);
      assert Stores(Some(root), [], item.0, item.1);
    }
    YieldedInOrder(root, [], t);
    if NoInnerValues(root) {
      forall k | k in contents ensures (k, contents[k]) in Leaves(t) {
        assert Stores(Some(root), [], k, contents[k]);
        StoredIsYielded(root, [], t, k, contents[k]);
      }
    } else {
      var k, v := InnerValueSkipped(root, [], t);
      assert Stores(Some(root), [], k, v);
    }
  }
}
