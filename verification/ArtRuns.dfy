/** Short runs of insertions into an empty adaptive radix tree that go wrong. */
module ArtRuns {
  import opened Wrappers
  import opened Bytes
  import opened ArtNode
  import opened ArtLayout
  import opened ArtModel
  import opened ArtInsert
  import opened ArtReads
  import opened ArtIter
  import opened ArtScan
  import opened Art

  function Twig(b: byte, v: Value): Node {
    Leaf([b], v)
  }

  /** The root after 2, 1, 3 and 4 have arrived, up to the first `n` of them. */
  function Branches(n: nat, v: Value): Node
    requires 2 <= n <= 4
  {
    Node4(Header(n, [], None), [2, 1, if n > 2 then 3 else 0, if n > 3 then 4 else 0],
          [Some(Twig(2, v)), Some(Twig(1, v)), if n > 2 then Some(Twig(3, v)) else None,
           if n > 3 then Some(Twig(4, v)) else None])
  }

  /** The second leaf is appended after the first although its byte is the smaller one. */
  lemma TwoThenOne(v: Value)
    ensures Inserted(Twig(2, v), [], [1], v) == Ok((Branches(2, v), None))
  {
    var n := TwoChildren([], 2, Twig(2, v), 1, Twig(1, v));
    assert n.keys == Branches(2, v).keys && n.children == Branches(2, v).children;
  }

  /** The next larger byte is sorted in at the end of the row. */
  lemma RowGrows(n: nat, v: Value)
    requires 2 <= n <= 3
    ensures AddedRow(Branches(n, v), n + 1, Twig(n + 1, v)) == Branches(n + 1, v)
  {
    var node, b := Branches(n, v), n + 1;
    assert InsertPos(node.keys, 0, n, b) == n;
    var ks, cs := ShiftIn(node.keys, n, n, b), ShiftIn(node.children, n, n, Some(Twig(b, v)));
    assert ks == Branches(n + 1, v).keys;
    assert cs == Branches(n + 1, v).children;
  }

  lemma OneMore(n: nat, v: Value)
    requires 2 <= n <= 3 && WellFormed(Branches(n, v), [])
    ensures Inserted(Branches(n, v), [], [n + 1], v) == Ok((Branches(n + 1, v), None))
    ensures InsertSafe(Branches(n, v), [], [n + 1])
  {
    var node, b := Branches(n, v), n + 1;
    assert Stem(node, []) == [];
    assert IndexOf(node.keys, 0, n, b) == n;
    RowGrows(n, v);
  }

  /** The search for 2 among 2, 1, 3, 4 and 5 goes left of 3 and right of 1. */
  lemma FiveHidesTwo(v: Value)
    requires WellFormed(Branches(4, v), [])
    ensures var after := Inserted(Branches(4, v), [], [5], v);
            after.Ok? && Navigable(after.value.0) && Fetch(after.value.0, [], [2]) == None
  {
    var node := Branches(4, v);
    assert Stem(node, []) == [];
    assert IndexOf(node.keys, 0, 4, 5) == 4;
    IndexUnique(node.keys, 4, 0);
    FiveLosesTwo(v);
    AddedAnswers(node, [], 5, [5], v);
    assert Lost(node, 5, [2][0]);
  }

  lemma FiveLosesTwo(v: Value)
    ensures Lost(Branches(4, v), 5, 2)
  {
    var node := Branches(4, v);
    var ks := Widened16(node).keys;
    assert ks[0] == 2 && ks[1] == 1 && ks[2] == 3 && ks[3] == 4;
    assert InsertPos(ks, 0, 4, 5) == 4;
    var row := FiveBytes(node, 5);
    assert row[0] == 2 && row[1] == 1 && row[2] == 3;
    assert BinarySearch(row, 2, 2, 2) == None;
    assert BinarySearch(row, 0, 2, 2) == BinarySearch(row, 2, 2, 2);
    assert BinarySearch(row, 0, 5, 2) == BinarySearch(row, 0, 2, 2);
  }

  method First(key: Key, v: Value) returns (tree: AdaptiveRadixTree)
    requires key != []
    ensures fresh(tree) && tree.Valid() && tree.root == Some(Leaf(key, v)) && tree.contents == map[key := v]
  {
    tree := new AdaptiveRadixTree();
    var before := tree.Insert(key, v);
  }

  /** A second key next to a single leaf. */
  method Second(tree: AdaptiveRadixTree, leaf: Node, key: Key, v: Value, ghost r: Node)
    requires leaf.Leaf? && tree.Valid() && tree.root == Some(leaf) && key != []
    requires Inserted(leaf, [], key, v) == Ok((r, None))
    modifies tree
    ensures tree.Valid() && tree.root == Some(r) && tree.contents == old(tree.contents)[key := v]
  {
    var before := tree.Insert(key, v);
  }

  method TwoAndOne(v: Value) returns (tree: AdaptiveRadixTree)
    ensures fresh(tree) && tree.Valid() && tree.root == Some(Branches(2, v)) && tree.contents == map[[2] := v][[1] := v]
  {
    tree := First([2], v);
    TwoThenOne(v);
    Second(tree, Twig(2, v), [1], v, Branches(2, v));
  }

  method Next(tree: AdaptiveRadixTree, n: nat, v: Value)
    requires 2 <= n <= 3 && tree.Valid() && tree.root == Some(Branches(n, v))
    modifies tree
    ensures tree.Valid() && tree.root == Some(Branches(n + 1, v)) && tree.contents == old(tree.contents)[[n + 1] := v]
  {
    OneMore(n, v);
    var before := tree.Insert([n + 1], v);
  }

  method FifthHides(tree: AdaptiveRadixTree, v: Value) returns (r: Option<Value>)
    requires tree.Valid() && tree.root == Some(Branches(4, v))
    modifies tree
    ensures tree.contents == old(tree.contents)[[5] := v] && tree.size == |tree.contents| && r == None
  {
    FiveHidesTwo(v);
    var before := tree.Insert([5], v);
    r := tree.Get([2]);
  }

  /** After 2, 1, 3, 4 and 5, in this order, the key 2 is gone. */
  method UnsortedRun(v: Value) returns (tree: AdaptiveRadixTree, r: Option<Value>)
    ensures tree.contents == map[[2] := v][[1] := v][[3] := v][[4] := v][[5] := v] && tree.size == |tree.contents|
            && r == None
  {
    tree := TwoAndOne(v);
    Next(tree, 2, v);
    Next(tree, 3, v);
    r := FifthHides(tree, v);
  }

  /** "abc" and "abd" share the stem "ab". */
  lemma SharedStem(v: Value)
    ensures var c, d := Leaf([97, 98, 99], v), Leaf([97, 98, 100], v);
            Inserted(c, [], d.key, v) == Ok((TwoChildren([97, 98], 99, c, 100, d), None))
  {
    var c, d: Key := [97, 98, 99], [97, 98, 100];
    assert Matching(c, d, 0, 1) == 2 && Matching(c, d, 0, 0) == 2;
    assert c[0..2] == [97, 98];
  }

  method SharedPair(v: Value) returns (tree: AdaptiveRadixTree)
    ensures fresh(tree) && tree.Valid() && tree.contents == map[[97, 98, 99] := v][[97, 98, 100] := v]
    ensures tree.root == Some(TwoChildren([97, 98], 99, Leaf([97, 98, 99], v), 100, Leaf([97, 98, 100], v)))
  {
    tree := First([97, 98, 99], v);
    SharedStem(v);
    Second(tree, Leaf([97, 98, 99], v), [97, 98, 100], v,
           TwoChildren([97, 98], 99, Leaf([97, 98, 99], v), 100, Leaf([97, 98, 100], v)));
  }

  /** After "abc" and "abd" the key "a" ends inside a partial key: the insertion panics and every key is gone. */
  method PrefixRun(v: Value) returns (tree: AdaptiveRadixTree, r: Result<Option<Value>>, left: Option<Value>)
    ensures r.Err? && left == None && [97, 98, 99] in tree.contents
  {
    tree := SharedPair(v);
    assert Matching([97, 98], [97], 0, 0) == 1;
    r := tree.Insert([97], v);
    left := tree.Get([97, 98, 99]);
  }

  // ---------- a hole in a table ----------

  ghost predicate Counting(ks: seq<byte>, n: nat) {
    n <= |ks| && forall i :: 0 <= i < n ==> ks[i] == i + 1
  }

  /** The root after the bytes 1, 2, ..., `n` have arrived in order: byte `x` stands at position `x - 1`. */
  ghost predicate Ranked(node: Node, n: nat, v: Value) {
    && 2 <= n <= 48 && Fit(node) && !node.Leaf? && node.header == Header(n, [], None)
    && (node.Node4? <==> n <= 4) && (node.Node16? <==> 4 < n <= 16) && (node.Node48? <==> 16 < n)
    && (n <= 16 ==> Counting(node.keys, n))
    && (n > 16 ==> forall x: byte :: 1 <= x <= n ==> node.childIndex[x] == x - 1)
    && forall x: byte :: Child(node, x) == if 1 <= x <= n then Some(Twig(x, v)) else None
  }

  lemma RankedTwo(v: Value)
    ensures Inserted(Twig(1, v), [], [2], v) == Ok((TwoChildren([], 1, Twig(1, v), 2, Twig(2, v)), None))
    ensures Ranked(TwoChildren([], 1, Twig(1, v), 2, Twig(2, v)), 2, v)
  {
    TwoChildrenFit([], 1, Twig(1, v), 2, Twig(2, v));
    assert Matching([1], [2], 0, 0) == 0;
    assert [1][0..0] == [];
  }

  /** The next byte goes to the end of the row or the table. */
  lemma RankedRow(node: Node, n: nat, v: Value)
    requires Ranked(node, n, v) && n < 16
    ensures var r := Added(node, n + 1, Twig(n + 1, v));
            && r.header.numChildren == n + 1 && (r.Node4? <==> n < 4) && (r.Node16? <==> n >= 4)
            && Counting(r.keys, n + 1)
  {
    var row := if n == 4 then Widened16(node) else node;
    assert Counting(row.keys, n);
    RowCounts(row, n, Twig(n + 1, v));
  }

  lemma RowCounts(row: Node, n: byte, c: Node)
    requires (row.Node4? || row.Node16?) && Sized(row) && n == row.header.numChildren < |row.keys|
             && Counting(row.keys, n)
    ensures Counting(AddedRow(row, n + 1, c).keys, n + 1)
  {
    assert InsertPos(row.keys, 0, n, n + 1) == n;
  }

  lemma RankedTable(node: Node, n: nat, v: Value)
    requires Ranked(node, n, v) && 16 <= n < 48
    ensures var r := Added(node, n + 1, Twig(n + 1, v));
            && r.Node48? && r.header.numChildren == n + 1
            && forall x: byte :: 1 <= x <= n + 1 ==> r.childIndex[x] == x - 1
  {
    var table := if n == 16 then Widened48(node) else node;
    forall x: byte | 1 <= x <= n ensures table.childIndex[x] == x - 1 {
      if n == 16 {
        IndexUnique(node.keys, 16, x - 1);
        assert node.keys[x - 1] == x;
        assert table.childIndex[x] == Position(node.keys, 16, x);
      }
    }
  }

  lemma RankedOrderly(node: Node, n: nat, v: Value)
    requires Ranked(node, n, v)
    ensures Orderly(node)
  {
    if node.Node48? {
      forall b: byte | node.childIndex[b] != 255 ensures node.childIndex[b] < n {
        assert Child(node, b).Some?;
      }
    }
  }

  lemma RankedNext(node: Node, n: nat, v: Value)
    requires Ranked(node, n, v) && n < 48
    ensures RoomFor(node) && Ranked(Added(node, n + 1, Twig(n + 1, v)), n + 1, v)
  {
    RankedOrderly(node, n, v);
    AddedIs(node, n + 1, Twig(n + 1, v));
    if n < 16 {
      RankedRow(node, n, v);
    } else {
      RankedTable(node, n, v);
    }
    RankedAgain(node, n, v, Added(node, n + 1, Twig(n + 1, v)));
  }

  lemma RankedAgain(node: Node, n: nat, v: Value, r: Node)
    requires Ranked(node, n, v) && n < 48 && Updated(node, r, n + 1, Some(Twig(n + 1, v)))
             && r.header.numChildren == n + 1
    requires (r.Node4? <==> n < 4) && (r.Node16? <==> 4 <= n < 16) && (r.Node48? <==> 16 <= n)
    requires n < 16 ==> Counting(r.keys, n + 1)
    requires n >= 16 ==> forall x: byte :: 1 <= x <= n + 1 ==> r.childIndex[x] == x - 1
    ensures Ranked(r, n + 1, v)
  {
    assert r.header == Header(n + 1, [], None);
  }

  /** A key of one byte goes straight to a root without a partial key. */
  lemma RootInsert(node: Node, b: byte, v: Value)
    requires WellFormed(node, []) && !node.Leaf? && node.header.partial == [] && Child(node, b).None?
    ensures Inserted(node, [], [b], v) == Ok((Added(node, b, Twig(b, v)), None))
    ensures InsertSafe(node, [], [b]) <==> RoomFor(node)
  {
    assert Stem(node, []) == [];
  }

  method RankedInsert(tree: AdaptiveRadixTree, n: nat, v: Value)
    requires tree.Valid() && tree.root.Some? && Ranked(tree.root.value, n, v) && n < 48
    modifies tree
    ensures tree.Valid() && tree.root.Some? && Ranked(tree.root.value, n + 1, v)
    ensures tree.contents == old(tree.contents)[[n + 1] := v]
  {
    RankedNext(tree.root.value, n, v);
    RootInsert(tree.root.value, n + 1, v);
    var before := tree.Insert([n + 1], v);
  }

  method RankedTree(m: nat, v: Value) returns (tree: AdaptiveRadixTree)
    requires 2 <= m <= 48
    ensures fresh(tree) && tree.Valid() && tree.root.Some? && Ranked(tree.root.value, m, v) && [m] in tree.contents
  {
    tree := First([1], v);
    RankedTwo(v);
    Second(tree, Twig(1, v), [2], v, TwoChildren([], 1, Twig(1, v), 2, Twig(2, v)));
    for n := 2 to m
      invariant fresh(tree) && tree.Valid() && tree.root.Some? && Ranked(tree.root.value, n, v) && [n] in tree.contents
    {
      RankedInsert(tree, n, v);
    }
  }

  /** Removing one byte of a ranked table leaves what `Left48` says. */
  method RankedRemove(tree: AdaptiveRadixTree, m: nat, b: byte, v: Value, ghost node: Node)
    requires tree.Valid() && tree.root == Some(node) && Ranked(node, m, v) && 17 <= m && 1 <= b < m
             && [m] in tree.contents
    modifies tree
    ensures tree.Valid() && tree.root.Some? && Left48(node, b, tree.root.value) && [m] in tree.contents
  {
    assert Stem(node, []) == [] && AtNode48(node, [], [b]);
    var removed := tree.Remove([b]);
  }

  /** The byte above all others hides the last one, unless the table has become a row. */
  lemma RankedHole(node: Node, m: nat, b: byte, left: Node, v: Value)
    requires Ranked(node, m, v) && WellFormed(node, []) && 17 <= m && 1 <= b < m && Left48(node, b, left)
    requires WellFormed(left, [])
    ensures var after := Inserted(left, [], [m + 1], v);
            && after.Ok? && Navigable(after.value.0)
            && Fetch(after.value.0, [], [m]) == if m == 17 then Some(v) else None
  {
    Drop48(node, b);
    assert Stem(node, []) == [] && HoldsVia(node, [], m, [m], v);
    RootInsert(left, m + 1, v);
    HoleHides(node, [], b, left, m + 1, [m + 1], v, m, [m], v);
  }

  /**
   The keys 1 to `m` go in, `b` comes out and `m + 1` goes in. From 18 keys on the key `m` is stored and gone;
   with 17 the removal has shrunk the table to a row and nothing is lost.
   */
  method HoleRun(m: nat, b: byte, v: Value) returns (tree: AdaptiveRadixTree, r: Option<Value>)
    requires 17 <= m <= 48 && 1 <= b < m
    ensures [m] in tree.contents && tree.size == |tree.contents| && r == if m == 17 then Some(v) else None
  {
    tree := RankedTree(m, v);
    ghost var node := tree.root.value;
    RankedRemove(tree, m, b, v, node);
    RankedHole(node, m, b, tree.root.value, v);
    var before := tree.Insert([m + 1], v);
    r := tree.Get([m]);
  }

  // ---------- a value the iterator skips ----------

  /** The key [1] becomes the value of the inner node above [1, 2]. */
  lemma ValueAbove(v: Value)
    ensures Inserted(Twig(1, v), [], [1, 2], v) == Ok((OneChild([1], Some(v), 2, Leaf([1, 2], v)), None))
  {
    assert Matching([1], [1, 2], 0, 1) == 1 && Matching([1], [1, 2], 0, 0) == 1;
    assert [1][0..1] == [1];
  }

  /** The one leaf below the value is all there is to yield. */
  lemma OnlyLeaf(items: seq<Item>, v: Value)
    requires DistinctKeys(items)
    requires forall k, w :: (k, w) in items <==> InLeaf(OneChild([1], Some(v), 2, Leaf([1, 2], v)), k, w)
    ensures items == [([1, 2], v)]
  {
    var node, leaf := OneChild([1], Some(v), 2, Leaf([1, 2], v)), Leaf([1, 2], v);
    OneChildFit([1], Some(v), 2, leaf);
    assert Child(node, 2) == Some(leaf) && InLeaf(leaf, [1, 2], v);
    forall k, w ensures (k, w) in items <==> k == [1, 2] && w == v {
      assert InLeaf(node, k, w) <==> InLeaf(leaf, k, w);
    }
    assert ([1, 2], v) in items && (|items| > 1 ==> items[0].0 != items[1].0);
    assert forall i :: 0 <= i < |items| ==> items[i] in items && items[i] == (items[i].0, items[i].1);
  }

  /** After [1] and [1, 2] both keys can be read, and an iteration yields [1, 2] alone. */
  method SkippedRun(v: Value) returns (tree: AdaptiveRadixTree, r: Option<Value>, items: seq<Item>)
    ensures tree.contents == map[[1] := v][[1, 2] := v] && r == Some(v) && items == [([1, 2], v)]
  {
    tree := First([1], v);
    ValueAbove(v);
    Second(tree, Twig(1, v), [1, 2], v, OneChild([1], Some(v), 2, Leaf([1, 2], v)));
    r := tree.Get([1]);
    items := tree.Items();
    OnlyLeaf(items, v);
  }

  // ---------- the order of an iteration ----------

  lemma BranchSlots(v: Value)
    ensures var node := Branches(3, v);
            Sized(node) && forall x: byte :: Child(node, x) == if 1 <= x <= 3 then Some(Twig(x, v)) else None
    ensures Slot(Branches(3, v), 2) == 0 && Slot(Branches(3, v), 1) == 1 && Slot(Branches(3, v), 3) == 2
  {
    var node := Branches(3, v);
    IndexUnique(node.keys, 3, 0);
    IndexUnique(node.keys, 3, 1);
    IndexUnique(node.keys, 3, 2);
    forall x: byte ensures Child(node, x) == if 1 <= x <= 3 then Some(Twig(x, v)) else None {
      var i := IndexOf(node.keys, 0, 3, x);
    }
  }

  /** The leaves of the row [2, 1, 3] are met in this order. */
  lemma RowOrder(items: seq<Item>, v: Value)
    requires DistinctKeys(items) && InTreeOrder(Branches(3, v), [], items)
    requires forall k, w :: (k, w) in items <==> InLeaf(Branches(3, v), k, w)
    ensures items == [([2], v), ([1], v), ([3], v)]
  {
    var node := Branches(3, v);
    BranchSlots(v);
    forall k, w ensures (k, w) in items <==> k in {[1], [2], [3]} && w == v {
      assert forall x: byte :: 1 <= x <= 3 ==> (InLeaf(Twig(x, v), k, w) <==> k == [x] && w == v);
      assert Child(node, 1).Some? && Child(node, 2).Some? && Child(node, 3).Some?;
    }
    var row := [([2], v), ([1], v), ([3], v)];
    assert Stem(node, []) == [] && InTreeOrder(node, [], row);
    forall x ensures x in items <==> x in row {
      assert x == (x.0, x.1);
    }
    OrderOnce(node, [], items, row);
  }

  /** After [2], [1] and [3] an iteration yields them as they stand in the row, not in key order. */
  method RowRun(v: Value) returns (tree: AdaptiveRadixTree, items: seq<Item>)
    ensures tree.contents == map[[2] := v][[1] := v][[3] := v] && items == [([2], v), ([1], v), ([3], v)]
  {
    tree := TwoAndOne(v);
    Next(tree, 2, v);
    items := tree.Items();
    RowOrder(items, v);
  }
}
