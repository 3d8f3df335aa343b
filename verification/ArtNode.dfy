/** Nodes of the adaptive radix tree (nanograph-art/src/node.rs) and how each variant finds a child. */
module ArtNode {
  import opened Wrappers
  import opened Sets
  import opened Bytes

  datatype Header = Header(numChildren: nat, partial: Key, value: Option<Value>)

  type Slots = seq<Option<Node>>

  /** Fixed-size arrays are sequences whose length `Sized` fixes; 255 in `childIndex` means no child. */
  datatype Node =
    | Leaf(key: Key, leafValue: Value)
    | Node4(header: Header, keys: seq<byte>, children: Slots)
    | Node16(header: Header, keys: seq<byte>, children: Slots)
    | Node48(header: Header, childIndex: seq<byte>, children: Slots)
    | Node256(header: Header, children: Slots)
  {
    function Partial(): Key {
      if Leaf? then [] else header.partial
    }
  }

  // ---------- what the variants promise about their arrays ----------

  predicate Distinct(ks: seq<byte>, n: nat)
    requires n <= |ks|
  {
    forall i, j :: 0 <= i < j < n ==> ks[i] != ks[j]
  }

  predicate Ascending(ks: seq<byte>, n: nat)
    requires n <= |ks|
  {
    forall i, j :: 0 <= i < j < n ==> ks[i] < ks[j]
  }

  predicate Row(ks: seq<byte>, cs: Slots, n: nat) {
    n <= |ks| == |cs| && Distinct(ks, n) && forall i :: 0 <= i < n ==> cs[i].Some?
  }

  predicate InRange(ix: seq<byte>, cs: Slots) {
    |ix| == 256 && |cs| == 48 && forall b: byte :: ix[b] != 255 ==> ix[b] < 48 && cs[ix[b]].Some?
  }

  predicate Injective(ix: seq<byte>)
    requires |ix| == 256
  {
    forall a: byte, b: byte :: a != b && ix[a] != 255 ==> ix[a] != ix[b]
  }

  predicate Sized(node: Node) {
    match node
    case Leaf(_, _) => true
    case Node4(h, ks, cs) => |ks| == |cs| == 4 && h.numChildren <= 4
    case Node16(h, ks, cs) => |ks| == |cs| == 16 && h.numChildren <= 16
    case Node48(h, ix, cs) => InRange(ix, cs)
    case Node256(h, cs) => |cs| == 256
  }

  /** The first of the positions `i`, `i + 1`, ..., `n - 1` that holds `b`, or `n`. */
  function IndexOf(ks: seq<byte>, i: nat, n: nat, b: byte): (r: nat)
    requires i <= n <= |ks|
    ensures i <= r <= n && (r < n ==> ks[r] == b)
    ensures forall j :: i <= j < r ==> ks[j] != b
    decreases n - i
  {
    if i == n || ks[i] == b then i else IndexOf(ks, i + 1, n, b)
  }

  function RowChild(ks: seq<byte>, cs: Slots, n: nat, b: byte): (r: Option<Node>)
    requires n <= |ks| == |cs|
    ensures r.Some? ==> r in cs
  {
    var i := IndexOf(ks, 0, n, b);
    if i < n then cs[i] else None
  }

  /** The child filed under byte `b`. */
  function Child(node: Node, b: byte): (r: Option<Node>)
    requires Sized(node)
    ensures r.Some? ==> r.value < node
  {
    match node
    case Leaf(_, _) => None
    case Node4(h, ks, cs) => RowChild(ks, cs, h.numChildren, b)
    case Node16(h, ks, cs) => RowChild(ks, cs, h.numChildren, b)
    case Node48(h, ix, cs) => if ix[b] != 255 then cs[ix[b]] else None
    case Node256(h, cs) => cs[b]
  }

  function ChildBytes(node: Node): set<byte>
    requires Sized(node)
  {
    set b: byte | 0 <= b < 256 && Child(node, b).Some?
  }

  /** A node by itself is in order: what find_child and the array edits rely on. */
  predicate Fit(node: Node) {
    && Sized(node)
    && match node
       case Leaf(_, _) => true
       case Node4(h, ks, cs) => Row(ks, cs, h.numChildren)
       case Node16(h, ks, cs) => Row(ks, cs, h.numChildren) && Ascending(ks, h.numChildren)
       case Node48(h, ix, cs) => Injective(ix) && h.numChildren == |ChildBytes(node)|
       case Node256(h, cs) => h.numChildren == |ChildBytes(node)|
  }

  lemma IndexUnique(ks: seq<byte>, n: nat, i: nat)
    requires i < n <= |ks| && Distinct(ks, n)
    ensures IndexOf(ks, 0, n, ks[i]) == i
  {
  }

  /** The binary search of a Node16, on any row. */
  function BinarySearch(ks: seq<byte>, left: nat, right: nat, b: byte): (r: Option<nat>)
    requires left <= right <= |ks|
    ensures r.Some? ==> left <= r.value < right && ks[r.value] == b
    decreases right - left
  {
    if left == right then None
    else
      var mid := (left + right) / 2;
      if ks[mid] < b then BinarySearch(ks, mid + 1, right, b)
      else if ks[mid] > b then BinarySearch(ks, left, mid, b)
      else Some(mid)
  }

  /** What the search for a child returns on any node, in order or not. */
  function Found(node: Node, b: byte): (r: Option<Node>)
    requires Sized(node)
    ensures r.Some? ==> r.value < node
  {
    match node
    case Node16(h, ks, cs) =>
      var i := BinarySearch(ks, 0, h.numChildren, b);
      if i.Some? then cs[i.value] else None
    case _ => Child(node, b)
  }

  lemma {:induction false} SearchHits(ks: seq<byte>, left: nat, right: nat, i: nat)
    requires left <= i < right <= |ks| && Ascending(ks, right)
    ensures BinarySearch(ks, left, right, ks[i]) == Some(i)
    decreases right - left
  {
    var mid := (left + right) / 2;
    if i > mid {
      SearchHits(ks, mid + 1, right, i);
    } else if i < mid {
      SearchHits(ks, left, mid, i);
    }
  }

  /** Two positions that are both found are in order: the search parts them somewhere in between. */
  lemma {:induction false} HitsAscend(ks: seq<byte>, left: nat, right: nat, i: nat, j: nat)
    requires left <= i < j < right <= |ks|
    requires BinarySearch(ks, left, right, ks[i]) == Some(i) && BinarySearch(ks, left, right, ks[j]) == Some(j)
    ensures ks[i] < ks[j]
    decreases right - left
  {
    var mid := (left + right) / 2;
    if i > mid {
      HitsAscend(ks, mid + 1, right, i, j);
    } else if j < mid {
      HitsAscend(ks, left, mid, i, j);
    }
  }

  /** Binary search finds every byte of a row if and only if the row is ascending. */
  lemma SearchFindsAllIff(ks: seq<byte>, n: nat)
    requires n <= |ks|
    ensures (forall i :: 0 <= i < n ==> BinarySearch(ks, 0, n, ks[i]) == Some(i)) <==> Ascending(ks, n)
  {
    if Ascending(ks, n) {
      forall i | 0 <= i < n ensures BinarySearch(ks, 0, n, ks[i]) == Some(i) {
        SearchHits(ks, 0, n, i);
      }
    } else if forall i :: 0 <= i < n ==> BinarySearch(ks, 0, n, ks[i]) == Some(i) {
      forall i, j | 0 <= i < j < n ensures ks[i] < ks[j] {
        HitsAscend(ks, 0, n, i, j);
      }
    }
  }

  /** On a node in order the search finds the child filed under the byte. */
  lemma FoundIsChild(node: Node, b: byte)
    requires Fit(node)
    ensures Found(node, b) == Child(node, b)
  {
    if node.Node16? {
      var ks, n := node.keys, node.header.numChildren;
      var i := IndexOf(ks, 0, n, b);
      if i < n {
        SearchHits(ks, 0, n, i);
      }
    }
  }

  /** A linear scan, a binary search, an index table and a direct table. */
  method FindChild(node: Node, b: byte) returns (r: Option<Node>)
    requires Sized(node)
    ensures r == Found(node, b)
    ensures Fit(node) ==> r == Child(node, b)
  {
    if Fit(node) {
      FoundIsChild(node, b);
    }
    match node
    case Leaf(_, _) =>
      r := None;
    case Node4(h, ks, cs) =>
      for i := 0 to h.numChildren
        invariant forall j :: 0 <= j < i ==> ks[j] != b
      {
        if ks[i] == b {
          return cs[i];
        }
      }
      r := None;
    case Node16(h, ks, cs) =>
      var left, right := 0, h.numChildren;
      while left < right
        invariant 0 <= left <= right <= h.numChildren
        invariant BinarySearch(ks, left, right, b) == BinarySearch(ks, 0, h.numChildren, b)
      {
        var mid := (left + right) / 2;
        if ks[mid] < b {
          left := mid + 1;
        } else if ks[mid] > b {
          right := mid;
        } else {
          return cs[mid];
        }
      }
      r := None;
    case Node48(h, ix, cs) =>
      r := if ix[b] != 255 then cs[ix[b]] else None;
    case Node256(h, cs) =>
      r := cs[b];
  }

  // ---------- counting children ----------

  /** The live bytes of a row are as many as its positions. */
  lemma {:induction false} RowCount(ks: seq<byte>, n: nat, bytes: set<byte>)
    requires n <= |ks| && Distinct(ks, n)
    requires forall b :: b in bytes <==> exists i :: 0 <= i < n && ks[i] == b
    ensures |bytes| == n
  {
    if n == 0 {
      assert bytes == {};
    } else {
      var last := ks[n - 1];
      assert last in bytes;
      forall b ensures b in bytes - {last} <==> exists i :: 0 <= i < n - 1 && ks[i] == b {
      }
      RowCount(ks, n - 1, bytes - {last});
    }
  }

  lemma CountIsExact(node: Node)
    requires Fit(node) && !node.Leaf?
    ensures node.header.numChildren == |ChildBytes(node)|
  {
    if node.Node4? || node.Node16? {
      var ks, n := node.keys, node.header.numChildren;
      forall b: byte
        ensures b in ChildBytes(node) <==> exists i :: 0 <= i < n && ks[i] == b
      {
        var i := IndexOf(ks, 0, n, b);
      }
      RowCount(ks, n, ChildBytes(node));
    }
  }

  /** The bytes below `n`, of which there are `n`. */
  function BytesBelow(n: nat): (s: set<byte>)
    requires n <= 256
    ensures |s| == n && forall b: byte :: b in s <==> b < n
  {
    if n == 0 then {} else BytesBelow(n - 1) + {n - 1 as byte}
  }

  /** A node that lacks a byte has room left. */
  lemma MissingByte(node: Node, b: byte)
    requires Fit(node) && !node.Leaf? && Child(node, b).None?
    ensures node.header.numChildren < 256
  {
    CountIsExact(node);
    assert b in BytesBelow(256);
    SubsetSize(ChildBytes(node), BytesBelow(256) - {b});
  }

  // ---------- one child changed ----------

  /** `n2` is `n1` with `c` as the child for `b`; the layout may be another one. */
  predicate Updated(n1: Node, n2: Node, b: byte, c: Option<Node>)
    requires Sized(n1) && !n1.Leaf?
  {
    && Fit(n2) && !n2.Leaf? && n2.header.partial == n1.header.partial && n2.header.value == n1.header.value
    && forall x: byte :: Child(n2, x) == if x == b then c else Child(n1, x)
  }
}
