/**
 Array edits of the inner nodes: adding, replacing and dropping a child, growing and shrinking
 (nanograph-art/src/tree.rs).
 */
module ArtLayout {
  import opened Wrappers
  import opened Sets
  import opened Bytes
  import opened ArtNode

  // ---------- rows of Node4 and Node16 ----------

  /** `s2` holds `x` at `p`, what was below `p` in place and what was at `p..n` one position up. */
  ghost predicate ShiftedIn<T>(s: seq<T>, s2: seq<T>, n: nat, p: nat, x: T)
    requires p <= n < |s|
  {
    && |s2| == |s| && s2[p] == x
    && (forall i :: 0 <= i < p ==> s2[i] == s[i])
    && (forall i :: p <= i < n ==> s2[i + 1] == s[i])
    && (forall i :: p < i <= n ==> s2[i] == s[i - 1])
  }

  function ShiftIn<T>(s: seq<T>, n: nat, p: nat, x: T): (r: seq<T>)
    requires p <= n < |s|
    ensures ShiftedIn(s, r, n, p, x)
  {
    s[..p] + [x] + s[p..n] + s[n + 1..]
  }

  /** Every element from `i` up to `n` has moved one position up; the gap is at `i`. */
  ghost predicate Moving<T>(s: seq<T>, s2: seq<T>, n: nat, i: nat)
    requires i <= n < |s|
  {
    && |s2| == |s| && (forall j :: 0 <= j < i ==> s2[j] == s[j])
    && (forall j :: i < j <= n ==> s2[j] == s[j - 1]) && (forall j :: n < j < |s| ==> s2[j] == s[j])
  }

  lemma Moved<T>(s: seq<T>, s2: seq<T>, n: nat, p: nat, x: T)
    requires p <= n < |s| && Moving(s, s2, n, p)
    ensures s2[p := x] == ShiftIn(s, n, p, x)
  {
  }

  lemma MoveOne<T>(s: seq<T>, s2: seq<T>, n: nat, i: nat)
    requires i < n < |s| && Moving(s, s2, n, i + 1)
    ensures Moving(s, s2[i + 1 := s2[i]], n, i)
  {
  }

  /** `s2` holds what was below `p` in place and what was at `p + 1..n` one position down. */
  ghost predicate ShiftedOut<T>(s: seq<T>, s2: seq<T>, n: nat, p: nat)
    requires p < n <= |s|
  {
    && |s2| == |s|
    && (forall i :: 0 <= i < p ==> s2[i] == s[i])
    && (forall i :: p < i < n ==> s2[i - 1] == s[i])
    && (forall i :: p <= i < n - 1 ==> s2[i] == s[i + 1])
  }

  /** Where a sorted insertion puts `b`: before the first larger byte. */
  function InsertPos(ks: seq<byte>, i: nat, n: nat, b: byte): (p: nat)
    requires i <= n <= |ks|
    ensures i <= p <= n && (forall j :: i <= j < p ==> ks[j] <= b) && (p < n ==> ks[p] > b)
    decreases n - i
  {
    if i == n || ks[i] > b then i else InsertPos(ks, i + 1, n, b)
  }

  method InsertSorted(keys: seq<byte>, children: Slots, n: nat, b: byte, c: Node) returns (ks: seq<byte>, cs: Slots)
    requires Row(keys, children, n) && n < |keys|
    ensures ks == ShiftIn(keys, n, InsertPos(keys, 0, n, b), b)
    ensures cs == ShiftIn(children, n, InsertPos(keys, 0, n, b), Some(c))
  {
    ks, cs := keys, children;
    var insertPos := n;
    for i := 0 to n
      invariant insertPos == n && i <= InsertPos(keys, 0, n, b)
    {
      if ks[i] > b {
        insertPos := i;
        break;
      }
    }
    if insertPos < n {
      for i := n downto insertPos
        invariant Moving(keys, ks, n, i) && Moving(children, cs, n, i)
      {
        MoveOne(keys, ks, n, i);
        MoveOne(children, cs, n, i);
        ks := ks[i + 1 := ks[i]];
        cs := cs[i + 1 := cs[i]];
      }
    }
    Moved(keys, ks, n, insertPos, b);
    Moved(children, cs, n, insertPos, Some(c));
    ks := ks[insertPos := b];
    cs := cs[insertPos := Some(c)];
  }

  lemma {:induction false} SortedInserted(ks: seq<byte>, n: nat, p: nat, b: byte, ks2: seq<byte>)
    requires p <= n < |ks| && Distinct(ks, n) && IndexOf(ks, 0, n, b) == n
    requires (forall i :: 0 <= i < p ==> ks[i] <= b) && (p < n ==> ks[p] > b) && ShiftedIn(ks, ks2, n, p, b)
    ensures Distinct(ks2, n + 1)
    ensures Ascending(ks, n) <==> Ascending(ks2, n + 1)
  {
    if Ascending(ks2, n + 1) {
      forall i, j | 0 <= i < j < n ensures ks[i] < ks[j] {
        assert ks2[if i < p then i else i + 1] < ks2[if j < p then j else j + 1];
      }
    }
  }

  lemma {:induction false} RowInserted(ks: seq<byte>, cs: Slots, n: nat, p: nat, b: byte, c: Node, ks2: seq<byte>,
                                       cs2: Slots)
    requires Row(ks, cs, n) && n < |ks| && p <= n && IndexOf(ks, 0, n, b) == n
    requires ShiftedIn(ks, ks2, n, p, b) && ShiftedIn(cs, cs2, n, p, Some(c)) && Distinct(ks2, n + 1)
    ensures Row(ks2, cs2, n + 1)
    ensures forall x: byte :: RowChild(ks2, cs2, n + 1, x) == if x == b then Some(c) else RowChild(ks, cs, n, x)
  {
    forall x: byte
      ensures RowChild(ks2, cs2, n + 1, x) == if x == b then Some(c) else RowChild(ks, cs, n, x)
    {
      var i := IndexOf(ks, 0, n, x);
      if x == b {
        IndexUnique(ks2, n + 1, p);
      } else if i < n {
        IndexUnique(ks2, n + 1, if i < p then i else i + 1);
      }
    }
  }

  method DropShift(keys: seq<byte>, children: Slots, n: nat, b: byte) returns (ks: seq<byte>, cs: Slots, m: nat)
    requires Row(keys, children, n) && IndexOf(keys, 0, n, b) < n
    ensures m == n - 1
    ensures ShiftedOut(keys, ks, n, IndexOf(keys, 0, n, b))
    ensures |cs| == |children| && cs[n - 1].None?
    ensures ShiftedOut(children, cs, n, IndexOf(keys, 0, n, b))
  {
    ks, cs, m := keys, children, n;
    ghost var p := IndexOf(keys, 0, n, b);
    for i := 0 to n
      invariant ks == keys && cs == children && m == n && i <= p
    {
      if ks[i] == b {
        for j := i to n - 1
          invariant |ks| == |keys| && |cs| == |children|
          invariant forall k :: 0 <= k < i ==> ks[k] == keys[k] && cs[k] == children[k]
          invariant forall k :: i <= k < j ==> ks[k] == keys[k + 1] && cs[k] == children[k + 1]
          invariant forall k :: j <= k < n ==> ks[k] == keys[k] && cs[k] == children[k]
        {
          ks := ks[j := ks[j + 1]];
          cs := cs[j := cs[j + 1]];
        }
        cs := cs[n - 1 := None];
        m := n - 1;
        return;
      }
    }
  }

  lemma {:induction false} RowShifted(ks: seq<byte>, cs: Slots, n: nat, p: nat, ks2: seq<byte>, cs2: Slots)
    requires Row(ks, cs, n) && |cs2| == |ks2| == |ks| && p < n && ShiftedOut(ks, ks2, n, p) && ShiftedOut(cs, cs2, n, p)
    ensures Row(ks2, cs2, n - 1) && (Ascending(ks, n) ==> Ascending(ks2, n - 1))
  {
    assert forall i :: 0 <= i < n - 1 ==> ks2[i] == ks[if i < p then i else i + 1];
    assert forall i :: 0 <= i < n - 1 ==> cs2[i] == cs[if i < p then i else i + 1];
  }

  lemma {:induction false} RowDroppedAt(ks: seq<byte>, cs: Slots, n: nat, b: byte, ks2: seq<byte>, cs2: Slots, x: byte)
    requires Row(ks, cs, n) && IndexOf(ks, 0, n, b) < n && Row(ks2, cs2, n - 1)
    requires ShiftedOut(ks, ks2, n, IndexOf(ks, 0, n, b)) && ShiftedOut(cs, cs2, n, IndexOf(ks, 0, n, b))
    ensures RowChild(ks2, cs2, n - 1, x) == if x == b then None else RowChild(ks, cs, n, x)
  {
    var p, i := IndexOf(ks, 0, n, b), IndexOf(ks, 0, n, x);
    if x != b && i < n {
      IndexUnique(ks2, n - 1, if i < p then i else i - 1);
    }
  }

  lemma {:induction false} RowDropped(ks: seq<byte>, cs: Slots, n: nat, b: byte, ks2: seq<byte>, cs2: Slots)
    requires Row(ks, cs, n) && |cs2| == |ks2| == |ks| && IndexOf(ks, 0, n, b) < n
    requires ShiftedOut(ks, ks2, n, IndexOf(ks, 0, n, b)) && ShiftedOut(cs, cs2, n, IndexOf(ks, 0, n, b))
    ensures Row(ks2, cs2, n - 1)
    ensures forall x: byte :: RowChild(ks2, cs2, n - 1, x) == if x == b then None else RowChild(ks, cs, n, x)
    ensures Ascending(ks, n) ==> Ascending(ks2, n - 1)
  {
    RowShifted(ks, cs, n, IndexOf(ks, 0, n, b), ks2, cs2);
    forall x: byte ensures RowChild(ks2, cs2, n - 1, x) == if x == b then None else RowChild(ks, cs, n, x) {
      RowDroppedAt(ks, cs, n, b, ks2, cs2, x);
    }
  }

  // ---------- adding a child ----------

  /** Exactly when adding a child leaves the node in order. */
  predicate RoomFor(node: Node)
    requires Sized(node)
  {
    match node
    case Leaf(_, _) => false
    case Node4(h, ks, cs) => h.numChildren < 4 || Ascending(ks, 4)
    case Node16(h, ks, cs) => true
    case Node48(h, ix, cs) => h.numChildren < 48 ==> forall b: byte :: ix[b] != h.numChildren
    case Node256(h, cs) => true
  }

  /** Rows sorted and index tables packed: what nodes look like as long as keys only arrive in order. */
  predicate Orderly(node: Node)
    requires Sized(node)
  {
    match node
    case Leaf(_, _) => true
    case Node4(h, ks, cs) => Ascending(ks, h.numChildren)
    case Node16(h, ks, cs) => Ascending(ks, h.numChildren)
    case Node48(h, ix, cs) => forall b: byte :: ix[b] != 255 ==> ix[b] < h.numChildren
    case Node256(h, cs) => true
  }

  predicate IsAdded(node: Node, b: byte, c: Node, r: Node)
    requires Sized(node) && !node.Leaf?
  {
    && (Fit(r) <==> RoomFor(node))
    && (RoomFor(node) ==> Updated(node, r, b, Some(c)))
    && (Orderly(node) ==> RoomFor(node) && Orderly(r))
  }

  /** A Node4 or Node16 with the byte sorted into its row. */
  function AddedRow(node: Node, b: byte, c: Node): Node
    requires (node.Node4? || node.Node16?) && Sized(node) && node.header.numChildren < |node.keys|
  {
    var n := node.header.numChildren;
    var p := InsertPos(node.keys, 0, n, b);
    node.(header := node.header.(numChildren := n + 1), keys := ShiftIn(node.keys, n, p, b),
          children := ShiftIn(node.children, n, p, Some(c)))
  }

  function Added48(node: Node, b: byte, c: Node): Node
    requires node.Node48? && Sized(node) && node.header.numChildren < 48
  {
    var n := node.header.numChildren;
    Node48(node.header.(numChildren := n + 1), node.childIndex[b := n], node.children[n := Some(c)])
  }

  function Added256(node: Node, b: byte, c: Node): Node
    requires node.Node256? && Sized(node)
  {
    Node256(node.header.(numChildren := node.header.numChildren + 1), node.children[b := Some(c)])
  }

  /** The node with one more child, in the next larger layout if it was full. */
  function Added(node: Node, b: byte, c: Node): Node
    requires Fit(node) && !node.Leaf? && Child(node, b).None?
  {
    match node
    case Node4(h, ks, cs) => AddedRow(if h.numChildren < 4 then node else Widened16(node), b, c)
    case Node16(h, ks, cs) => if h.numChildren < 16 then AddedRow(node, b, c) else Added48(Widened48(node), b, c)
    case Node48(h, ix, cs) => if h.numChildren < 48 then Added48(node, b, c) else Added256(Widened256(node), b, c)
    case Node256(h, cs) => Added256(node, b, c)
  }

  method AddChild(node: Node, b: byte, c: Node) returns (r: Result<Node>)
    requires Fit(node) && Child(node, b).None?
    ensures node.Leaf? <==> r.Err?
    ensures r.Ok? ==> r.value == Added(node, b, c) && IsAdded(node, b, c, r.value)
  {
    if !node.Leaf? {
      AddedIs(node, b, c);
      MissingByte(node, b);
    }
    match node
    case Leaf(_, _) =>
      r := Err("Cannot add child to leaf");
    case Node4(h, ks, cs) =>
      if h.numChildren < 4 {
        var n := AddToNode4(node, b, c);
        r := Ok(n);
      } else {
        var node16 := GrowToNode16(node);
        var n := AddToNode16(node16, b, c);
        r := Ok(n);
      }
    case Node16(h, ks, cs) =>
      if h.numChildren < 16 {
        var n := AddToNode16(node, b, c);
        r := Ok(n);
      } else {
        var node48 := GrowToNode48(node);
        var n := AddToNode48(node48, b, c);
        r := Ok(n);
      }
    case Node48(h, ix, cs) =>
      if h.numChildren < 48 {
        var n := AddToNode48(node, b, c);
        r := Ok(n);
      } else {
        var node256 := GrowToNode256(node);
        var n := AddToNode256(node256, b, c);
        r := Ok(n);
      }
    case Node256(h, cs) =>
      if h.numChildren < 256 {
        var n := AddToNode256(node, b, c);
        r := Ok(n);
      } else {
        r := Err("Node capacity exceeded");
      }
  }

  method AddToNode4(node: Node, b: byte, c: Node) returns (r: Node)
    requires node.Node4? && Sized(node) && Row(node.keys, node.children, node.header.numChildren)
    requires node.header.numChildren < 4
    ensures r == AddedRow(node, b, c)
  {
    var h := node.header;
    var ks, cs := InsertSorted(node.keys, node.children, h.numChildren, b, c);
    r := Node4(h.(numChildren := h.numChildren + 1), ks, cs);
  }

  method AddToNode16(node: Node, b: byte, c: Node) returns (r: Node)
    requires node.Node16? && Sized(node) && Row(node.keys, node.children, node.header.numChildren)
    requires node.header.numChildren < 16
    ensures r == AddedRow(node, b, c)
  {
    var h := node.header;
    var ks, cs := InsertSorted(node.keys, node.children, h.numChildren, b, c);
    r := Node16(h.(numChildren := h.numChildren + 1), ks, cs);
  }

  method AddToNode48(node: Node, b: byte, c: Node) returns (r: Node)
    requires Fit(node) && node.Node48? && node.header.numChildren < 48 && Child(node, b).None?
    ensures r == Added48(node, b, c) && IsAdded(node, b, c, r)
  {
    var h, n := node.header, node.header.numChildren;
    r := Node48(h.(numChildren := n + 1), node.childIndex[b := n], node.children[n := Some(c)]);
    Add48(node, b, c);
  }

  method AddToNode256(node: Node, b: byte, c: Node) returns (r: Node)
    requires Sized(node) && node.Node256?
    ensures r == Added256(node, b, c)
  {
    var h := node.header;
    r := Node256(h.(numChildren := h.numChildren + 1), node.children[b := Some(c)]);
  }

  /** The row keeps its children and gains one; it is sorted exactly if it was. */
  lemma AddRow(node: Node, b: byte, c: Node)
    requires (node.Node4? || node.Node16?) && Sized(node) && node.header.numChildren < |node.keys|
    requires Row(node.keys, node.children, node.header.numChildren) && Child(node, b).None?
    ensures var n, r := node.header.numChildren, AddedRow(node, b, c);
            && Sized(r) && Row(r.keys, r.children, n + 1) && (Ascending(node.keys, n) <==> Ascending(r.keys, n + 1))
            && forall x: byte :: Child(r, x) == if x == b then Some(c) else Child(node, x)
  {
    var n, r := node.header.numChildren, AddedRow(node, b, c);
    var p := InsertPos(node.keys, 0, n, b);
    SortedInserted(node.keys, n, p, b, r.keys);
    RowInserted(node.keys, node.children, n, p, b, c, r.keys, r.children);
  }

  lemma Add48(node: Node, b: byte, c: Node)
    requires Fit(node) && node.Node48? && node.header.numChildren < 48 && Child(node, b).None?
    ensures IsAdded(node, b, c, Added48(node, b, c))
  {
    var n, r := node.header.numChildren, Added48(node, b, c);
    if RoomFor(node) {
      SlotTaken(node.childIndex, node.children, b, n, c);
      SlotFree(node, b, c);
    } else {
      SlotClash(node.childIndex, b, n, r.childIndex);
    }
  }

  lemma Add256(node: Node, b: byte, c: Node)
    requires Fit(node) && node.Node256? && Child(node, b).None?
    ensures IsAdded(node, b, c, Added256(node, b, c))
  {
    assert ChildBytes(Added256(node, b, c)) == ChildBytes(node) + {b};
  }

  /** The same header and children, then one child more: one child more. */
  lemma AddedAfter(node: Node, wide: Node, b: byte, c: Node, r: Node)
    requires Fit(node) && !node.Leaf? && SameKids(node, wide) && Updated(wide, r, b, Some(c))
    ensures Updated(node, r, b, Some(c))
  {
  }

  lemma AddTo4(node: Node, b: byte, c: Node)
    requires Fit(node) && node.Node4? && Child(node, b).None?
    ensures IsAdded(node, b, c, Added(node, b, c))
  {
    var r := Added(node, b, c);
    if node.header.numChildren < 4 {
      AddRow(node, b, c);
    } else {
      Widen16(node);
      var wide := Widened16(node);
      AddRow(wide, b, c);
      if RoomFor(node) {
        AddedAfter(node, wide, b, c, r);
      }
    }
  }

  lemma AddTo16(node: Node, b: byte, c: Node)
    requires Fit(node) && node.Node16? && Child(node, b).None?
    ensures IsAdded(node, b, c, Added(node, b, c))
  {
    if node.header.numChildren < 16 {
      AddRow(node, b, c);
    } else {
      Widen48(node);
      Add48(Widened48(node), b, c);
      AddedAfter(node, Widened48(node), b, c, Added(node, b, c));
    }
  }

  lemma AddTo48(node: Node, b: byte, c: Node)
    requires Fit(node) && node.Node48? && Child(node, b).None?
    ensures IsAdded(node, b, c, Added(node, b, c))
  {
    if node.header.numChildren < 48 {
      Add48(node, b, c);
    } else {
      Widen256(node);
      Add256(Widened256(node), b, c);
      AddedAfter(node, Widened256(node), b, c, Added(node, b, c));
    }
  }

  /**
   The child is added and every other one stays, through every growth, exactly if the node has room for it.
   A layout is left when it holds 4, 16 or 48 children.
   */
  lemma AddedIs(node: Node, b: byte, c: Node)
    requires Fit(node) && !node.Leaf? && Child(node, b).None?
    ensures IsAdded(node, b, c, Added(node, b, c))
    ensures var n, r := node.header.numChildren, Added(node, b, c);
            && r.header.numChildren == n + 1
            && (node.Node4? ==> if n < 4 then r.Node4? else r.Node16?)
            && (node.Node16? ==> if n < 16 then r.Node16? else r.Node48?)
            && (node.Node48? ==> if n < 48 then r.Node48? else r.Node256?)
            && (node.Node256? ==> r.Node256?)
  {
    match node
    case Node4(_, _, _) => AddTo4(node, b, c);
    case Node16(_, _, _) => AddTo16(node, b, c);
    case Node48(_, _, _) => AddTo48(node, b, c);
    case Node256(_, _) => Add256(node, b, c);
  }

  /** Pointing `b` at a slot nobody uses. */
  lemma SlotTaken(ix: seq<byte>, cs: Slots, b: byte, n: byte, c: Node)
    requires InRange(ix, cs) && Injective(ix) && ix[b] == 255 && n < 48 && forall x: byte :: ix[x] != n
    ensures InRange(ix[b := n], cs[n := Some(c)]) && Injective(ix[b := n])
  {
  }

  lemma SlotFree(node: Node, b: byte, c: Node)
    requires Fit(node) && node.Node48? && RoomFor(node) && node.header.numChildren < 48 && Child(node, b).None?
    requires var r := Added48(node, b, c); InRange(r.childIndex, r.children) && Injective(r.childIndex)
    ensures Updated(node, Added48(node, b, c), b, Some(c))
  {
    var r := Added48(node, b, c);
    forall x: byte ensures Child(r, x) == if x == b then Some(c) else Child(node, x) {
    }
    assert ChildBytes(r) == ChildBytes(node) + {b};
  }

  /** Pointing `b` at a slot that another byte uses. */
  lemma SlotClash(ix: seq<byte>, b: byte, n: byte, ix2: seq<byte>)
    requires |ix| == 256 && ix[b] == 255 && n < 48 && ix2 == ix[b := n] && exists x: byte :: ix[x] == n
    ensures !Injective(ix2)
  {
    var x: byte :| ix[x] == n;
    assert ix2[x] == ix2[b];
  }

  // ---------- growing ----------

  /** The same header and the same children in another layout. */
  predicate SameKids(n1: Node, n2: Node)
    requires Sized(n1) && !n1.Leaf?
  {
    Sized(n2) && !n2.Leaf? && n2.header == n1.header && forall x: byte :: Child(n2, x) == Child(n1, x)
  }

  /** A row in more room, filled up with zeros. */
  function Widened16(node: Node): Node
    requires node.Node4? && Sized(node)
  {
    var n := node.header.numChildren;
    Node16(node.header, seq(16, i requires 0 <= i < 16 => if i < n then node.keys[i] else 0),
           seq(16, i requires 0 <= i < 16 => if i < n then node.children[i] else None))
  }

  /** The same children; the result is sorted exactly if the row was. */
  lemma Widen16(node: Node)
    requires Fit(node) && node.Node4?
    ensures var r := Widened16(node);
            && SameKids(node, r) && Row(r.keys, r.children, r.header.numChildren)
            && (Ascending(r.keys, r.header.numChildren) <==> Ascending(node.keys, node.header.numChildren))
  {
    var r := Widened16(node);
    SameRow(node.keys, node.children, r.keys, r.children, node.header.numChildren);
  }

  method GrowToNode16(node: Node) returns (r: Node)
    requires Fit(node) && node.Node4?
    ensures r == Widened16(node)
    ensures SameKids(node, r) && Row(r.keys, r.children, r.header.numChildren)
    ensures Ascending(r.keys, r.header.numChildren) <==> Ascending(node.keys, node.header.numChildren)
  {
    var n := node.header.numChildren;
    var ks: seq<byte> := seq(16, _ => 0);
    var cs: Slots := seq(16, _ => None);
    for i := 0 to n
      invariant |ks| == |cs| == 16
      invariant forall j :: 0 <= j < i ==> ks[j] == node.keys[j] && cs[j] == node.children[j]
      invariant forall j :: i <= j < 16 ==> ks[j] == 0 && cs[j] == None
    {
      ks := ks[i := node.keys[i]];
      cs := cs[i := node.children[i]];
    }
    r := Node16(node.header, ks, cs);
    assert ks == Widened16(node).keys && cs == Widened16(node).children;
    Widen16(node);
  }

  lemma SameRow(ks: seq<byte>, cs: Slots, ks2: seq<byte>, cs2: Slots, n: nat)
    requires Row(ks, cs, n) && n <= |ks2| == |cs2|
    requires forall i :: 0 <= i < n ==> ks2[i] == ks[i] && cs2[i] == cs[i]
    ensures Row(ks2, cs2, n) && forall x: byte :: RowChild(ks2, cs2, n, x) == RowChild(ks, cs, n, x)
  {
  }

  /** The row as a table: each byte leads to its position. */
  function Widened48(node: Node): Node
    requires node.Node16? && Sized(node)
  {
    var n := node.header.numChildren;
    Node48(node.header, seq(256, b requires 0 <= b < 256 => Position(node.keys, n, b)),
           seq(48, i requires 0 <= i < 48 => if i < n then node.children[i] else None))
  }

  function Position(ks: seq<byte>, n: nat, b: byte): byte
    requires n <= |ks| && n <= 16
  {
    var i := IndexOf(ks, 0, n, b);
    if i < n then i else 255
  }

  lemma Widen48(node: Node)
    requires Fit(node) && node.Node16?
    ensures var r := Widened48(node); Fit(r) && SameKids(node, r) && Orderly(r)
  {
    var r := Widened48(node);
    assert forall x: byte :: r.childIndex[x] == Position(node.keys, node.header.numChildren, x);
    assert forall x: byte :: Child(r, x) == Child(node, x);
    assert ChildBytes(r) == ChildBytes(node);
    CountIsExact(node);
  }

  method GrowToNode48(node: Node) returns (r: Node)
    requires Fit(node) && node.Node16?
    ensures r == Widened48(node)
    ensures Fit(r) && SameKids(node, r) && Orderly(r)
  {
    var n, ks := node.header.numChildren, node.keys;
    var ix: seq<byte> := seq(256, _ => 255);
    var cs: Slots := seq(48, _ => None);
    for i := 0 to n
      invariant |ix| == 256 && |cs| == 48
      invariant forall j :: 0 <= j < i ==> ix[ks[j]] == j && cs[j] == node.children[j]
      invariant forall j :: i <= j < 48 ==> cs[j] == None
      invariant forall b: byte :: ix[b] != 255 ==> ix[b] < i && ks[ix[b]] == b
    {
      ix := ix[ks[i] := i];
      cs := cs[i := node.children[i]];
    }
    r := Node48(node.header, ix, cs);
    forall x: byte ensures ix[x] == Position(ks, n, x) {
      if ix[x] != 255 {
        IndexUnique(ks, n, ix[x]);
      }
    }
    assert ix == Widened48(node).childIndex && cs == Widened48(node).children;
    Widen48(node);
  }

  function Widened256(node: Node): Node
    requires node.Node48? && Sized(node)
  {
    Node256(node.header, seq(256, b requires 0 <= b < 256 => Child(node, b)))
  }

  lemma Widen256(node: Node)
    requires Fit(node) && node.Node48?
    ensures var r := Widened256(node); Fit(r) && SameKids(node, r)
  {
    assert ChildBytes(Widened256(node)) == ChildBytes(node);
  }

  method GrowToNode256(node: Node) returns (r: Node)
    requires Fit(node) && node.Node48?
    ensures r == Widened256(node)
    ensures Fit(r) && SameKids(node, r)
  {
    var cs: Slots := seq(256, _ => None);
    for b := 0 to 256
      invariant |cs| == 256
      invariant forall x: byte :: x < b ==> cs[x] == Child(node, x)
      invariant forall x: byte :: b <= x ==> cs[x] == None
    {
      if node.childIndex[b] != 255 {
        cs := cs[b := node.children[node.childIndex[b]]];
      }
    }
    r := Node256(node.header, cs);
    forall i | 0 <= i < 256 ensures cs[i] == Widened256(node).children[i] {
      var x: byte := i;
    }
    assert cs == Widened256(node).children;
    Widen256(node);
  }

  // ---------- replacing a child ----------

  function WithChild(node: Node, b: byte, c: Node): Node
    requires Sized(node) && Child(node, b).Some?
  {
    match node
    case Node4(h, ks, cs) => Node4(h, ks, cs[IndexOf(ks, 0, h.numChildren, b) := Some(c)])
    case Node16(h, ks, cs) => Node16(h, ks, cs[IndexOf(ks, 0, h.numChildren, b) := Some(c)])
    case Node48(h, ix, cs) => Node48(h, ix, cs[ix[b] := Some(c)])
    case Node256(h, cs) => Node256(h, cs[b := Some(c)])
  }

  lemma ReplacedIs(node: Node, b: byte, c: Node)
    requires Fit(node) && Child(node, b).Some?
    ensures var r := WithChild(node, b, c); Updated(node, r, b, Some(c)) && (Orderly(node) ==> Orderly(r))
  {
    var r := WithChild(node, b, c);
    if node.Node48? || node.Node256? {
      assert ChildBytes(r) == ChildBytes(node);
    }
  }

  method ReplaceChild(node: Node, b: byte, c: Node) returns (r: Node)
    requires Fit(node) && Child(node, b).Some?
    ensures r == WithChild(node, b, c)
    ensures Updated(node, r, b, Some(c))
    ensures Orderly(node) ==> Orderly(r)
  {
    ReplacedIs(node, b, c);
    match node
    case Node4(h, ks, cs) =>
      var cs2 := ReplaceInRow(ks, cs, h.numChildren, b, c);
      r := Node4(h, ks, cs2);
    case Node16(h, ks, cs) =>
      var cs2 := ReplaceInRow(ks, cs, h.numChildren, b, c);
      r := Node16(h, ks, cs2);
    case Node48(h, ix, cs) =>
      r := Node48(h, ix, cs[ix[b] := Some(c)]);
    case Node256(h, cs) =>
      r := Node256(h, cs[b := Some(c)]);
  }

  method ReplaceInRow(ks: seq<byte>, cs: Slots, n: nat, b: byte, c: Node) returns (cs2: Slots)
    requires Row(ks, cs, n) && IndexOf(ks, 0, n, b) < n
    ensures cs2 == cs[IndexOf(ks, 0, n, b) := Some(c)]
  {
    cs2 := cs;
    for i := 0 to n
      invariant cs2 == cs && i <= IndexOf(ks, 0, n, b)
    {
      if ks[i] == b {
        cs2 := cs2[i := Some(c)];
        return;
      }
    }
  }

  // ---------- dropping a child ----------

  method DropFromRow(node: Node, b: byte) returns (r: Node)
    requires Fit(node) && (node.Node4? || node.Node16?) && Child(node, b).Some?
    ensures Updated(node, r, b, None) && (r.Node4? <==> node.Node4?) && (r.Node16? <==> node.Node16?)
    ensures r.header.numChildren == node.header.numChildren - 1
  {
    var n := node.header.numChildren;
    var ks, cs, m := DropShift(node.keys, node.children, n, b);
    RowDropped(node.keys, node.children, n, b, ks, cs);
    var h := node.header.(numChildren := m);
    r := if node.Node4? then Node4(h, ks, cs) else Node16(h, ks, cs);
  }

  function Dropped48(node: Node, b: byte): Node
    requires node.Node48? && Fit(node) && Child(node, b).Some?
  {
    var h, ix := node.header, node.childIndex;
    assert b in ChildBytes(node);
    Node48(h.(numChildren := h.numChildren - 1), ix[b := 255], node.children[ix[b] := None])
  }

  lemma Drop48(node: Node, b: byte)
    requires node.Node48? && Fit(node) && Child(node, b).Some?
    ensures Updated(node, Dropped48(node, b), b, None)
  {
    var r := Dropped48(node, b);
    assert InRange(r.childIndex, r.children);
    assert ChildBytes(r) == ChildBytes(node) - {b};
  }

  function Dropped256(node: Node, b: byte): Node
    requires node.Node256? && Fit(node) && Child(node, b).Some?
  {
    var h := node.header;
    assert b in ChildBytes(node);
    Node256(h.(numChildren := h.numChildren - 1), node.children[b := None])
  }

  lemma Drop256(node: Node, b: byte)
    requires node.Node256? && Fit(node) && Child(node, b).Some?
    ensures Updated(node, Dropped256(node, b), b, None)
  {
    assert ChildBytes(Dropped256(node, b)) == ChildBytes(node) - {b};
  }

  // ---------- shrinking ----------

  method ShrinkToNode4(node: Node) returns (r: Node)
    requires Fit(node) && node.Node16? && node.header.numChildren <= 4
    ensures r.Node4? && Fit(r) && SameKids(node, r)
  {
    var n := node.header.numChildren;
    var ks: seq<byte> := seq(4, _ => 0);
    var cs: Slots := seq(4, _ => None);
    var j := 0;
    for i := 0 to n
      invariant j == i && |ks| == |cs| == 4
      invariant forall k :: 0 <= k < i ==> ks[k] == node.keys[k] && cs[k] == node.children[k]
    {
      if node.children[i].Some? {
        ks := ks[j := node.keys[i]];
        cs := cs[j := node.children[i]];
        j := j + 1;
      }
    }
    r := Node4(node.header, ks, cs);
    SameRow(node.keys, node.children, ks, cs, n);
  }

  /** The live bytes of the node below `b`. */
  function LiveBelow(node: Node, b: nat): set<byte>
    requires Sized(node)
  {
    set x: byte | 0 <= x < 256 && x < b && Child(node, x).Some?
  }

  /** One more byte looked at: one more live byte, as long as there is room for it. */
  lemma LiveStep(node: Node, b: byte)
    requires Fit(node) && !node.Leaf?
    ensures LiveBelow(node, b + 1) == if Child(node, b).Some? then LiveBelow(node, b) + {b} else LiveBelow(node, b)
    ensures |LiveBelow(node, b + 1)| <= node.header.numChildren
  {
    CountIsExact(node);
    SubsetSize(LiveBelow(node, b + 1), ChildBytes(node));
  }

  /** `j` counts the live bytes below `b`. */
  ghost predicate Counts(node: Node, j: nat, b: nat)
    requires Sized(node)
  {
    j == |LiveBelow(node, b)|
  }

  lemma CountOne(node: Node, j: nat, b: byte)
    requires Fit(node) && !node.Leaf? && Counts(node, j, b)
    ensures if Child(node, b).Some? then j < node.header.numChildren && Counts(node, j + 1, b + 1)
            else Counts(node, j, b + 1)
  {
    LiveStep(node, b);
  }

  /** The row built so far holds the children of the live bytes below `b`, in order. */
  ghost predicate Gathered(node: Node, ks: seq<byte>, cs: Slots, j: nat, b: nat)
    requires Sized(node)
  {
    && Row(ks, cs, j) && Ascending(ks, j) && (forall k :: 0 <= k < j ==> ks[k] < b)
    && forall x: byte :: RowChild(ks, cs, j, x) == if x < b then Child(node, x) else None
  }

  lemma GatherOne(node: Node, ks: seq<byte>, cs: Slots, j: nat, b: byte)
    requires Sized(node) && Gathered(node, ks, cs, j, b) && j < |ks| && Child(node, b).Some?
    ensures Gathered(node, ks[j := b], cs[j := Child(node, b)], j + 1, b + 1)
  {
    var ks2, cs2 := ks[j := b], cs[j := Child(node, b)];
    SortedInserted(ks, j, j, b, ks2);
    RowInserted(ks, cs, j, j, b, Child(node, b).value, ks2, cs2);
  }

  lemma GatherNone(node: Node, ks: seq<byte>, cs: Slots, j: nat, b: byte)
    requires Sized(node) && Gathered(node, ks, cs, j, b) && Child(node, b).None?
    ensures Gathered(node, ks, cs, j, b + 1)
  {
  }

  lemma GatheredAll(node: Node, ks: seq<byte>, cs: Slots, j: nat)
    requires Fit(node) && !node.Leaf? && |ks| == 16 && Gathered(node, ks, cs, j, 256) && Counts(node, j, 256)
    ensures var r := Node16(node.header, ks, cs); Fit(r) && SameKids(node, r)
  {
    assert LiveBelow(node, 256) == ChildBytes(node);
    CountIsExact(node);
  }

  method ShrinkToNode16(node: Node) returns (r: Node)
    requires Fit(node) && node.Node48? && node.header.numChildren <= 16
    ensures r.Node16? && Fit(r) && SameKids(node, r)
  {
    var ks: seq<byte> := seq(16, _ => 0);
    var cs: Slots := seq(16, _ => None);
    var j := 0;
    assert LiveBelow(node, 0) == {};
    for b := 0 to 256
      invariant |ks| == 16 && Counts(node, j, b) && Gathered(node, ks, cs, j, b)
    {
      CountOne(node, j, b);
      if node.childIndex[b] != 255 {
        GatherOne(node, ks, cs, j, b);
        ks := ks[j := b];
        cs := cs[j := node.children[node.childIndex[b]]];
        j := j + 1;
      } else {
        GatherNone(node, ks, cs, j, b);
      }
    }
    r := Node16(node.header, ks, cs);
    GatheredAll(node, ks, cs, j);
  }

  /** The table built so far leads to the children of the live bytes below `b`, in slots below `j`. */
  ghost predicate Tabled(node: Node, ix: seq<byte>, cs: Slots, j: nat, b: nat)
    requires Sized(node)
  {
    && InRange(ix, cs) && Injective(ix) && (forall x: byte :: ix[x] != 255 ==> ix[x] < j)
    && forall x: byte :: (if ix[x] != 255 then cs[ix[x]] else None) == if x < b then Child(node, x) else None
  }

  lemma TableOne(node: Node, ix: seq<byte>, cs: Slots, j: nat, b: byte)
    requires Sized(node) && Tabled(node, ix, cs, j, b) && j < 48 && Child(node, b).Some?
    ensures Tabled(node, ix[b := j], cs[j := Child(node, b)], j + 1, b + 1)
  {
  }

  lemma TableNone(node: Node, ix: seq<byte>, cs: Slots, j: nat, b: byte)
    requires Sized(node) && Tabled(node, ix, cs, j, b) && Child(node, b).None?
    ensures Tabled(node, ix, cs, j, b + 1)
  {
  }

  lemma TabledAll(node: Node, ix: seq<byte>, cs: Slots, j: nat)
    requires Fit(node) && !node.Leaf? && Tabled(node, ix, cs, j, 256) && Counts(node, j, 256)
    ensures var r := Node48(node.header, ix, cs); Fit(r) && SameKids(node, r) && Orderly(r)
  {
    var r := Node48(node.header, ix, cs);
    assert ChildBytes(r) == ChildBytes(node) == LiveBelow(node, 256);
    CountIsExact(node);
  }

  method ShrinkToNode48(node: Node) returns (r: Node)
    requires Fit(node) && node.Node256? && node.header.numChildren <= 48
    ensures r.Node48? && Fit(r) && SameKids(node, r) && Orderly(r)
  {
    var ix: seq<byte> := seq(256, _ => 255);
    var cs: Slots := seq(48, _ => None);
    var j := 0;
    assert LiveBelow(node, 0) == {};
    for b := 0 to 256
      invariant Counts(node, j, b) && Tabled(node, ix, cs, j, b)
    {
      CountOne(node, j, b);
      if node.children[b].Some? {
        TableOne(node, ix, cs, j, b);
        ix := ix[b := j];
        cs := cs[j := node.children[b]];
        j := j + 1;
      } else {
        TableNone(node, ix, cs, j, b);
      }
    }
    r := Node48(node.header, ix, cs);
    TabledAll(node, ix, cs, j);
  }

  // ---------- path compression ----------

  function UpdatePartial(node: Node, partial: Key): Node {
    match node
    case Leaf(_, _) => node
    case Node4(h, ks, cs) => Node4(h.(partial := partial), ks, cs)
    case Node16(h, ks, cs) => Node16(h.(partial := partial), ks, cs)
    case Node48(h, ix, cs) => Node48(h.(partial := partial), ix, cs)
    case Node256(h, cs) => Node256(h.(partial := partial), cs)
  }

  /** A node with one child and no value gives way to that child, which takes over the path. */
  function CompressNode(node: Node): Node {
    if node.Node4? && node.header.numChildren == 1 && node.header.value.None? && |node.keys| == |node.children| == 4
       && node.children[0].Some?
    then
      var child := node.children[0].value;
      UpdatePartial(child, node.header.partial + [node.keys[0]] + child.Partial())
    else node
  }

  /** What may stand in for an inner node that has just lost a child. */
  predicate StandsFor(node: Node, r: Option<Node>) {
    match r
    case Some(n) => n == node || n == CompressNode(node)
    case None => !node.Leaf? && node.header.numChildren == 0 && node.header.value.None?
  }

  /** What a Node48 leaves when it loses a child: the table with a hole, or a sorted row once 16 children are left. */
  predicate Left48(node: Node, b: byte, left: Node)
    requires node.Node48? && Fit(node) && Child(node, b).Some?
  {
    if node.header.numChildren > 17 then left == Dropped48(node, b) else left.Node16? && Updated(node, left, b, None)
  }

  /** The layout of what is left: a smaller one as soon as 4, 16 or 48 children are left, a table packed again. */
  predicate Shrunk(node: Node, left: Node)
    requires !node.Leaf?
  {
    var n := node.header.numChildren;
    match node
    case Node4(_, _, _) => left.Node4?
    case Node16(_, _, _) => if n <= 5 then left.Node4? else left.Node16?
    case Node48(_, _, _) => if n <= 17 then left.Node16? else left.Node48?
    case Node256(_, _) => if n <= 49 then left.Node48? && Sized(left) && Orderly(left) else left.Node256?
  }

  /** What takes the node's place: nothing, its only child or what is left of it. */
  function InPlace(left: Node): Option<Node>
    requires !left.Leaf?
  {
    if !left.Node4? || left.header.numChildren > 1 then Some(left)
    else if left.header.numChildren == 1 then Some(CompressNode(left))
    else if left.header.value.Some? then Some(left) else None
  }

  /** `left` is the node without the child, before path compression. */
  method RemoveChild(node: Node, b: byte) returns (r: Result<Option<Node>>, ghost left: Node)
    requires Fit(node) && (node.Leaf? || Child(node, b).Some?)
    ensures node.Leaf? <==> r.Err?
    ensures r.Ok? ==> Updated(node, left, b, None) && StandsFor(left, r.value)
    ensures node.Node48? ==> r == Ok(Some(left)) && Left48(node, b, left)
    ensures r.Ok? ==> Shrunk(node, left) && left.header.numChildren + 1 == node.header.numChildren
    ensures r.Ok? ==> r.value == if node.Node4? then InPlace(left) else Some(left)
  {
    match node
    case Leaf(_, _) =>
      r, left := Err("Cannot remove child from leaf"), node;
    case Node4(h, ks, cs) =>
      var n := DropFromRow(node, b);
      left := n;
      if n.header.numChildren == 1 {
        r := Ok(Some(CompressNode(n)));
      } else if n.header.numChildren == 0 {
        r := if n.header.value.Some? then Ok(Some(n)) else Ok(None);
      } else {
        r := Ok(Some(n));
      }
    case Node16(h, ks, cs) =>
      var n := DropFromRow(node, b);
      if n.header.numChildren <= 4 {
        n := ShrinkToNode4(n);
      }
      r, left := Ok(Some(n)), n;
    case Node48(h, ix, cs) =>
      Drop48(node, b);
      var n := Dropped48(node, b);
      if n.header.numChildren <= 16 {
        n := ShrinkToNode16(n);
      }
      r, left := Ok(Some(n)), n;
    case Node256(h, cs) =>
      Drop256(node, b);
      var n := Dropped256(node, b);
      if n.header.numChildren <= 48 {
        n := ShrinkToNode48(n);
      }
      r, left := Ok(Some(n)), n;
  }
}
