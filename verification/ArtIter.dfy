/** The explicit-stack iterator of the adaptive radix tree (nanograph-art/src/iterator.rs). */
module ArtIter {
  import opened Wrappers
  import opened Bytes
  import opened ArtNode

  type Item = (Key, Value)

  // ---------- the children in iteration order ----------

  /** The bytes from `b` on under which there is a child, in order. */
  function LiveFrom(node: Node, b: nat): seq<byte>
    requires Sized(node) && b <= 256
    decreases 256 - b
  {
    if b == 256 then [] else (if Child(node, b).Some? then [b as byte] else []) + LiveFrom(node, b + 1)
  }

  lemma {:induction false} LiveFromSpec(node: Node, b: nat)
    requires Sized(node) && b <= 256
    ensures forall x: byte :: x in LiveFrom(node, b) <==> b <= x && Child(node, x).Some?
    ensures Ascending(LiveFrom(node, b), |LiveFrom(node, b)|)
    decreases 256 - b
  {
    if b < 256 {
      LiveFromSpec(node, b + 1);
      var rest := LiveFrom(node, b + 1);
      if Child(node, b).Some? {
        assert LiveFrom(node, b) == [b as byte] + rest;
        AscendsFrom(b, rest);
      } else {
        assert LiveFrom(node, b) == rest;
      }
    }
  }

  lemma AscendsFrom(b: byte, rest: seq<byte>)
    requires Ascending(rest, |rest|) && forall x: byte :: x in rest ==> b < x
    ensures Ascending([b] + rest, |rest| + 1) && forall x: byte :: x in [b] + rest <==> x == b || x in rest
  {
    assert forall i :: 0 <= i < |rest| ==> rest[i] in rest;
  }

  /** Rows in the order they are stored, tables in byte order. */
  function KidBytes(node: Node): seq<byte>
    requires Fit(node)
  {
    match node
    case Leaf(_, _) => []
    case Node4(h, ks, cs) => ks[..h.numChildren]
    case Node16(h, ks, cs) => ks[..h.numChildren]
    case _ => LiveFrom(node, 0)
  }

  lemma KidBytesSpec(node: Node)
    requires Fit(node)
    ensures forall b: byte :: b in KidBytes(node) <==> Child(node, b).Some?
    ensures Distinct(KidBytes(node), |KidBytes(node)|)
    ensures !node.Node4? ==> Ascending(KidBytes(node), |KidBytes(node)|)
  {
    if node.Node4? || node.Node16? {
      RowBytes(node.keys, node.children, node.header.numChildren);
    } else if !node.Leaf? {
      LiveFromSpec(node, 0);
    }
  }

  lemma RowBytes(ks: seq<byte>, cs: Slots, n: nat)
    requires Row(ks, cs, n)
    ensures forall b: byte :: b in ks[..n] <==> RowChild(ks, cs, n, b).Some?
  {
  }

  // ---------- the tree as the iterator walks it ----------

  /** Leaves and ordered children, whatever the layout. */
  datatype Tree = Tip(item: Item) | Fork(kids: seq<Tree>)

  /**
   Always true. A quantifier that only an `Unlock` term sets off keeps the recursive `Mirrors` folded, so that
   a proof about a whole stack of nodes meets the layout of one node at a time.
   */
  predicate Unlock(u: int) {
    true
  }

  /** `t` is the node without its layout; the details come into view with `Unlock` only. */
  ghost predicate Mirrors(node: Node, t: Tree)
    decreases t, 1
  {
    forall u {:trigger Unlock(u)} :: Unlock(u) ==> MirrorsHere(node, t)
  }

  ghost predicate MirrorsHere(node: Node, t: Tree)
    decreases t, 0
  {
    && Fit(node) && (node.Leaf? <==> t.Tip?)
    && match t
       case Tip(item) => item == (node.key, node.leafValue)
       case Fork(kids) =>
         && |kids| == |KidBytes(node)|
         && forall i :: 0 <= i < |kids| ==>
              Child(node, KidBytes(node)[i]).Some? && Mirrors(Child(node, KidBytes(node)[i]).value, kids[i])
  }

  /** The leaves in order. */
  ghost function Leaves(t: Tree): seq<Item> {
    match t
    case Tip(item) => [item]
    case Fork(kids) => LeavesOf(kids)
  }

  ghost function LeavesOf(kids: seq<Tree>): seq<Item> {
    if kids == [] then [] else Leaves(kids[0]) + LeavesOf(kids[1..])
  }

  /** Two for every node: once to enter it, once to leave it. */
  ghost function Weight(t: Tree): nat {
    match t
    case Tip(item) => 2
    case Fork(kids) => 2 + WeightOf(kids)
  }

  ghost function WeightOf(kids: seq<Tree>): nat {
    if kids == [] then 0 else Weight(kids[0]) + WeightOf(kids[1..])
  }

  // ---------- the stack ----------

  /** A tree on the stack; its child number `index` has been entered. */
  datatype Visit = Visit(tree: Tree, index: nat)

  ghost predicate VisitOk(v: Visit) {
    v.index == 0 || (v.tree.Fork? && v.index < |v.tree.kids|)
  }

  ghost function Ahead(v: Visit): seq<Tree> {
    if v.tree.Fork? && v.index < |v.tree.kids| then v.tree.kids[v.index + 1..] else []
  }

  ghost function Rest(v: Visit): seq<Item> {
    match v.tree
    case Tip(item) => [item]
    case Fork(_) => LeavesOf(Ahead(v))
  }

  /** What is still to be yielded: the top of the stack first. */
  ghost function Remaining(visits: seq<Visit>): seq<Item> {
    if visits == [] then [] else Rest(visits[|visits| - 1]) + Remaining(visits[..|visits| - 1])
  }

  ghost function TotalWeight(visits: seq<Visit>): nat {
    if visits == [] then 0 else 1 + WeightOf(Ahead(visits[|visits| - 1])) + TotalWeight(visits[..|visits| - 1])
  }

  lemma {:induction false} Push(visits: seq<Visit>, v: Visit)
    ensures Remaining(visits + [v]) == Rest(v) + Remaining(visits)
    ensures TotalWeight(visits + [v]) == 1 + WeightOf(Ahead(v)) + TotalWeight(visits)
  {
  }

  lemma Concat3(a: seq<Item>, b: seq<Item>, c: seq<Item>)
    ensures a + b + c == a + (b + c)
  {
  }

  /** Entering a tree: its first child and the visit left behind make up the tree. */
  lemma {:induction false} Enter(t: Tree, visits: seq<Visit>)
    ensures if t.Fork? && t.kids != [] then
              && Leaves(t) + Remaining(visits) == Leaves(t.kids[0]) + Remaining(visits + [Visit(t, 0)])
              && Weight(t) + TotalWeight(visits) == 1 + Weight(t.kids[0]) + TotalWeight(visits + [Visit(t, 0)])
            else
              && Leaves(t) + Remaining(visits) == Remaining(visits + [Visit(t, 0)])
              && Weight(t) + TotalWeight(visits) == 1 + TotalWeight(visits + [Visit(t, 0)])
  {
    Push(visits, Visit(t, 0));
    FirstVisit(t);
    if t.Fork? && t.kids != [] {
      Concat3(Leaves(t.kids[0]), Rest(Visit(t, 0)), Remaining(visits));
    }
  }

  /** What a visit that has just begun leaves to do. */
  lemma {:induction false} FirstVisit(t: Tree)
    ensures if t.Fork? && t.kids != [] then
              && Leaves(t) == Leaves(t.kids[0]) + Rest(Visit(t, 0))
              && Weight(t) == 2 + Weight(t.kids[0]) + WeightOf(Ahead(Visit(t, 0)))
            else Leaves(t) == Rest(Visit(t, 0)) && Weight(t) == 2 + WeightOf(Ahead(Visit(t, 0)))
  {
  }

  lemma {:induction false} AheadCons(t: Tree, i: nat)
    requires t.Fork? && i + 1 < |t.kids|
    ensures LeavesOf(Ahead(Visit(t, i))) == Leaves(t.kids[i + 1]) + LeavesOf(Ahead(Visit(t, i + 1)))
    ensures WeightOf(Ahead(Visit(t, i))) == Weight(t.kids[i + 1]) + WeightOf(Ahead(Visit(t, i + 1)))
  {
  }

  /** Moving on to the next child. */
  lemma {:induction false} Advance(t: Tree, i: nat, below: seq<Visit>)
    requires t.Fork? && i + 1 < |t.kids|
    ensures Remaining(below + [Visit(t, i)]) == Leaves(t.kids[i + 1]) + Remaining(below + [Visit(t, i + 1)])
    ensures TotalWeight(below + [Visit(t, i)]) == Weight(t.kids[i + 1]) + TotalWeight(below + [Visit(t, i + 1)])
  {
    Push(below, Visit(t, i));
    Push(below, Visit(t, i + 1));
    AheadCons(t, i);
    Concat3(Leaves(t.kids[i + 1]), LeavesOf(Ahead(Visit(t, i + 1))), Remaining(below));
  }

  // ---------- walking over the children ----------

  predicate IsLive(node: Node, b: byte)
    requires (node.Node48? || node.Node256?) && Sized(node)
    ensures IsLive(node, b) <==> Child(node, b).Some?
  {
    match node
    case Node48(h, ix, cs) => ix[b] != 255
    case Node256(h, cs) => cs[b].Some?
  }

  /** `live` lists the live bytes of the node in order. */
  ghost predicate Lists(node: Node, live: seq<byte>)
    requires Sized(node)
  {
    Ascending(live, |live|) && forall x: byte :: x in live <==> Child(node, x).Some?
  }

  /** `live[i]` is the first listed byte that is at least `b`. */
  ghost predicate FirstAt(live: seq<byte>, i: nat, b: nat) {
    i <= |live| && (i > 0 ==> live[i - 1] < b) && (i < |live| ==> b <= live[i])
  }

  lemma LookAt(node: Node, live: seq<byte>, i: nat, b: byte)
    requires Sized(node) && Lists(node, live) && FirstAt(live, i, b)
    ensures if Child(node, b).Some? then i < |live| && live[i] == b && FirstAt(live, i + 1, b + 1)
            else FirstAt(live, i, b + 1)
  {
  }

  lemma {:induction false} ListsOnce(node: Node, a: seq<byte>, b: seq<byte>)
    requires Sized(node) && Lists(node, a) && Lists(node, b)
    ensures a == b
  {
    SortedOnce(a, b);
  }

  lemma {:induction false} SortedOnce(a: seq<byte>, b: seq<byte>)
    requires Ascending(a, |a|) && Ascending(b, |b|) && forall x: byte :: x in a <==> x in b
    ensures a == b
  {
    assert a != [] ==> a[0] in b;
    assert b != [] ==> b[0] in a;
    if a != [] {
      assert a[0] == b[0];
      TailBytes(a);
      TailBytes(b);
      SortedOnce(a[1..], b[1..]);
      assert a == [a[0]] + a[1..] && b == [b[0]] + b[1..];
    }
  }

  lemma {:induction false} TailBytes(a: seq<byte>)
    requires Ascending(a, |a|) && a != []
    ensures Ascending(a[1..], |a[1..]|) && forall x: byte :: x in a[1..] <==> x in a && x != a[0]
  {
    assert a == [a[0]] + a[1..];
  }

  /** The mirrored children of a row are its slots from the first on. */
  lemma MirrorRow(node: Node, t: Tree)
    requires Mirrors(node, t) && (node.Node4? || node.Node16?)
    ensures Fit(node) && t.Fork? && |t.kids| == node.header.numChildren
    ensures forall i :: 0 <= i < |t.kids| ==> node.children[i].Some? && Mirrors(node.children[i].value, t.kids[i])
  {
    assert Unlock(0);
    forall i | 0 <= i < |t.kids| ensures node.children[i].Some? && Mirrors(node.children[i].value, t.kids[i]) {
      IndexUnique(node.keys, node.header.numChildren, i);
      assert KidBytes(node)[i] == node.keys[i];
    }
  }

  /** The mirrored children of a table are those of its live bytes in ascending order. */
  lemma MirrorTable(node: Node, t: Tree, live: seq<byte>)
    requires Mirrors(node, t) && (node.Node48? || node.Node256?) && Sized(node) && Lists(node, live)
    ensures t.Fork? && |t.kids| == |live|
    ensures forall i :: 0 <= i < |live| ==>
              Child(node, live[i]).Some? && Mirrors(Child(node, live[i]).value, t.kids[i])
  {
    assert Unlock(0);
    LiveFromSpec(node, 0);
    ListsOnce(node, live, LiveFrom(node, 0));
  }

  method FirstKid(node: Node) returns (r: Option<Node>)
    requires Fit(node)
    ensures r == if KidBytes(node) == [] then None else Child(node, KidBytes(node)[0])
  {
    match node
    case Leaf(_, _) =>
      r := None;
    case Node4(h, ks, cs) =>
      r := if h.numChildren > 0 then cs[0] else None;
    case Node16(h, ks, cs) =>
      r := if h.numChildren > 0 then cs[0] else None;
    case _ =>
      LiveFromSpec(node, 0);
      r := FirstLive(node, 0, LiveFrom(node, 0), 0);
  }

  /** The child under the first live byte from `b` on. */
  method FirstLive(node: Node, b: nat, ghost live: seq<byte>, ghost i: nat) returns (r: Option<Node>)
    requires Sized(node) && (node.Node48? || node.Node256?) && Lists(node, live) && b <= 256 && FirstAt(live, i, b)
    ensures r.Some? <==> i < |live|
    ensures r.Some? ==> r == Child(node, live[i])
  {
    for x := b to 256
      invariant FirstAt(live, i, x)
    {
      LookAt(node, live, i, x);
      if IsLive(node, x) {
        return Child(node, x);
      }
    }
    r := None;
  }

  /** Counts live bytes up to the current one; with no live byte at all it ends up on byte 0. */
  method CurrentKey(node: Node, current: nat, ghost live: seq<byte>) returns (b: nat)
    requires Sized(node) && (node.Node48? || node.Node256?) && Lists(node, live)
    requires current == 0 || current < |live|
    ensures b < 256 && FirstAt(live, if live == [] then 0 else current + 1, b + 1)
  {
    var found := 0;
    for x := 0 to 256
      invariant found <= current && FirstAt(live, found, x)
    {
      LookAt(node, live, found, x);
      if IsLive(node, x) {
        if found == current {
          return x;
        }
        found := found + 1;
      }
    }
    b := 0;
  }

  method NextLive(node: Node, current: nat, ghost live: seq<byte>) returns (r: Option<(Node, nat)>)
    requires Sized(node) && (node.Node48? || node.Node256?) && Lists(node, live)
    requires current == 0 || current < |live|
    ensures r.Some? <==> current + 1 < |live|
    ensures r.Some? ==> Child(node, live[current + 1]) == Some(r.value.0) && r.value.1 == current + 1
  {
    var b := CurrentKey(node, current, live);
    var child := FirstLive(node, b + 1, live, if live == [] then 0 else current + 1);
    r := if child.Some? then Some((child.value, current + 1)) else None;
  }

  method NextKid(node: Node, current: nat) returns (r: Option<(Node, nat)>)
    requires Fit(node) && (current == 0 || current < |KidBytes(node)|)
    ensures r.Some? <==> current + 1 < |KidBytes(node)|
    ensures r.Some? ==> Child(node, KidBytes(node)[current + 1]) == Some(r.value.0) && r.value.1 == current + 1
  {
    match node
    case Leaf(_, _) =>
      r := None;
    case Node4(h, ks, cs) =>
      r := NextInRow(ks, cs, h.numChildren, current + 1);
    case Node16(h, ks, cs) =>
      r := NextInRow(ks, cs, h.numChildren, current + 1);
    case _ =>
      LiveFromSpec(node, 0);
      r := NextLive(node, current, LiveFrom(node, 0));
  }

  function NextInRow(ks: seq<byte>, cs: Slots, n: nat, i: nat): (r: Option<(Node, nat)>)
    requires Row(ks, cs, n)
    ensures r.Some? <==> i < n
    ensures r.Some? ==> RowChild(ks, cs, n, ks[i]) == Some(r.value.0) && r.value.1 == i
  {
    if i < n && cs[i].Some? then
      IndexUnique(ks, n, i);
      Some((cs[i].value, i))
    else None
  }

  method GetFirstChild(node: Node, ghost t: Tree) returns (r: Option<Node>)
    requires Mirrors(node, t) && t.Fork?
    ensures r.None? <==> t.kids == []
    ensures r.Some? ==> Mirrors(r.value, t.kids[0]) && r.value < node
    ensures Fit(node) && !node.Leaf?
    ensures node.Node4? || node.Node16? ==> r == if node.header.numChildren > 0 then node.children[0] else None
    ensures node.Node48? || node.Node256? ==>
              forall live :: Lists(node, live) ==> r == if live == [] then None else Child(node, live[0])
  {
    assert Unlock(0);
    r := FirstKid(node);
    KidsAre(node);
  }

  /** Rows position by position, tables byte by byte. */
  lemma KidsAre(node: Node)
    requires Fit(node) && !node.Leaf?
    ensures node.Node4? || node.Node16? ==>
              |KidBytes(node)| == node.header.numChildren
              && forall i :: 0 <= i < node.header.numChildren ==> Child(node, KidBytes(node)[i]) == node.children[i]
    ensures node.Node48? || node.Node256? ==> forall live :: Lists(node, live) ==> live == KidBytes(node)
  {
    if node.Node4? || node.Node16? {
      forall i | 0 <= i < node.header.numChildren ensures Child(node, KidBytes(node)[i]) == node.children[i] {
        IndexUnique(node.keys, node.header.numChildren, i);
      }
    } else {
      LiveFromSpec(node, 0);
      forall live | Lists(node, live) ensures live == KidBytes(node) {
        ListsOnce(node, live, KidBytes(node));
      }
    }
  }

  method GetNextChild(node: Node, current: nat, ghost t: Tree) returns (r: Option<(Node, nat)>)
    requires Mirrors(node, t) && t.Fork? && (current == 0 || current < |t.kids|)
    ensures r.None? <==> current + 1 >= |t.kids|
    ensures r.Some? ==> Mirrors(r.value.0, t.kids[current + 1]) && r.value.1 == current + 1
    ensures Fit(node) && !node.Leaf?
    ensures node.Node4? || node.Node16? ==>
              if r.Some? then current + 1 < node.header.numChildren && Some(r.value.0) == node.children[current + 1]
              else current + 1 >= node.header.numChildren
    ensures node.Node48? || node.Node256? ==>
              forall live :: Lists(node, live) ==>
                if r.Some? then current + 1 < |live| && Some(r.value.0) == Child(node, live[current + 1])
                else current + 1 >= |live|
  {
    assert Unlock(0);
    r := NextKid(node, current);
    KidsAre(node);
  }

  lemma LeafMirror(node: Node, t: Tree)
    requires Mirrors(node, t)
    ensures node.Leaf? <==> t.Tip?
    ensures node.Leaf? ==> t == Tip((node.key, node.leafValue))
  {
    assert Unlock(0);
  }

  datatype Frame = Frame(node: Node, childIndex: nat)

  class ArtIterator {
    var stack: seq<Frame>
    ghost var visits: seq<Visit>

    ghost predicate Valid()
      reads this
    {
      |visits| == |stack|
      && forall i :: 0 <= i < |stack| ==>
           Mirrors(stack[i].node, visits[i].tree) && stack[i].childIndex == visits[i].index && VisitOk(visits[i])
    }

    constructor (root: Option<Node>, ghost t: Tree)
      requires root.Some? ==> Mirrors(root.value, t)
      ensures Valid() && Remaining(visits) == if root.Some? then Leaves(t) else []
    {
      stack, visits := [], [];
      new;
      if root.Some? {
        DescendLeftmost(root.value, t);
      }
    }

    method DescendLeftmost(start: Node, ghost tree: Tree)
      requires Valid() && Mirrors(start, tree)
      modifies this
      ensures Valid() && Remaining(visits) == Leaves(tree) + Remaining(old(visits))
      ensures TotalWeight(visits) < Weight(tree) + TotalWeight(old(visits))
    {
      var node := start;
      ghost var t := tree;
      while true
        invariant Valid() && Mirrors(node, t)
        invariant Leaves(t) + Remaining(visits) == Leaves(tree) + Remaining(old(visits))
        invariant Weight(t) + TotalWeight(visits) <= Weight(tree) + TotalWeight(old(visits))
        decreases node
      {
        LeafMirror(node, t);
        Enter(t, visits);
        if node.Leaf? {
          PushFrame(node, t);
          break;
        }
        var first := GetFirstChild(node, t);
        PushFrame(node, t);
        if first.None? {
          break;
        }
        node, t := first.value, t.kids[0];
      }
    }

    method PushFrame(node: Node, ghost t: Tree)
      requires Valid() && Mirrors(node, t)
      modifies this
      ensures Valid() && visits == old(visits) + [Visit(t, 0)]
    {
      stack, visits := stack + [Frame(node, 0)], visits + [Visit(t, 0)];
    }

    /** Yields the next leaf; the loop ends because every turn leaves a frame or enters a new child. */
    method Next() returns (r: Option<Item>)
      requires Valid()
      modifies this
      ensures Valid()
      ensures r.None? ==> Remaining(old(visits)) == [] && Remaining(visits) == []
      ensures r.Some? ==> Remaining(old(visits)) == [r.value] + Remaining(visits)
    {
      while stack != []
        invariant Valid() && Remaining(visits) == Remaining(old(visits))
        decreases TotalWeight(visits)
      {
        var frame := stack[|stack| - 1];
        LeafMirror(frame.node, visits[|stack| - 1].tree);
        if frame.node.Leaf? {
          Pop();
          return Some((frame.node.key, frame.node.leafValue));
        }
        MoveOn();
      }
      r := None;
    }

    method Pop()
      requires Valid() && stack != []
      modifies this
      ensures Valid() && Remaining(old(visits)) == Rest(old(visits)[|old(visits)| - 1]) + Remaining(visits)
      ensures TotalWeight(visits) < TotalWeight(old(visits))
    {
      stack, visits := stack[..|stack| - 1], visits[..|visits| - 1];
    }

    /** Enters the next child of the top frame, or leaves the frame if there is none. */
    method MoveOn()
      requires Valid() && stack != [] && visits[|visits| - 1].tree.Fork?
      modifies this
      ensures Valid() && Remaining(visits) == Remaining(old(visits)) && TotalWeight(visits) < TotalWeight(old(visits))
    {
      var top := |stack| - 1;
      var node, i := stack[top].node, stack[top].childIndex;
      ghost var t, under := visits[top].tree, visits[..top];
      assert visits == under + [Visit(t, i)];
      var next := GetNextChild(node, i, t);
      if next.Some? {
        Advance(t, i, under);
        stack, visits := stack[top := Frame(node, next.value.1)], under + [Visit(t, i + 1)];
        DescendLeftmost(next.value.0, t.kids[i + 1]);
      } else {
        assert Rest(visits[top]) == [];
        Pop();
      }
    }
  }
}
