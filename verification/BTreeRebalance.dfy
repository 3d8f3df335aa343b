/** Underflow: borrowing across a separator, merging two siblings, collapsing the root. */
module BTreeRebalance {
  import opened Wrappers
  import opened Bytes
  import opened BTreeNode
  import opened BTreeShape

  /** `a` and `b` are the children of `p` left and right of its key `i - 1`. */
  ghost predicate Siblings(t: Table, p: NodeId, i: nat, a: NodeId, b: NodeId) {
    && p in t && t[p].Internal? && |t[p].children| == |t[p].keys| + 1
    && 0 < i < |t[p].children| && t[p].children[i - 1] == a && t[p].children[i] == b
  }

  ghost predicate NoOtherPredecessor(t: Table, a: NodeId, b: NodeId) {
    forall q :: q in t && t[q].Leaf? && t[q].next == Some(b) ==> q == a
  }

  /** What the invariant says of two neighbouring children. */
  lemma SiblingFacts(t: Table, g: Shape, root: NodeId, p: NodeId, i: nat, a: NodeId, b: NodeId)
    requires Wired(t, g, root) && Siblings(t, p, i, a, b)
    ensures a in t && b in t && p in g && a in g && b in g && a != b && a != p && b != p
    ensures t[a].parent == t[b].parent == Some(p) && t[a].id == a && t[b].id == b && t[p].id == p
    ensures g[p].ht > 0 && g[a] == ChildRegion(g[p], t[p].keys, i - 1) && g[b] == ChildRegion(g[p], t[p].keys, i)
    ensures g[a].hi == g[b].lo == Rank(t[p].keys[i - 1])
    ensures g[a].lo < g[a].hi && g[b].lo < g[b].hi && g[a].ht == g[b].ht
    ensures Shaped(t, g, a) && Shaped(t, g, b) && t[a].Leaf? == t[b].Leaf?
    ensures forall j :: 0 <= j < |t[p].children| ==>
              (t[p].children[j] == a <==> j == i - 1) && (t[p].children[j] == b <==> j == i)
    ensures t[a].Leaf? ==> t[a].next == Some(b)
    ensures NoOtherPredecessor(t, a, b)
  {
    assert Shaped(t, g, p) && Shaped(t, g, a) && Shaped(t, g, b);
    assert Linked(t, g, root, a) && Linked(t, g, root, b) && Linked(t, g, root, p);
    DistinctChildren(t, g, p);
    if t[a].Leaf? {
      Neighbours(t, g, root, a, b);
    } else {
      forall q | q in t && t[q].Leaf? ensures t[q].next != Some(b) {
        assert Shaped(t, g, q);
      }
    }
  }

  // ---------- borrow ----------

  /** Every node but `a` and `b` keeps its body; children may pass from one of the two to the other. */
  ghost predicate Exchanged(t: Table, t1: Table, a: NodeId, b: NodeId) {
    forall id :: id in t && id != a && id != b ==>
      && id in t1 && SameBody(t[id], t1[id])
      && (t1[id].parent == t[id].parent
          || (t[id].parent in {Some(a), Some(b)} && t1[id].parent in {Some(a), Some(b)}))
  }

  ghost function MoveBoundary(g: Shape, a: NodeId, b: NodeId, at: real): Shape
    requires a in g && b in g
  {
    g[a := g[a].(hi := at)][b := g[b].(lo := at)]
  }

  /** `t1` is `t` with something moved across the boundary of `a` and `b`; the separator is still the old one. */
  ghost predicate BorrowReady(t: Table, g: Shape, t1: Table, p: NodeId, a: NodeId, b: NodeId, sep: Key) {
    && a in t && b in t && a in g && b in g && p in t && a != b && a != p && b != p
    && g[a].lo < Rank(sep) < g[b].hi
    && (forall c :: c in t1 <==> c in t)
    && Exchanged(t, t1, a, b) && t1[p] == t[p]
    && t1[a].id == a && t1[b].id == b && t1[a].parent == t1[b].parent == Some(p)
    && t1[a].Leaf? == t[a].Leaf? && t1[b].Leaf? == t[b].Leaf?
    && Owns(t1, a) && Owns(t1, b)
    && NoOtherPredecessor(t, a, b)
  }

  ghost predicate PairShaped(t1: Table, g: Shape, a: NodeId, b: NodeId, sep: Key)
    requires a in g && b in g
  {
    var g1 := MoveBoundary(g, a, b, Rank(sep));
    Shaped(t1, g1, a) && Shaped(t1, g1, b)
  }

  function NewSeparator(p: Node, i: nat, sep: Key): Node
    requires p.Internal? && 0 < i <= |p.keys|
  {
    p.(keys := p.keys[i - 1 := sep])
  }

  lemma BorrowStep(t: Table, g: Shape, root: NodeId, t1: Table, p: NodeId, i: nat, a: NodeId, b: NodeId, sep: Key)
    requires Wired(t, g, root) && Siblings(t, p, i, a, b)
    requires BorrowReady(t, g, t1, p, a, b, sep) && PairShaped(t1, g, a, b, sep)
    ensures Wired(t1[p := NewSeparator(t[p], i, sep)], MoveBoundary(g, a, b, Rank(sep)), root)
  {
    SiblingFacts(t, g, root, p, i, a, b);
    BorrowLinked(t, g, root, t1, p, i, a, b, sep);
    assert Shaped(t, g, p);
    BorrowParent(t, g, t1[p := NewSeparator(t[p], i, sep)], p, i, a, b, sep);
    BorrowShaped(t, g, root, t1, NewSeparator(t[p], i, sep), p, a, b, sep);
  }

  lemma BorrowLinked(t: Table, g: Shape, root: NodeId, t1: Table, p: NodeId, i: nat, a: NodeId, b: NodeId, sep: Key)
    requires Wired(t, g, root) && Siblings(t, p, i, a, b) && BorrowReady(t, g, t1, p, a, b, sep)
    ensures AllLinked(t1[p := NewSeparator(t[p], i, sep)], MoveBoundary(g, a, b, Rank(sep)), root)
  {
    var t2, g1 := t1[p := NewSeparator(t[p], i, sep)], MoveBoundary(g, a, b, Rank(sep));
    forall id | id in t2 ensures Linked(t2, g1, root, id) {
      assert Linked(t, g, root, id);
    }
  }

  lemma {:induction false} BorrowParent(t: Table, g: Shape, t2: Table, p: NodeId, i: nat, a: NodeId, b: NodeId,
                                        sep: Key)
    requires Siblings(t, p, i, a, b) && Shaped(t, g, p) && a in g && b in g && a != p && b != p
    requires g[a] == ChildRegion(g[p], t[p].keys, i - 1) && g[b] == ChildRegion(g[p], t[p].keys, i)
    requires forall j :: 0 <= j < |t[p].children| ==>
               (t[p].children[j] == a <==> j == i - 1) && (t[p].children[j] == b <==> j == i)
    requires g[a].lo < Rank(sep) < g[b].hi
    requires p in t2 && t2[p] == NewSeparator(t[p], i, sep)
    requires forall c :: c in t && t[c].parent == Some(p) ==> c in t2 && t2[c].parent == Some(p)
    ensures Shaped(t2, MoveBoundary(g, a, b, Rank(sep)), p)
  {
    var ks, cs, g2 := t[p].keys, t[p].children, MoveBoundary(g, a, b, Rank(sep));
    ReplaceKey(ks, i - 1, sep, g[p], t2[p].keys);
    forall j | 0 <= j < |cs|
      ensures cs[j] in t2 && cs[j] in g2 && t2[cs[j]].parent == Some(p) && g2[cs[j]] == ChildRegion(g[p], t2[p].keys, j)
    {
      ReplaceRegion(ks, i - 1, sep, g[p], j);
      assert t[cs[j]].parent == Some(p);
    }
  }

  lemma {:induction false} ReplaceKey(ks: seq<Key>, i: nat, sep: Key, r: Region, ks2: seq<Key>)
    requires SortedKeys(ks) && i < |ks| && r.ht > 0 && ks2 == ks[i := sep]
    requires forall j :: 0 <= j < |ks| ==> r.lo < Rank(ks[j]) < r.hi
    requires ChildRegion(r, ks, i).lo < Rank(sep) < ChildRegion(r, ks, i + 1).hi
    ensures SortedKeys(ks2)
    ensures forall j :: 0 <= j < |ks| ==> r.lo < Rank(ks2[j]) < r.hi
  {
    assert i > 0 ==> Rank(ks[i - 1]) < Rank(sep);
    assert i + 1 < |ks| ==> Rank(sep) < Rank(ks[i + 1]);
  }

  lemma {:induction false} ReplaceRegion(ks: seq<Key>, i: nat, sep: Key, r: Region, j: nat)
    requires i < |ks| && r.ht > 0 && j <= |ks|
    ensures ChildRegion(r, ks[i := sep], j)
            == if j == i then ChildRegion(r, ks, j).(hi := Rank(sep))
               else if j == i + 1 then ChildRegion(r, ks, j).(lo := Rank(sep))
               else ChildRegion(r, ks, j)
  {
  }

  lemma BorrowShaped(t: Table, g: Shape, root: NodeId, t1: Table, p1: Node, p: NodeId, a: NodeId, b: NodeId, sep: Key)
    requires Wired(t, g, root) && BorrowReady(t, g, t1, p, a, b, sep) && PairShaped(t1, g, a, b, sep)
    requires t[a].parent == t[b].parent == Some(p)
    requires t[p].Internal? && p1.Internal? && p1.parent == t[p].parent
    requires Shaped(t1[p := p1], MoveBoundary(g, a, b, Rank(sep)), p)
    ensures AllShaped(t1[p := p1], MoveBoundary(g, a, b, Rank(sep)))
  {
    var t2, g1 := t1[p := p1], MoveBoundary(g, a, b, Rank(sep));
    ParentRewritten(t1, g1, p, p1, a);
    ParentRewritten(t1, g1, p, p1, b);
    forall id | id in t2 ensures Shaped(t2, g1, id) {
      if id != a && id != b && id != p {
        assert Shaped(t, g, id);
        BorrowOthers(t, g, t1, g1, p, a, b, id);
        ParentRewritten(t1, g1, p, p1, id);
      }
    }
  }

  lemma BorrowOthers(t: Table, g: Shape, t1: Table, g1: Shape, p: NodeId, a: NodeId, b: NodeId, id: NodeId)
    requires Shaped(t, g, id) && id != a && id != b && id != p
    requires a in t && b in t && a in t1 && b in t1 && t[a].parent == t[b].parent == Some(p)
    requires Exchanged(t, t1, a, b) && t1[a].Leaf? == t[a].Leaf? && NoOtherPredecessor(t, a, b)
    requires a in g && a in g1 && g1[a].lo == g[a].lo
    requires forall c :: c in g && c != a && c != b ==> c in g1 && g1[c] == g[c]
    ensures Shaped(t1, g1, id)
  {
    ShapedCarries(t, g, t1, g1, id);
  }

  // ---------- merge ----------

  ghost function Absorb(g: Shape, a: NodeId, b: NodeId): Shape
    requires a in g && b in g
  {
    g[a := g[a].(hi := g[b].hi)]
  }

  /** `t1` is `t` with `b` merged into `a` and dropped; the parent still lists `b`. */
  ghost predicate MergeReady(t: Table, g: Shape, t1: Table, p: NodeId, a: NodeId, b: NodeId) {
    && a in t && b in t && a in g && b in g && p in t && a != b && a != p && b != p
    && (forall c :: c in t1 <==> c in t && c != b)
    && Carried(t, t1, {a, b}, b, a) && t1[p] == t[p]
    && t1[a].id == a && t1[a].parent == Some(p) && t1[a].Leaf? == t[a].Leaf?
    && Owns(t1, a) && (forall c :: c in t1 ==> t1[c].parent != Some(b))
    && NoOtherPredecessor(t, a, b)
    && Shaped(t1, Absorb(g, a, b), a)
  }

  lemma MergeStep(t: Table, g: Shape, root: NodeId, t1: Table, p: NodeId, i: nat, a: NodeId, b: NodeId)
    requires Wired(t, g, root) && Siblings(t, p, i, a, b) && MergeReady(t, g, t1, p, a, b)
    ensures t[p].RemoveChild(b) == t[p].(keys := RemoveAt(t[p].keys, i - 1), children := RemoveAt(t[p].children, i))
    ensures Wired(t1[p := t[p].RemoveChild(b)], Absorb(g, a, b), root)
  {
    SiblingFacts(t, g, root, p, i, a, b);
    assert Position(t[p].children, b) == i;
    MergeLinked(t, g, root, t1, p, i, a, b);
    MergeParentOf(t, g, root, t1, p, i, a, b);
    MergeShaped(t, g, root, t1, t[p].RemoveChild(b), p, a, b);
  }

  lemma MergeParentOf(t: Table, g: Shape, root: NodeId, t1: Table, p: NodeId, i: nat, a: NodeId, b: NodeId)
    requires Wired(t, g, root) && Siblings(t, p, i, a, b) && MergeReady(t, g, t1, p, a, b)
    requires t[p].RemoveChild(b) == t[p].(keys := RemoveAt(t[p].keys, i - 1), children := RemoveAt(t[p].children, i))
    ensures Shaped(t1[p := t[p].RemoveChild(b)], Absorb(g, a, b), p)
  {
    SiblingFacts(t, g, root, p, i, a, b);
    assert Shaped(t, g, p);
    var p1 := t[p].RemoveChild(b);
    StillNamed(t, t1, p, p1, a, b);
    MergeParent(t, g, t1[p := p1], p, i, a, b);
  }

  /** The other children of the parent still name it. */
  lemma StillNamed(t: Table, t1: Table, p: NodeId, p1: Node, a: NodeId, b: NodeId)
    requires p in t && p1.parent == t[p].parent && t1.Keys == t.Keys - {b} && Carried(t, t1, {a, b}, b, a)
    requires a in t1 && t1[a].parent == Some(p) && b != p
    ensures forall c :: c in t && c != b && t[c].parent == Some(p) ==>
              c in t1[p := p1] && t1[p := p1][c].parent == Some(p)
  {
  }

  lemma MergeLinked(t: Table, g: Shape, root: NodeId, t1: Table, p: NodeId, i: nat, a: NodeId, b: NodeId)
    requires Wired(t, g, root) && Siblings(t, p, i, a, b) && MergeReady(t, g, t1, p, a, b)
    requires t[p].RemoveChild(b) == t[p].(keys := RemoveAt(t[p].keys, i - 1), children := RemoveAt(t[p].children, i))
    requires t[b].parent == Some(p) && g[a].lo < g[b].hi
    ensures AllLinked(t1[p := t[p].RemoveChild(b)], Absorb(g, a, b), root)
  {
    var t2, g1 := t1[p := t[p].RemoveChild(b)], Absorb(g, a, b);
    RemoveAtMembers(t[p].children, i);
    forall id | id in t2 ensures Linked(t2, g1, root, id) {
      assert Linked(t, g, root, id);
    }
  }

  lemma {:induction false} MergeParent(t: Table, g: Shape, t2: Table, p: NodeId, i: nat, a: NodeId, b: NodeId)
    requires Siblings(t, p, i, a, b) && Shaped(t, g, p) && a in g && b in g && a != p && b != p
    requires g[a] == ChildRegion(g[p], t[p].keys, i - 1) && g[b] == ChildRegion(g[p], t[p].keys, i)
    requires forall j :: 0 <= j < |t[p].children| ==>
               (t[p].children[j] == a <==> j == i - 1) && (t[p].children[j] == b <==> j == i)
    requires p in t2 && t2[p] == t[p].(keys := RemoveAt(t[p].keys, i - 1), children := RemoveAt(t[p].children, i))
    requires forall c :: c in t && c != b && t[c].parent == Some(p) ==> c in t2 && t2[c].parent == Some(p)
    ensures Shaped(t2, Absorb(g, a, b), p)
  {
    var cs, cs2 := t[p].children, t2[p].children;
    DropKey(t[p].keys, i - 1, g[p], t2[p].keys);
    forall j | 0 <= j < |cs2|
      ensures cs2[j] in t2 && cs2[j] in g && t2[cs2[j]].parent == Some(p)
      ensures Absorb(g, a, b)[cs2[j]] == ChildRegion(g[p], t2[p].keys, j)
    {
      assert cs2[j] == cs[if j < i then j else j + 1];
    }
  }

  lemma {:induction false} DropKey(ks: seq<Key>, i: nat, r: Region, ks2: seq<Key>)
    requires SortedKeys(ks) && i < |ks| && r.ht > 0 && ks2 == RemoveAt(ks, i)
    requires forall j :: 0 <= j < |ks| ==> r.lo < Rank(ks[j]) < r.hi
    ensures SortedKeys(ks2)
    ensures forall j :: 0 <= j < |ks2| ==> r.lo < Rank(ks2[j]) < r.hi
    ensures forall j {:trigger ChildRegion(r, ks2, j)} :: 0 <= j <= |ks2| ==>
              ChildRegion(r, ks2, j)
              == if j < i then ChildRegion(r, ks, j)
                 else if j == i then ChildRegion(r, ks, i).(hi := ChildRegion(r, ks, i + 1).hi)
                 else ChildRegion(r, ks, j + 1)
  {
    assert forall j :: 0 <= j < |ks2| ==> ks2[j] == ks[if j < i then j else j + 1];
  }

  lemma MergeShaped(t: Table, g: Shape, root: NodeId, t1: Table, p1: Node, p: NodeId, a: NodeId, b: NodeId)
    requires Wired(t, g, root) && MergeReady(t, g, t1, p, a, b)
    requires t[a].parent == t[b].parent == Some(p)
    requires t[p].Internal? && p1.Internal? && p1.parent == t[p].parent
    requires Shaped(t1[p := p1], Absorb(g, a, b), p)
    ensures AllShaped(t1[p := p1], Absorb(g, a, b))
  {
    var t2, g1 := t1[p := p1], Absorb(g, a, b);
    ParentRewritten(t1, g1, p, p1, a);
    forall id | id in t2 ensures Shaped(t2, g1, id) {
      if id != a && id != p {
        assert Shaped(t, g, id);
        MergeOthers(t, g, t1, g1, p, a, b, id);
        ParentRewritten(t1, g1, p, p1, id);
      }
    }
  }

  lemma MergeOthers(t: Table, g: Shape, t1: Table, g1: Shape, p: NodeId, a: NodeId, b: NodeId, id: NodeId)
    requires Shaped(t, g, id) && id != a && id != b && id != p
    requires a in t && b in t && a in t1 && t[a].parent == t[b].parent == Some(p)
    requires Carried(t, t1, {a, b}, b, a) && t1[a].Leaf? == t[a].Leaf? && NoOtherPredecessor(t, a, b)
    requires a in g && a in g1 && g1[a].lo == g[a].lo
    requires forall c :: c in g && c != a ==> c in g1 && g1[c] == g[c]
    ensures Shaped(t1, g1, id)
  {
    ShapedCarries(t, g, t1, g1, id);
  }

  // ---------- root collapse ----------

  ghost function CollapseTable(t: Table, root: NodeId, c: NodeId): Table
    requires c in t
  {
    t[c := t[c].SetParent(None)] - {root}
  }

  /** A root left with a single child gives way to it. */
  lemma CollapseStep(t: Table, g: Shape, root: NodeId)
    requires Wired(t, g, root) && t[root].Internal? && |t[root].children| == 1
    ensures t[root].children[0] in t
    ensures Wired(CollapseTable(t, root, t[root].children[0]), g, t[root].children[0])
  {
    var c := t[root].children[0];
    assert Shaped(t, g, root) && Linked(t, g, root, c) && Shaped(t, g, c);
    var t1 := CollapseTable(t, root, c);
    forall id | id in t1 ensures Linked(t1, g, c, id) {
      assert Linked(t, g, root, id);
      if id != c { var p, _ := ParentSlot(t, g, root, id); }
    }
    forall id | id in t1 ensures Shaped(t1, g, id) {
      assert Shaped(t, g, id);
      ShapedCarries(t, g, t1, g, id);
    }
  }
}
