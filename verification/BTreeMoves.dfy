/** The concrete moves of `borrow_from_*` and `merge_with_*`, each shown to be a step of `BTreeRebalance`. */
module BTreeMoves {
  import opened Wrappers
  import opened Bytes
  import opened BTreeNode
  import opened BTreeShape
  import opened BTreeRebalance

  function Last<T>(s: seq<T>): T
    requires s != []
  {
    s[|s| - 1]
  }

  function Front<T>(s: seq<T>): seq<T>
    requires s != []
  {
    s[..|s| - 1]
  }

  // ---------- leaves ----------

  /** The last entry of `a` becomes the first of `b`. */
  ghost function LeafRight(t: Table, a: NodeId, b: NodeId): Table
    requires a in t && b in t && t[a].Leaf? && t[b].Leaf? && t[a].entries != []
  {
    t[a := t[a].(entries := Front(t[a].entries))][b := t[b].(entries := [Last(t[a].entries)] + t[b].entries)]
  }

  /** The first entry of `b` becomes the last of `a`. */
  ghost function LeafLeft(t: Table, a: NodeId, b: NodeId): Table
    requires a in t && b in t && t[a].Leaf? && t[b].Leaf? && t[b].entries != []
  {
    t[b := t[b].(entries := t[b].entries[1..])][a := t[a].(entries := t[a].entries + [t[b].entries[0]])]
  }

  lemma LeafPairReady(t: Table, g: Shape, root: NodeId, p: NodeId, i: nat, a: NodeId, b: NodeId, t1: Table, sep: Key)
    requires Wired(t, g, root) && Siblings(t, p, i, a, b)
    requires a in t && b in t && a in g && b in g && t[a].Leaf? && t[b].Leaf?
    requires a in t1 && b in t1 && t1[a].Leaf? && t1[b].Leaf?
    requires t1 == t[a := t[a].(entries := t1[a].entries)][b := t[b].(entries := t1[b].entries)]
    requires g[a].lo < Rank(sep) < g[b].hi
    requires SortedEntries(t1[a].entries) && SortedEntries(t1[b].entries)
    requires Within(t1[a].entries, g[a].(hi := Rank(sep))) && Within(t1[b].entries, g[b].(lo := Rank(sep)))
    ensures BorrowReady(t, g, t1, p, a, b, sep) && PairShaped(t1, g, a, b, sep)
  {
    SiblingFacts(t, g, root, p, i, a, b);
    LeafPairShaped(t, g, a, b, t1, sep);
    LeafHasNoChildren(t, g, root, a);
    LeafHasNoChildren(t, g, root, b);
    LeafPairTable(t, t1, p, a, b);
  }

  lemma LeafPairTable(t: Table, t1: Table, p: NodeId, a: NodeId, b: NodeId)
    requires a in t && b in t && p in t && a != b && a != p && b != p && t[a].Leaf? && t[b].Leaf?
    requires a in t1 && b in t1 && t1[a].Leaf? && t1[b].Leaf?
    requires t1 == t[a := t[a].(entries := t1[a].entries)][b := t[b].(entries := t1[b].entries)]
    requires t[a].parent == t[b].parent == Some(p)
    requires forall id :: id in t ==> t[id].parent != Some(a) && t[id].parent != Some(b)
    ensures (forall c :: c in t1 <==> c in t) && Exchanged(t, t1, a, b) && t1[p] == t[p]
    ensures Owns(t1, a) && Owns(t1, b) && t1[a].parent == t1[b].parent == Some(p)
  {
    assert forall c :: c in t && c != a && c != b ==> t1[c] == t[c];
  }

  lemma LeafPairShaped(t: Table, g: Shape, a: NodeId, b: NodeId, t1: Table, sep: Key)
    requires Shaped(t, g, a) && Shaped(t, g, b) && t[a].Leaf? && t[b].Leaf? && a != b
    requires t[a].next == Some(b) && g[a].lo < g[a].hi == g[b].lo < g[b].hi
    requires a in t1 && b in t1 && t1[a].Leaf? && t1[b].Leaf?
    requires t1 == t[a := t[a].(entries := t1[a].entries)][b := t[b].(entries := t1[b].entries)]
    requires SortedEntries(t1[a].entries) && SortedEntries(t1[b].entries)
    requires Within(t1[a].entries, g[a].(hi := Rank(sep))) && Within(t1[b].entries, g[b].(lo := Rank(sep)))
    ensures PairShaped(t1, g, a, b, sep)
  {
  }

  lemma LeafHasNoChildren(t: Table, g: Shape, root: NodeId, a: NodeId)
    requires Wired(t, g, root) && a in t && t[a].Leaf?
    ensures forall id :: id in t ==> t[id].parent != Some(a)
  {
    forall id | id in t ensures t[id].parent != Some(a) {
      assert Linked(t, g, root, id);
    }
  }

  lemma LeafRightReady(t: Table, g: Shape, root: NodeId, p: NodeId, i: nat, a: NodeId, b: NodeId)
    requires Wired(t, g, root) && Siblings(t, p, i, a, b) && a in t && b in t && t[a].Leaf? && t[b].Leaf?
    requires |t[a].entries| >= 2
    ensures a in g && b in g && a != b
    ensures BorrowReady(t, g, LeafRight(t, a, b), p, a, b, Last(t[a].entries).key)
    ensures PairShaped(LeafRight(t, a, b), g, a, b, Last(t[a].entries).key)
  {
    SiblingFacts(t, g, root, p, i, a, b);
    var es, fs := t[a].entries, t[b].entries;
    assert g[a].lo <= Rank(es[0].key) < Rank(Last(es).key) < g[a].hi;
    LeafPairReady(t, g, root, p, i, a, b, LeafRight(t, a, b), Last(es).key);
  }

  lemma LeafLeftReady(t: Table, g: Shape, root: NodeId, p: NodeId, i: nat, a: NodeId, b: NodeId)
    requires Wired(t, g, root) && Siblings(t, p, i, a, b) && a in t && b in t && t[a].Leaf? && t[b].Leaf?
    requires |t[b].entries| >= 2
    ensures a in g && b in g && a != b
    ensures BorrowReady(t, g, LeafLeft(t, a, b), p, a, b, t[b].entries[1].key)
    ensures PairShaped(LeafLeft(t, a, b), g, a, b, t[b].entries[1].key)
  {
    SiblingFacts(t, g, root, p, i, a, b);
    var es, fs := t[a].entries, t[b].entries;
    assert g[b].lo <= Rank(fs[0].key) < Rank(fs[1].key) < g[b].hi;
    assert LeafLeft(t, a, b) == t[a := t[a].(entries := es + [fs[0]])][b := t[b].(entries := fs[1..])];
    LeafPairReady(t, g, root, p, i, a, b, LeafLeft(t, a, b), fs[1].key);
  }

  // ---------- internal nodes ----------

  /** `a`'s last child goes to the front of `b`; the separator comes down, `a`'s last key goes up. */
  ghost function ChildRight(t: Table, a: NodeId, b: NodeId, sep: Key): Table
    requires a in t && b in t && t[a].Internal? && t[b].Internal? && t[a].keys != [] && t[a].children != []
  {
    var c := Last(t[a].children);
    Reparent(t, [c], b)
      [a := t[a].(keys := Front(t[a].keys), children := Front(t[a].children))]
      [b := t[b].(keys := [sep] + t[b].keys, children := [c] + t[b].children)]
  }

  /** `b`'s first child goes to the end of `a`; the separator comes down, `b`'s first key goes up. */
  ghost function ChildLeft(t: Table, a: NodeId, b: NodeId, sep: Key): Table
    requires a in t && b in t && t[a].Internal? && t[b].Internal? && t[b].keys != [] && t[b].children != []
  {
    var c := t[b].children[0];
    Reparent(t, [c], a)
      [b := t[b].(keys := t[b].keys[1..], children := t[b].children[1..])]
      [a := t[a].(keys := t[a].keys + [sep], children := t[a].children + [c])]
  }

  /** A table in which `a` and `b` share the children they had between them. */
  lemma InternalPairReady(t: Table, g: Shape, root: NodeId, p: NodeId, i: nat, a: NodeId, b: NodeId, t1: Table,
                          sep: Key)
    requires Wired(t, g, root) && Siblings(t, p, i, a, b)
    requires a in t && b in t && a in g && b in g && t[a].Internal? && t[b].Internal?
    requires forall c :: c in t1 <==> c in t
    requires t1[a].Internal? && t1[b].Internal? && t1[a].id == a && t1[b].id == b
             && t1[a].parent == t1[b].parent == Some(p)
    requires forall c :: c in t && c !in t[a].children + t[b].children && c != a && c != b ==> t1[c] == t[c]
    requires forall c :: c in t[a].children + t[b].children && c in t && c != a && c != b ==>
               c in t1[a].children + t1[b].children
               && t1[c] == t[c].SetParent(Some(if c in t1[a].children then a else b))
    requires g[a].lo < Rank(sep) < g[b].hi
    ensures BorrowReady(t, g, t1, p, a, b, sep)
  {
    SiblingFacts(t, g, root, p, i, a, b);
    ChildrenNameParent(t, g, root, a);
    ChildrenNameParent(t, g, root, b);
    NotOwnChild(t, g, root, p, a);
    NotOwnChild(t, g, root, p, b);
    assert p !in t[a].children + t[b].children;
    SharedChildren(t, t1, a, b);
  }

  lemma SharedChildren(t: Table, t1: Table, a: NodeId, b: NodeId)
    requires a in t && b in t && t[a].Internal? && t[b].Internal? && forall c :: c in t1 <==> c in t
    requires forall c :: c in t ==> (t[c].parent == Some(a) <==> c in t[a].children)
    requires forall c :: c in t ==> (t[c].parent == Some(b) <==> c in t[b].children)
    requires a !in t[a].children + t[b].children && b !in t[a].children + t[b].children
    requires t1[a].Internal? && t1[b].Internal? && t1[a].parent == t[a].parent && t1[b].parent == t[b].parent
    requires forall c :: c in t && c !in t[a].children + t[b].children && c != a && c != b ==> t1[c] == t[c]
    requires forall c :: c in t[a].children + t[b].children && c in t && c != a && c != b ==>
               c in t1[a].children + t1[b].children
               && t1[c] == t[c].SetParent(Some(if c in t1[a].children then a else b))
    ensures Exchanged(t, t1, a, b) && Owns(t1, a) && Owns(t1, b)
  {
  }

  lemma NotOwnChild(t: Table, g: Shape, root: NodeId, p: NodeId, a: NodeId)
    requires Wired(t, g, root) && a in t && t[a].parent == Some(p)
    ensures p in t && t[p].parent != Some(a) && t[p].parent != Some(p) && a != p
    ensures forall c :: c in t && t[c].parent == Some(p) ==> t[p].parent != Some(c)
  {
    var _, k := ParentSlot(t, g, root, a);
    if t[p].parent.Some? {
      var q, m := ParentSlot(t, g, root, p);
      forall c | c in t && t[c].parent == Some(p) ensures t[p].parent != Some(c) {
        var _, _ := ParentSlot(t, g, root, c);
      }
    }
  }

  /** Two internal neighbours and their children are all different nodes. */
  ghost predicate Apart(t: Table, a: NodeId, b: NodeId)
    requires a in t && b in t && t[a].Internal? && t[b].Internal?
  {
    var cs, ds := t[a].children, t[b].children;
    && a != b && a !in cs && a !in ds && b !in cs && b !in ds
    && (forall i, j :: 0 <= i < j < |cs| ==> cs[i] != cs[j])
    && (forall i, j :: 0 <= i < j < |ds| ==> ds[i] != ds[j])
    && (forall c :: c in cs ==> c !in ds)
  }

  lemma SiblingsApart(t: Table, g: Shape, root: NodeId, p: NodeId, i: nat, a: NodeId, b: NodeId)
    requires Wired(t, g, root) && Siblings(t, p, i, a, b) && a in t && b in t && t[a].Internal? && t[b].Internal?
    ensures Apart(t, a, b)
    ensures forall c :: c in t[a].children + t[b].children ==> c in t && c != p
  {
    SiblingFacts(t, g, root, p, i, a, b);
    DistinctChildren(t, g, a);
    DistinctChildren(t, g, b);
  }

  lemma GiverRightShaped(t: Table, g: Shape, a: NodeId, b: NodeId, sep: Key)
    requires Shaped(t, g, a) && Shaped(t, g, b) && t[a].Internal? && t[b].Internal? && Apart(t, a, b)
    requires t[a].keys != [] && g[a].hi == g[b].lo == Rank(sep) && g[b].lo < g[b].hi && g[a].ht == g[b].ht
    ensures Shaped(ChildRight(t, a, b, sep), MoveBoundary(g, a, b, Rank(Last(t[a].keys))), a)
  {
    var t1, g1 := ChildRight(t, a, b, sep), MoveBoundary(g, a, b, Rank(Last(t[a].keys)));
    assert t[a].children[|t[a].keys|] == Last(t[a].children);
    forall j | 0 <= j < |t1[a].children|
      ensures var c := t1[a].children[j];
              c in t1 && c in g1 && t1[c].parent == Some(a) && g1[c] == ChildRegion(g1[a], t1[a].keys, j)
    {
      assert t1[a].children[j] == t[a].children[j];
    }
  }

  lemma TakerRightShaped(t: Table, g: Shape, a: NodeId, b: NodeId, sep: Key)
    requires Shaped(t, g, a) && Shaped(t, g, b) && t[a].Internal? && t[b].Internal? && Apart(t, a, b)
    requires t[a].keys != [] && g[a].hi == g[b].lo == Rank(sep) && g[b].lo < g[b].hi && g[a].ht == g[b].ht
    ensures Shaped(ChildRight(t, a, b, sep), MoveBoundary(g, a, b, Rank(Last(t[a].keys))), b)
  {
    var t1, g1 := ChildRight(t, a, b, sep), MoveBoundary(g, a, b, Rank(Last(t[a].keys)));
    assert t[a].children[|t[a].keys|] == Last(t[a].children);
    forall j | 0 <= j < |t1[b].children|
      ensures var c := t1[b].children[j];
              c in t1 && c in g1 && t1[c].parent == Some(b) && g1[c] == ChildRegion(g1[b], t1[b].keys, j)
    {
      if j > 0 { assert t1[b].children[j] == t[b].children[j - 1]; }
    }
  }

  lemma ChildRightShaped(t: Table, g: Shape, a: NodeId, b: NodeId, sep: Key)
    requires Shaped(t, g, a) && Shaped(t, g, b) && t[a].Internal? && t[b].Internal? && Apart(t, a, b)
    requires t[a].keys != [] && g[a].hi == g[b].lo == Rank(sep) && g[b].lo < g[b].hi && g[a].ht == g[b].ht
    ensures PairShaped(ChildRight(t, a, b, sep), g, a, b, Last(t[a].keys))
  {
    GiverRightShaped(t, g, a, b, sep);
    TakerRightShaped(t, g, a, b, sep);
  }

  lemma TakerLeftShaped(t: Table, g: Shape, a: NodeId, b: NodeId, sep: Key)
    requires Shaped(t, g, a) && Shaped(t, g, b) && t[a].Internal? && t[b].Internal? && Apart(t, a, b)
    requires t[b].keys != [] && g[a].hi == g[b].lo == Rank(sep) && g[a].lo < g[a].hi && g[a].ht == g[b].ht
    ensures Shaped(ChildLeft(t, a, b, sep), MoveBoundary(g, a, b, Rank(t[b].keys[0])), a)
  {
    var t1, g1 := ChildLeft(t, a, b, sep), MoveBoundary(g, a, b, Rank(t[b].keys[0]));
    forall j | 0 <= j < |t1[a].children|
      ensures var c := t1[a].children[j];
              c in t1 && c in g1 && t1[c].parent == Some(a) && g1[c] == ChildRegion(g1[a], t1[a].keys, j)
    {
      if j < |t[a].children| { assert t1[a].children[j] == t[a].children[j]; }
    }
  }

  lemma GiverLeftShaped(t: Table, g: Shape, a: NodeId, b: NodeId, sep: Key)
    requires Shaped(t, g, a) && Shaped(t, g, b) && t[a].Internal? && t[b].Internal? && Apart(t, a, b)
    requires t[b].keys != [] && g[a].hi == g[b].lo == Rank(sep) && g[a].lo < g[a].hi && g[a].ht == g[b].ht
    ensures Shaped(ChildLeft(t, a, b, sep), MoveBoundary(g, a, b, Rank(t[b].keys[0])), b)
  {
    var t1, g1 := ChildLeft(t, a, b, sep), MoveBoundary(g, a, b, Rank(t[b].keys[0]));
    forall j | 0 <= j < |t1[b].children|
      ensures var c := t1[b].children[j];
              c in t1 && c in g1 && t1[c].parent == Some(b) && g1[c] == ChildRegion(g1[b], t1[b].keys, j)
    {
      assert t1[b].children[j] == t[b].children[j + 1];
    }
  }

  lemma ChildLeftShaped(t: Table, g: Shape, a: NodeId, b: NodeId, sep: Key)
    requires Shaped(t, g, a) && Shaped(t, g, b) && t[a].Internal? && t[b].Internal? && Apart(t, a, b)
    requires t[b].keys != [] && g[a].hi == g[b].lo == Rank(sep) && g[a].lo < g[a].hi && g[a].ht == g[b].ht
    ensures PairShaped(ChildLeft(t, a, b, sep), g, a, b, t[b].keys[0])
  {
    TakerLeftShaped(t, g, a, b, sep);
    GiverLeftShaped(t, g, a, b, sep);
  }

  lemma ChildRightReady(t: Table, g: Shape, root: NodeId, p: NodeId, i: nat, a: NodeId, b: NodeId)
    requires Wired(t, g, root) && Siblings(t, p, i, a, b) && a in t && b in t && t[a].Internal? && t[b].Internal?
    requires t[a].keys != []
    ensures a in g && b in g && a != b && t[a].children != []
    ensures BorrowReady(t, g, ChildRight(t, a, b, t[p].keys[i - 1]), p, a, b, Last(t[a].keys))
    ensures PairShaped(ChildRight(t, a, b, t[p].keys[i - 1]), g, a, b, Last(t[a].keys))
  {
    SiblingFacts(t, g, root, p, i, a, b);
    SiblingsApart(t, g, root, p, i, a, b);
    ChildRightShaped(t, g, a, b, t[p].keys[i - 1]);
    var t1 := ChildRight(t, a, b, t[p].keys[i - 1]);
    ChildRightMoves(t, a, b, t[p].keys[i - 1]);
    InternalPairReady(t, g, root, p, i, a, b, t1, Last(t[a].keys));
  }

  /** What changes and what stays when `a`'s last child moves to `b`. */
  lemma ChildRightMoves(t: Table, a: NodeId, b: NodeId, sep: Key)
    requires a in t && b in t && t[a].Internal? && t[b].Internal? && Apart(t, a, b) && t[a].keys != []
             && t[a].children != []
    requires forall c :: c in t[a].children ==> c in t && t[c].parent == Some(a)
    requires forall c :: c in t[b].children ==> c in t && t[c].parent == Some(b)
    ensures var t1 := ChildRight(t, a, b, sep);
            && (forall c :: c in t1 <==> c in t)
            && (forall c :: c in t && c !in t[a].children + t[b].children && c != a && c != b ==> t1[c] == t[c])
            && (forall c :: c in t[a].children + t[b].children && c in t && c != a && c != b ==>
                  c in t1[a].children + t1[b].children
                  && t1[c] == t[c].SetParent(Some(if c in t1[a].children then a else b)))
  {
    var t1 := ChildRight(t, a, b, sep);
    assert t[a].children == t1[a].children + [Last(t[a].children)];
    assert t1[b].children == [Last(t[a].children)] + t[b].children;
  }

  lemma ChildLeftReady(t: Table, g: Shape, root: NodeId, p: NodeId, i: nat, a: NodeId, b: NodeId)
    requires Wired(t, g, root) && Siblings(t, p, i, a, b) && a in t && b in t && t[a].Internal? && t[b].Internal?
    requires t[b].keys != []
    ensures a in g && b in g && a != b && t[b].children != []
    ensures BorrowReady(t, g, ChildLeft(t, a, b, t[p].keys[i - 1]), p, a, b, t[b].keys[0])
    ensures PairShaped(ChildLeft(t, a, b, t[p].keys[i - 1]), g, a, b, t[b].keys[0])
  {
    SiblingFacts(t, g, root, p, i, a, b);
    SiblingsApart(t, g, root, p, i, a, b);
    ChildLeftShaped(t, g, a, b, t[p].keys[i - 1]);
    var t1 := ChildLeft(t, a, b, t[p].keys[i - 1]);
    assert t[b].children == [t[b].children[0]] + t[b].children[1..];
    InternalPairReady(t, g, root, p, i, a, b, t1, t[b].keys[0]);
  }

  /** The nodes a borrow or a merge touches next to `a`, `b` and `p` are stored under their own ids. */
  lemma Bystanders(t: Table, g: Shape, root: NodeId, p: NodeId, i: nat, a: NodeId, b: NodeId)
    requires Wired(t, g, root) && Siblings(t, p, i, a, b)
    ensures a in t && b in t && t[a].Leaf? == t[b].Leaf? && {a, b, p} <= t.Keys
    ensures t[a].Leaf? && t[b].next.Some? ==>
              var n := t[b].next.value; n in t && t[n].id == n && n !in {a, b, p} && t[n].Leaf?
    ensures t[a].Internal? ==> forall c :: c in t[a].children + t[b].children ==>
              c in t && t[c].id == c && c !in {a, b, p}
    ensures t[a].Internal? ==> t[a].children != [] && t[b].children != []
  {
    SiblingFacts(t, g, root, p, i, a, b);
    if t[a].Leaf? {
      if t[b].next.Some? { assert Linked(t, g, root, t[b].next.value); }
    } else {
      SiblingsApart(t, g, root, p, i, a, b);
      forall c | c in t[a].children + t[b].children ensures t[c].id == c {
        assert Linked(t, g, root, c);
      }
    }
  }

  // ---------- merges ----------

  /** `b`'s entries are appended to `a`, `a` takes over `b`'s successor, whose `prev` is repaired. */
  ghost function MergeLeaves(t: Table, a: NodeId, b: NodeId): Table
    requires a in t && b in t && t[a].Leaf? && t[b].Leaf?
  {
    var n := t[b].next;
    (if n.Some? && n.value in t && t[n.value].Leaf? then t[n.value := t[n.value].(prev := Some(a))] else t)
      [a := t[a].(entries := t[a].entries + t[b].entries, next := n)] - {b}
  }

  ghost function MergeInternals(t: Table, a: NodeId, b: NodeId, sep: Key): Table
    requires a in t && b in t && t[a].Internal? && t[b].Internal?
  {
    Reparent(t, t[a].children + t[b].children, a)
      [a := t[a].(keys := t[a].keys + [sep] + t[b].keys, children := t[a].children + t[b].children)] - {b}
  }

  lemma MergeLeavesReady(t: Table, g: Shape, root: NodeId, p: NodeId, i: nat, a: NodeId, b: NodeId)
    requires Wired(t, g, root) && Siblings(t, p, i, a, b) && a in t && b in t && t[a].Leaf? && t[b].Leaf?
    ensures MergeReady(t, g, MergeLeaves(t, a, b), p, a, b)
  {
    SiblingFacts(t, g, root, p, i, a, b);
    LeafHasNoChildren(t, g, root, a);
    LeafHasNoChildren(t, g, root, b);
    MergedLeafShaped(t, g, a, b);
  }

  lemma MergedLeafShaped(t: Table, g: Shape, a: NodeId, b: NodeId)
    requires Shaped(t, g, a) && Shaped(t, g, b) && t[a].Leaf? && t[b].Leaf? && a != b
    requires g[a].lo < g[a].hi == g[b].lo < g[b].hi
    ensures Shaped(MergeLeaves(t, a, b), Absorb(g, a, b), a)
  {
  }

  lemma MergeInternalsReady(t: Table, g: Shape, root: NodeId, p: NodeId, i: nat, a: NodeId, b: NodeId)
    requires Wired(t, g, root) && Siblings(t, p, i, a, b) && a in t && b in t && t[a].Internal? && t[b].Internal?
    ensures MergeReady(t, g, MergeInternals(t, a, b, t[p].keys[i - 1]), p, a, b)
  {
    SiblingFacts(t, g, root, p, i, a, b);
    SiblingsApart(t, g, root, p, i, a, b);
    ChildrenNameParent(t, g, root, a);
    ChildrenNameParent(t, g, root, b);
    MergedInternalShaped(t, g, a, b, t[p].keys[i - 1]);
    MergedTable(t, p, a, b, t[p].keys[i - 1]);
  }

  lemma MergedTable(t: Table, p: NodeId, a: NodeId, b: NodeId, sep: Key)
    requires a in t && b in t && t[a].Internal? && t[b].Internal? && Apart(t, a, b)
    requires t[a].id == a && t[a].parent == t[b].parent == Some(p) && p in t && a != p && b != p
    requires forall c :: c in t ==> (t[c].parent == Some(a) <==> c in t[a].children)
    requires forall c :: c in t ==> (t[c].parent == Some(b) <==> c in t[b].children)
    requires forall c :: c in t[a].children + t[b].children ==> c in t && c != p
    ensures var t1 := MergeInternals(t, a, b, sep);
            && (forall c :: c in t1 <==> c in t && c != b) && Carried(t, t1, {a, b}, b, a) && t1[p] == t[p]
            && t1[a].id == a && t1[a].parent == Some(p) && t1[a].Internal?
            && Owns(t1, a) && (forall c :: c in t1 ==> t1[c].parent != Some(b))
  {
  }

  lemma MergedInternalShaped(t: Table, g: Shape, a: NodeId, b: NodeId, sep: Key)
    requires Shaped(t, g, a) && Shaped(t, g, b) && t[a].Internal? && t[b].Internal? && Apart(t, a, b)
    requires g[a].hi == g[b].lo == Rank(sep) && g[a].lo < g[a].hi && g[b].lo < g[b].hi && g[a].ht == g[b].ht
    ensures Shaped(MergeInternals(t, a, b, sep), Absorb(g, a, b), a)
  {
    var t1, g1 := MergeInternals(t, a, b, sep), Absorb(g, a, b);
    JoinKeys(t[a].keys, sep, t[b].keys, g[a], g[b]);
    forall j | 0 <= j < |t1[a].children|
      ensures var c := t1[a].children[j];
              c in t1 && c in g1 && t1[c].parent == Some(a) && g1[c] == ChildRegion(g1[a], t1[a].keys, j)
    {
      MergedChild(t, g, a, b, sep, j);
    }
  }

  lemma MergedChild(t: Table, g: Shape, a: NodeId, b: NodeId, sep: Key, j: nat)
    requires Shaped(t, g, a) && Shaped(t, g, b) && t[a].Internal? && t[b].Internal? && Apart(t, a, b)
    requires g[a].hi == g[b].lo == Rank(sep) && g[a].ht == g[b].ht
    requires j < |MergeInternals(t, a, b, sep)[a].children|
    ensures var t1, g1 := MergeInternals(t, a, b, sep), Absorb(g, a, b);
            var c := t1[a].children[j];
            && |t1[a].children| == |t1[a].keys| + 1 && c in t1 && c in g1 && t1[c].parent == Some(a)
            && g1[c] == ChildRegion(g1[a], t1[a].keys, j)
  {
    var m := |t[a].children|;
    if j < m {
      JoinedRegionLeft(t[a].keys, sep, t[b].keys, g[a], g[b], j);
    } else {
      JoinedRegionRight(t[a].keys, sep, t[b].keys, g[a], g[b], j - m);
    }
  }

  lemma JoinKeys(ks: seq<Key>, sep: Key, ls: seq<Key>, r: Region, s: Region)
    requires SortedKeys(ks) && SortedKeys(ls) && r.hi == s.lo == Rank(sep) && r.lo < r.hi && s.lo < s.hi
    requires forall j :: 0 <= j < |ks| ==> r.lo < Rank(ks[j]) < r.hi
    requires forall j :: 0 <= j < |ls| ==> s.lo < Rank(ls[j]) < s.hi
    ensures SortedKeys(ks + [sep] + ls)
    ensures var all := ks + [sep] + ls; forall j :: 0 <= j < |all| ==> r.lo < Rank(all[j]) < s.hi
  {
  }

  lemma JoinedRegionLeft(ks: seq<Key>, sep: Key, ls: seq<Key>, r: Region, s: Region, j: nat)
    requires r.hi == s.lo == Rank(sep) && r.ht == s.ht > 0 && j <= |ks|
    ensures ChildRegion(r.(hi := s.hi), ks + [sep] + ls, j) == ChildRegion(r, ks, j)
  {
  }

  lemma JoinedRegionRight(ks: seq<Key>, sep: Key, ls: seq<Key>, r: Region, s: Region, j: nat)
    requires r.hi == s.lo == Rank(sep) && r.ht == s.ht > 0 && j <= |ls|
    ensures ChildRegion(r.(hi := s.hi), ks + [sep] + ls, |ks| + 1 + j) == ChildRegion(s, ls, j)
  {
    var all, m := ks + [sep] + ls, |ks| + 1;
    assert all[m - 1] == sep;
    if j > 0 { assert all[m + j - 1] == ls[j - 1]; }
    if j < |ls| { assert all[m + j] == ls[j]; }
  }
}
