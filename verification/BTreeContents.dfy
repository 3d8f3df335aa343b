/** What a wired table stores, and how full its nodes are. */
module BTreeContents {
  import opened Wrappers
  import opened Bytes
  import opened BTreeNode
  import opened BTreeShape

  type Contents = map<Key, Value>

  ghost function EntriesAt(t: Table, id: NodeId): seq<Entry> {
    if id in t && t[id].Leaf? then t[id].entries else []
  }

  ghost predicate Stored(t: Table, e: Entry) {
    exists id :: e in EntriesAt(t, id)
  }

  /** The leaves hold exactly the bindings of `m`. */
  ghost predicate Holds(t: Table, m: Contents) {
    forall e: Entry :: Stored(t, e) <==> e.key in m && m[e.key] == e.value
  }

  /** The leaf whose region covers a key decides that key. */
  lemma LeafDecides(t: Table, g: Shape, root: NodeId, m: Contents, id: NodeId, key: Key)
    requires Wired(t, g, root) && Holds(t, m) && id in t && id in g && t[id].Leaf?
    requires g[id].lo <= Rank(key) < g[id].hi
    ensures t[id].Get(key) == if key in m then Some(m[key]) else None
  {
    assert Shaped(t, g, id) && Linked(t, g, root, id);
    GetEntrySpec(t[id].entries, key);
    forall v ensures Entry(key, v) in t[id].entries <==> key in m && m[key] == v {
      var e := Entry(key, v);
      if e in t[id].entries {
        assert e in EntriesAt(t, id);
        assert Stored(t, e);
      }
      if Stored(t, e) {
        var o :| e in EntriesAt(t, o);
        assert Shaped(t, g, o) && Linked(t, g, root, o);
        Disjoint(t, g, root, o, id);
      }
    }
  }

  /** No other node holds an entry whose key lies in the region of a leaf. */
  lemma HomeOnly(t: Table, g: Shape, root: NodeId, id: NodeId, o: NodeId, e: Entry)
    requires Wired(t, g, root) && id in t && id in g && t[id].Leaf? && o != id && g[id].lo <= Rank(e.key) < g[id].hi
    ensures e !in EntriesAt(t, o)
  {
    if e in EntriesAt(t, o) {
      assert Shaped(t, g, o) && Linked(t, g, root, o) && Shaped(t, g, id);
      Disjoint(t, g, root, o, id);
    }
  }

  /** Rewriting one leaf so that only the binding of `key` changes. */
  lemma LeafRewritten(t: Table, g: Shape, root: NodeId, m: Contents, id: NodeId, n: Node, key: Key, m1: Contents)
    requires Wired(t, g, root) && Holds(t, m) && id in t && id in g && t[id].Leaf? && n.Leaf?
    requires g[id].lo <= Rank(key) < g[id].hi
    requires forall k :: k != key ==> (k in m <==> k in m1) && (k in m ==> m[k] == m1[k])
    requires forall e: Entry :: e.key != key ==> (e in n.entries <==> e in t[id].entries)
    requires forall v :: Entry(key, v) in n.entries <==> key in m1 && m1[key] == v
    ensures Holds(t[id := n], m1)
  {
    var t1 := t[id := n];
    forall e: Entry ensures Stored(t1, e) <==> e.key in m1 && m1[e.key] == e.value {
      if e.key == key {
        assert e == Entry(key, e.value);
        assert EntriesAt(t1, id) == n.entries;
        forall o | o != id ensures e !in EntriesAt(t1, o) {
          HomeOnly(t, g, root, id, o, e);
        }
      } else {
        if Stored(t, e) {
          var o :| e in EntriesAt(t, o);
          assert e in EntriesAt(t1, o);
        }
        if Stored(t1, e) {
          var o :| e in EntriesAt(t1, o);
          assert e in EntriesAt(t, o);
        }
      }
    }
  }

  /** Moving entries between two leaves stores the same bindings. */
  lemma Rearranged(t: Table, t1: Table, m: Contents, a: NodeId, b: NodeId)
    requires Holds(t, m)
    requires forall id :: id != a && id != b ==> EntriesAt(t1, id) == EntriesAt(t, id)
    requires forall e :: e in EntriesAt(t1, a) || e in EntriesAt(t1, b) <==>
               e in EntriesAt(t, a) || e in EntriesAt(t, b)
    ensures Holds(t1, m)
  {
  }

  // ---------- occupancy ----------

  datatype Config = Config(maxKeys: nat, minKeys: nat)

  /** The configurations under which no leaf below the root is ever left empty. */
  predicate Sound(c: Config) {
    1 <= c.minKeys && 3 <= c.maxKeys
  }

  /** The default (128, 64) and every `order >= 2` configuration (2 * order, order) are of this kind. */
  predicate Balanced(c: Config) {
    Sound(c) && 2 * c.minKeys <= c.maxKeys
  }

  /**
   Below the root no leaf is empty and every internal node has a key.  With room for two halves of
   `minKeys` more is true: a leaf splits when it reaches `maxKeys`, an internal split of an even node
   leaves one key fewer on the right, and a merge may fill an internal node up to `maxKeys`.
   */
  predicate Filled(n: Node, isRoot: bool, c: Config) {
    match n
    case Leaf(_, es, _, _, _) =>
      && (isRoot || es != [])
      && (Balanced(c) ==> |es| < c.maxKeys && (isRoot || c.minKeys <= |es|))
    case Internal(_, ks, _, _) =>
      && 1 <= |ks|
      && (Balanced(c) ==> |ks| <= c.maxKeys && (isRoot || c.minKeys - 1 <= |ks|))
  }

  ghost predicate Occupied(t: Table, root: NodeId, c: Config, except: set<NodeId>) {
    forall id :: id in t && id !in except ==> Filled(t[id], id == root, c)
  }

  // ---------- the whole invariant of a tree ----------

  ghost predicate Inv(t: Table, g: Shape, root: NodeId, next: nat, leftmost: Option<NodeId>, m: Contents) {
    && Wired(t, g, root)
    && Holds(t, m)
    && (forall id :: id in t ==> id < next)
    && leftmost.Some? && leftmost.value in t && leftmost.value in g
    && t[leftmost.value].Leaf? && g[leftmost.value].lo == 0.0
  }

  /** The invariant with the occupancy of the nodes in `except` left open. */
  ghost predicate Good(t: Table, g: Shape, root: NodeId, next: nat, leftmost: Option<NodeId>, m: Contents,
                       c: Config, except: set<NodeId>) {
    && 2 <= c.maxKeys
    && Inv(t, g, root, next, leftmost, m)
    && (Sound(c) ==> Occupied(t, root, c, except))
  }
}
