/**
 B+Tree nodes (nanograph-btree/src/node.rs).

 The tree hands out copies of its nodes and stores them back, so a node is a value here and its
 in-place updates are functions from the old node to the new one.
 */
module BTreeNode {
  import opened Wrappers
  import opened Bytes

  type NodeId = nat

  datatype Entry = Entry(key: Key, value: Value)

  datatype Node =
    | Leaf(id: NodeId, entries: seq<Entry>, next: Option<NodeId>, prev: Option<NodeId>, parent: Option<NodeId>)
    | Internal(id: NodeId, keys: seq<Key>, children: seq<NodeId>, parent: Option<NodeId>)
  {
    /** Entries of a leaf, routing keys of an internal node. */
    function Len(): nat {
      if Leaf? then |entries| else |keys|
    }

    predicate IsFull(order: nat) {
      Len() >= order
    }

    function SetParent(p: Option<NodeId>): Node {
      this.(parent := p)
    }

    function Get(key: Key): Option<Value> {
      if Leaf? then GetEntry(entries, key) else None
    }

    function GetChildForKey(key: Key): Option<NodeId> {
      if Internal? && FindChildIndex(keys, key) < |children|
      then Some(children[FindChildIndex(keys, key)])
      else None
    }

    function InsertEntry(key: Key, value: Value): Node {
      if Leaf? then this.(entries := PutEntry(entries, key, value)) else this
    }

    function DeleteEntry(key: Key): Node {
      if Leaf? then this.(entries := DropEntry(entries, key)) else this
    }

    function InsertInternalEntry(key: Key, child: NodeId): Node
      requires Internal? ==> |keys| < |children|
    {
      if Internal?
      then this.(keys := InsertAt(keys, Search(keys, key).idx, key),
                 children := InsertAt(children, Search(keys, key).idx + 1, child))
      else this
    }

    /** The leaf that keeps the lower half, its `next` already pointing at the new right leaf. */
    function SplitLeafLeft(newId: NodeId): Node
      requires Leaf?
    {
      this.(entries := entries[..|entries| / 2], next := Some(newId))
    }

    function SplitLeafRight(newId: NodeId): Node
      requires Leaf?
    {
      Leaf(newId, entries[|entries| / 2..], next, Some(id), parent)
    }

    function SplitInternalLeft(): Node
      requires Internal? && |keys| > 0 && |children| == |keys| + 1
    {
      this.(keys := keys[..|keys| / 2], children := children[..|keys| / 2 + 1])
    }

    function SplitInternalRight(newId: NodeId): Node
      requires Internal? && |keys| > 0 && |children| == |keys| + 1
    {
      Internal(newId, keys[|keys| / 2 + 1..], children[|keys| / 2 + 1..], parent)
    }

    /** Drops a child and the separator before it; the first child takes the first separator with it. */
    function RemoveChild(child: NodeId): Node {
      if Internal? && child in children then
        var pos := Position(children, child);
        var rest := RemoveAt(children, pos);
        if 0 < pos <= |keys| then this.(children := rest, keys := RemoveAt(keys, pos - 1))
        else if pos == 0 && keys != [] then this.(children := rest, keys := keys[1..])
        else this.(children := rest)
      else this
    }
  }

  function NewLeaf(id: NodeId): Node {
    Leaf(id, [], None, None, None)
  }

  // ---------- sorted keys ----------

  ghost predicate SortedKeys(ks: seq<Key>) {
    forall i, j :: 0 <= i < j < |ks| ==> Rank(ks[i]) < Rank(ks[j])
  }

  ghost predicate SortedEntries(es: seq<Entry>) {
    forall i, j :: 0 <= i < j < |es| ==> Rank(es[i].key) < Rank(es[j].key)
  }

  function KeysOf(es: seq<Entry>): (ks: seq<Key>) {
    seq(|es|, i requires 0 <= i < |es| => es[i].key)
  }

  datatype SearchResult = Found(idx: nat) | Missing(idx: nat)

  /** `binary_search` of the standard library: the index of `key`, or where it would be inserted. */
  function Search(ks: seq<Key>, key: Key): (r: SearchResult)
    ensures r.idx <= |ks|
    ensures forall j :: 0 <= j < r.idx ==> Rank(ks[j]) < Rank(key)
    ensures r.Found? ==> r.idx < |ks| && ks[r.idx] == key
    ensures r.Missing? && r.idx < |ks| ==> Rank(key) < Rank(ks[r.idx])
  {
    if ks == [] then Missing(0)
    else if Less(ks[0], key) then
      var r := Search(ks[1..], key);
      if r.Found? then Found(r.idx + 1) else Missing(r.idx + 1)
    else if ks[0] == key then Found(0)
    else
      assert Rank(key) < Rank(ks[0]) by {
        if Rank(key) == Rank(ks[0]) { RankInjective(key, ks[0]); }
      }
      Missing(0)
  }

  function FindChildIndex(ks: seq<Key>, key: Key): (i: nat) {
    match Search(ks, key)
    case Found(i) => i + 1
    case Missing(i) => i
  }

  // ---------- vectors ----------

  function InsertAt<T>(s: seq<T>, i: nat, x: T): (r: seq<T>)
    requires i <= |s|
  {
    s[..i] + [x] + s[i..]
  }

  lemma InsertAtIndex<T>(s: seq<T>, i: nat, x: T, j: nat)
    requires i <= |s| && j <= |s|
    ensures InsertAt(s, i, x)[j] == if j < i then s[j] else if j == i then x else s[j - 1]
  {
  }

  function RemoveAt<T>(s: seq<T>, i: nat): (r: seq<T>)
    requires i < |s|
  {
    s[..i] + s[i + 1..]
  }

  /** The index `iter().position(|x| x == id)` finds. */
  function Position(s: seq<NodeId>, x: NodeId): (i: nat)
    requires x in s
    ensures i < |s| && s[i] == x
    ensures forall j :: 0 <= j < i ==> s[j] != x
  {
    if s[0] == x then 0 else 1 + Position(s[1..], x)
  }

  // ---------- leaf entries ----------

  function GetEntry(es: seq<Entry>, key: Key): Option<Value> {
    match Search(KeysOf(es), key)
    case Found(i) => Some(es[i].value)
    case Missing(_) => None
  }

  function PutEntry(es: seq<Entry>, key: Key, value: Value): seq<Entry> {
    match Search(KeysOf(es), key)
    case Found(i) => es[i := Entry(key, value)]
    case Missing(i) => InsertAt(es, i, Entry(key, value))
  }

  function DropEntry(es: seq<Entry>, key: Key): seq<Entry> {
    match Search(KeysOf(es), key)
    case Found(i) => RemoveAt(es, i)
    case Missing(_) => es
  }

  /** On sorted entries the lookup answers exactly by membership. */
  lemma GetEntrySpec(es: seq<Entry>, key: Key)
    requires SortedEntries(es)
    ensures GetEntry(es, key) == None <==> forall e :: e in es ==> e.key != key
    ensures forall v :: GetEntry(es, key) == Some(v) <==> Entry(key, v) in es
  {
    match Search(KeysOf(es), key)
    case Found(i) =>
      assert es[i] == Entry(key, es[i].value);
    case Missing(i) =>
      forall j | 0 <= j < |es| ensures es[j].key != key {
        assert KeysOf(es)[j] == es[j].key;
        if j >= i { assert KeysOf(es)[i] == es[i].key; }
      }
  }

  lemma InsertAtMembers<T>(s: seq<T>, i: nat, x: T)
    requires i <= |s|
    ensures forall y :: y in InsertAt(s, i, x) <==> y == x || y in s
  {
  }

  lemma InsertAtSorted(es: seq<Entry>, i: nat, e: Entry)
    requires SortedEntries(es) && i <= |es|
    requires forall j :: 0 <= j < i ==> Rank(es[j].key) < Rank(e.key)
    requires i < |es| ==> Rank(e.key) < Rank(es[i].key)
    ensures SortedEntries(InsertAt(es, i, e))
    ensures forall x :: x in es ==> x.key != e.key
  {
  }

  lemma ReplaceValue(es: seq<Entry>, i: nat, value: Value)
    requires SortedEntries(es) && i < |es|
    ensures var r := es[i := Entry(es[i].key, value)];
            SortedEntries(r) && forall e :: e in r <==> e == Entry(es[i].key, value) || (e in es && e.key != es[i].key)
  {
    var r := es[i := Entry(es[i].key, value)];
    assert r[i] == Entry(es[i].key, value);
    forall e | e in es && e.key != es[i].key ensures e in r {
      var j :| 0 <= j < |es| && es[j] == e;
      assert r[j] == e;
    }
  }

  /** Upsert keeps the order and replaces exactly the binding of `key`. */
  lemma PutEntrySpec(es: seq<Entry>, key: Key, value: Value)
    requires SortedEntries(es)
    ensures SortedEntries(PutEntry(es, key, value))
    ensures forall e :: e in PutEntry(es, key, value) <==> e == Entry(key, value) || (e in es && e.key != key)
    ensures |es| <= |PutEntry(es, key, value)| <= |es| + 1
    ensures PutEntry(es, key, value) != []
  {
    var r := PutEntry(es, key, value);
    var i := Search(KeysOf(es), key).idx;
    assert forall j :: 0 <= j < |es| ==> KeysOf(es)[j] == es[j].key;
    if Search(KeysOf(es), key).Found? {
      ReplaceValue(es, i, value);
    } else {
      InsertAtSorted(es, i, Entry(key, value));
      InsertAtMembers(es, i, Entry(key, value));
    }
  }

  /** Deletion keeps the order, drops exactly the binding of `key`, and shortens the leaf iff there was one. */
  lemma DropEntrySpec(es: seq<Entry>, key: Key)
    requires SortedEntries(es)
    ensures SortedEntries(DropEntry(es, key))
    ensures forall e :: e in DropEntry(es, key) <==> e in es && e.key != key
    ensures |DropEntry(es, key)| == if GetEntry(es, key).Some? then |es| - 1 else |es|
  {
    GetEntrySpec(es, key);
    if Search(KeysOf(es), key).Found? {
      var i := Search(KeysOf(es), key).idx;
      RemoveAtMembers(es, i);
      RemoveAtSorted(es, i);
    }
  }

  lemma RemoveAtSorted(es: seq<Entry>, i: nat)
    requires SortedEntries(es) && i < |es|
    ensures SortedEntries(RemoveAt(es, i))
    ensures es[i] !in RemoveAt(es, i)
    ensures forall e :: e in RemoveAt(es, i) ==> e.key != es[i].key
  {
  }

  lemma RemoveAtMembers<T>(s: seq<T>, i: nat)
    requires i < |s|
    ensures forall y :: y in s && y != s[i] ==> y in RemoveAt(s, i)
    ensures forall y :: y in RemoveAt(s, i) ==> y in s
  {
  }
}
