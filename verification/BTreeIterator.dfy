/** The forward iterator over a B+Tree (nanograph-btree/src/iterator.rs), on a tree nobody modifies meanwhile. */
module BTreeIterator {
  import opened Wrappers
  import opened Bytes
  import opened BTreeNode
  import opened BTreeShape
  import opened BTreeContents
  import opened BTreeChain
  import opened BTree

  datatype Bound = Unbounded | Included(key: Key) | Excluded(key: Key)

  ghost predicate AfterStart(start: Bound, key: Key) {
    match start
    case Unbounded => true
    case Included(s) => Rank(s) <= Rank(key)
    case Excluded(s) => Rank(s) < Rank(key)
  }

  ghost predicate BeforeEnd(end: Bound, key: Key) {
    match end
    case Unbounded => true
    case Included(e) => Rank(key) <= Rank(e)
    case Excluded(e) => Rank(key) < Rank(e)
  }

  predicate WithinEnd(end: Bound, key: Key)
    ensures WithinEnd(end, key) <==> BeforeEnd(end, key)
  {
    match end
    case Unbounded => true
    case Included(e) => !Less(e, key)
    case Excluded(e) => Less(key, e)
  }

  /** Where a scan begins, as a rank. */
  ghost function From(start: Bound): real {
    if start.Unbounded? then 0.0 else Rank(start.key)
  }

  /** The bindings of a map within the bounds: what the map-backed store reads. */
  ghost function Wanted(m: Contents, start: Bound, end: Bound): iset<Entry> {
    iset e: Entry | e.key in m && m[e.key] == e.value && AfterStart(start, e.key) && BeforeEnd(end, e.key)
  }

  /** Those of them that no empty leaf hides from a scan. */
  ghost function Visible(tree: BPlusTree, start: Bound, end: Bound): iset<Entry>
    reads tree
  {
    iset e: Entry | e in Wanted(tree.contents, start, end) && !Shadowed(tree.nodes, tree.region, From(start), e.key)
  }

  /** A set of entries in ascending key order. */
  ghost predicate IsRange(es: seq<Entry>, wanted: iset<Entry>) {
    SortedEntries(es) && forall e: Entry :: e in es <==> e in wanted
  }

  /** There is only one such range. */
  lemma {:induction false} RangeUnique(es: seq<Entry>, fs: seq<Entry>)
    requires SortedEntries(es) && SortedEntries(fs) && forall e :: e in es <==> e in fs
    ensures es == fs
  {
    assert es != [] ==> es[0] in fs;
    assert fs != [] ==> fs[0] in es;
    if es != [] {
      assert es[0] == fs[0];
      assert es == [es[0]] + es[1..] && fs == [fs[0]] + fs[1..];
      TailMembers(es);
      TailMembers(fs);
      RangeUnique(es[1..], fs[1..]);
    }
  }

  // ---------- what is still to come ----------

  /** The entries up to the first one beyond the end bound. */
  ghost function Until(es: seq<Entry>, end: Bound): seq<Entry> {
    if es == [] || !WithinEnd(end, es[0].key) then [] else [es[0]] + Until(es[1..], end)
  }

  lemma {:induction false} UntilPrefix(es: seq<Entry>, end: Bound)
    ensures var n := |Until(es, end)|;
            && n <= |es| && Until(es, end) == es[..n]
            && (forall i :: 0 <= i < n ==> WithinEnd(end, es[i].key))
            && (n < |es| ==> !WithinEnd(end, es[n].key))
  {
    if es != [] && WithinEnd(end, es[0].key) {
      UntilPrefix(es[1..], end);
      assert forall i :: 0 < i < |es| ==> es[i] == es[1..][i - 1];
    }
  }

  /** On sorted entries that is a filter. */
  lemma UntilSpec(es: seq<Entry>, end: Bound)
    requires SortedEntries(es)
    ensures SortedEntries(Until(es, end))
    ensures forall e :: e in Until(es, end) <==> e in es && WithinEnd(end, e.key)
  {
    UntilPrefix(es, end);
    var n := |Until(es, end)|;
    forall i | n <= i < |es| ensures !WithinEnd(end, es[i].key) {
      EndIsDownwardClosed(end, es[n].key, es[i].key);
    }
    assert es == es[..n] + es[n..];
  }

  lemma EndIsDownwardClosed(end: Bound, a: Key, b: Key)
    requires Rank(a) <= Rank(b)
    ensures WithinEnd(end, b) ==> WithinEnd(end, a)
  {
  }

  ghost function Limited(es: seq<Entry>, limit: Option<nat>, count: nat): seq<Entry> {
    match limit
    case None => es
    case Some(l) => if count >= l then [] else if |es| <= l - count then es else es[..l - count]
  }

  /** Yielding one entry shortens what is to come by exactly that entry. */
  lemma YieldOne(es: seq<Entry>, end: Bound, limit: Option<nat>, count: nat)
    requires es != [] && WithinEnd(end, es[0].key) && (limit.Some? ==> count < limit.value)
    ensures Limited(Until(es, end), limit, count) == [es[0]] + Limited(Until(es[1..], end), limit, count + 1)
  {
  }

  lemma MoveOne(all: seq<Entry>, out: seq<Entry>, rest: seq<Entry>)
    requires all == out + rest && rest != []
    ensures all == (out + [rest[0]]) + rest[1..]
  {
  }

  datatype Cursor = Cursor(leafId: Option<NodeId>, index: nat, count: nat)

  class BPlusTreeIterator {
    const tree: BPlusTree
    const endBound: Bound
    const limit: Option<nat>
    var currentLeaf: Option<NodeId>
    var currentEntries: seq<Entry>
    var currentIndex: nat
    var count: nat

    ghost predicate Valid()
      reads this, tree
    {
      && tree.Valid()
      && (currentLeaf.Some? ==>
            && IsLeaf(tree.nodes, tree.region, currentLeaf.value)
            && currentEntries == tree.nodes[currentLeaf.value].entries)
    }

    /** The entries from the current position to the end of the chain. */
    ghost function Ahead(): seq<Entry>
      requires Valid()
      reads this, tree
    {
      if currentLeaf.None? || currentEntries == [] then []
      else
        var skip := if currentIndex < |currentEntries| then currentIndex else |currentEntries|;
        ChainFrom(tree.nodes, tree.region, tree.rootId, currentLeaf.value)[skip..]
    }

    /** Everything the iterator has still to yield. */
    ghost function Upcoming(): seq<Entry>
      requires Valid()
      reads this, tree
    {
      Limited(Until(Ahead(), endBound), limit, count)
    }

    /** A forward iterator over `start..end`. */
    constructor (tree: BPlusTree, start: Bound, end: Bound, limit: Option<nat>)
      requires tree.Valid()
      ensures Valid() && this.tree == tree && endBound == end && this.limit == limit && count == 0
      ensures IsRange(Until(Ahead(), end), Visible(tree, start, end))
    {
      var leaf, entries, index := FindForwardStart(tree, start);
      this.tree := tree;
      endBound := end;
      this.limit := limit;
      currentLeaf := Some(leaf);
      currentEntries := entries;
      currentIndex := index;
      count := 0;
      new;
      RangeAhead(tree, start, end, leaf, index);
    }

    /** An iterator at a given position of the tree. */
    constructor At(tree: BPlusTree, cursor: Cursor, entries: seq<Entry>, end: Bound, limit: Option<nat>)
      requires tree.Valid()
      requires cursor.leafId.Some? ==> IsLeaf(tree.nodes, tree.region, cursor.leafId.value)
                                       && entries == tree.nodes[cursor.leafId.value].entries
      ensures Valid() && this.tree == tree && endBound == end && this.limit == limit && currentEntries == entries
      ensures currentLeaf == cursor.leafId && currentIndex == cursor.index && count == cursor.count
    {
      this.tree := tree;
      endBound := end;
      this.limit := limit;
      currentLeaf := cursor.leafId;
      currentEntries := entries;
      currentIndex := cursor.index;
      count := cursor.count;
    }

    /** The iterator a saved cursor stands for; an error if its leaf is gone. */
    static method FromCursor(tree: BPlusTree, cursor: Cursor, end: Bound, limit: Option<nat>)
        returns (r: Result<BPlusTreeIterator>)
      requires tree.Valid()
      ensures r.Ok? <==> cursor.leafId.Some? ==> IsLeaf(tree.nodes, tree.region, cursor.leafId.value)
      ensures r.Ok? ==> var it := r.value;
                        && fresh(it) && it.Valid() && it.tree == tree && it.endBound == end && it.limit == limit
                        && it.currentLeaf == cursor.leafId && it.count == cursor.count
                        && (cursor.leafId.Some? ==> it.currentIndex == cursor.index)
    {
      var entries: seq<Entry> := [];
      var index := 0;
      if cursor.leafId.Some? {
        entries :- tree.GetLeafEntries(cursor.leafId.value);
        index := cursor.index;
        assert Shaped(tree.nodes, tree.region, cursor.leafId.value);
      }
      var it := new BPlusTreeIterator.At(tree, cursor.(index := index), entries, end, limit);
      r := Ok(it);
    }

    function GetCursor(): Cursor
      reads this
    {
      Cursor(currentLeaf, currentIndex, count)
    }

    /** Saving the cursor at any point and rebuilding from it leaves the same entries to come. */
    method Resume() returns (r: Result<BPlusTreeIterator>)
      requires Valid()
      ensures r.Ok? && fresh(r.value) && r.value.Valid() && r.value.tree == tree && r.value.Upcoming() == Upcoming()
    {
      r := FromCursor(tree, GetCursor(), endBound, limit);
    }

    /** Yields the next entry, or nothing once the bounds, the limit or the leaves are exhausted. */
    method PollNext() returns (r: Option<Entry>)
      requires Valid()
      modifies this
      ensures Valid()
      ensures old(Upcoming()) == [] ==> r == None && Upcoming() == []
      ensures old(Upcoming()) != [] ==> r == Some(old(Upcoming())[0]) && Upcoming() == old(Upcoming())[1..]
    {
      while true
        invariant Valid() && count == old(count) && Ahead() == old(Ahead())
        decreases LeavesLeft()
      {
        if limit.Some? && count >= limit.value {
          return None;
        }
        if currentLeaf.None? {
          return None;
        }
        if currentEntries == [] {
          currentLeaf := None;
          return None;
        }
        if currentIndex < |currentEntries| {
          break;
        }
        AdvanceLeaf();
      }
      ghost var ahead := Ahead();
      var entry := currentEntries[currentIndex];
      assert ahead[0] == entry;
      if !WithinEnd(endBound, entry.key) {
        currentLeaf := None;
        return None;
      }
      count := count + 1;
      currentIndex := currentIndex + 1;
      assert Ahead() == ahead[1..];
      YieldOne(ahead, endBound, limit, old(count));
      r := Some(entry);
    }

    /** The number of leaves from the current one on. */
    ghost function LeavesLeft(): nat
      requires Valid()
      reads this, tree
    {
      if currentLeaf.Some? then |LeavesAbove(tree.nodes, tree.region, tree.region[currentLeaf.value].lo)| else 0
    }

    /** Steps over to the next leaf; on an empty one the index stays and the next poll ends the scan. */
    method AdvanceLeaf()
      requires Valid() && currentLeaf.Some? && currentEntries != [] && currentIndex >= |currentEntries|
      modifies this
      ensures Valid() && count == old(count) && Ahead() == old(Ahead()) && LeavesLeft() < old(LeavesLeft())
    {
      ghost var t, g, root := tree.nodes, tree.region, tree.rootId;
      var leaf := currentLeaf.value;
      var next := tree.GetNextLeaf(leaf);
      if next.value.None? {
        assert leaf in LeavesAbove(t, g, g[leaf].lo);
        currentLeaf := None;
        return;
      }
      FewerLeaves(t, g, root, leaf);
      var nextId := next.value.value;
      var entries := tree.GetLeafEntries(nextId);
      assert Ahead() == ChainFrom(t, g, root, nextId);
      currentLeaf := Some(nextId);
      currentEntries := entries.value;
      if currentEntries != [] {
        currentIndex := 0;
      }
    }

    /** Moves to the first entry at or after `key`, wherever the iterator stood before. */
    method Seek(key: Key)
      requires Valid()
      modifies this
      ensures Valid() && count == old(count)
      ensures IsRange(Until(Ahead(), endBound), Visible(tree, Included(key), endBound))
    {
      var leaf, entries, index := FindForwardStart(tree, Included(key));
      currentLeaf := Some(leaf);
      currentEntries := entries;
      currentIndex := index;
      RangeAhead(tree, Included(key), endBound, leaf, index);
    }

    /** Polls until nothing is left. */
    method Collect() returns (out: seq<Entry>)
      requires Valid()
      modifies this
      ensures Valid() && out == old(Upcoming()) && Upcoming() == []
    {
      out := [];
      ghost var all := Upcoming();
      while true
        invariant Valid() && all == out + Upcoming()
        decreases |Upcoming()|
      {
        ghost var before := Upcoming();
        var r := PollNext();
        if r.None? {
          return;
        }
        MoveOne(all, out, before);
        out := out + [r.value];
      }
    }
  }

  /** The leaf, its entries, and the position in it from which a forward scan starts. */
  method FindForwardStart(tree: BPlusTree, start: Bound) returns (leaf: NodeId, entries: seq<Entry>, index: nat)
    requires tree.Valid()
    ensures IsLeaf(tree.nodes, tree.region, leaf) && entries == tree.nodes[leaf].entries && index <= |entries|
    ensures tree.region[leaf].lo <= From(start) < tree.region[leaf].hi && (start.Unbounded? ==> index == 0)
    ensures forall i :: 0 <= i < |entries| ==> (AfterStart(start, entries[i].key) <==> index <= i)
  {
    if start.Unbounded? {
      leaf := tree.GetLeftmostLeaf().value;
      assert Linked(tree.nodes, tree.region, tree.rootId, leaf);
      entries := tree.GetLeafEntries(leaf).value;
      index := 0;
    } else {
      var found := tree.FindLeaf(tree.rootId, start.key);
      leaf := found.value;
      entries := tree.GetLeafEntries(leaf).value;
      assert Shaped(tree.nodes, tree.region, leaf);
      index := Search(KeysOf(entries), start.key).idx;
      StartSplits(entries, start, index);
      if start.Excluded? && index < |entries| && entries[index].key == start.key {
        index := index + 1;
      }
    }
  }

  /** The search position splits sorted entries at the start bound, an excluded key itself apart. */
  lemma StartSplits(es: seq<Entry>, start: Bound, index: nat)
    requires SortedEntries(es) && !start.Unbounded? && index == Search(KeysOf(es), start.key).idx
    ensures index <= |es|
    ensures var n := if start.Excluded? && index < |es| && es[index].key == start.key then index + 1 else index;
            forall i :: 0 <= i < |es| ==> (AfterStart(start, es[i].key) <==> n <= i)
  {
    var ks := KeysOf(es);
    assert forall i :: 0 <= i < |es| ==> ks[i] == es[i].key;
    if index < |es| && es[index].key != start.key {
      assert Rank(start.key) < Rank(es[index].key);
    }
  }

  /** From the start position on, the chain holds exactly the bindings after the start bound that are not shadowed. */
  /** From the start position to the end bound lies the visible range. */
  lemma {:induction false} RangeAhead(tree: BPlusTree, start: Bound, end: Bound, leaf: NodeId, index: nat)
    requires tree.Valid()
    requires IsLeaf(tree.nodes, tree.region, leaf) && index <= |tree.nodes[leaf].entries|
    requires tree.region[leaf].lo <= From(start) < tree.region[leaf].hi
    requires var es := tree.nodes[leaf].entries; forall i :: 0 <= i < |es| ==>
               (AfterStart(start, es[i].key) <==> index <= i)
    ensures var all := ChainFrom(tree.nodes, tree.region, tree.rootId, leaf);
            && index <= |all| && IsRange(Until(all[index..], end), Visible(tree, start, end))
            && (tree.nodes[leaf].entries == [] ==> all == [])
  {
    AheadIsTail(tree, start, leaf, index);
    var tail := ChainFrom(tree.nodes, tree.region, tree.rootId, leaf)[index..];
    UntilSpec(tail, end);
    forall e: Entry ensures e in Until(tail, end) <==> e in Visible(tree, start, end) {
      assert e in Until(tail, end) <==> e in tail && BeforeEnd(end, e.key);
    }
  }

  lemma AheadIsTail(tree: BPlusTree, start: Bound, leaf: NodeId, index: nat)
    requires tree.Valid()
    requires IsLeaf(tree.nodes, tree.region, leaf) && index <= |tree.nodes[leaf].entries|
    requires tree.region[leaf].lo <= From(start) < tree.region[leaf].hi
    requires var es := tree.nodes[leaf].entries; forall i :: 0 <= i < |es| ==>
               (AfterStart(start, es[i].key) <==> index <= i)
    ensures var all := ChainFrom(tree.nodes, tree.region, tree.rootId, leaf);
            && index <= |all|
            && SortedEntries(all[index..])
            && forall e: Entry :: e in all[index..] <==>
                 && e.key in tree.contents && tree.contents[e.key] == e.value && AfterStart(start, e.key)
                 && !Shadowed(tree.nodes, tree.region, From(start), e.key)
    ensures tree.nodes[leaf].entries == [] ==> ChainFrom(tree.nodes, tree.region, tree.rootId, leaf) == []
  {
    var t, g, root, m := tree.nodes, tree.region, tree.rootId, tree.contents;
    var all, es := ChainFrom(t, g, root, leaf), t[leaf].entries;
    ChainSorted(t, g, root, leaf);
    assert forall i :: 0 <= i < |es| ==> all[i] == es[i];
    forall i | 0 <= i < |all| ensures AfterStart(start, all[i].key) <==> index <= i {
      BeyondStart(t, g, root, leaf, start, i);
    }
    forall e: Entry
      ensures e in all[index..] <==>
              e.key in m && m[e.key] == e.value && AfterStart(start, e.key) && !Shadowed(t, g, From(start), e.key)
    {
      if AfterStart(start, e.key) {
        ChainVisible(t, g, root, leaf, From(start), e);
      }
      if e in all && AfterStart(start, e.key) {
        var i :| 0 <= i < |all| && all[i] == e;
        assert all[index..][i - index] == e;
      }
    }
  }

  /** Entries past the first leaf lie past its whole region. */
  lemma BeyondStart(t: Table, g: Shape, root: NodeId, leaf: NodeId, start: Bound, i: nat)
    requires Wired(t, g, root) && IsLeaf(t, g, leaf)
    requires i < |ChainFrom(t, g, root, leaf)|
    requires !start.Unbounded? ==> Rank(start.key) < g[leaf].hi
    ensures i >= |t[leaf].entries| ==> AfterStart(start, ChainFrom(t, g, root, leaf)[i].key)
  {
    if i >= |t[leaf].entries| && t[leaf].next.Some? {
      FewerLeaves(t, g, root, leaf);
      ChainSorted(t, g, root, t[leaf].next.value);
    }
  }

  // ---------- whole scans ----------

  /** `out` is the wanted entries in ascending order, only the lowest of them if a limit cuts it short. */
  ghost predicate IsScan(out: seq<Entry>, wanted: iset<Entry>, limit: Option<nat>) {
    && SortedEntries(out)
    && (forall e :: e in out ==> e in wanted)
    && (limit.Some? ==> |out| <= limit.value)
    && forall e :: e in wanted && e !in out ==>
         limit.Some? && |out| == limit.value && forall o :: o in out ==> Rank(o.key) < Rank(e.key)
  }

  /** What is sorted, comes from the range and leaves out nothing before its last entry is a prefix of the range. */
  lemma {:induction false} PrefixOfRange(out: seq<Entry>, range: seq<Entry>)
    requires SortedEntries(out) && SortedEntries(range) && forall e :: e in out ==> e in range
    requires forall e, o :: e in range && e !in out && o in out ==> Rank(o.key) < Rank(e.key)
    ensures |out| <= |range| && out == range[..|out|]
  {
    if out != [] {
      SameHead(out, range);
      TailMembers(out);
      TailMembers(range);
      PrefixOfRange(out[1..], range[1..]);
      assert out == [out[0]] + out[1..] && range == [out[0]] + range[1..];
    }
  }

  lemma {:induction false} SameHead(out: seq<Entry>, range: seq<Entry>)
    requires SortedEntries(out) && SortedEntries(range) && out != [] && forall e :: e in out ==> e in range
    requires forall e, o :: e in range && e !in out && o in out ==> Rank(o.key) < Rank(e.key)
    ensures range != [] && out[0] == range[0]
  {
    assert out[0] in out && out[0] in range && range[0] in range;
    assert range[0] in out ==> Rank(out[0].key) <= Rank(range[0].key);
  }

  lemma {:induction false} TailMembers(es: seq<Entry>)
    requires SortedEntries(es) && es != []
    ensures SortedEntries(es[1..]) && forall e :: e in es[1..] <==> e in es && e != es[0]
  {
    assert es == [es[0]] + es[1..];
  }

  /** A scan is the range cut at the limit, so tree and map-backed store return the same entries. */
  lemma ScanUnique(range: seq<Entry>, out: seq<Entry>, wanted: iset<Entry>, limit: Option<nat>)
    requires IsRange(range, wanted) && IsScan(out, wanted, limit)
    ensures out == Limited(range, limit, 0)
  {
    PrefixOfRange(out, range);
    if |out| < |range| {
      var next := range[|out|];
      assert next in range;
      forall i | 0 <= i < |out| ensures out[i] != next {
        assert out[i] == range[i];
      }
      assert next !in out;
    } else {
      assert out == range;
    }
  }

  lemma CutIsScan(range: seq<Entry>, wanted: iset<Entry>, limit: Option<nat>)
    requires IsRange(range, wanted)
    ensures IsScan(Limited(range, limit, 0), wanted, limit)
  {
    if limit.Some? && |range| > limit.value {
      assert range == range[..limit.value] + range[limit.value..];
    }
  }

  /** Scans see all they should, for every pair of bounds, if and only if no empty leaf lies before a non-empty one. */
  lemma ScansSeeAllIff(tree: BPlusTree)
    requires tree.Valid()
    ensures (forall start, end :: Visible(tree, start, end) == Wanted(tree.contents, start, end)) <==>
              NoGaps(tree.nodes, tree.region)
    ensures Sound(tree.config) ==> NoGaps(tree.nodes, tree.region)
  {
    var t, g, m := tree.nodes, tree.region, tree.contents;
    ShadowsIff(t, g, tree.rootId);
    if NoGaps(t, g) {
      forall start, end ensures Visible(tree, start, end) == Wanted(m, start, end) {
      }
    } else {
      var e: Entry :| Stored(t, e) && Shadowed(t, g, 0.0, e.key);
      assert e in Wanted(m, Unbounded, Unbounded) && e !in Visible(tree, Unbounded, Unbounded);
    }
    if Sound(tree.config) {
      SoundHasNoGaps(t, g, tree.rootId, tree.config);
    }
  }

  /** `scan` followed by reading the iterator to its end. */
  method Scan(tree: BPlusTree, start: Bound, end: Bound, limit: Option<nat>) returns (out: seq<Entry>)
    requires tree.Valid()
    ensures IsScan(out, Visible(tree, start, end), limit)
    ensures Sound(tree.config) ==> IsScan(out, Wanted(tree.contents, start, end), limit)
  {
    var it := new BPlusTreeIterator(tree, start, end, limit);
    CutIsScan(Until(it.Ahead(), end), Visible(tree, start, end), limit);
    out := it.Collect();
    ScansSeeAllIff(tree);
  }
}
