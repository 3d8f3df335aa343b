/** The default prefix scan (nanograph-kvt/src/kvstore.rs): which keys its half-open range really holds. */
module ScanPrefix {
  import opened Wrappers
  import opened Bytes
  import opened BTreeNode
  import opened BTreeContents
  import opened BTreeChain
  import opened BTree
  import opened BTreeIterator

  /** The exclusive upper bound the scan computes from the prefix. */
  function PrefixEnd(prefix: Key): Key {
    if prefix == [] then []
    else if prefix[|prefix| - 1] < 255 then prefix[|prefix| - 1 := prefix[|prefix| - 1] + 1]
    else prefix + [0]
  }

  /** Edits the last byte of a copy of the prefix in place. */
  method ComputePrefixEnd(prefix: Key) returns (end: Key)
    ensures end == PrefixEnd(prefix)
  {
    var buffer := new byte[|prefix|](i requires 0 <= i < |prefix| => prefix[i]);
    assert buffer[..] == prefix;
    if buffer.Length > 0 {
      var last := buffer.Length - 1;
      if buffer[last] < 255 {
        buffer[last] := buffer[last] + 1;
        end := buffer[..];
      } else {
        end := buffer[..] + [0];
      }
    } else {
      end := [];
    }
  }

  ghost predicate InPrefixRange(prefix: Key, k: Key) {
    AfterStart(Included(prefix), k) && BeforeEnd(Excluded(PrefixEnd(prefix)), k)
  }

  /** Keys that extend `q` followed by byte `b` are those ranked from `q + [b]` up to `q + [b + 1]`. */
  lemma {:induction false} PrefixInterval(q: Key, b: byte, k: Key)
    requires b < 255
    ensures q + [b] <= k <==> Rank(q + [b]) <= Rank(k) < Rank(q + [b + 1])
  {
    var lo, hi := q + [b], q + [b + 1];
    if k == [] {
    } else if q == [] {
      assert lo[1..] == [] && hi[1..] == [];
      assert lo <= k <==> k[0] == b;
    } else {
      assert lo[1..] == q[1..] + [b] && hi[1..] == q[1..] + [b + 1];
      PrefixInterval(q[1..], b, k[1..]);
      assert lo <= k <==> lo[0] == k[0] && lo[1..] <= k[1..];
    }
  }

  /**
   The range holds exactly the keys that start with the prefix if and only if the prefix is non-empty
   and does not end in 0xFF.
   */
  lemma PrefixRangeExact(prefix: Key)
    ensures (forall k: Key :: InPrefixRange(prefix, k) <==> prefix <= k)
            <==> prefix != [] && prefix[|prefix| - 1] < 255
  {
    if prefix == [] {
      assert !InPrefixRange(prefix, []) && prefix <= [];
    } else {
      var q, b := prefix[..|prefix| - 1], prefix[|prefix| - 1];
      assert prefix == q + [b];
      if b < 255 {
        assert PrefixEnd(prefix) == q + [b + 1];
        forall k: Key ensures InPrefixRange(prefix, k) <==> prefix <= k {
          PrefixInterval(q, b, k);
        }
      } else {
        assert !InPrefixRange(prefix, prefix + [0]) && prefix <= prefix + [0];
      }
    }
  }

  /** For a prefix ending in 0xFF only the prefix itself is found, however many keys extend it. */
  lemma PrefixRangeAfterFF(prefix: Key, k: Key)
    requires prefix != [] && prefix[|prefix| - 1] == 255
    ensures InPrefixRange(prefix, k) <==> k == prefix
  {
    NothingBetween(prefix, k);
  }

  lemma {:induction false} NothingBetween(p: Key, k: Key)
    ensures Rank(p) <= Rank(k) < Rank(p + [0]) <==> k == p
  {
    var q := p + [0];
    if p == [] {
      assert q[1..] == [];
    } else if k != [] {
      assert q[0] == p[0] && q[1..] == p[1..] + [0];
      if k[0] == p[0] {
        NothingBetween(p[1..], k[1..]);
        assert k == [k[0]] + k[1..] && p == [p[0]] + p[1..];
      }
    }
  }

  /** The keys the range holds: those under the prefix, only the prefix itself after 0xFF, none for the empty prefix. */
  ghost predicate Found(prefix: Key, k: Key) {
    prefix != [] && if prefix[|prefix| - 1] < 255 then prefix <= k else k == prefix
  }

  lemma RangeFinds(prefix: Key, k: Key)
    ensures InPrefixRange(prefix, k) <==> Found(prefix, k)
  {
    PrefixRangeExact(prefix);
    if prefix != [] && prefix[|prefix| - 1] == 255 {
      PrefixRangeAfterFF(prefix, k);
    }
  }

  /** The bindings a prefix scan finds. */
  ghost function Under(m: Contents, prefix: Key): iset<Entry> {
    iset e: Entry | e.key in m && m[e.key] == e.value && Found(prefix, e.key)
  }

  ghost function VisibleUnder(tree: BPlusTree, prefix: Key): iset<Entry>
    reads tree
  {
    iset e: Entry | e in Under(tree.contents, prefix) && !Shadowed(tree.nodes, tree.region, Rank(prefix), e.key)
  }

  /** A prefix scan of a tree: exactly the bindings found and not hidden by an empty leaf, in order, up to the limit. */
  method Scan(tree: BPlusTree, prefix: Key, limit: Option<nat>) returns (out: seq<Entry>)
    requires tree.Valid()
    ensures IsScan(out, VisibleUnder(tree, prefix), limit)
    ensures Sound(tree.config) ==> IsScan(out, Under(tree.contents, prefix), limit)
  {
    var end := ComputePrefixEnd(prefix);
    out := BTreeIterator.Scan(tree, Included(prefix), Excluded(end), limit);
    ghost var wanted := Wanted(tree.contents, Included(prefix), Excluded(end));
    forall e: Entry ensures e in Under(tree.contents, prefix) <==> e in wanted {
      RangeFinds(prefix, e.key);
    }
    assert Under(tree.contents, prefix) == wanted;
    assert Visible(tree, Included(prefix), Excluded(end)) == VisibleUnder(tree, prefix);
  }
}
