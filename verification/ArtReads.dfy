/** What a caller reads after an insertion into the adaptive radix tree, safe or not (nanograph-art/src/tree.rs). */
module ArtReads {
  import opened Wrappers
  import opened Bytes
  import opened ArtNode
  import opened ArtLayout
  import opened ArtModel
  import opened ArtInsert

  /** Nothing is stored in the subtree, as after removals that leave an inner node behind. */
  ghost predicate Bare(node: Node, path: Key) {
    forall k, v :: !Holds(node, path, k, v)
  }

  /** Every read below the path answers as the map does after the update. */
  ghost predicate ReadsUpdated(node: Node, path: Key, r: Node, key: Key, value: Value)
    requires WellFormed(node, path)
  {
    && Navigable(r)
    && forall k :: path <= k && k != [] ==> Fetch(r, path, k) == if k == key then Some(value) else Lookup(node, path, k)
  }

  // ---------- what a new child hides ----------

  /** The bytes of a full Node4 and the new one, in the order in which they stand in the Node16. */
  function FiveBytes(node: Node, b: byte): seq<byte>
    requires node.Node4? && Sized(node) && node.header.numChildren == 4
  {
    var ks := Widened16(node).keys;
    ShiftIn(ks, 4, InsertPos(ks, 0, 4, b), b)
  }

  /** No key below `x` is found once a child for `b` has been added. */
  predicate Lost(node: Node, b: byte, x: byte)
    requires Sized(node)
  {
    match node
    case Node4(h, _, _) => h.numChildren == 4 && BinarySearch(FiveBytes(node, b), 0, 5, x).None?
    case Node48(h, ix, _) => h.numChildren < 48 && x != b && ix[x] == h.numChildren
    case _ => false
  }

  /** Binary search finds the child filed under the byte or nothing. */
  lemma FoundInRow(node: Node, x: byte)
    requires node.Node16? && Sized(node) && Row(node.keys, node.children, node.header.numChildren)
    ensures var i := BinarySearch(node.keys, 0, node.header.numChildren, x);
            Found(node, x) == if i.None? then None else Child(node, x)
  {
    var i := BinarySearch(node.keys, 0, node.header.numChildren, x);
    if i.Some? {
      IndexUnique(node.keys, node.header.numChildren, i.value);
    }
  }

  lemma FoundInFive(node: Node, b: byte, c: Node, x: byte)
    requires Fit(node) && node.Node4? && node.header.numChildren == 4 && Child(node, b).None?
    ensures var r := Added(node, b, c);
            Sized(r) && Found(r, x) == if Lost(node, b, x) then None else if x == b then Some(c) else Child(node, x)
  {
    Widen16(node);
    AddRow(Widened16(node), b, c);
    FoundInRow(Added(node, b, c), x);
  }

  lemma FoundInTable(node: Node, b: byte, c: Node, x: byte)
    requires Fit(node) && node.Node48? && node.header.numChildren < 48 && Child(node, b).None?
    ensures var r := Added(node, b, c);
            Sized(r) && Found(r, x) == if x == b || Lost(node, b, x) then Some(c) else Child(node, x)
  {
  }

  /** The search after the addition: what is lost is not there, or the new child stands in its place. */
  lemma FoundAfter(node: Node, b: byte, c: Node, x: byte)
    requires Fit(node) && !node.Leaf? && Child(node, b).None?
    ensures var r := Added(node, b, c);
            && Sized(r) && !r.Leaf? && r.Partial() == node.Partial() && r.header.value == node.header.value
            && Found(r, x) == if !Lost(node, b, x) then if x == b then Some(c) else Child(node, x)
                              else if node.Node4? then None else Some(c)
  {
    if node.Node4? && node.header.numChildren == 4 {
      FoundInFive(node, b, c, x);
    } else if node.Node48? && node.header.numChildren < 48 {
      FoundInTable(node, b, c, x);
    } else {
      AddedIs(node, b, c);
      FoundIsChild(Added(node, b, c), x);
    }
  }

  lemma AddedNavigable(node: Node, path: Key, b: byte, c: Node)
    requires WellFormed(node, path) && !node.Leaf? && Child(node, b).None? && c.Leaf?
    ensures Navigable(Added(node, b, c))
  {
    var r := Added(node, b, c);
    FoundAfter(node, b, c, b);
    forall x: byte | Found(r, x).Some? ensures Navigable(Found(r, x).value) {
      FoundAfter(node, b, c, x);
      if Child(node, x).Some? {
        FormedNavigable(Child(node, x).value, Stem(node, path) + [x]);
      }
    }
  }

  /** What a read that goes on below the node answers once a leaf has been added below `b`. */
  ghost function AnswerAfter(node: Node, path: Key, b: byte, key: Key, value: Value, k: Key): Option<Value>
    requires WellFormed(node, path) && Stem(node, path) <= k && Stem(node, path) != k
  {
    if Lost(node, b, k[|Stem(node, path)|]) then None else if k == key then Some(value) else Lookup(node, path, k)
  }

  /** Exactly what is read once a leaf has been added below `b`. */
  ghost predicate AnswersAfter(node: Node, path: Key, b: byte, key: Key, value: Value, r: Node)
    requires WellFormed(node, path) && !node.Leaf?
  {
    && Navigable(r) && !r.Leaf? && r.Partial() == node.Partial() && r.header.value == node.header.value
    && forall k :: Stem(node, path) <= k && Stem(node, path) != k ==>
         Fetch(r, path, k) == AnswerAfter(node, path, b, key, value, k)
  }

  lemma FetchBelow(node: Node, path: Key, b: byte, key: Key, value: Value, k: Key, r: Node)
    requires WellFormed(node, path) && !node.Leaf? && Child(node, b).None? && Stem(node, path) + [b] <= key
    requires Navigable(r) && !r.Leaf? && r.Partial() == node.Partial() && Stem(node, path) <= k && Stem(node, path) != k
    requires var x, leaf := k[|Stem(node, path)|], Leaf(key, value);
             if Lost(node, b, x) then Found(r, x).None? || (x != b && Found(r, x) == Some(leaf))
             else Found(r, x) == if x == b then Some(leaf) else Child(node, x)
    ensures Fetch(r, path, k) == AnswerAfter(node, path, b, key, value, k)
  {
    var stem := Stem(node, path);
    var x := k[|stem|];
    assert key[|stem|] == b;
    if x != b && Child(node, x).Some? {
      FetchIsLookup(Child(node, x).value, stem + [x], k);
    }
  }

  lemma AddedAnswers(node: Node, path: Key, b: byte, key: Key, value: Value)
    requires WellFormed(node, path) && !node.Leaf? && Child(node, b).None? && Stem(node, path) + [b] <= key
    ensures AnswersAfter(node, path, b, key, value, Added(node, b, Leaf(key, value)))
  {
    var r, leaf := Added(node, b, Leaf(key, value)), Leaf(key, value);
    AddedNavigable(node, path, b, leaf);
    FoundAfter(node, b, leaf, b);
    forall k | Stem(node, path) <= k && Stem(node, path) != k
      ensures Fetch(r, path, k) == AnswerAfter(node, path, b, key, value, k)
    {
      FoundAfter(node, b, leaf, k[|Stem(node, path)|]);
      FetchBelow(node, path, b, key, value, k, r);
    }
  }

  /** Exactly when a new leaf hides nothing: it is found, and what it hides is bare. */
  ghost predicate HidesNothing(node: Node, path: Key, b: byte)
    requires Sized(node)
  {
    && !Lost(node, b, b)
    && forall x: byte :: Child(node, x).Some? && Lost(node, b, x) ==> Bare(Child(node, x).value, Stem(node, path) + [x])
  }

  lemma BareReads(node: Node, path: Key, k: Key)
    requires WellFormed(node, path) && Bare(node, path)
    ensures Lookup(node, path, k).None?
  {
    if v :| Lookup(node, path, k) == Some(v) {
      LookupHolds(node, path, k, v);
    }
  }

  lemma HidesNothingReads(node: Node, path: Key, b: byte, key: Key, value: Value, r: Node)
    requires WellFormed(node, path) && !node.Leaf? && Child(node, b).None? && Stem(node, path) + [b] <= key
    requires AnswersAfter(node, path, b, key, value, r) && HidesNothing(node, path, b)
    ensures ReadsUpdated(node, path, r, key, value)
  {
    var stem := Stem(node, path);
    assert key[|stem|] == b;
    forall k | path <= k
      ensures Fetch(r, path, k) == if k == key then Some(value) else Lookup(node, path, k)
    {
      if stem <= k && stem != k {
        var x := k[|stem|];
        if Lost(node, b, x) && Child(node, x).Some? {
          BareReads(Child(node, x).value, stem + [x], k);
        }
      }
    }
  }

  /** A key below a lost byte is stored before and read as absent after. */
  lemma HiddenKey(node: Node, path: Key, b: byte, key: Key, value: Value, r: Node, x: byte, k: Key, v: Value)
    requires WellFormed(node, path) && !node.Leaf? && Child(node, b).None? && Stem(node, path) + [b] <= key
    requires AnswersAfter(node, path, b, key, value, r) && Lost(node, b, x) && HoldsVia(node, path, x, k, v)
    ensures path <= k && k != [] && k != key && Lookup(node, path, k) == Some(v) && Fetch(r, path, k).None?
  {
    RoutesTo(node, path, x, k, v);
    LookupHolds(node, path, k, v);
    assert key[|Stem(node, path)|] == b;
  }

  lemma HiddenWitness(node: Node, path: Key, b: byte) returns (x: byte, k: Key, v: Value)
    requires Sized(node) && !Lost(node, b, b) && !HidesNothing(node, path, b)
    ensures Lost(node, b, x) && HoldsVia(node, path, x, k, v)
  {
    x :| Child(node, x).Some? && Lost(node, b, x) && !Bare(Child(node, x).value, Stem(node, path) + [x]);
    k, v :| Holds(Child(node, x).value, Stem(node, path) + [x], k, v);
  }

  lemma Misread(node: Node, path: Key, r: Node, key: Key, value: Value, k: Key)
    requires WellFormed(node, path) && Navigable(r) && path <= k && k != []
    requires Fetch(r, path, k) != if k == key then Some(value) else Lookup(node, path, k)
    ensures !ReadsUpdated(node, path, r, key, value)
  {
  }

  /** A new key below a lost byte reads as absent. */
  lemma HiddenLeaf(node: Node, path: Key, b: byte, key: Key, value: Value, r: Node)
    requires WellFormed(node, path) && !node.Leaf? && Stem(node, path) + [b] <= key
    requires AnswersAfter(node, path, b, key, value, r) && Lost(node, b, b)
    ensures path <= key && key != [] && Fetch(r, path, key).None?
  {
    assert key[|Stem(node, path)|] == b;
  }

  /** Where something is hidden, some read is wrong. */
  lemma HiddenMisread(node: Node, path: Key, b: byte, key: Key, value: Value, r: Node)
    requires WellFormed(node, path) && !node.Leaf? && Child(node, b).None? && Stem(node, path) + [b] <= key
    requires AnswersAfter(node, path, b, key, value, r) && !HidesNothing(node, path, b)
    ensures !ReadsUpdated(node, path, r, key, value)
  {
    if Lost(node, b, b) {
      HiddenLeaf(node, path, b, key, value, r);
      Misread(node, path, r, key, value, key);
    } else {
      var x, k, v := HiddenWitness(node, path, b);
      HiddenKey(node, path, b, key, value, r, x, k, v);
      Misread(node, path, r, key, value, k);
    }
  }

  /** Every read is right if and only if the new leaf hides nothing. */
  lemma AddedReads(node: Node, path: Key, b: byte, key: Key, value: Value)
    requires WellFormed(node, path) && !node.Leaf? && Child(node, b).None? && Stem(node, path) + [b] <= key
    ensures ReadsUpdated(node, path, Added(node, b, Leaf(key, value)), key, value) <==> HidesNothing(node, path, b)
  {
    var r := Added(node, b, Leaf(key, value));
    AddedAnswers(node, path, b, key, value);
    if HidesNothing(node, path, b) {
      HidesNothingReads(node, path, b, key, value, r);
    } else {
      HiddenMisread(node, path, b, key, value, r);
    }
  }

  // ---------- the way down ----------

  lemma ReplacedNavigable(node: Node, path: Key, b: byte, c: Node)
    requires WellFormed(node, path) && Child(node, b).Some? && Navigable(c)
    ensures Navigable(WithChild(node, b, c))
  {
    var r := WithChild(node, b, c);
    ReplacedIs(node, b, c);
    forall x: byte | Found(r, x).Some? ensures Navigable(Found(r, x).value) {
      FoundIsChild(r, x);
      if x != b {
        FormedNavigable(Child(node, x).value, Stem(node, path) + [x]);
      }
    }
  }

  /** One step of a read after the replacement. */
  lemma ReplacedFetch(node: Node, path: Key, b: byte, c: Node, k: Key)
    requires WellFormed(node, path) && Child(node, b).Some? && Navigable(c) && path <= k
    ensures var r, q := WithChild(node, b, c), Stem(node, path) + [b];
            Navigable(r) && Fetch(r, path, k) == if q <= k then Fetch(c, q, k) else Lookup(node, path, k)
  {
    var r, stem := WithChild(node, b, c), Stem(node, path);
    ReplacedNavigable(node, path, b, c);
    ReplacedIs(node, b, c);
    if stem <= k && stem != k {
      var x := k[|stem|];
      FoundIsChild(r, x);
      assert stem + [b] <= k <==> x == b;
      if x != b && Child(node, x).Some? {
        FetchIsLookup(Child(node, x).value, stem + [x], k);
      }
    }
  }

  /** The reads of a node are right exactly if those of the rewritten child are. */
  lemma ReplacedReads(node: Node, path: Key, b: byte, c: Node, key: Key, value: Value)
    requires WellFormed(node, path) && Child(node, b).Some? && Navigable(c) && Stem(node, path) + [b] <= key
    ensures ReadsUpdated(node, path, WithChild(node, b, c), key, value)
            <==> ReadsUpdated(Child(node, b).value, Stem(node, path) + [b], c, key, value)
  {
    var r, q, child := WithChild(node, b, c), Stem(node, path) + [b], Child(node, b).value;
    ReplacedNavigable(node, path, b, c);
    forall k | path <= k
      ensures Fetch(r, path, k) == if q <= k then Fetch(c, q, k) else Lookup(node, path, k)
      ensures q <= k ==> Lookup(node, path, k) == Lookup(child, q, k)
    {
      ReplacedFetch(node, path, b, c, k);
    }
    if ReadsUpdated(node, path, r, key, value) {
      forall k | q <= k ensures Fetch(c, q, k) == if k == key then Some(value) else Lookup(child, q, k) {
        assert path <= k;
      }
    }
  }

  // ---------- whole insertions ----------

  /**
   Exactly when every read after the insertion is right: the key does not end inside a partial key on
   its way, and the new leaf hides nothing.
   */
  ghost predicate InsertReads(node: Node, path: Key, key: Key)
    requires WellFormed(node, path)
    decreases node
  {
    node.Leaf?
    || var stem := Stem(node, path);
       if !(stem <= key) then !(key <= stem)
       else stem == key
            || var b := key[|stem|];
               if Child(node, b).Some? then InsertReads(Child(node, b).value, stem + [b], key)
               else HidesNothing(node, path, b)
  }

  /** A correct edit reads as the updated map. */
  lemma EditedReads(node: Node, path: Key, r: Node, key: Key, value: Value)
    requires WellFormed(node, path) && WellFormed(r, path) && Edited(node, path, Some(r), key, Some(value))
    ensures ReadsUpdated(node, path, r, key, value)
  {
    FormedNavigable(r, path);
    forall k ensures Fetch(r, path, k) == if k == key then Some(value) else Lookup(node, path, k) {
      FetchIsLookup(r, path, k);
      forall v
        ensures Lookup(r, path, k) == Some(v) <==> if k == key then v == value else Lookup(node, path, k) == Some(v)
      {
        LookupHolds(r, path, k, v);
        LookupHolds(node, path, k, v);
        EditedAt(node, path, Some(r), key, Some(value), k, v);
      }
    }
  }

  /** Where no leaf is added, a safe insertion is one without a panic. */
  lemma WholeReads(node: Node, path: Key, key: Key, value: Value)
    requires WellFormed(node, path) && path <= key && key != []
    requires InsertSafe(node, path, key)
    ensures var r := Inserted(node, path, key, value);
            r.Ok? && r.value.1 == Lookup(node, path, key) && ReadsUpdated(node, path, r.value.0, key, value)
  {
    InsertedIs(node, path, key, value);
    EditedReads(node, path, Inserted(node, path, key, value).value.0, key, value);
  }

  /** The old value is returned in any case; every later read is right if and only if nothing is hidden. */
  lemma {:induction false} InsertedReads(node: Node, path: Key, key: Key, value: Value)
    requires WellFormed(node, path) && path <= key && key != []
    ensures var r := Inserted(node, path, key, value);
            && (r.Ok? ==> r.value.1 == Lookup(node, path, key) && Navigable(r.value.0))
            && (r.Ok? && ReadsUpdated(node, path, r.value.0, key, value) <==> InsertReads(node, path, key))
    decreases node
  {
    var stem := Stem(node, path);
    var m := Matching(node.Partial(), key, |path|, 0);
    assert node.Partial()[..m] == key[|path|..|path| + m];
    StemMatches(node, path, key, m);
    if m < |node.Partial()| {
      EndsInside(node, path, key, m);
      if |path| + m < |key| {
        WholeReads(node, path, key, value);
      }
    } else {
      NextByte(node, path, key);
      if node.Leaf? || stem == key {
        WholeReads(node, path, key, value);
      } else {
        var b := key[|stem|];
        if Child(node, b).Some? {
          var child := Child(node, b).value;
          InsertedReads(child, stem + [b], key, value);
          var below := Inserted(child, stem + [b], key, value);
          if below.Ok? {
            ReplacedNavigable(node, path, b, below.value.0);
            ReplacedReads(node, path, b, below.value.0, key, value);
          }
        } else {
          AddedNavigable(node, path, b, Leaf(key, value));
          AddedReads(node, path, b, key, value);
        }
      }
    }
  }

  // ---------- safe insertions, and trees without bare subtrees ----------

  lemma RoomHidesNothing(node: Node, path: Key, b: byte)
    requires Fit(node) && !node.Leaf? && Child(node, b).None? && RoomFor(node)
    ensures HidesNothing(node, path, b)
  {
    if node.Node4? && node.header.numChildren == 4 {
      forall x: byte | x == b || Child(node, x).Some? ensures !Lost(node, b, x) {
        FiveHit(node, b, x);
      }
    }
  }

  /** The five bytes are the four of the node and the new one; sorted exactly if the four were. */
  lemma FiveRow(node: Node, b: byte)
    requires Fit(node) && node.Node4? && node.header.numChildren == 4 && Child(node, b).None?
    ensures var ks := FiveBytes(node, b);
            && |ks| == 16 && Distinct(ks, 5) && (Ascending(node.keys, 4) <==> Ascending(ks, 5))
            && forall x: byte :: x == b || Child(node, x).Some? <==> exists i :: 0 <= i < 5 && ks[i] == x
  {
    var wide := Widened16(node);
    Widen16(node);
    AddRow(wide, b, node);
    var r := AddedRow(wide, b, node);
    forall x: byte ensures x == b || Child(node, x).Some? <==> exists i :: 0 <= i < 5 && r.keys[i] == x {
      var i := IndexOf(r.keys, 0, 5, x);
      assert x == b || Child(node, x).Some? <==> Child(r, x).Some?;
    }
  }

  lemma FiveHit(node: Node, b: byte, x: byte)
    requires Fit(node) && node.Node4? && node.header.numChildren == 4 && Child(node, b).None? && Ascending(node.keys, 4)
    requires x == b || Child(node, x).Some?
    ensures !Lost(node, b, x)
  {
    FiveRow(node, b);
    var ks := FiveBytes(node, b);
    var i :| 0 <= i < 5 && ks[i] == x;
    SearchHits(ks, 0, 5, i);
  }

  /** In a row that is not sorted some byte is lost. */
  lemma FiveMiss(node: Node, b: byte) returns (x: byte)
    requires Fit(node) && node.Node4? && node.header.numChildren == 4 && Child(node, b).None?
             && !Ascending(node.keys, 4)
    ensures (x == b || Child(node, x).Some?) && Lost(node, b, x)
  {
    FiveRow(node, b);
    var ks := FiveBytes(node, b);
    SearchFindsAllIff(ks, 5);
    var i :| 0 <= i < 5 && BinarySearch(ks, 0, 5, ks[i]) != Some(i);
    x := ks[i];
  }

  /** No subtree is bare. */
  ghost predicate Laden(node: Node, path: Key) {
    Sized(node) && forall b: byte :: Child(node, b).Some? ==>
      !Bare(Child(node, b).value, Stem(node, path) + [b]) && Laden(Child(node, b).value, Stem(node, path) + [b])
  }

  lemma LadenRoom(node: Node, path: Key, b: byte)
    requires Fit(node) && !node.Leaf? && Child(node, b).None? && Laden(node, path) && HidesNothing(node, path, b)
    ensures RoomFor(node)
  {
    if !RoomFor(node) {
      if node.Node4? {
        var x := FiveMiss(node, b);
        assert false;
      } else {
        var x: byte :| node.childIndex[x] == node.header.numChildren;
        assert Lost(node, b, x);
        assert false;
      }
    }
  }

  /** A safe insertion reads right; where no subtree is bare only a safe one does. */
  lemma {:induction false} SafeReads(node: Node, path: Key, key: Key)
    requires WellFormed(node, path)
    ensures InsertSafe(node, path, key) ==> InsertReads(node, path, key)
    ensures Laden(node, path) ==> (InsertSafe(node, path, key) <==> InsertReads(node, path, key))
  {
    var stem := Stem(node, path);
    if !node.Leaf? && stem <= key && stem != key {
      var b := key[|stem|];
      if Child(node, b).Some? {
        SafeReads(Child(node, b).value, stem + [b], key);
      } else if RoomFor(node) {
        RoomHidesNothing(node, path, b);
      } else if Laden(node, path) && HidesNothing(node, path, b) {
        LadenRoom(node, path, b);
      }
    }
  }

  // ---------- trees that have only seen safe insertions ----------

  /** Something is stored, and so in every subtree. */
  ghost predicate Stocked(node: Node, path: Key) {
    Laden(node, path) && !Bare(node, path)
  }

  lemma LeafStocked(leaf: Node, path: Key)
    requires leaf.Leaf?
    ensures Stocked(leaf, path)
  {
    assert Holds(leaf, path, leaf.key, leaf.leafValue);
  }

  /** It depends on the stem and the children alone. */
  lemma {:induction false} LadenSame(node: Node, path: Key, r: Node, path2: Key)
    requires Sized(node) && Sized(r) && Stem(r, path2) == Stem(node, path) && Laden(node, path)
    requires forall x: byte :: Child(r, x) == Child(node, x)
    ensures Laden(r, path2)
  {
  }

  lemma {:induction false} OneChildLaden(partial: Key, value: Option<Value>, b: byte, c: Node, path: Key)
    requires Stocked(c, path + partial + [b])
    ensures Laden(OneChild(partial, value, b, c), path)
  {
    OneChildFit(partial, value, b, c);
  }

  lemma {:induction false} TwoChildrenLaden(partial: Key, b1: byte, c1: Node, b2: byte, c2: Node, path: Key)
    requires b1 != b2 && Stocked(c1, path + partial + [b1]) && Stocked(c2, path + partial + [b2])
    ensures Laden(TwoChildren(partial, b1, c1, b2, c2), path)
  {
    TwoChildrenFit(partial, b1, c1, b2, c2);
  }

  lemma {:induction false} SplitLaden(node: Node, path: Key, key: Key, m: nat, value: Value)
    requires WellFormed(node, path) && Stocked(node, path) && path <= key && m < |node.Partial()| && |path| + m < |key|
    requires node.Partial()[..m] == key[|path|..|path| + m] && node.Partial()[m] != key[|path| + m]
    ensures Laden(SplitNode(node, key, |path|, m, value), path)
  {
    var p := node.Partial();
    var lower, q := UpdatePartial(node, p[m + 1..]), path + p[..m] + [p[m]];
    SplitPath(path, p, key, m);
    Repartial(node, path, q, p[m + 1..]);
    RepartialFit(node, p[m + 1..]);
    LadenSame(node, path, lower, q);
    var k, v :| Holds(node, path, k, v);
    assert Holds(lower, q, k, v);
    LeafStocked(Leaf(key, value), path + p[..m] + [key[|path| + m]]);
    TwoChildrenLaden(p[..m], p[m], lower, key[|path| + m], Leaf(key, value), path);
  }

  lemma {:induction false} JoinedLaden(existing: Node, key: Key, depth: nat, n: nat, value: Value, path: Key)
    requires existing.Leaf? && depth <= n && AgreeTo(existing.key, key, n)
    ensures Laden(JoinedAt(existing, key, depth, n, value), path)
  {
    var e, leaf := existing.key, Leaf(key, value);
    var stem := path + e[depth..n];
    if n == |e| {
      LeafStocked(leaf, stem + [key[n]]);
      OneChildLaden(e[depth..n], Some(existing.leafValue), key[n], leaf, path);
    } else if n == |key| {
      LeafStocked(existing, stem + [e[n]]);
      OneChildLaden(e[depth..n], Some(value), e[n], existing, path);
    } else {
      LeafStocked(existing, stem + [e[n]]);
      LeafStocked(leaf, stem + [key[n]]);
      TwoChildrenLaden(e[depth..n], e[n], existing, key[n], leaf, path);
    }
  }

  lemma {:induction false} UpdatedLaden(node: Node, path: Key, r: Node, b: byte, c: Node)
    requires Sized(node) && !node.Leaf? && Laden(node, path) && Updated(node, r, b, Some(c))
    requires Stocked(c, Stem(node, path) + [b])
    ensures Laden(r, path)
  {
    assert Stem(r, path) == Stem(node, path);
  }

  /** What an edit puts in is there. */
  lemma EditedNotBare(node: Node, path: Key, r: Node, key: Key, value: Value)
    requires Edited(node, path, Some(r), key, Some(value))
    ensures !Bare(r, path)
  {
    assert Stores(Some(r), path, key, value);
  }

  lemma {:induction false} LeafJoinLaden(node: Node, path: Key, key: Key, value: Value)
    requires node.Leaf? && WellFormed(node, path) && path <= key && key != []
    ensures var r := Inserted(node, path, key, value); r.Ok? && Laden(r.value.0, path)
  {
    if node.key == key {
      LeafStocked(Leaf(key, value), path);
    } else {
      JoinedPath(node.key, key, |path|);
      JoinedLaden(node, key, |path|, Matching(node.key, key, 0, |path|), value, path);
    }
  }

  lemma {:induction false} ValueLaden(node: Node, path: Key, value: Value)
    requires Fit(node) && !node.Leaf? && Laden(node, path)
    ensures Laden(WithValue(node, Some(value)), path)
  {
    WithValueFit(node, Some(value));
    LadenSame(node, path, WithValue(node, Some(value)), path);
  }

  lemma {:induction false} AddedLaden(node: Node, path: Key, b: byte, key: Key, value: Value)
    requires Fit(node) && !node.Leaf? && Laden(node, path) && Child(node, b).None? && RoomFor(node)
    ensures Laden(Added(node, b, Leaf(key, value)), path)
  {
    AddedIs(node, b, Leaf(key, value));
    LeafStocked(Leaf(key, value), Stem(node, path) + [b]);
    UpdatedLaden(node, path, Added(node, b, Leaf(key, value)), b, Leaf(key, value));
  }

  lemma {:induction false} ReplacedLaden(node: Node, path: Key, b: byte, c: Node)
    requires Fit(node) && Child(node, b).Some? && Laden(node, path) && Stocked(c, Stem(node, path) + [b])
    ensures Laden(WithChild(node, b, c), path)
  {
    ReplacedIs(node, b, c);
    UpdatedLaden(node, path, WithChild(node, b, c), b, c);
  }

  /** A safe insertion leaves something in every subtree. */
  lemma {:induction false} InsertedStocked(node: Node, path: Key, key: Key, value: Value)
    requires WellFormed(node, path) && path <= key && key != [] && Stocked(node, path) && InsertSafe(node, path, key)
    ensures var r := Inserted(node, path, key, value); r.Ok? && Stocked(r.value.0, path)
    decreases node, 2
  {
    InsertedIs(node, path, key, value);
    EditedNotBare(node, path, Inserted(node, path, key, value).value.0, key, value);
    InsertedLaden(node, path, key, value);
  }

  lemma {:induction false} InsertedLaden(node: Node, path: Key, key: Key, value: Value)
    requires WellFormed(node, path) && path <= key && key != [] && Stocked(node, path) && InsertSafe(node, path, key)
    ensures var r := Inserted(node, path, key, value); r.Ok? ==> Laden(r.value.0, path)
    decreases node, 1
  {
    var m := Matching(node.Partial(), key, |path|, 0);
    if m < |node.Partial()| {
      assert node.Partial()[..m] == key[|path|..|path| + m];
      if |path| + m < |key| {
        SplitLaden(node, path, key, m, value);
      }
    } else if node.Leaf? {
      LeafJoinLaden(node, path, key, value);
    } else {
      NextByte(node, path, key);
      if Stem(node, path) == key {
        ValueLaden(node, path, value);
      } else {
        BelowLaden(node, path, key, value);
      }
    }
  }

  lemma {:induction false} BelowLaden(node: Node, path: Key, key: Key, value: Value)
    requires WellFormed(node, path) && !node.Leaf? && Laden(node, path) && |Stem(node, path)| < |key|
    requires Stem(node, path) + [key[|Stem(node, path)|]] <= key && InsertSafe(node, path, key)
    ensures var r := InsertedBelow(node, path, key, value); r.Ok? ==> Laden(r.value.0, path)
    decreases node, 0
  {
    var stem := Stem(node, path);
    var b := key[|stem|];
    if Child(node, b).Some? {
      InsertedStocked(Child(node, b).value, stem + [b], key, value);
      ReplacedLaden(node, path, b, Inserted(Child(node, b).value, stem + [b], key, value).value.0);
    } else {
      AddedLaden(node, path, b, key, value);
    }
  }

  // ---------- a table with a hole ----------

  /**
   A packed Node48 loses the child for `b`, which is not the last one, and gains one for `c`: whatever the
   last child stores is still stored after the removal. After the addition it reads as absent, unless the
   removal left 16 children and so turned the table into a row.
   */
  lemma HoleHides(node: Node, path: Key, b: byte, left: Node, c: byte, key: Key, value: Value, x: byte, k: Key,
                  v: Value)
    requires node.Node48? && WellFormed(node, path) && Child(node, b).Some? && Left48(node, b, left)
    requires x != b && node.childIndex[x] == node.header.numChildren - 1 && HoldsVia(node, path, x, k, v)
    requires Sized(left) && Child(left, c).None? && Stem(node, path) + [c] <= key
    ensures WellFormed(left, path) && !left.Leaf? && Lookup(left, path, k) == Some(v)
    ensures var r := Added(left, c, Leaf(key, value));
            Navigable(r) && Fetch(r, path, k) == if node.header.numChildren > 17 then None else Some(v)
  {
    Drop48(node, b);
    UpdatedFormed(node, path, left, b, None);
    assert Stem(left, path) == Stem(node, path) && HoldsVia(left, path, x, k, v);
    LookupHolds(left, path, k, v);
    TableBound(node);
    HoleLoses(node, b, left, c, x);
    AddedAnswers(left, path, c, key, value);
    LastAnswer(left, path, c, key, value, Added(left, c, Leaf(key, value)), x, k, v);
  }

  /** The next addition loses the byte of the last slot, unless the table has become a row. */
  lemma HoleLoses(node: Node, b: byte, left: Node, c: byte, x: byte)
    requires node.Node48? && Fit(node) && Child(node, b).Some? && Left48(node, b, left) && Sized(left)
    requires Child(left, c).None? && node.header.numChildren <= 48
    requires x != b && node.childIndex[x] == node.header.numChildren - 1
    ensures Lost(left, c, x) <==> node.header.numChildren > 17
  {
  }

  lemma LastAnswer(left: Node, path: Key, c: byte, key: Key, value: Value, r: Node, x: byte, k: Key, v: Value)
    requires WellFormed(left, path) && !left.Leaf? && Child(left, c).None? && Stem(left, path) + [c] <= key
    requires AnswersAfter(left, path, c, key, value, r) && HoldsVia(left, path, x, k, v)
    ensures Fetch(r, path, k) == if Lost(left, c, x) then None else Some(v)
  {
    RoutesTo(left, path, x, k, v);
    LookupHolds(left, path, k, v);
    assert key[|Stem(left, path)|] == c;
  }

  // ---------- whole trees ----------

  /** The answer of `get`. */
  ghost function Answer(root: Option<Node>, key: Key): Option<Value>
    requires root.Some? ==> Navigable(root.value)
  {
    if root.None? || key == [] then None else Fetch(root.value, [], key)
  }

  /** Every answer is the binding of the map. */
  ghost predicate AnswersAs(root: Option<Node>, contents: map<Key, Value>) {
    && (root.Some? ==> Navigable(root.value))
    && forall k :: Answer(root, k) == Bound(contents, k)
  }

  function Bound(contents: map<Key, Value>, k: Key): Option<Value> {
    if k in contents then Some(contents[k]) else None
  }

  lemma RepresentedAnswers(root: Option<Node>, contents: map<Key, Value>)
    requires Represents(root, contents)
    ensures AnswersAs(root, contents)
  {
    if root.Some? {
      FormedNavigable(root.value, []);
    }
    forall k ensures Answer(root, k) == Bound(contents, k) {
      if root.Some? {
        RepresentedRead(root.value, contents, k);
        FetchIsLookup(root.value, [], k);
      } else {
        assert k in contents ==> Stores(root, [], k, contents[k]);
      }
    }
  }

  lemma UpdatedAnswer(root: Node, contents: map<Key, Value>, r: Node, key: Key, value: Value, k: Key)
    requires Represents(Some(root), contents) && Navigable(r) && key != []
    ensures Answer(Some(r), k) == Bound(contents[key := value], k)
            <==> k == [] || Fetch(r, [], k) == if k == key then Some(value) else Lookup(root, [], k)
  {
    RepresentedRead(root, contents, k);
  }

  /** The reads of the new root are those of the updated map. */
  lemma UpdatedAnswers(root: Node, contents: map<Key, Value>, r: Node, key: Key, value: Value)
    requires Represents(Some(root), contents) && Navigable(r) && key != []
    ensures AnswersAs(Some(r), contents[key := value]) <==> ReadsUpdated(root, [], r, key, value)
  {
    var after := contents[key := value];
    forall k
      ensures Answer(Some(r), k) == Bound(after, k)
              <==> k == [] || Fetch(r, [], k) == if k == key then Some(value) else Lookup(root, [], k)
    {
      UpdatedAnswer(root, contents, r, key, value, k);
    }
    if AnswersAs(Some(r), after) {
      forall k | [] <= k && k != [] ensures Fetch(r, [], k) == if k == key then Some(value) else Lookup(root, [], k) {
        assert Answer(Some(r), k) == Bound(after, k);
      }
    }
    if ReadsUpdated(root, [], r, key, value) {
      forall k ensures Answer(Some(r), k) == Bound(after, k) {
        assert [] <= k;
        assert k != [] ==> Fetch(r, [], k) == if k == key then Some(value) else Lookup(root, [], k);
      }
    }
  }
}
