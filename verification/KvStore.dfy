/**
 One logged shard of the B+Tree store (nanograph-btree/src/kvstore.rs): operations append to the
 write-ahead log and change the tree; recovery replays the log into an empty tree.  The log is an
 append-only sequence of records.
 */
module KvStore {
  import opened Wrappers
  import opened Bytes
  import opened BTreeNode
  import opened BTreeContents
  import opened BTree
  import Wal = WalRecord

  datatype Record = Record(kind: nat, payload: seq<byte>)

  /** What the store was asked to do, in the order it logged it. */
  datatype Op = Put(key: Key, value: Value) | Delete(key: Key) | Clear | Checkpoint

  ghost function RecordOf(op: Op): Record {
    match op
    case Put(k, v) => Record(Wal.ToU16(Wal.Put), Wal.PutPayload(k, v))
    case Delete(k) => Record(Wal.ToU16(Wal.Delete), Wal.Field(k))
    case Clear => Record(Wal.ToU16(Wal.Clear), [])
    case Checkpoint => Record(Wal.ToU16(Wal.Checkpoint), [])
  }

  ghost function RecordsOf(ops: seq<Op>): (rs: seq<Record>)
    ensures |rs| == |ops|
    ensures forall i :: 0 <= i < |ops| ==> rs[i] == RecordOf(ops[i])
  {
    seq(|ops|, i requires 0 <= i < |ops| => RecordOf(ops[i]))
  }

  ghost function Apply(m: Contents, op: Op): Contents {
    match op
    case Put(k, v) => m[k := v]
    case Delete(k) => m - {k}
    case Clear => map[]
    case Checkpoint => m
  }

  /** The map after a sequence of writes. */
  ghost function ApplyAll(m: Contents, ops: seq<Op>): Contents {
    if ops == [] then m else Apply(ApplyAll(m, ops[..|ops| - 1]), ops[|ops| - 1])
  }

  lemma ApplyAllSnoc(m: Contents, ops: seq<Op>, op: Op)
    ensures ApplyAll(m, ops + [op]) == Apply(ApplyAll(m, ops), op)
  {
  }

  /** The keys and values that the 32-bit length prefixes can carry. */
  ghost predicate Loggable(op: Op) {
    match op
    case Put(k, v) => |k| < Wal.TWO_32 && |v| < Wal.TWO_32
    case Delete(k) => |k| < Wal.TWO_32
    case _ => true
  }

  // ---------- replay ----------

  /** What replaying one record does to the map; a payload that does not parse stops recovery. */
  ghost function ReplayOne(m: Contents, rec: Record): Option<Contents> {
    match Wal.FromU16(rec.kind)
    case Some(Put) =>
      var p := Wal.ParsePut(rec.payload);
      if p.Some? then Some(m[p.value.0 := p.value.1]) else None
    case Some(Delete) =>
      var p := Wal.ParseDelete(rec.payload);
      if p.Some? then Some(m - {p.value}) else None
    case Some(Clear) => Some(map[])
    case Some(Checkpoint) => Some(m)
    case None => Some(m)
  }

  ghost function Replay(m: Contents, recs: seq<Record>): Option<Contents> {
    if recs == [] then Some(m)
    else
      var before := Replay(m, recs[..|recs| - 1]);
      if before.None? then None else ReplayOne(before.value, recs[|recs| - 1])
  }

  /** The record of an operation, in numbers and bytes. */
  lemma RecordBytes(op: Op)
    ensures op.Put? ==> RecordOf(op).kind == 1 && Wal.SpellsPut(RecordOf(op).payload, op.key, op.value)
    ensures op.Delete? ==> RecordOf(op).kind == 2 && Wal.SpellsDelete(RecordOf(op).payload, op.key)
    ensures op.Checkpoint? ==> RecordOf(op) == Record(3, [])
    ensures op.Clear? ==> RecordOf(op) == Record(4, [])
  {
    match op
    case Put(k, v) => Wal.PutBytes(k, v);
    case Delete(k) => Wal.DeleteBytes(k);
    case _ =>
  }

  /** A record replays as the operation that its number and its bytes spell; other numbers change nothing. */
  lemma ReplaySpelled(m: Contents, rec: Record)
    ensures rec.kind == 1 ==>
              var p := Wal.SpelledPut(rec.payload);
              ReplayOne(m, rec) == if p.Some? then Some(m[p.value.0 := p.value.1]) else None
    ensures rec.kind == 2 ==>
              var p := Wal.SpelledDelete(rec.payload);
              ReplayOne(m, rec) == if p.Some? then Some(m - {p.value}) else None
    ensures rec.kind == 4 ==> ReplayOne(m, rec) == Some(map[])
    ensures rec.kind !in {1, 2, 4} ==> ReplayOne(m, rec) == Some(m)
  {
    Wal.ParsesAsSpelled(rec.payload);
  }

  /** A record replays as its operation when the operation's lengths fit their prefixes. */
  lemma ReplayOneSound(m: Contents, op: Op)
    requires Loggable(op)
    ensures ReplayOne(m, RecordOf(op)) == Some(Apply(m, op))
  {
    match op
    case Put(k, v) => Wal.PutRoundTrip(k, v);
    case Delete(k) => Wal.DeleteRoundTrip(k);
    case _ =>
  }

  /** Replaying any prefix of the log gives the map after that prefix of the writes. */
  lemma {:induction false} ReplayPrefix(m: Contents, ops: seq<Op>, n: nat)
    requires n <= |ops| && forall i :: 0 <= i < n ==> Loggable(ops[i])
    ensures Replay(m, RecordsOf(ops)[..n]) == Some(ApplyAll(m, ops[..n]))
  {
    if n > 0 {
      ReplayPrefix(m, ops, n - 1);
      assert RecordsOf(ops)[..n][..n - 1] == RecordsOf(ops)[..n - 1];
      assert ops[..n][..n - 1] == ops[..n - 1];
      ReplayOneSound(ApplyAll(m, ops[..n - 1]), ops[n - 1]);
    }
  }

  /** The record's payload is what its kind says, whatever the map holds. */
  ghost predicate Parses(rec: Record) {
    match Wal.FromU16(rec.kind)
    case Some(Put) => Wal.ParsePut(rec.payload).Some?
    case Some(Delete) => Wal.ParseDelete(rec.payload).Some?
    case _ => true
  }

  ghost predicate AllParse(recs: seq<Record>) {
    forall i :: 0 <= i < |recs| ==> Parses(recs[i])
  }

  lemma {:induction false} ReplayParses(m: Contents, recs: seq<Record>)
    ensures Replay(m, recs).Some? <==> AllParse(recs)
  {
    if recs != [] {
      ReplayParses(m, recs[..|recs| - 1]);
      assert AllParse(recs) <==> AllParse(recs[..|recs| - 1]) && Parses(recs[|recs| - 1]);
    }
  }

  lemma ReplayOneMore(m: Contents, recs: seq<Record>, i: nat)
    requires i < |recs| && Replay(m, recs[..i]).Some? && AllParse(recs[..i])
    ensures Replay(m, recs[..i + 1]) == ReplayOne(Replay(m, recs[..i]).value, recs[i])
    ensures Parses(recs[i]) ==> AllParse(recs[..i + 1])
  {
    assert recs[..i + 1][..i] == recs[..i];
    assert forall j :: 0 <= j < i ==> recs[..i + 1][j] == recs[..i][j];
  }

  method ReplayRecord(tree: BPlusTree, entry: Record) returns (r: Result<()>)
    requires tree.Valid()
    modifies tree
    ensures tree.Valid() && (r.Ok? <==> Parses(entry))
    ensures r.Ok? ==> ReplayOne(old(tree.contents), entry) == Some(tree.contents)
    ensures r.Err? ==> tree.contents == old(tree.contents)
  {
    match Wal.FromU16(entry.kind) {
      case Some(Put) =>
        var decoded := Wal.DecodePut(entry.payload);
        if decoded.Err? {
          return Err("Failed to decode put");
        }
        var _ := tree.Insert(decoded.value.0, decoded.value.1);
      case Some(Delete) =>
        var decoded := Wal.DecodeDelete(entry.payload);
        if decoded.Err? {
          return Err("Failed to decode delete");
        }
        var _ := tree.Delete(decoded.value);
      case Some(Clear) =>
        tree.Clear();
      case Some(Checkpoint) =>
      case None =>
    }
    r := Ok(());
  }

  /**
   Replays the records into `tree` until one does not parse. `n` is how many were replayed, and the tree
   holds their effect whether recovery succeeds or not.
   */
  method RecoverFromWal(tree: BPlusTree, wal: seq<Record>) returns (r: Result<()>, ghost n: nat)
    requires tree.Valid()
    modifies tree
    ensures tree.Valid() && n <= |wal| && AllParse(wal[..n]) && (n < |wal| ==> !Parses(wal[n]))
    ensures Replay(old(tree.contents), wal[..n]) == Some(tree.contents)
    ensures r.Ok? <==> n == |wal|
    ensures if r.Ok? then Replay(old(tree.contents), wal) == Some(tree.contents)
            else Replay(old(tree.contents), wal).None?
  {
    n := 0;
    ReplayParses(tree.contents, wal);
    for i := 0 to |wal|
      invariant tree.Valid() && n == i && AllParse(wal[..i])
      invariant Replay(old(tree.contents), wal[..i]) == Some(tree.contents)
    {
      ReplayOneMore(old(tree.contents), wal, i);
      var replayed := ReplayRecord(tree, wal[i]);
      if replayed.Err? {
        return replayed, n;
      }
      n := n + 1;
    }
    assert wal[..|wal|] == wal;
    r := Ok(());
  }

  // ---------- the store ----------

  class Shard {
    const tree: BPlusTree
    var wal: seq<Record>
    ghost var ops: seq<Op>

    /** The log is the encoding of the operations so far, and the tree is their effect. */
    ghost predicate Valid()
      reads this, tree
    {
      tree.Valid() && wal == RecordsOf(ops) && tree.contents == ApplyAll(map[], ops)
    }

    constructor (config: Config)
      ensures ops == [] && wal == [] && fresh(tree) && tree.contents == map[] && (2 <= config.maxKeys ==> Valid())
    {
      tree := new BPlusTree(config);
      wal := [];
      ops := [];
    }

    method Append(record: Record, ghost op: Op)
      requires record == RecordOf(op) && wal == RecordsOf(ops)
      modifies this
      ensures ops == old(ops) + [op] && wal == RecordsOf(ops)
      ensures ApplyAll(map[], ops) == Apply(ApplyAll(map[], old(ops)), op)
    {
      wal := wal + [record];
      ApplyAllSnoc(map[], ops, op);
      ops := ops + [op];
    }

    method Get(key: Key) returns (r: Result<Option<Value>>)
      requires Valid()
      ensures r == Ok(if key in tree.contents then Some(tree.contents[key]) else None)
    {
      r := tree.Get(key);
    }

    method Put(key: Key, value: Value) returns (r: Result<()>)
      requires Valid()
      modifies this, tree
      ensures Valid() && r.Ok? && ops == old(ops) + [Op.Put(key, value)]
      ensures tree.contents == old(tree.contents)[key := value]
    {
      var payload := Wal.EncodePut(key, value);
      Append(Record(Wal.ToU16(Wal.Put), payload), Op.Put(key, value));
      r := tree.Insert(key, value);
    }

    method Delete(key: Key) returns (r: Result<bool>)
      requires Valid()
      modifies this, tree
      ensures Valid() && r == Ok(key in old(tree.contents)) && ops == old(ops) + [Op.Delete(key)]
      ensures tree.contents == old(tree.contents) - {key}
    {
      var payload := Wal.EncodeDelete(key);
      Append(Record(Wal.ToU16(Wal.Delete), payload), Op.Delete(key));
      r := tree.Delete(key);
    }

    method Clear() returns (r: Result<()>)
      requires Valid()
      modifies this, tree
      ensures Valid() && r.Ok? && tree.contents == map[] && ops == old(ops) + [Op.Clear]
    {
      tree.Clear();
      Append(Record(Wal.ToU16(Wal.Clear), []), Op.Clear);
      r := Ok(());
    }

    method CheckpointShard() returns (r: Result<()>)
      requires Valid()
      modifies this
      ensures Valid() && r.Ok? && ops == old(ops) + [Checkpoint]
    {
      Append(Record(Wal.ToU16(Wal.Checkpoint), []), Checkpoint);
      r := Ok(());
    }

    /** Logs the whole batch before the tree sees any of it. */
    method BatchPut(pairs: seq<Entry>) returns (r: Result<()>)
      requires Valid()
      modifies this, tree
      ensures Valid() && r.Ok? && ops == old(ops) + PutOps(pairs)
      ensures LastWins(old(tree.contents), pairs, tree.contents)
    {
      LastPutWins(tree.contents, pairs);
      LogPuts(pairs);
      InsertAll(tree, pairs);
      ApplyAllConcat(map[], old(ops), PutOps(pairs));
      r := Ok(());
    }

    /** Returns how many of the keys were there when their turn came. */
    method BatchDelete(keys: seq<Key>) returns (r: Result<nat>)
      requires Valid()
      modifies this, tree
      ensures Valid() && ops == old(ops) + DeleteOps(keys)
      ensures tree.contents == old(tree.contents) - KeysAmong(keys)
      ensures r == Ok(|old(tree.contents)| - |tree.contents|)
    {
      ApplyAllConcat(map[], ops, DeleteOps(keys));
      DeletesRemoveKeys(tree.contents, keys);
      LogDeletes(keys);
      var count := DeleteAll(tree, keys);
      r := Ok(count);
    }

    method LogPuts(pairs: seq<Entry>)
      requires wal == RecordsOf(ops)
      modifies this
      ensures wal == RecordsOf(ops) && ops == old(ops) + PutOps(pairs)
    {
      for i := 0 to |pairs|
        invariant wal == RecordsOf(ops) && ops == old(ops) + PutOps(pairs[..i])
      {
        var payload := Wal.EncodePut(pairs[i].key, pairs[i].value);
        Append(Record(Wal.ToU16(Wal.Put), payload), Op.Put(pairs[i].key, pairs[i].value));
        assert pairs[..i + 1][..i] == pairs[..i];
      }
      assert pairs[..|pairs|] == pairs;
    }

    method LogDeletes(keys: seq<Key>)
      requires wal == RecordsOf(ops)
      modifies this
      ensures wal == RecordsOf(ops) && ops == old(ops) + DeleteOps(keys)
    {
      for i := 0 to |keys|
        invariant wal == RecordsOf(ops) && ops == old(ops) + DeleteOps(keys[..i])
      {
        var payload := Wal.EncodeDelete(keys[i]);
        Append(Record(Wal.ToU16(Wal.Delete), payload), Op.Delete(keys[i]));
        assert keys[..i + 1][..i] == keys[..i];
      }
      assert keys[..|keys|] == keys;
    }

    /** A crash after any prefix of the log: replaying it into an empty tree gives the map after those writes. */
    method RecoverPrefix(n: nat, config: Config) returns (recovered: BPlusTree, r: Result<()>)
      requires Valid() && n <= |wal| && 2 <= config.maxKeys
      requires forall i :: 0 <= i < n ==> Loggable(ops[i])
      ensures fresh(recovered) && recovered.Valid() && r.Ok?
      ensures recovered.contents == ApplyAll(map[], ops[..n])
      ensures n == |wal| ==> recovered.contents == tree.contents
    {
      recovered := new BPlusTree(config);
      ReplayPrefix(map[], ops, n);
      ghost var replayed;
      r, replayed := RecoverFromWal(recovered, wal[..n]);
      assert wal[..n][..n] == wal[..n] && (n == |wal| ==> ops[..n] == ops);
    }
  }

  method InsertAll(tree: BPlusTree, pairs: seq<Entry>)
    requires tree.Valid()
    modifies tree
    ensures tree.Valid() && tree.contents == ApplyAll(old(tree.contents), PutOps(pairs))
  {
    for i := 0 to |pairs|
      invariant tree.Valid() && tree.contents == ApplyAll(old(tree.contents), PutOps(pairs[..i]))
    {
      var _ := tree.Insert(pairs[i].key, pairs[i].value);
      PutOneMore(old(tree.contents), pairs, i);
    }
    assert pairs[..|pairs|] == pairs;
  }

  method DeleteAll(tree: BPlusTree, keys: seq<Key>) returns (count: nat)
    requires tree.Valid()
    modifies tree
    ensures tree.Valid() && tree.contents == ApplyAll(old(tree.contents), DeleteOps(keys))
    ensures count == |old(tree.contents)| - |tree.contents|
  {
    count := 0;
    for i := 0 to |keys|
      invariant tree.Valid() && tree.contents == ApplyAll(old(tree.contents), DeleteOps(keys[..i]))
      invariant count == |old(tree.contents)| - |tree.contents|
    {
      RemoveSize(tree.contents, keys[i]);
      var deleted := tree.Delete(keys[i]);
      if deleted.value {
        count := count + 1;
      }
      DeleteOneMore(old(tree.contents), keys, i);
    }
    assert keys[..|keys|] == keys;
  }

  lemma PutOneMore(m: Contents, pairs: seq<Entry>, i: nat)
    requires i < |pairs|
    ensures ApplyAll(m, PutOps(pairs[..i + 1])) == ApplyAll(m, PutOps(pairs[..i]))[pairs[i].key := pairs[i].value]
  {
    assert pairs[..i + 1][..i] == pairs[..i];
    ApplyAllSnoc(m, PutOps(pairs[..i]), Op.Put(pairs[i].key, pairs[i].value));
  }

  lemma DeleteOneMore(m: Contents, keys: seq<Key>, i: nat)
    requires i < |keys|
    ensures ApplyAll(m, DeleteOps(keys[..i + 1])) == ApplyAll(m, DeleteOps(keys[..i])) - {keys[i]}
  {
    assert keys[..i + 1][..i] == keys[..i];
    ApplyAllSnoc(m, DeleteOps(keys[..i]), Op.Delete(keys[i]));
  }

  ghost function KeysAmong(keys: seq<Key>): set<Key> {
    set k | k in keys
  }

  lemma {:induction false} DeletesRemoveKeys(m: Contents, keys: seq<Key>)
    ensures ApplyAll(m, DeleteOps(keys)) == m - KeysAmong(keys)
  {
    if keys != [] {
      var front, k := keys[..|keys| - 1], keys[|keys| - 1];
      DeletesRemoveKeys(m, front);
      ApplyAllSnoc(m, DeleteOps(front), Op.Delete(k));
      assert keys == front + [k];
    }
  }

  lemma {:induction false} ApplyAllConcat(m: Contents, a: seq<Op>, b: seq<Op>)
    ensures ApplyAll(m, a + b) == ApplyAll(ApplyAll(m, a), b)
  {
    if b == [] {
      assert a + b == a;
    } else {
      ApplyAllConcat(m, a, b[..|b| - 1]);
      assert (a + b)[..|a + b| - 1] == a + b[..|b| - 1];
    }
  }

  /** The value of the last pair with this key. */
  ghost function LastPut(pairs: seq<Entry>, key: Key): (r: Option<Value>)
    ensures r.None? <==> forall i :: 0 <= i < |pairs| ==> pairs[i].key != key
    ensures r.Some? ==> exists i :: 0 <= i < |pairs| && pairs[i] == Entry(key, r.value)
                                    && forall j :: i < j < |pairs| ==> pairs[j].key != key
  {
    if pairs == [] then None
    else if pairs[|pairs| - 1].key == key then Some(pairs[|pairs| - 1].value)
    else LastPut(pairs[..|pairs| - 1], key)
  }

  /** Of several pairs with one key the last one counts, and other keys keep their values. */
  ghost predicate LastWins(m: Contents, pairs: seq<Entry>, m1: Contents) {
    forall k :: (if k in m1 then Some(m1[k]) else None)
                == if LastPut(pairs, k).Some? then LastPut(pairs, k) else if k in m then Some(m[k]) else None
  }

  lemma {:induction false} LastPutWins(m: Contents, pairs: seq<Entry>)
    ensures LastWins(m, pairs, ApplyAll(m, PutOps(pairs)))
  {
    if pairs != [] {
      var n := |pairs| - 1;
      LastPutWins(m, pairs[..n]);
      PutOneMore(m, pairs, n);
      assert pairs[..n + 1] == pairs;
    }
  }

  /** One operation for each pair, in their order. */
  lemma {:induction false} PutOpsAre(pairs: seq<Entry>)
    ensures |PutOps(pairs)| == |pairs|
    ensures forall i :: 0 <= i < |pairs| ==> PutOps(pairs)[i] == Op.Put(pairs[i].key, pairs[i].value)
  {
    if pairs != [] {
      PutOpsAre(pairs[..|pairs| - 1]);
    }
  }

  lemma {:induction false} DeleteOpsAre(keys: seq<Key>)
    ensures |DeleteOps(keys)| == |keys| && forall i :: 0 <= i < |keys| ==> DeleteOps(keys)[i] == Op.Delete(keys[i])
  {
    if keys != [] {
      DeleteOpsAre(keys[..|keys| - 1]);
    }
  }

  ghost function PutOps(pairs: seq<Entry>): seq<Op> {
    if pairs == [] then []
    else PutOps(pairs[..|pairs| - 1]) + [Op.Put(pairs[|pairs| - 1].key, pairs[|pairs| - 1].value)]
  }

  ghost function DeleteOps(keys: seq<Key>): seq<Op> {
    if keys == [] then [] else DeleteOps(keys[..|keys| - 1]) + [Op.Delete(keys[|keys| - 1])]
  }

  lemma RemoveSize(m: Contents, k: Key)
    ensures |m - {k}| == |m| - if k in m then 1 else 0
  {
    assert (m - {k}).Keys == m.Keys - {k};
  }
}
