/** The payload format of the write-ahead log (nanograph-btree/src/wal_record.rs). */
module WalRecord {
  import opened Wrappers
  import opened Bytes

  const TWO_32: nat := 0x1_0000_0000

  // ---------- record kinds ----------

  datatype Kind = Put | Delete | Checkpoint | Clear

  function ToU16(k: Kind): nat {
    match k case Put => 1 case Delete => 2 case Checkpoint => 3 case Clear => 4
  }

  function FromU16(n: nat): (k: Option<Kind>)
    ensures k.Some? <==> 1 <= n <= 4
    ensures k.Some? ==> ToU16(k.value) == n
    ensures (k == Some(Put) <==> n == 1) && (k == Some(Delete) <==> n == 2)
    ensures (k == Some(Checkpoint) <==> n == 3) && (k == Some(Clear) <==> n == 4)
  {
    match n case 1 => Some(Put) case 2 => Some(Delete) case 3 => Some(Checkpoint) case 4 => Some(Clear) case _ => None
  }

  // ---------- little-endian lengths ----------

  /** The base-256 digits of the low 32 bits, lowest first. */
  ghost predicate Digits(bs: seq<byte>, n: nat) {
    |bs| == 4 && bs[0] == n % 256 && bs[1] == n / 256 % 256 && bs[2] == n / 65536 % 256 && bs[3] == n / 16777216 % 256
  }

  /** The number whose base-256 digits stand at `p[at]`, ..., `p[at + 3]`, lowest first. */
  ghost function Word(p: seq<byte>, at: nat): nat
    requires at + 4 <= |p|
  {
    var b0: int, b1: int, b2: int, b3: int := p[at], p[at + 1], p[at + 2], p[at + 3];
    b0 + 256 * b1 + 256 * 256 * b2 + 256 * 256 * 256 * b3
  }

  /** `(n as u32).to_le_bytes()`: the cast keeps the low 32 bits. */
  function ToLe(n: nat): (bs: seq<byte>)
    ensures |bs| == 4 && FromLe(bs) == n % TWO_32 && Digits(bs, n)
  {
    var q1 := n / 256;
    var q2 := q1 / 256;
    var q3 := q2 / 256;
    LowWord(n, q1, q2, q3, q3 / 256, n % 256, q1 % 256, q2 % 256, q3 % 256);
    Quotients(n, q1, q2, q3);
    [n % 256, q1 % 256, q2 % 256, q3 % 256]
  }

  function FromLe(bs: seq<byte>): (n: nat)
    requires |bs| == 4
    ensures n < TWO_32
  {
    var b0: int, b1: int, b2: int, b3: int := bs[0], bs[1], bs[2], bs[3];
    b0 + 256 * b1 + 65536 * b2 + 16777216 * b3
  }

  lemma Quotients(n: nat, q1: nat, q2: nat, q3: nat)
    requires q1 == n / 256 && q2 == q1 / 256 && q3 == q2 / 256
    ensures q2 == n / 65536 && q3 == n / 16777216
  {
  }

  lemma LowWord(n: nat, q1: nat, q2: nat, q3: nat, q4: nat, r0: nat, r1: nat, r2: nat, r3: nat)
    requires n == 256 * q1 + r0 && q1 == 256 * q2 + r1 && q2 == 256 * q3 + r2 && q3 == 256 * q4 + r3
    requires r0 < 256 && r1 < 256 && r2 < 256 && r3 < 256
    ensures r0 + 256 * r1 + 65536 * r2 + 16777216 * r3 == n % TWO_32
  {
  }

  // ---------- the format ----------

  /** A length-prefixed field. */
  function Field(bs: seq<byte>): seq<byte> {
    ToLe(|bs|) + bs
  }

  /** Reads one field off the front; trailing bytes are left over. */
  function ReadField(p: seq<byte>): (r: Option<(seq<byte>, seq<byte>)>)
    ensures r.Some? ==> |r.value.0| < TWO_32
  {
    if |p| < 4 || 4 + FromLe(p[..4]) > |p| then None
    else Some((p[4..4 + FromLe(p[..4])], p[4 + FromLe(p[..4])..]))
  }

  function PutPayload(key: Key, value: Value): seq<byte> {
    Field(key) + Field(value)
  }

  function ParsePut(p: seq<byte>): Option<(Key, Value)> {
    match ReadField(p)
    case None => None
    case Some((key, rest)) =>
      match ReadField(rest)
      case None => None
      case Some((value, _)) => Some((key, value))
  }

  function ParseDelete(p: seq<byte>): Option<Key> {
    match ReadField(p)
    case None => None
    case Some((key, _)) => Some(key)
  }

  /** A field is read back exactly when its length fits the 32-bit prefix. */
  lemma FieldRoundTrip(bs: seq<byte>, rest: seq<byte>)
    ensures ReadField(Field(bs) + rest) == Some((bs, rest)) <==> |bs| < TWO_32
    ensures ReadField(Field(bs) + rest).Some? && ReadField(Field(bs) + rest).value.0 == bs ==> |bs| < TWO_32
  {
    var p := Field(bs) + rest;
    assert p[..4] == ToLe(|bs|);
    if |bs| < TWO_32 {
      assert p[4..4 + |bs|] == bs && p[4 + |bs|..] == rest;
    }
  }

  /** decode_put(encode_put(k, v)) is (k, v) exactly when both lengths fit. */
  lemma PutRoundTrip(key: Key, value: Value)
    ensures ParsePut(PutPayload(key, value)) == Some((key, value)) <==> |key| < TWO_32 && |value| < TWO_32
  {
    FieldRoundTrip(key, Field(value));
    FieldRoundTrip(value, []);
    assert Field(value) + [] == Field(value);
  }

  lemma DeleteRoundTrip(key: Key)
    ensures ParseDelete(Field(key)) == Some(key) <==> |key| < TWO_32
  {
    FieldRoundTrip(key, []);
    assert Field(key) + [] == Field(key);
  }

  // ---------- encoders and decoders ----------

  /** Key length, key, value length, value. */
  ghost predicate SpellsPut(p: seq<byte>, key: Key, value: Value) {
    && |p| == 8 + |key| + |value|
    && Digits(p[..4], |key|) && p[4..4 + |key|] == key
    && Digits(p[4 + |key|..8 + |key|], |value|) && p[8 + |key|..] == value
  }

  /** Key length, key. */
  ghost predicate SpellsDelete(p: seq<byte>, key: Key) {
    |p| == 4 + |key| && Digits(p[..4], |key|) && p[4..] == key
  }

  lemma PutBytes(key: Key, value: Value)
    ensures SpellsPut(PutPayload(key, value), key, value)
  {
    var p := PutPayload(key, value);
    assert p[..4] == ToLe(|key|) && p[4 + |key|..8 + |key|] == ToLe(|value|);
  }

  lemma DeleteBytes(key: Key)
    ensures SpellsDelete(Field(key), key)
  {
    assert Field(key)[..4] == ToLe(|key|);
  }

  /** What the bytes of a put say: where the lengths they name lie inside the payload; trailing bytes are ignored. */
  ghost function SpelledPut(p: seq<byte>): Option<(Key, Value)> {
    if |p| < 4 || |p| < 8 + Word(p, 0) then None
    else
      var at := 4 + Word(p, 0);
      if |p| < at + 4 + Word(p, at) then None else Some((p[4..at], p[at + 4..at + 4 + Word(p, at)]))
  }

  ghost function SpelledDelete(p: seq<byte>): Option<Key> {
    if |p| < 4 || |p| < 4 + Word(p, 0) then None else Some(p[4..4 + Word(p, 0)])
  }

  lemma FieldSpelled(p: seq<byte>, at: nat)
    requires at <= |p|
    ensures ReadField(p[at..])
            == if |p| < at + 4 || |p| < at + 4 + Word(p, at) then None
               else Some((p[at + 4..at + 4 + Word(p, at)], p[at + 4 + Word(p, at)..]))
  {
    var q := p[at..];
    if |p| >= at + 4 {
      assert q[..4] == [p[at], p[at + 1], p[at + 2], p[at + 3]];
      var n := Word(p, at);
      assert FromLe(q[..4]) == n;
      if at + 4 + n <= |p| {
        assert q[4..4 + n] == p[at + 4..at + 4 + n] && q[4 + n..] == p[at + 4 + n..];
      }
    }
  }

  lemma ParsesAsSpelled(p: seq<byte>)
    ensures ParsePut(p) == SpelledPut(p) && ParseDelete(p) == SpelledDelete(p)
  {
    FieldSpelled(p, 0);
    assert p[0..] == p;
    if |p| >= 4 && |p| >= 4 + Word(p, 0) {
      FieldSpelled(p, 4 + Word(p, 0));
    }
  }

  method EncodePut(key: Key, value: Value) returns (payload: seq<byte>)
    ensures payload == PutPayload(key, value) && SpellsPut(payload, key, value)
  {
    PutBytes(key, value);
    payload := [];
    payload := payload + ToLe(|key|);
    payload := payload + key;
    payload := payload + ToLe(|value|);
    payload := payload + value;
  }

  method EncodeDelete(key: Key) returns (payload: seq<byte>)
    ensures payload == Field(key) && SpellsDelete(payload, key)
  {
    DeleteBytes(key);
    payload := [];
    payload := payload + ToLe(|key|);
    payload := payload + key;
  }

  /** Walks an offset over the payload; agrees with field-by-field parsing on every payload. */
  method DecodePut(payload: seq<byte>) returns (r: Result<(Key, Value)>)
    ensures r.Ok? <==> ParsePut(payload).Some?
    ensures r.Ok? ==> ParsePut(payload) == Some(r.value)
    ensures SpelledPut(payload) == if r.Ok? then Some(r.value) else None
  {
    ParsesAsSpelled(payload);
    if |payload| < 8 {
      return Err("WAL Put record too short");
    }
    var offset := 0;
    var keyLen := FromLe(payload[offset..offset + 4]);
    offset := offset + 4;
    if offset + keyLen > |payload| {
      return Err("WAL Put record key length exceeds payload");
    }
    var key := payload[offset..offset + keyLen];
    offset := offset + keyLen;
    ghost var rest := payload[offset..];
    assert ReadField(payload) == Some((key, rest));
    if offset + 4 > |payload| {
      return Err("WAL Put record missing value length");
    }
    assert rest[..4] == payload[offset..offset + 4];
    var valueLen := FromLe(payload[offset..offset + 4]);
    offset := offset + 4;
    if offset + valueLen > |payload| {
      return Err("WAL Put record value length exceeds payload");
    }
    var value := payload[offset..offset + valueLen];
    assert rest[4..4 + valueLen] == value;
    r := Ok((key, value));
  }

  method DecodeDelete(payload: seq<byte>) returns (r: Result<Key>)
    ensures r.Ok? <==> ParseDelete(payload).Some?
    ensures r.Ok? ==> ParseDelete(payload) == Some(r.value)
    ensures SpelledDelete(payload) == if r.Ok? then Some(r.value) else None
  {
    ParsesAsSpelled(payload);
    if |payload| < 4 {
      return Err("WAL Delete record too short");
    }
    var keyLen := FromLe(payload[..4]);
    if 4 + keyLen > |payload| {
      return Err("WAL Delete record key length exceeds payload");
    }
    r := Ok(payload[4..4 + keyLen]);
  }
}
