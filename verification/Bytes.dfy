/**
 Byte strings and their lexicographic order.

 Keys are compared byte by byte, a proper prefix being the smaller string.  `Rank` embeds that order
 into the reals of [0, 1), so that a statement about key order becomes linear arithmetic.
 */
module Bytes {

  type byte = b: int | 0 <= b < 256
  type Key = seq<byte>
  type Value = seq<byte>

  /** Reads the key as the digits of a base-257 fraction, the digits being shifted up by one. */
  ghost function Rank(k: Key): (r: real)
    ensures 0.0 <= r < 1.0
    ensures k != [] ==> r > 0.0
  {
    if k == [] then 0.0 else (k[0] as real + 1.0 + Rank(k[1..])) / 257.0
  }

  /** The order of `Vec<u8>`: lexicographic, shorter first on ties. */
  predicate Less(a: Key, b: Key)
    ensures Less(a, b) <==> Rank(a) < Rank(b)
  {
    if b == [] then false
    else if a == [] then true
    else if a[0] != b[0] then a[0] < b[0]
    else Less(a[1..], b[1..])
  }

  /** A key comes before another one if it is a proper prefix of it or has the smaller byte where they first differ. */
  lemma {:induction false} LessIff(a: Key, b: Key)
    ensures Less(a, b) <==>
            (a <= b && a != b) || exists i :: 0 <= i < |a| && i < |b| && a[..i] == b[..i] && a[i] < b[i]
  {
    if a != [] && b != [] {
      if a[0] != b[0] {
        assert a[0] < b[0] ==> a[..0] == b[..0];
        forall i | 0 < i < |a| && i < |b| ensures a[..i] != b[..i] {
          assert a[..i][0] != b[..i][0];
        }
      } else {
        LessIff(a[1..], b[1..]);
        forall i | 0 < i <= |a| && i <= |b| ensures a[..i] == b[..i] <==> a[1..][..i - 1] == b[1..][..i - 1] {
          assert a[..i] == [a[0]] + a[1..][..i - 1] && b[..i] == [b[0]] + b[1..][..i - 1];
        }
        if i :| 0 <= i < |a[1..]| && i < |b[1..]| && a[1..][..i] == b[1..][..i] && a[1..][i] < b[1..][i] {
          assert a[..i + 1] == b[..i + 1] && a[i + 1] < b[i + 1];
        }
        if i :| 0 <= i < |a| && i < |b| && a[..i] == b[..i] && a[i] < b[i] {
          assert a[1..][..i - 1] == b[1..][..i - 1] && a[1..][i - 1] < b[1..][i - 1];
        }
      }
    }
  }

  /** Distinct keys have distinct ranks: the first byte is recovered from the rank, then the rest. */
  lemma {:induction false} RankInjective(a: Key, b: Key)
    requires Rank(a) == Rank(b)
    ensures a == b
  {
    if a != [] && b != [] {
      var x, y := Rank(a[1..]), Rank(b[1..]);
      FirstByteFromRank(a[0], b[0], x, y);
      RankInjective(a[1..], b[1..]);
      assert a == [a[0]] + a[1..] && b == [b[0]] + b[1..];
    }
  }

  lemma FirstByteFromRank(a: byte, b: byte, x: real, y: real)
    requires 0.0 <= x < 1.0 && 0.0 <= y < 1.0
    requires (a as real + 1.0 + x) / 257.0 == (b as real + 1.0 + y) / 257.0
    ensures a == b && x == y
  {
    assert a as real + x == b as real + y;
  }
}
