/**
 The record blob the memcached front end stores in the engine: a two-byte
 little-endian key length, the key bytes, then the value bytes; plus the
 accessors and the key-only comparator it installs in the store.
 */
module ByteItem {
  import opened Bytes

  /** `binary.LittleEndian.PutUint16` of `n`, after the `uint16(...)`
      conversion has truncated it to 16 bits. */
  function Uint16LE(n: nat): (b: seq<byte>)
    ensures |b| == 2
    ensures b[0] as int + 256 * b[1] as int == n % 65536
  {
    LowBytes(n);
    [(n % 256) as byte, ((n / 256) % 256) as byte]
  }

  /** The low 16 bits of `n` split into its two low bytes. */
  lemma LowBytes(n: nat)
    ensures n % 256 + 256 * ((n / 256) % 256) == n % 65536
  {
    var q := n / 256;
    var h := q / 256;
    assert n == 256 * q + n % 256;
    assert q == 256 * h + q % 256;
    assert n == 65536 * h + (n % 256 + 256 * (q % 256));
    assert 0 <= n % 256 + 256 * (q % 256) < 65536;
  }

  /** `binary.LittleEndian.Uint16` of two bytes. */
  function ReadUint16LE(b0: byte, b1: byte): (n: nat)
    ensures n < 65536
  {
    b0 as int + 256 * b1 as int
  }

  /** Reading two header bytes and writing the number back gives the same
      two bytes: the first is the low byte and the second the high byte. */
  lemma ReadThenWriteUint16(b0: byte, b1: byte)
    ensures Uint16LE(ReadUint16LE(b0, b1)) == [b0, b1]
  {
  }

  /** `newByteItem(k, v)`. */
  function NewByteItem(k: seq<byte>, v: seq<byte>): (b: seq<byte>)
    ensures |b| == 2 + |k| + |v|
    ensures ReadUint16LE(b[0], b[1]) == |k| % 65536
    ensures b[2..] == k + v
  {
    Uint16LE(|k|) + k + v
  }

  /** `valOffset`: where the value starts. Go's `buf[0:2]` needs two bytes. */
  function ValOffset(b: seq<byte>): (off: nat)
    requires |b| >= 2
    ensures 2 <= off < 2 + 65536
  {
    2 + ReadUint16LE(b[0], b[1])
  }

  /** A blob whose header does not point past its end; `Key` and `Value`
      slice out of range (and panic) on any other. */
  predicate WellFormed(b: seq<byte>) {
    |b| >= 2 && ValOffset(b) <= |b|
  }

  function Key(b: seq<byte>): (k: seq<byte>)
    requires WellFormed(b)
    ensures |k| == ReadUint16LE(b[0], b[1])
  {
    b[2..ValOffset(b)]
  }

  function Value(b: seq<byte>): (v: seq<byte>)
    requires WellFormed(b)
    ensures |v| == |b| - ValOffset(b)
  {
    b[ValOffset(b)..]
  }

  /** `byteItemKeyCompare`: the prefix comparison of the two keys. */
  function KeyCompare(a: seq<byte>, b: seq<byte>): (r: int)
    requires WellFormed(a) && WellFormed(b)
    ensures -1 <= r <= 1
  {
    var k1 := a[2..ValOffset(a)];
    var k2 := b[2..ValOffset(b)];
    var l := if |k1| > |k2| then |k2| else |k1|;
    Compare(k1[..l], k2[..l])
  }

  /** A blob's key is its key truncated to the length the 16-bit header
      kept, whatever the lengths. */
  lemma KeyOfNewByteItem(k: seq<byte>, v: seq<byte>)
    ensures WellFormed(NewByteItem(k, v))
    ensures ValOffset(NewByteItem(k, v)) == 2 + |k| % 65536
    ensures Key(NewByteItem(k, v)) == k[..|k| % 65536]
    ensures Value(NewByteItem(k, v)) == k[|k| % 65536..] + v
  {
    var b := NewByteItem(k, v);
    var n := |k| % 65536;
    assert b[2..][..n] == k[..n];
    assert b[2..2 + n] == b[2..][..n];
    assert b[2 + n..] == b[2..][n..];
    assert (k + v)[n..] == k[n..] + v;
  }

  /** Decoding an encoded record gives back its key and value, the empty
      value included, provided the key fits the 16-bit length header. */
  lemma RoundTrip(k: seq<byte>, v: seq<byte>)
    requires |k| < 65536
    ensures WellFormed(NewByteItem(k, v))
    ensures Key(NewByteItem(k, v)) == k
    ensures Value(NewByteItem(k, v)) == v
  {
    KeyOfNewByteItem(k, v);
    assert k[..|k|] == k && k[|k|..] == [];
  }

  /** Every well-formed blob is the encoding of its own key and value. */
  lemma Reencode(b: seq<byte>)
    requires WellFormed(b)
    ensures NewByteItem(Key(b), Value(b)) == b
  {
    var e := NewByteItem(Key(b), Value(b));
    assert e[2..] == b[2..];
    assert e[0] == b[0] && e[1] == b[1];
    assert e == e[..2] + e[2..] && b == b[..2] + b[2..];
  }

  /** A key of 65536 bytes or more wraps the 16-bit header and does not
      survive the round trip. */
  lemma LongKeyIsTruncated(k: seq<byte>, v: seq<byte>)
    requires |k| >= 65536
    ensures Key(NewByteItem(k, v)) != k
  {
    KeyOfNewByteItem(k, v);
    assert |Key(NewByteItem(k, v))| < 65536;
  }

  /** The comparator reads the keys and nothing else. */
  lemma KeyCompareIsPrefixCompareOfKeys(a: seq<byte>, b: seq<byte>)
    requires WellFormed(a) && WellFormed(b)
    ensures KeyCompare(a, b) == PrefixCompare(Key(a), Key(b))
  {
  }

  /** Changing either record's value leaves the comparison unchanged. */
  lemma KeyCompareIgnoresValues(k1: seq<byte>, v1: seq<byte>, w1: seq<byte>,
                                k2: seq<byte>, v2: seq<byte>, w2: seq<byte>)
    ensures WellFormed(NewByteItem(k1, v1)) && WellFormed(NewByteItem(k1, w1))
    ensures WellFormed(NewByteItem(k2, v2)) && WellFormed(NewByteItem(k2, w2))
    ensures KeyCompare(NewByteItem(k1, v1), NewByteItem(k2, v2))
         == KeyCompare(NewByteItem(k1, w1), NewByteItem(k2, w2))
  {
    KeyOfNewByteItem(k1, v1);
    KeyOfNewByteItem(k1, w1);
    KeyOfNewByteItem(k2, v2);
    KeyOfNewByteItem(k2, w2);
  }

  /** Two records compare equal exactly when one key is a prefix of the
      other: a key that is a prefix of another is indistinguishable from it. */
  lemma KeyCompareZero(a: seq<byte>, b: seq<byte>)
    requires WellFormed(a) && WellFormed(b)
    ensures KeyCompare(a, b) == 0 <==> PrefixRelated(Key(a), Key(b))
  {
    PrefixCompareZero(Key(a), Key(b));
  }

  /** A record equals itself, and swapping the arguments flips the sign. */
  lemma KeyCompareAntisymmetric(a: seq<byte>, b: seq<byte>)
    requires WellFormed(a) && WellFormed(b)
    ensures KeyCompare(a, a) == 0
    ensures KeyCompare(a, b) == -KeyCompare(b, a)
  {
    PrefixCompareAntisymmetric(Key(a), Key(b));
    PrefixCompareAntisymmetric(Key(a), Key(a));
  }
}
