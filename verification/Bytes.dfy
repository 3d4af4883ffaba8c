/** Bytes and the big-endian length field that both wire formats of the repository start from. */
module Bytes {
  type byte = b: int | 0 <= b < 256

  const TWO_TO_THE_32: int := 0x1_0000_0000

  /** The 4 bytes Node's `writeUInt32BE` stores. */
  function WriteUInt32BE(n: nat): (bs: seq<byte>)
    requires n < TWO_TO_THE_32
    ensures |bs| == 4
  {
    [n / 0x100_0000, n / 0x1_0000 % 256, n / 0x100 % 256, n % 256]
  }

  /** The number Node's `readUInt32BE` reads from the first 4 bytes. */
  function ReadUInt32BE(bs: seq<byte>): (n: nat)
    requires |bs| >= 4
    ensures n < TWO_TO_THE_32
  {
    ((bs[0] as int * 256 + bs[1]) * 256 + bs[2]) * 256 + bs[3]
  }

  lemma ReadWrite(n: nat, rest: seq<byte>)
    requires n < TWO_TO_THE_32
    ensures ReadUInt32BE(WriteUInt32BE(n) + rest) == n
  {
    var bs := WriteUInt32BE(n);
    assert (bs + rest)[..4] == bs;
    var a, b, c := n / 0x100, n / 0x1_0000, n / 0x100_0000;
    assert n == a * 256 + n % 256;
    assert a == b * 256 + a % 256;
    assert b == c * 256 + b % 256;
  }

  /** Every 4 bytes are the encoding of the number they read as. */
  lemma WriteRead(bs: seq<byte>)
    requires |bs| >= 4
    ensures WriteUInt32BE(ReadUInt32BE(bs)) == bs[..4]
  {
    var n := ReadUInt32BE(bs);
    var a: int := bs[0] as int * 256 + bs[1];
    var b: int := a * 256 + bs[2];
    assert n == b * 256 + bs[3];
    assert n / 256 == b && n % 256 == bs[3];
    assert b / 256 == a && b % 256 == bs[2];
    assert n / 0x1_0000 == a;
    assert a / 256 == bs[0] && a % 256 == bs[1];
    assert n / 0x100_0000 == bs[0];
  }

  /** The order of two numbers is that of their bytes, the first difference deciding: the field is big-endian. */
  predicate BytesBefore(a: seq<byte>, b: seq<byte>)
    requires |a| == |b|
  {
    a != [] && (a[0] < b[0] || (a[0] == b[0] && BytesBefore(a[1..], b[1..])))
  }

  lemma BigEndian(m: nat, n: nat)
    requires m < TWO_TO_THE_32 && n < TWO_TO_THE_32
    ensures m < n <==> BytesBefore(WriteUInt32BE(m), WriteUInt32BE(n))
  {
    var a, b := WriteUInt32BE(m), WriteUInt32BE(n);
    ReadWrite(m, []);
    ReadWrite(n, []);
    assert a + [] == a && b + [] == b;
    assert BytesBefore(a[1..][1..][1..], b[1..][1..][1..]) == (a[3] < b[3]);
    assert BytesBefore(a[1..][1..], b[1..][1..]) == (a[2] < b[2] || (a[2] == b[2] && a[3] < b[3]));
    assert BytesBefore(a[1..], b[1..])
        == (a[1] < b[1] || (a[1] == b[1] && (a[2] < b[2] || (a[2] == b[2] && a[3] < b[3]))));
  }

  /** Chunks of a byte stream put back together. */
  function Concat(chunks: seq<seq<byte>>): (s: seq<byte>)
  {
    if chunks == [] then [] else Concat(chunks[..|chunks| - 1]) + chunks[|chunks| - 1]
  }
}
