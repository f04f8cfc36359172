/** Bytes, and little-endian 32-bit words. */
module Bytes {

  type Byte = b: int | 0 <= b < 256

  function WriteLE32(n: nat): (b: seq<Byte>)
    requires n < 0x1_0000_0000
    ensures |b| == 4
  {
    [n % 256, n / 256 % 256, n / 65536 % 256, n / 16777216]
  }

  function ReadLE32(b: seq<Byte>): (n: nat)
    requires |b| == 4
    ensures n < 0x1_0000_0000
  {
    b[0] as int + 256 * b[1] as int + 65536 * b[2] as int + 16777216 * b[3] as int
  }

  lemma ReadWriteLE32(n: nat)
    requires n < 0x1_0000_0000
    ensures ReadLE32(WriteLE32(n)) == n
  {
    var b := WriteLE32(n);
    assert b[0] == n % 256 && b[1] == n / 256 % 256 && b[2] == n / 65536 % 256 && b[3] == n / 16777216;
    hide WriteLE32;
    FourBytes(n);
  }

  lemma FourBytes(n: nat)
    ensures n == n % 256 + 256 * (n / 256 % 256) + 65536 * (n / 65536 % 256) + 16777216 * (n / 16777216)
  {
    var b := n / 256;
    var c := b / 256;
    var d := c / 256;
    assert n == n % 256 + 256 * (b % 256) + 65536 * (c % 256) + 16777216 * d;
    assert n / 65536 == c;
    assert n / 16777216 == d;
  }
}
