/** Bytes, 16-bit codes and the 4-byte big-endian integers of the length prefix. */
module Bytes {

  /** One octet, Rust's `u8`. */
  type Byte = x: int | 0 <= x < 0x100

  /** Rust's `u16`, the width of a status code on the wire. */
  type U16 = x: int | 0 <= x < 0x1_0000

  type Bytes = seq<Byte>

  /** Values representable in a 4-byte unsigned field. */
  const Two32: nat := 0x1_0000_0000

  /** The 4-byte big-endian encoding of `n`, most significant byte first. */
  function ToBigEndian4(n: nat): (b: Bytes)
    requires n < Two32
    ensures |b| == 4
    ensures FromBigEndian4(b) == n
  {
    var n1 := n / 0x100;
    var n2 := n1 / 0x100;
    [n2 / 0x100, n2 % 0x100, n1 % 0x100, n % 0x100]
  }

  /** The unsigned value of a 4-byte big-endian field. */
  function FromBigEndian4(b: Bytes): (n: nat)
    requires |b| == 4
    ensures n < Two32
  {
    ((b[0] as int * 0x100 + b[1]) * 0x100 + b[2]) * 0x100 + b[3]
  }

  /** Reading a 4-byte field and writing the value back gives the same four bytes. */
  lemma ToBigEndian4OfValue(b: Bytes)
    requires |b| == 4
    ensures ToBigEndian4(FromBigEndian4(b)) == b
  {
    var n := FromBigEndian4(b);
    var hi: int := (b[0] as int * 0x100 + b[1]) * 0x100 + b[2];
    assert n / 0x100 == hi && n % 0x100 == b[3];
    var mid: int := b[0] as int * 0x100 + b[1];
    assert hi / 0x100 == mid && hi % 0x100 == b[2];
    assert mid / 0x100 == b[0] && mid % 0x100 == b[1];
  }
}
