/** Bytes, the little-endian `u32` conversions of the standard library and the
    contents of a `bytes::BytesMut` buffer. */
module Bytes {

  newtype byte = x: int | 0 <= x < 0x100

  const U32_LIMIT: nat := 0x1_0000_0000

  /** `u32::from_le_bytes`: the first byte is the least significant. */
  function LeU32(b: seq<byte>): (n: nat)
    requires |b| == 4
    ensures n < U32_LIMIT
  {
    b[0] as nat + 0x100 * b[1] as nat + 0x1_0000 * b[2] as nat + 0x100_0000 * b[3] as nat
  }

  /** `u32::to_le_bytes` for a value that fits in 32 bits. */
  function LeBytes(n: nat): (b: seq<byte>)
    requires n < U32_LIMIT
    ensures |b| == 4
  {
    var q1 := n / 0x100;
    var q2 := q1 / 0x100;
    [(n % 0x100) as byte, (q1 % 0x100) as byte, (q2 % 0x100) as byte, (q2 / 0x100) as byte]
  }

  /** Dividing `lo + 256 * hi` by 256 separates its two parts. */
  lemma SplitByte(lo: nat, hi: nat)
    requires lo < 0x100
    ensures (lo + 0x100 * hi) % 0x100 == lo && (lo + 0x100 * hi) / 0x100 == hi
  {
  }

  /** Reading back the four bytes written for `n` gives `n`. */
  lemma LeU32OfLeBytes(n: nat)
    requires n < U32_LIMIT
    ensures LeU32(LeBytes(n)) == n
  {
    var b := LeBytes(n);
    var q1 := n / 0x100;
    var q2 := q1 / 0x100;
    assert n == b[0] as nat + 0x100 * q1;
    assert q1 == b[1] as nat + 0x100 * q2;
    assert q2 == b[2] as nat + 0x100 * b[3] as nat;
  }

  /** Writing the value read from four bytes reproduces those bytes: the
      prefix encoding is a bijection between 4-byte sequences and `u32`. */
  lemma LeBytesOfLeU32(b: seq<byte>)
    requires |b| == 4
    ensures LeBytes(LeU32(b)) == b
  {
    var q2 := b[2] as nat + 0x100 * b[3] as nat;
    var q1 := b[1] as nat + 0x100 * q2;
    var n := b[0] as nat + 0x100 * q1;
    assert n == LeU32(b);
    SplitByte(b[0] as nat, q1);
    SplitByte(b[1] as nat, q2);
    SplitByte(b[2] as nat, b[3] as nat);
  }

  /** The contents of a `bytes::BytesMut`. Its capacity is not modelled:
      `reserve` changes no byte of the contents. */
  class BytesMut {
    var data: seq<byte>

    /** `BytesMut::new()` */
    constructor ()
      ensures data == []
    {
      data := [];
    }

    /** `BytesMut::is_empty` */
    predicate IsEmpty()
      reads this
    {
      |data| == 0
    }

    /** `Buf::advance`: drop `n` bytes from the front. */
    method Advance(n: nat)
      requires n <= |data|
      modifies this
      ensures data == old(data)[n..]
    {
      data := data[n..];
    }

    /** `BytesMut::extend_from_slice`: append at the back. */
    method ExtendFromSlice(s: seq<byte>)
      modifies this
      ensures data == old(data) + s
    {
      data := data + s;
    }
  }
}
