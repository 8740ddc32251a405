/** The 24-bit big-endian unsigned integer codec used for the outer frame
    length prefix and for the metadata length inside a frame body. */
module U24 {

  /** One octet of a Go `[]byte`. */
  type byte = b: int | 0 <= b < 0x100

  /** Number of distinct 24-bit values; every decoded length is below it. */
  const Limit: nat := 0x100_0000

  /** Width in bytes of an encoded 24-bit integer. */
  const Width: nat := 3

  /** Reads three bytes at `offset` as a big-endian unsigned integer.
      Go indexes `bs[offset]`..`bs[offset+2]` and panics past the end, so the
      caller must supply three bytes from `offset`. */
  function DecodeU24(bs: seq<byte>, offset: int): (n: int)
    requires 0 <= offset && offset + Width <= |bs|
    ensures 0 <= n < Limit
  {
    (bs[offset] as int) * 0x10000 + (bs[offset + 1] as int) * 0x100 + bs[offset + 2] as int
  }

  /** Packs `n` into three big-endian bytes. Go converts `n` to `uint32`
      (wrapping modulo 2^32) and drops the top byte, so only the low 24 bits
      of `n` survive, negative values included. */
  function EncodeU24(n: int): (r: seq<byte>)
    ensures |r| == Width
    ensures DecodeU24(r, 0) == n % Limit
  {
    var m := n % Limit;
    var hi: byte := m / 0x10000;
    var mid: byte := (m / 0x100) % 0x100;
    var lo: byte := m % 0x100;
    [hi, mid, lo]
  }

  /** Encoding inverts decoding: the three bytes a length was read from are
      exactly the bytes its encoding writes. */
  lemma EncodeDecode(bs: seq<byte>, offset: int)
    requires 0 <= offset && offset + Width <= |bs|
    ensures EncodeU24(DecodeU24(bs, offset)) == bs[offset..offset + Width]
  {
    var n := DecodeU24(bs, offset);
    assert n % Limit == n;
    var r := EncodeU24(n);
    assert r[0] == n / 0x10000 == bs[offset];
    assert r[1] == (n / 0x100) % 0x100 == bs[offset + 1];
    assert r[2] == n % 0x100 == bs[offset + 2];
  }

  /** The byte order is big-endian: the most significant byte comes first,
      both when reading and when writing. */
  lemma BigEndian()
    ensures EncodeU24(0x010203) == [1, 2, 3]
    ensures DecodeU24([1, 2, 3], 0) == 0x010203
    ensures EncodeU24(4) == [0, 0, 4]
  {
  }

  /** Two encodings are equal exactly when the 24-bit values are. */
  lemma EncodeInjective(m: int, n: int)
    requires 0 <= m < Limit && 0 <= n < Limit
    ensures EncodeU24(m) == EncodeU24(n) <==> m == n
  {
    if EncodeU24(m) == EncodeU24(n) {
      assert DecodeU24(EncodeU24(m), 0) == DecodeU24(EncodeU24(n), 0);
    }
  }
}
