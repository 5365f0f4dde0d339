/** Bytes, the optional value, and the big-endian 32-bit length field of a chunk record. */
module Bytes {

  /** An octet, as the source's `char` and `unsigned char` buffers hold it. */
  newtype byte = x: int | 0 <= x < 256

  datatype Option<+T> = None | Some(value: T)

  /** Number of values of a `uint32_t`. */
  const U32Limit: nat := 0x1_0000_0000

  function Min(a: nat, b: nat): nat { if a <= b then a else b }

  /** The `uint32_t` of four bytes, most significant first, as the shifts and ors of
      tracker.h:280 build it (each byte lands in its own eight bits, so the ors are sums). */
  function BigEndian32(d: seq<byte>): (n: nat)
    requires |d| == 4
    ensures n < U32Limit
  {
    (d[0] as nat) * 0x100_0000 + (d[1] as nat) * 0x1_0000 + (d[2] as nat) * 0x100 + d[3] as nat
  }

  /** The four bytes of a `uint32_t`, most significant first. */
  function ToBigEndian32(n: nat): (d: seq<byte>)
    requires n < U32Limit
    ensures |d| == 4 && BigEndian32(d) == n
  {
    var r1 := n % 0x100_0000;
    var r2 := r1 % 0x1_0000;
    [(n / 0x100_0000) as byte, (r1 / 0x1_0000) as byte, (r2 / 0x100) as byte, (r2 % 0x100) as byte]
  }

  /** Decoding four bytes and encoding the value again gives back the same bytes. */
  lemma BigEndian32Inverse(d: seq<byte>)
    requires |d| == 4
    ensures ToBigEndian32(BigEndian32(d)) == d
  {
    var n := BigEndian32(d);
    var e := ToBigEndian32(n);
    assert e[0] == d[0] && e[1] == d[1] && e[2] == d[2] && e[3] == d[3];
  }
}
