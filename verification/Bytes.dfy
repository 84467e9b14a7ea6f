/** Bytes, 16-bit words in network order, and 4-byte fields copied verbatim. */
module Bytes {

  type Byte = b: int | 0 <= b < 256

  /** A 32-bit field as it lies in memory; copied and compared but never reordered. */
  type Quad = q: seq<Byte> | |q| == 4 witness [0, 0, 0, 0]

  const ZERO_QUAD: Quad := [0, 0, 0, 0]

  /** htons followed by a two-byte copy. */
  function Put16(v: nat): (r: seq<Byte>)
    requires v < 0x1_0000
    ensures |r| == 2 && Get16(r[0], r[1]) == v
  {
    [v / 256, v % 256]
  }

  /** A two-byte copy followed by ntohs. */
  function Get16(hi: Byte, lo: Byte): (v: nat)
    ensures v < 0x1_0000
  {
    hi * 256 + lo
  }

  /** A four-byte copy followed by ntohl. */
  function Get32(q: Quad): (v: nat)
    ensures v <= 0xFFFF_FFFF
  {
    Get16(q[0], q[1]) * 0x1_0000 + Get16(q[2], q[3])
  }

  /** Two pieces that lie one after the other in memory. */
  lemma Halves(mem: seq<Byte>, p: nat, a: seq<Byte>, b: seq<Byte>)
    requires p + |a| + |b| <= |mem| && mem[p..p + |a| + |b|] == a + b
    ensures mem[p..p + |a|] == a && mem[p + |a|..p + |a| + |b|] == b
  {
    assert mem[p..p + |a|] == mem[p..p + |a| + |b|][..|a|];
    assert mem[p + |a|..p + |a| + |b|] == mem[p..p + |a| + |b|][|a|..];
  }
}
