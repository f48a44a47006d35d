/**
 * Byte-level reads and writes shared by the router's components, and the
 * IPv4 header fields they consult.
 *
 * Storage convention: the router keeps every address, mask, next hop and RIP
 * metric as the little-endian read of its four network-order bytes, so
 * 1.2.3.4 is held as 0x04030201 and the first wire byte is the low byte.
 */
module Wire {

  /** The result of an operation that can fail. */
  datatype Option<T> = None | Some(value: T)

  /** Unsigned 32-bit integer used for counts, lengths and interface indexes. */
  type u32 = x: int | 0 <= x < 0x1_0000_0000

  /** Unsigned 64-bit integer used for timestamps. */
  type u64 = x: int | 0 <= x < 0x1_0000_0000_0000_0000

  /** A 16-bit read with the first byte as the low byte (`*(uint16_t*)p` on a little-endian host). */
  function LE16(lo: bv8, hi: bv8): (r: nat)
    ensures r < 0x1_0000
  {
    lo as nat + 0x100 * hi as nat
  }

  /** A 16-bit read with the first byte as the high byte: `p[0] * 0x100 + p[1]` (network order). */
  function BE16(hi: bv8, lo: bv8): (r: nat)
    ensures r < 0x1_0000
  {
    LE16(lo, hi)
  }

  /**
   * `p[0] + p[1] * 0x100 + p[2] * 0x10000 + p[3] * 0x1000000`; the four
   * bytes occupy disjoint bit ranges, so the sum is written as shifts and ors.
   */
  function LE32(b0: bv8, b1: bv8, b2: bv8, b3: bv8): bv32
  {
    (b0 as bv32) | ((b1 as bv32) << 8) | ((b2 as bv32) << 16) | ((b3 as bv32) << 24)
  }

  /** `p[0] * 0x1000000 + p[1] * 0x10000 + p[2] * 0x100 + p[3]` (network order). */
  function BE32(b0: bv8, b1: bv8, b2: bv8, b3: bv8): bv32
  {
    LE32(b3, b2, b1, b0)
  }

  /** Byte `i` of `x`, counting from the low byte: `(x >> 8*i) & 0xff`. */
  function ByteOf(x: bv32, i: nat): bv8
    requires i < 4
  {
    if i == 0 then (x & 0xff) as bv8
    else if i == 1 then ((x >> 8) & 0xff) as bv8
    else if i == 2 then ((x >> 16) & 0xff) as bv8
    else ((x >> 24) & 0xff) as bv8
  }

  /** The value with the four bytes of `x` in the opposite order. */
  function ByteSwap(x: bv32): bv32
  {
    LE32(ByteOf(x, 3), ByteOf(x, 2), ByteOf(x, 1), ByteOf(x, 0))
  }

  /** Reading back the bytes of a word, low byte first, gives the word. */
  lemma LE32OfBytes(x: bv32)
    ensures LE32(ByteOf(x, 0), ByteOf(x, 1), ByteOf(x, 2), ByteOf(x, 3)) == x
  {
  }

  /** A 16-bit word held as `uint16_t`, first byte low (`*(uint16_t*)p` on a little-endian host). */
  function Word16(lo: bv8, hi: bv8): bv16
  {
    (lo as bv16) | ((hi as bv16) << 8)
  }

  /** `c & 0xff`. */
  function LowByte(c: bv16): bv8
  {
    (c & 0xff) as bv8
  }

  /** `c >> 8`. */
  function HighByte(c: bv16): bv8
  {
    (c >> 8) as bv8
  }

  /** Splitting a 16-bit word into its low and high byte and reading them back gives the word. */
  lemma Word16OfBytes(c: bv16)
    ensures Word16(LowByte(c), HighByte(c)) == c
  {
  }

  /** The little-endian 16-bit word at offset `i` (`*(uint16_t*)(p + i)`). */
  function Load16LE(p: seq<bv8>, i: nat): nat
    requires i + 2 <= |p|
  {
    LE16(p[i], p[i + 1])
  }

  /** The network-order 16-bit word at offset `i`. */
  function Load16BE(p: seq<bv8>, i: nat): nat
    requires i + 2 <= |p|
  {
    BE16(p[i], p[i + 1])
  }

  /** The little-endian 32-bit word at offset `i`. */
  function Load32LE(p: seq<bv8>, i: nat): bv32
    requires i + 4 <= |p|
  {
    LE32(p[i], p[i + 1], p[i + 2], p[i + 3])
  }

  /** The network-order 32-bit word at offset `i`. */
  function Load32BE(p: seq<bv8>, i: nat): bv32
    requires i + 4 <= |p|
  {
    BE32(p[i], p[i + 1], p[i + 2], p[i + 3])
  }

  /** IHL * 4: the IPv4 header length in bytes, from the low nibble of byte 0. */
  function HeaderLength(p: seq<bv8>): nat
    requires |p| > 0
  {
    ((p[0] & 0xf) as nat) * 4
  }

  /** The big-endian Total Length field of an IPv4 header (bytes 2 and 3). */
  function TotalLength(p: seq<bv8>): nat
    requires |p| >= 4
  {
    Load16BE(p, 2)
  }
}
