/** Fixed-width values, network byte order and the two libc block operations
    (memcpy, memset) that the ARP program uses on its buffers. */
module Bytes {

  /** An unsigned 8-bit value (uint8_t). */
  type byte = x: int | 0 <= x < 0x100

  /** An unsigned 16-bit value (uint16_t). */
  type u16 = x: int | 0 <= x < 0x1_0000

  datatype Option<T> = None | Some(value: T)

  /** The two bytes of a 16-bit value as they lie in memory after htons():
      most significant byte first. */
  function BE16(v: u16): (b: seq<byte>)
    ensures |b| == 2
  {
    [v / 0x100, v % 0x100]
  }

  /** The 16-bit value of the two bytes at `off`, read most significant byte
      first: `(b[off] << 8) + b[off + 1]`, which is also what ntohs() gives
      for a field stored in network order. */
  function ReadBE16(b: seq<byte>, off: nat): u16
    requires off + 2 <= |b|
  {
    (b[off] as int) * 0x100 + (b[off + 1] as int)
  }

  /** Network byte order round-trips in both directions. */
  lemma BE16RoundTrip(v: u16, b: seq<byte>)
    requires |b| == 2
    ensures ReadBE16(BE16(v), 0) == v
    ensures BE16(ReadBE16(b, 0)) == b
  {
  }

  /** The two bytes at `off` are the network-order image of the value read there. */
  lemma BE16ReadAt(b: seq<byte>, off: nat)
    requires off + 2 <= |b|
    ensures BE16(ReadBE16(b, off)) == b[off..off + 2]
  {
  }

  /** memcpy(dst + off, src, |src|). */
  method CopyBytes(dst: array<byte>, off: nat, src: seq<byte>)
    requires off + |src| <= dst.Length
    modifies dst
    ensures dst[off..off + |src|] == src
    ensures forall i :: 0 <= i < dst.Length && !(off <= i < off + |src|) ==> dst[i] == old(dst[i])
  {
    forall i | 0 <= i < |src| {
      dst[off + i] := src[i];
    }
  }

  /** memset(dst + off, v, n). */
  method SetBytes(dst: array<byte>, off: nat, v: byte, n: nat)
    requires off + n <= dst.Length
    modifies dst
    ensures forall i :: off <= i < off + n ==> dst[i] == v
    ensures forall i :: 0 <= i < dst.Length && !(off <= i < off + n) ==> dst[i] == old(dst[i])
  {
    forall i | off <= i < off + n {
      dst[i] := v;
    }
  }

  /** Stores `v` at `off` in network byte order, as the assignment of an
      htons() value to a 16-bit struct field does. */
  method PutBE16(dst: array<byte>, off: nat, v: u16)
    requires off + 2 <= dst.Length
    modifies dst
    ensures dst[off..off + 2] == BE16(v)
    ensures ReadBE16(dst[..], off) == v
    ensures forall i :: 0 <= i < dst.Length && !(off <= i < off + 2) ==> dst[i] == old(dst[i])
  {
    dst[off] := v / 0x100;
    dst[off + 1] := v % 0x100;
  }
}
