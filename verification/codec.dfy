/** The collaborators the core consumes but does not define: the page
    serializer (rkyv in the Rust code), CRC-32 (crc32fast, the IEEE 802.3
    polynomial) and the 32-bit entry digest (xxh32 with seed 0). Each is a
    parameter of the operations that use it; the facts the proofs need about
    them (a decode undoes an encode) are predicates that lemmas take as
    preconditions. */
module Codec {
  import opened Bytes
  import opened Errors

  /** A serializer for pages of type P: `to_bytes` and `from_bytes`. */
  datatype Codec<!P> = Codec(encode: P -> Bytes, decode: Bytes -> Option<P>)

  /** `crc32fast::hash` */
  type Checksum = Bytes -> U32

  /** `xxh32(key, 0)` */
  type Digest = Bytes -> U32

  /** Decoding what was encoded gives the page back. */
  ghost predicate RoundTrips<P>(c: Codec<P>, p: P)
  {
    c.decode(c.encode(p)) == Some(p)
  }

  /** The empty byte string is not an encoded page (rkyv needs a root). */
  ghost predicate RejectsEmpty<P>(c: Codec<P>)
  {
    c.decode([]) == None
  }

  /** CRC-32 of the empty input is 0: the initial register 0xFFFFFFFF is
      complemented by the final XOR without any byte being processed. */
  ghost predicate EmptyCrcIsZero(crc: Checksum)
  {
    crc([]) == 0
  }
}
