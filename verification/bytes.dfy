/** Bytes, fixed-width unsigned integers, little-endian encoding, and files as
    byte sequences with positioned reads and writes (the `read_at`/`write_at`
    pair of a Unix file). */
module Bytes {

  type Byte = b: int | 0 <= b < 256
  type Bytes = seq<Byte>

  const TWO_32: nat := 0x1_0000_0000
  const TWO_64: nat := 0x1_0000_0000_0000_0000

  type U32 = x: int | 0 <= x < 0x1_0000_0000
  type U64 = x: int | 0 <= x < 0x1_0000_0000_0000_0000

  /** 256^n, the number of values that fit in n bytes. */
  function Pow256(n: nat): (r: nat)
    ensures r >= 1
  {
    if n == 0 then 1 else 256 * Pow256(n - 1)
  }

  /** The n-byte little-endian encoding of x (x is truncated to n bytes). */
  function LeBytes(x: nat, n: nat): (r: Bytes)
    ensures |r| == n
  {
    if n == 0 then [] else [(x % 256) as Byte] + LeBytes(x / 256, n - 1)
  }

  /** The unsigned integer whose little-endian encoding is b. */
  function LeValue(b: Bytes): (r: nat)
    ensures r < Pow256(|b|)
  {
    if |b| == 0 then 0 else b[0] + 256 * LeValue(b[1..])
  }

  lemma {:induction false} LeValueOfLeBytes(x: nat, n: nat)
    requires x < Pow256(n)
    ensures LeValue(LeBytes(x, n)) == x
  {
    if n > 0 {
      var rest := LeBytes(x / 256, n - 1);
      assert LeBytes(x, n)[1..] == rest;
      LeValueOfLeBytes(x / 256, n - 1);
    }
  }

  lemma {:induction false} LeBytesOfLeValue(b: Bytes)
    ensures LeBytes(LeValue(b), |b|) == b
  {
    if |b| > 0 {
      var v := LeValue(b[1..]);
      assert (b[0] + 256 * v) % 256 == b[0];
      assert (b[0] + 256 * v) / 256 == v;
      LeBytesOfLeValue(b[1..]);
    }
  }

  /** Encoding is injective on n-byte values: the decoder inverts it. */
  lemma LeBytesInjective(x: nat, y: nat, n: nat)
    requires x < Pow256(n) && y < Pow256(n)
    requires LeBytes(x, n) == LeBytes(y, n)
    ensures x == y
  {
    LeValueOfLeBytes(x, n);
    LeValueOfLeBytes(y, n);
  }

  /** `u32::to_le_bytes` */
  function Le32(x: U32): (r: Bytes)
    ensures |r| == 4
    ensures LeValue(r) == x
  {
    assert Pow256(4) == TWO_32;
    LeValueOfLeBytes(x, 4);
    LeBytes(x, 4)
  }

  /** `u32::from_le_bytes` */
  function Le32Value(b: Bytes): (r: U32)
    requires |b| == 4
    ensures LeBytes(r, 4) == b
  {
    assert Pow256(4) == TWO_32;
    LeBytesOfLeValue(b);
    LeValue(b)
  }

  /** `u64::from_le_bytes` */
  function Le64Value(b: Bytes): (r: U64)
    requires |b| == 8
    ensures LeBytes(r, 8) == b
  {
    assert Pow256(8) == TWO_64;
    LeBytesOfLeValue(b);
    LeValue(b)
  }

  lemma {:induction false} LeValueOfZeros(n: nat)
    ensures LeValue(Repeat(0, n)) == 0
  {
    if n > 0 {
      assert Repeat(0, n)[1..] == Repeat(0, n - 1);
      LeValueOfZeros(n - 1);
    }
  }

  /** `vec![x; n]` */
  function Repeat(x: Byte, n: nat): (r: Bytes)
    ensures |r| == n
    ensures forall i :: 0 <= i < n ==> r[i] == x
  {
    seq(n, _ => x)
  }

  // ---------------------------------------------------------------------
  // Files as byte sequences.

  /** The byte a read at position p observes: bytes past the end read as the
      zeros of the caller's zero-initialised buffer. */
  function ByteAt(f: Bytes, p: nat): Byte
  {
    if p < |f| then f[p] else 0
  }

  /** `read_at(&mut vec![0u8; n], off)` on a regular file: the bytes of the
      file from `off`, the rest of the buffer left zero. */
  function ReadAt(f: Bytes, off: nat, n: nat): (r: Bytes)
    ensures |r| == n
    ensures forall i :: 0 <= i < n ==> r[i] == ByteAt(f, off + i)
  {
    var r: Bytes := seq<Byte>(n, i requires 0 <= i < n => ByteAt(f, off + i));
    r
  }

  /** `write_at(d, off)`: overwrites the bytes at [off, off + |d|), growing the
      file (with a zero-filled hole) when the write reaches past its end. */
  function WriteAt(f: Bytes, off: nat, d: Bytes): (r: Bytes)
    ensures |r| == if off + |d| > |f| then off + |d| else |f|
    ensures forall p: nat :: ByteAt(r, p) == if off <= p < off + |d| then d[p - off] else ByteAt(f, p)
  {
    var len := if off + |d| > |f| then off + |d| else |f|;
    var r: Bytes := seq(len, p requires 0 <= p < len =>
      if off <= p < off + |d| then d[p - off] else ByteAt(f, p));
    r
  }

  /** A write leaves every read of a disjoint range unchanged. */
  lemma ReadAtDisjointWrite(f: Bytes, off: nat, d: Bytes, roff: nat, n: nat)
    requires roff + n <= off || off + |d| <= roff
    ensures ReadAt(WriteAt(f, off, d), roff, n) == ReadAt(f, roff, n)
  {
    var g := WriteAt(f, off, d);
    forall i | 0 <= i < n
      ensures ReadAt(g, roff, n)[i] == ReadAt(f, roff, n)[i]
    {
      assert ByteAt(g, roff + i) == ByteAt(f, roff + i);
    }
  }

  /** Reading back exactly the written range yields the written bytes. */
  lemma ReadAtOwnWrite(f: Bytes, off: nat, d: Bytes)
    ensures ReadAt(WriteAt(f, off, d), off, |d|) == d
  {
    var g := WriteAt(f, off, d);
    forall i | 0 <= i < |d|
      ensures ReadAt(g, off, |d|)[i] == d[i]
    {
      assert ByteAt(g, off + i) == d[i];
    }
  }

  /** A shorter read at the same offset is a prefix of a longer one. */
  lemma ReadAtPrefix(f: Bytes, off: nat, n: nat, m: nat)
    requires m <= n
    ensures ReadAt(f, off, n)[..m] == ReadAt(f, off, m)
  {
  }

  /** A read wholly past the end of the file sees only zeros. */
  lemma ReadAtPastEnd(f: Bytes, off: nat, n: nat)
    requires |f| <= off
    ensures ReadAt(f, off, n) == Repeat(0, n)
  {
  }
}
