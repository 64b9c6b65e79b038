/** Bytes, and the 8-byte integers of a packed struct in memory: little-endian two's
    complement. */
module Bytes {
  newtype byte = x: int | 0 <= x < 256

  const INT32_MAX: int := 0x7fff_ffff
  const INT64_MAX: int := 0x7fff_ffff_ffff_ffff

  type int32 = x: int | -0x8000_0000 <= x < 0x8000_0000
  type int64 = x: int | -0x8000_0000_0000_0000 <= x < 0x8000_0000_0000_0000

  /** What is left of an integer stored in a 32-bit int. */
  function Wrap32(v: int): int32 {
    var u := v % 0x1_0000_0000;
    if u < 0x8000_0000 then u else u - 0x1_0000_0000
  }

  lemma WrappedRemainder(v: int, q: int, u: int)
    requires v == q * 0x1_0000_0000 + u && 0 <= u < 0x1_0000_0000
    ensures v % 0x1_0000_0000 == u
  {
  }

  /** Wrapping takes away as many times 2^32 as bring the value into range. */
  lemma Wrap32Quotient(v: int)
    ensures Wrap32(v) == v - (v + 0x8000_0000) / 0x1_0000_0000 * 0x1_0000_0000
  {
    var q, r := (v + 0x8000_0000) / 0x1_0000_0000, (v + 0x8000_0000) % 0x1_0000_0000;
    if r >= 0x8000_0000 {
      WrappedRemainder(v, q, r - 0x8000_0000);
    } else {
      WrappedRemainder(v, q - 1, r + 0x8000_0000);
    }
  }

  function Pow256(n: nat): (p: nat)
    ensures p >= 1
  {
    if n == 0 then 1 else 256 * Pow256(n - 1)
  }

  /** The low n bytes of v, least significant first. */
  function LowBytes(v: nat, n: nat): (b: seq<byte>)
    ensures |b| == n
  {
    if n == 0 then [] else [(v % 256) as byte] + LowBytes(v / 256, n - 1)
  }

  function FromBytes(b: seq<byte>): nat {
    if b == [] then 0 else b[0] as int + 256 * FromBytes(b[1..])
  }

  lemma {:induction false} FromLowBytes(v: nat, n: nat)
    requires v < Pow256(n)
    ensures FromBytes(LowBytes(v, n)) == v
  {
    if n > 0 {
      FromLowBytes(v / 256, n - 1);
      assert LowBytes(v, n)[1..] == LowBytes(v / 256, n - 1);
    }
  }

  /** An int64_t in memory; an integer outside its range is reduced modulo 2^64. */
  function Int64Bytes(v: int): (b: seq<byte>)
    ensures |b| == 8
  {
    LowBytes(v % 0x1_0000_0000_0000_0000, 8)
  }

  function BytesInt64(b: seq<byte>): int64
    requires |b| == 8
  {
    var u := FromBytes(b) % 0x1_0000_0000_0000_0000;
    if u <= INT64_MAX then u else u - 0x1_0000_0000_0000_0000
  }

  lemma Int64RoundTrip(v: int64)
    ensures BytesInt64(Int64Bytes(v)) == v
  {
    EightBytes();
    hide LowBytes, FromBytes, Pow256;
    var u := v % 0x1_0000_0000_0000_0000;
    assert u == if v < 0 then v + 0x1_0000_0000_0000_0000 else v;
    FromLowBytes(u, 8);
  }

  lemma EightBytes()
    ensures Pow256(8) == 0x1_0000_0000_0000_0000
  {
    assert Pow256(4) == 0x1_0000_0000;
  }

  /** An int64_t in memory: eight bytes, the least significant first, worth the integer or,
      if it is negative, the integer and 2^64. */
  lemma Int64InMemory(v: int64)
    ensures var b := Int64Bytes(v);
            b[0] as int + 0x100 * b[1] as int + 0x1_0000 * b[2] as int + 0x100_0000 * b[3] as int
            + 0x1_0000_0000 * b[4] as int + 0x100_0000_0000 * b[5] as int + 0x1_0000_0000_0000 * b[6] as int
            + 0x100_0000_0000_0000 * b[7] as int == if v < 0 then v + 0x1_0000_0000_0000_0000 else v
  {
    EightBytes();
    var u := v % 0x1_0000_0000_0000_0000;
    assert u == if v < 0 then v + 0x1_0000_0000_0000_0000 else v;
    hide Pow256;
    FromLowBytes(u, 8);
    var b := Int64Bytes(v);
    hide LowBytes;
    FromEight(b);
  }

  lemma FromFour(b: seq<byte>)
    requires |b| == 4
    ensures FromBytes(b) == b[0] as int + 0x100 * b[1] as int + 0x1_0000 * b[2] as int + 0x100_0000 * b[3] as int
  {
    assert b[1..][1..] == b[2..] && b[2..][1..] == b[3..] && b[3..][1..] == [];
    assert FromBytes(b[3..]) == b[3] as int;
    assert FromBytes(b[2..]) == b[2] as int + 256 * FromBytes(b[3..]);
    assert FromBytes(b[1..]) == b[1] as int + 256 * FromBytes(b[2..]);
  }

  lemma FromEight(b: seq<byte>)
    requires |b| == 8
    ensures FromBytes(b) == b[0] as int + 0x100 * b[1] as int + 0x1_0000 * b[2] as int + 0x100_0000 * b[3] as int
                            + 0x1_0000_0000 * b[4] as int + 0x100_0000_0000 * b[5] as int
                            + 0x1_0000_0000_0000 * b[6] as int + 0x100_0000_0000_0000 * b[7] as int
  {
    assert b[1..][1..] == b[2..] && b[2..][1..] == b[3..] && b[3..][1..] == b[4..];
    assert FromBytes(b[3..]) == b[3] as int + 256 * FromBytes(b[4..]);
    assert FromBytes(b[2..]) == b[2] as int + 256 * FromBytes(b[3..]);
    assert FromBytes(b[1..]) == b[1] as int + 256 * FromBytes(b[2..]);
    FromFour(b[4..]);
  }

  function Zeros(n: nat): (z: seq<byte>)
    ensures |z| == n && forall i :: 0 <= i < n ==> z[i] == 0
  {
    seq(n, i => 0)
  }

  /** What strlen and %s see of a char array: the bytes in front of the first NUL. */
  function CBytes(b: seq<byte>): (r: seq<byte>)
    ensures r <= b && forall i :: 0 <= i < |r| ==> r[i] != 0
    ensures |r| < |b| ==> b[|r|] == 0
  {
    if b == [] || b[0] == 0 then [] else [b[0]] + CBytes(b[1..])
  }
}
