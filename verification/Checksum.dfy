/** The payload checksum: the sum of the bytes, kept in a 32-bit int. */
module Checksum {
  import opened Bytes

  function Sum(b: seq<byte>): nat {
    if b == [] then 0 else b[0] as int + Sum(b[1..])
  }

  lemma {:induction false} SumConcat(a: seq<byte>, b: seq<byte>)
    ensures Sum(a + b) == Sum(a) + Sum(b)
  {
    if a == [] {
      assert a + b == b;
    } else {
      SumConcat(a[1..], b);
      assert (a + b)[1..] == a[1..] + b;
    }
  }

  lemma SumOfByte(x: byte)
    ensures Sum([]) == 0 && Sum([x]) == x as int
  {
    assert [x][1..] == [];
  }

  lemma {:induction false} SumBounds(b: seq<byte>)
    ensures 0 <= Sum(b) <= 255 * |b|
  {
    if b != [] {
      SumBounds(b[1..]);
    }
  }

  lemma {:induction false} SumOfOnes(b: seq<byte>)
    requires forall i :: 0 <= i < |b| ==> b[i] == 255
    ensures Sum(b) == 255 * |b|
  {
    if b != [] {
      SumOfOnes(b[1..]);
    }
  }

  /** The value the accumulation leaves in the int. */
  function PayloadChecksum(b: seq<byte>): int32 {
    Wrap32(Sum(b))
  }

  lemma WrapCongruent(v: int)
    ensures (v - Wrap32(v)) % 0x1_0000_0000 == 0
  {
  }

  lemma WrapAdd(a: int, b: int)
    ensures Wrap32(Wrap32(a) + b) == Wrap32(a + b)
  {
  }

  method MessageChecksum(inp: seq<byte>) returns (r: int64)
    ensures r == PayloadChecksum(inp)
    ensures -0x8000_0000 <= r < 0x8000_0000 && (Sum(inp) - r) % 0x1_0000_0000 == 0
  {
    var i: int32, j, len := 0, 0, |inp|;
    while len > 0
      invariant 0 <= j <= |inp| && len == |inp| - j
      invariant i == Wrap32(Sum(inp[..j]))
    {
      SumConcat(inp[..j], [inp[j]]);
      assert inp[..j + 1] == inp[..j] + [inp[j]];
      SumOfByte(inp[j]);
      WrapAdd(Sum(inp[..j]), inp[j] as int);
      i := Wrap32(i + inp[j] as int);
      j := j + 1;
      len := len - 1;
    }
    assert inp[..j] == inp;
    WrapCongruent(Sum(inp));
    return i;
  }

  /** The checksum is the exact byte sum exactly when that sum fits a signed 32-bit int. */
  lemma ExactIff(b: seq<byte>)
    ensures PayloadChecksum(b) == Sum(b) <==> Sum(b) <= INT32_MAX
  {
  }

  /** No payload of up to 8421504 bytes overflows the accumulator, at any step, and the
      bound is tight: one more byte and the all-255 payload does. */
  lemma NeverOverflowsUpTo(b: seq<byte>, j: nat)
    requires |b| <= 8421504 && j <= |b|
    ensures Sum(b[..j]) <= INT32_MAX
    ensures PayloadChecksum(b) == Sum(b)
  {
    SumBounds(b[..j]);
    SumBounds(b);
  }

  lemma OverflowsBeyond(n: nat)
    requires n > 8421504
    ensures exists b: seq<byte> :: |b| == n && PayloadChecksum(b) != Sum(b)
  {
    var b: seq<byte> := seq(n, i => 255);
    SumOfOnes(b);
    ExactIff(b);
  }
}
