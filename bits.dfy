/** Bit strings (most significant bit first): the reference view in which
    base64 is a regrouping of 8-bit bytes into 6-bit characters. */
module Bits {
  import opened Bytes

  type sextet = x: int | 0 <= x < 64

  /** The low `n` bits of `x`, most significant first. */
  function NatBits(x: nat, n: nat): (bs: seq<bool>)
    ensures |bs| == n
  {
    if n == 0 then [] else NatBits(x / 2, n - 1) + [x % 2 == 1]
  }

  /** The number a bit string denotes, most significant bit first. */
  function BitsValue(bs: seq<bool>): (v: nat)
    ensures v < Pow2(|bs|)
  {
    if bs == [] then 0
    else 2 * BitsValue(bs[..|bs| - 1]) + (if bs[|bs| - 1] then 1 else 0)
  }

  /** `n` zero bits. */
  function Zeros(n: nat): (bs: seq<bool>)
    ensures |bs| == n
  {
    if n == 0 then [] else Zeros(n - 1) + [false]
  }

  lemma Pow2Values()
    ensures Pow2(0) == 1 && Pow2(2) == 4 && Pow2(4) == 16
    ensures Pow2(6) == 64 && Pow2(8) == 256 && Pow2(12) == 4096
    ensures Pow2(16) == 65536 && Pow2(18) == 262144 && Pow2(24) == 16777216
  {
    assert Pow2(4) == 16;
    assert Pow2(6) == 64;
    assert Pow2(8) == 256;
    assert Pow2(12) == 4096;
    assert Pow2(16) == 65536;
    assert Pow2(18) == 262144;
  }

  lemma {:induction false} Pow2Add(a: nat, b: nat)
    ensures Pow2(a + b) == Pow2(a) * Pow2(b)
  {
    if b > 0 {
      Pow2Add(a, b - 1);
      assert Pow2(a + b) == 2 * (Pow2(a) * Pow2(b - 1));
    }
  }

  /** Writing `a` above an `n`-bit `b` concatenates their bit strings. */
  lemma {:induction false} NatBitsConcat(a: nat, b: nat, m: nat, n: nat)
    requires b < Pow2(n)
    ensures NatBits(a * Pow2(n) + b, m + n) == NatBits(a, m) + NatBits(b, n)
  {
    if n > 0 {
      var c := a * Pow2(n - 1);
      assert a * Pow2(n) == 2 * c;
      var x := a * Pow2(n) + b;
      assert x / 2 == c + b / 2 && x % 2 == b % 2;
      NatBitsConcat(a, b / 2, m, n - 1);
      assert NatBits(x, m + n) == NatBits(x / 2, m + n - 1) + [x % 2 == 1];
    }
  }

  /** The low six bits of a number come last in its bit string. */
  lemma NatBitsSplit6(x: nat, k: nat)
    ensures NatBits(x, k + 6) == NatBits(x / 64, k) + NatBits(x % 64, 6)
  {
    assert Pow2(6) == 64;
    assert (x / 64) * Pow2(6) == (x / 64) * 64;
    NatBitsConcat(x / 64, x % 64, k, 6);
  }

  /** The low eight bits of a number come last in its bit string. */
  lemma NatBitsSplit8(x: nat, k: nat)
    ensures NatBits(x, k + 8) == NatBits(x / 256, k) + NatBits(x % 256, 8)
  {
    assert Pow2(8) == 256;
    assert (x / 256) * Pow2(8) == (x / 256) * 256;
    NatBitsConcat(x / 256, x % 256, k, 8);
  }

  lemma {:induction false} BitsValueOfNatBits(x: nat, n: nat)
    requires x < Pow2(n)
    ensures BitsValue(NatBits(x, n)) == x
  {
    if n > 0 {
      var bs := NatBits(x, n);
      assert bs[..n - 1] == NatBits(x / 2, n - 1);
      BitsValueOfNatBits(x / 2, n - 1);
    }
  }

  lemma {:induction false} ZerosAreNatBitsOfZero(n: nat)
    ensures NatBits(0, n) == Zeros(n)
  {
    if n > 0 {
      ZerosAreNatBitsOfZero(n - 1);
    }
  }

  /** The bit string of a byte sequence, eight bits per byte. */
  function ByteBits(bs: seq<byte>): (r: seq<bool>)
    ensures |r| == 8 * |bs|
  {
    if bs == [] then [] else NatBits(bs[0], 8) + ByteBits(bs[1..])
  }

  /** The bit string of a sequence of 6-bit values. */
  function SextetBits(vs: seq<sextet>): (r: seq<bool>)
    ensures |r| == 6 * |vs|
  {
    if vs == [] then [] else SextetBits(vs[..|vs| - 1]) + NatBits(vs[|vs| - 1], 6)
  }

  /** Cuts a bit string into whole bytes, dropping fewer than eight trailing bits. */
  function BitsToBytes(bits: seq<bool>): (r: seq<byte>)
    ensures |r| == |bits| / 8
  {
    if |bits| < 8 then []
    else
      assert Pow2(8) == 256 by { Pow2Values(); }
      [BitsValue(bits[..8])] + BitsToBytes(bits[8..])
  }

  lemma {:induction false} ByteBitsAppend(a: seq<byte>, b: seq<byte>)
    ensures ByteBits(a + b) == ByteBits(a) + ByteBits(b)
  {
    if a != [] {
      assert (a + b)[1..] == a[1..] + b;
      ByteBitsAppend(a[1..], b);
    } else {
      assert a + b == b;
    }
  }

  lemma {:induction false} SextetBitsAppend(a: seq<sextet>, b: seq<sextet>)
    ensures SextetBits(a + b) == SextetBits(a) + SextetBits(b)
  {
    if b == [] {
      assert a + b == a;
    } else {
      var c := b[..|b| - 1];
      assert (a + b)[..|a + b| - 1] == a + c;
      SextetBitsAppend(a, c);
    }
  }

  /** Regrouping the bits of whole bytes gives the bytes back, whatever
      fewer than eight bits follow them. */
  lemma {:induction false} BitsToBytesOfByteBits(bs: seq<byte>, tail: seq<bool>)
    requires |tail| < 8
    ensures BitsToBytes(ByteBits(bs) + tail) == bs
  {
    if bs != [] {
      var all := ByteBits(bs) + tail;
      assert all == NatBits(bs[0], 8) + (ByteBits(bs[1..]) + tail);
      assert all[..8] == NatBits(bs[0], 8);
      assert all[8..] == ByteBits(bs[1..]) + tail;
      Pow2Values();
      BitsValueOfNatBits(bs[0], 8);
      BitsToBytesOfByteBits(bs[1..], tail);
    }
  }
}
