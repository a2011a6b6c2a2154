/** Shared vocabulary of the codecs and the byte transforms: bytes, an
    optional result, C-locale whitespace and bitwise exclusive or. */
module Bytes {

  /** A `uint8_t`. */
  type byte = x: int | 0 <= x < 256

  /** Outcome of an operation whose only failure is the return code -1. */
  datatype Option<T> = None | Some(value: T)

  /** `isspace` in the C locale: space, `\t`, `\n`, `\v`, `\f` and `\r`. */
  predicate IsSpace(c: char) {
    c == ' ' || '\t' <= c <= '\r'
  }

  function Pow2(n: nat): (p: nat)
    ensures p >= 1
  {
    if n == 0 then 1 else 2 * Pow2(n - 1)
  }

  /** `x >> s` on an unsigned value: `s` halvings, rounding down. */
  function Shr(x: nat, s: nat): nat {
    if s == 0 then x else Shr(x, s - 1) / 2
  }

  /** Shifting by six more bits divides by 64. */
  lemma Shr6(x: nat, s: nat)
    ensures Shr(x, s + 6) == Shr(x, s) / 64
  {
    var y := Shr(x, s);
    assert Shr(x, s + 1) == y / 2;
    assert Shr(x, s + 2) == y / 2 / 2;
    assert Shr(x, s + 3) == y / 2 / 2 / 2;
    assert Shr(x, s + 4) == y / 2 / 2 / 2 / 2;
    assert Shr(x, s + 5) == y / 2 / 2 / 2 / 2 / 2;
    assert Shr(x, s + 6) == y / 2 / 2 / 2 / 2 / 2 / 2;
  }

  /** Exclusive or of the low `n` bits of `a` and `b`. */
  function XorBits(a: nat, b: nat, n: nat): (r: nat)
    ensures r < Pow2(n)
  {
    if n == 0 then 0
    else 2 * XorBits(a / 2, b / 2, n - 1) + (if a % 2 == b % 2 then 0 else 1)
  }

  /** The C operator `^` on two bytes. */
  function Xor(a: byte, b: byte): byte {
    assert Pow2(8) == 256;
    XorBits(a, b, 8)
  }

  // A few bytewise XORs, worked out bit by bit from the top.

  lemma Xor01With41()
    ensures Xor(0x01, 0x41) == 0x40
  {
    assert XorBits(0, 1, 2) == 1 && XorBits(0, 2, 3) == 2 && XorBits(0, 4, 4) == 4;
    assert XorBits(0, 8, 5) == 8 && XorBits(0, 16, 6) == 16 && XorBits(0, 32, 7) == 32;
  }

  lemma Xor02With42()
    ensures Xor(0x02, 0x42) == 0x40
  {
    assert XorBits(0, 1, 2) == 1 && XorBits(0, 2, 3) == 2 && XorBits(0, 4, 4) == 4;
    assert XorBits(0, 8, 5) == 8 && XorBits(0, 16, 6) == 16 && XorBits(1, 33, 7) == 32;
  }

  lemma Xor03With41()
    ensures Xor(0x03, 0x41) == 0x42
  {
    assert XorBits(0, 1, 2) == 1 && XorBits(0, 2, 3) == 2 && XorBits(0, 4, 4) == 4;
    assert XorBits(0, 8, 5) == 8 && XorBits(0, 16, 6) == 16 && XorBits(1, 32, 7) == 33;
  }

  lemma Xor04With42()
    ensures Xor(0x04, 0x42) == 0x46
  {
    assert XorBits(0, 1, 2) == 1 && XorBits(0, 2, 3) == 2 && XorBits(0, 4, 4) == 4;
    assert XorBits(0, 8, 5) == 8 && XorBits(1, 16, 6) == 17 && XorBits(2, 33, 7) == 35;
  }

  lemma {:induction false} XorBitsTwice(a: nat, k: nat, n: nat)
    requires a < Pow2(n)
    ensures XorBits(XorBits(a, k, n), k, n) == a
  {
    if n > 0 {
      var x := XorBits(a, k, n);
      var y := XorBits(a / 2, k / 2, n - 1);
      assert x / 2 == y && x % 2 == (if a % 2 == k % 2 then 0 else 1);
      XorBitsTwice(a / 2, k / 2, n - 1);
    }
  }

  /** XOR with the same byte twice is the identity. */
  lemma XorTwice(a: byte, k: byte)
    ensures Xor(Xor(a, k), k) == a
  {
    assert Pow2(8) == 256;
    XorBitsTwice(a, k, 8);
  }

  /** Element-wise XOR of two sequences of equal length. */
  function XorAll(a: seq<byte>, b: seq<byte>): (r: seq<byte>)
    requires |a| == |b|
    ensures |r| == |a|
  {
    seq(|a|, k requires 0 <= k < |a| => Xor(a[k], b[k]))
  }

  /** Masking twice with the same mask restores the data. */
  lemma XorAllTwice(a: seq<byte>, b: seq<byte>)
    requires |a| == |b|
    ensures XorAll(XorAll(a, b), b) == a
  {
    forall k | 0 <= k < |a|
      ensures XorAll(XorAll(a, b), b)[k] == a[k]
    {
      XorTwice(a[k], b[k]);
    }
  }

  /** How one pass of a decoding loop ends: on to the next character, done
      (`break`, or the return that ends the text), or `return -1`. */
  datatype Step = Read | Stop | Fail

  /** `output[idx] = v` in a loop that fills `output` from the front:
      `output` holds what has been written, then what it held at the start
      (`init`); the written part grows by `v`. */
  method Put<T>(output: array<T>, idx: nat, v: T, ghost written: seq<T>, ghost init: seq<T>)
    requires idx == |written| < output.Length == |init|
    requires output[..] == written + init[idx..]
    modifies output
    ensures output[..] == (written + [v]) + init[idx + 1..]
  {
    output[idx] := v;
    assert output[..] == (written + [v]) + init[idx + 1..];
  }

  lemma AppendAssoc<T>(a: seq<T>, b: seq<T>, c: seq<T>)
    ensures (a + b) + c == a + (b + c)
  {
  }
}
