/** What the base64 encoder's output means: the text of section 4 of
    RFC 4648 decodes back to the bytes, and the text `encode_base64`
    writes agrees with it exactly when every group is full. */
module Base64Laws {
  import opened Bytes
  import opened Bits
  import opened Base64

  /** The alphabet characters of a sequence of values. */
  function Chars(vs: seq<sextet>): (cs: seq<char>)
    ensures |cs| == |vs|
  {
    if vs == [] then [] else Chars(vs[..|vs| - 1]) + [TableChar(vs[|vs| - 1])]
  }

  lemma {:induction false} CharsAt(vs: seq<sextet>, k: nat)
    requires k < |vs|
    ensures Chars(vs)[k] == TableChar(vs[k])
  {
    if k < |vs| - 1 {
      CharsAt(vs[..|vs| - 1], k);
    }
  }

  lemma {:induction false} CharsAppend(a: seq<sextet>, b: seq<sextet>)
    ensures Chars(a + b) == Chars(a) + Chars(b)
  {
    if b == [] {
      assert a + b == a;
    } else {
      var init, last := b[..|b| - 1], b[|b| - 1];
      assert (a + b)[..|a + b| - 1] == a + init;
      CharsAppend(a, init);
      assert Chars(a + b) == (Chars(a) + Chars(init)) + [TableChar(last)];
      AppendAssoc(Chars(a), Chars(init), [TableChar(last)]);
    }
  }

  /** The values `(buffer >> (3 - j) * 6) & 0x3F` of the first `n`
      characters of a group. */
  function GroupSextets(buffer: nat, n: nat): (vs: seq<sextet>)
    requires n <= 4
    ensures |vs| == n
  {
    if n == 0 then [] else GroupSextets(buffer, n - 1) + [Shr(buffer, (4 - n) * 6) % 64]
  }

  lemma {:induction false} GroupCharsAreSextets(buffer: nat, n: nat)
    requires n <= 4
    ensures GroupChars(buffer, n) == Chars(GroupSextets(buffer, n))
  {
    if n > 0 {
      var m := n - 1;
      GroupCharsAreSextets(buffer, m);
      var vs := GroupSextets(buffer, m + 1);
      assert vs[..m] == GroupSextets(buffer, m);
      assert (3 - m) * 6 == (4 - (m + 1)) * 6;
    }
  }

  /** The values of the first `n` characters of a group hold the top `6n`
      of its 24 bits. */
  lemma {:induction false} GroupSextetsBits(v: nat, n: nat)
    requires n <= 4
    ensures SextetBits(GroupSextets(v, n)) == NatBits(Shr(v, (4 - n) * 6), 6 * n)
  {
    if n > 0 {
      var m := n - 1;
      var y := Shr(v, (3 - m) * 6);
      GroupSextetsBits(v, m);
      Shr6(v, (3 - m) * 6);
      assert (3 - m) * 6 + 6 == (4 - m) * 6;
      NatBitsSplit6(y, 6 * m);
      var vs := GroupSextets(v, m + 1);
      assert vs == GroupSextets(v, m) + [y % 64];
      assert vs[..m] == GroupSextets(v, m);
      assert SextetBits(vs) == SextetBits(GroupSextets(v, m)) + NatBits(y % 64, 6);
    }
  }

  lemma Pow2Byte(n: nat)
    ensures Pow2(n + 8) == 256 * Pow2(n)
  {
    Pow2Add(n, 8);
    Pow2Values();
  }

  lemma {:induction false} GroupValueBound(chunk: seq<byte>)
    ensures GroupValue(chunk) < Pow2(8 * |chunk|)
  {
    if chunk != [] {
      GroupValueBound(chunk[..|chunk| - 1]);
      Pow2Byte(8 * (|chunk| - 1));
    }
  }

  /** The number a group's bytes make is their bit string read as binary. */
  lemma {:induction false} GroupValueBits(chunk: seq<byte>)
    ensures NatBits(GroupValue(chunk), 8 * |chunk|) == ByteBits(chunk)
  {
    if chunk != [] {
      var init, last := chunk[..|chunk| - 1], chunk[|chunk| - 1];
      var g, k := GroupValue(init), 8 * |init|;
      var x := g * 256 + last;
      assert chunk == init + [last];
      ByteBitsAppend(init, [last]);
      assert ByteBits([last]) == NatBits(last, 8) + ByteBits([]);
      GroupValueBits(init);
      assert ByteBits(chunk) == NatBits(g, k) + NatBits(last, 8);
      NatBitsSplit8(x, k);
      assert x / 256 == g && x % 256 == last;
      assert GroupValue(chunk) == x && 8 * |chunk| == k + 8;
    }
  }

  /** The values written for a group moved to the top of its 24 bits are
      the group's bits followed by zero bits up to a multiple of six. */
  lemma AlignedGroupBits(chunk: seq<byte>, c: nat)
    requires 1 <= |chunk| <= 3 && c == CharsToWrite(|chunk|)
    ensures 6 * c >= 8 * |chunk|
    ensures SextetBits(GroupSextets(AlignedValue(chunk), c)) == ByteBits(chunk) + Zeros(6 * c - 8 * |chunk|)
  {
    if |chunk| == 1 {
      AlignedOne(chunk);
    } else if |chunk| == 2 {
      AlignedTwo(chunk);
    } else {
      AlignedThree(chunk);
    }
  }

  lemma AlignedOne(chunk: seq<byte>)
    requires |chunk| == 1
    ensures SextetBits(GroupSextets(AlignedValue(chunk), CharsToWrite(|chunk|))) ==
      ByteBits(chunk) + Zeros(6 * CharsToWrite(|chunk|) - 8 * |chunk|)
  {
    var g, v := GroupValue(chunk), AlignedValue(chunk);
    assert CharsToWrite(|chunk|) == 2 && v == g * 65536;
    GroupSextetsBits(v, 2);
    AlignedBits(v, g, 8, 65536, 16, 4, 2);
    GroupValueBits(chunk);
    AlignedJoin(chunk, v, g, 2, 8, 4, 16);
  }

  lemma AlignedTwo(chunk: seq<byte>)
    requires |chunk| == 2
    ensures SextetBits(GroupSextets(AlignedValue(chunk), CharsToWrite(|chunk|))) ==
      ByteBits(chunk) + Zeros(6 * CharsToWrite(|chunk|) - 8 * |chunk|)
  {
    var g, v := GroupValue(chunk), AlignedValue(chunk);
    assert CharsToWrite(|chunk|) == 3 && v == g * 256;
    GroupSextetsBits(v, 3);
    AlignedBits(v, g, 16, 256, 4, 2, 1);
    GroupValueBits(chunk);
    AlignedJoin(chunk, v, g, 3, 16, 2, 4);
  }

  lemma AlignedThree(chunk: seq<byte>)
    requires |chunk| == 3
    ensures SextetBits(GroupSextets(AlignedValue(chunk), CharsToWrite(|chunk|))) ==
      ByteBits(chunk) + Zeros(6 * CharsToWrite(|chunk|) - 8 * |chunk|)
  {
    var g, v := GroupValue(chunk), AlignedValue(chunk);
    assert CharsToWrite(|chunk|) == 4 && v == g * 1;
    GroupSextetsBits(v, 4);
    AlignedBits(v, g, 24, 1, 1, 0, 0);
    GroupValueBits(chunk);
    AlignedJoin(chunk, v, g, 4, 24, 0, 1);
  }

  /** An `n`-bit value `g` shifted up by `24 - n` bits and then down by
      `6k` bits: its bits followed by `z` zero bits. */
  lemma AlignedBits(v: nat, g: nat, n: nat, up: nat, scale: nat, z: nat, k: nat)
    requires || (n == 8 && up == 65536 && scale == 16 && z == 4 && k == 2)
             || (n == 16 && up == 256 && scale == 4 && z == 2 && k == 1)
             || (n == 24 && up == 1 && scale == 1 && z == 0 && k == 0)
    requires v == g * up
    ensures Shr(v, k * 6) == g * scale
    ensures NatBits(g * scale, n + z) == NatBits(g, n) + Zeros(z)
  {
    Pow2Values();
    assert Pow2(z) == scale;
    NatBitsConcat(g, 0, n, z);
    ZerosAreNatBitsOfZero(z);
    Shr6(v, 0);
    Shr6(v, 6);
  }

  /** Chains the bit-string facts of one group together. */
  lemma AlignedJoin(chunk: seq<byte>, v: nat, g: nat, c: nat, n: nat, z: nat, scale: nat)
    requires c <= 4 && 6 * c == n + z
    requires SextetBits(GroupSextets(v, c)) == NatBits(Shr(v, (4 - c) * 6), 6 * c)
    requires Shr(v, (4 - c) * 6) == g * scale
    requires NatBits(g * scale, n + z) == NatBits(g, n) + Zeros(z)
    requires NatBits(g, n) == ByteBits(chunk)
    ensures SextetBits(GroupSextets(v, c)) == ByteBits(chunk) + Zeros(z)
  {
  }

  /** A group's text is the characters of its values, then padding. */
  lemma GroupTextIsSextets(buffer: nat, m: nat)
    requires 1 <= m <= 3
    ensures GroupText(buffer, m) ==
      Chars(GroupSextets(buffer, CharsToWrite(m))) + Padding(4 - CharsToWrite(m))
  {
    var c := CharsToWrite(m);
    assert GroupText(buffer, m) == GroupChars(buffer, c) + Padding(4 - c);
    GroupCharsAreSextets(buffer, c);
  }

  /** Appending a group to text made of characters of values `prev`. */
  lemma TextStep(prev: seq<sextet>, chunk: seq<byte>, c: nat)
    requires 1 <= |chunk| <= 3 && c == CharsToWrite(|chunk|)
    ensures Chars(prev) + GroupText(AlignedValue(chunk), |chunk|) ==
      Chars(prev + GroupSextets(AlignedValue(chunk), c)) + Padding(4 - c)
  {
    var d := GroupSextets(AlignedValue(chunk), c);
    GroupTextIsSextets(AlignedValue(chunk), |chunk|);
    AppendAssoc(Chars(prev), Chars(d), Padding(4 - c));
    CharsAppend(prev, d);
  }

  /** Appending a group's values to values that hold the bits of `bytes`. */
  lemma BitsStep(prev: seq<sextet>, bytes: seq<byte>, chunk: seq<byte>, c: nat)
    requires 1 <= |chunk| <= 3 && c == CharsToWrite(|chunk|)
    requires SextetBits(prev) == ByteBits(bytes)
    ensures SextetBits(prev + GroupSextets(AlignedValue(chunk), c)) ==
      ByteBits(bytes + chunk) + Zeros(6 * c - 8 * |chunk|)
  {
    AlignedGroupBits(chunk, c);
    BitsJoin(prev, bytes, GroupSextets(AlignedValue(chunk), c), chunk, Zeros(6 * c - 8 * |chunk|));
  }

  lemma BitsJoin(prev: seq<sextet>, bytes: seq<byte>, d: seq<sextet>, chunk: seq<byte>, z: seq<bool>)
    requires SextetBits(prev) == ByteBits(bytes)
    requires SextetBits(d) == ByteBits(chunk) + z
    ensures SextetBits(prev + d) == ByteBits(bytes + chunk) + z
  {
    SextetBitsAppend(prev, d);
    AppendAssoc(ByteBits(bytes), ByteBits(chunk), z);
    ByteBitsAppend(bytes, chunk);
  }

  /** The values behind the first `g` groups, all of them full. */
  function FullSextets(b: seq<byte>, g: nat): (vs: seq<sextet>)
    requires 3 * g <= |b|
    ensures |vs| == 4 * g
  {
    if g == 0 then [] else FullSextets(b, g - 1) + GroupSextets(AlignedValue(Group(b, g - 1)), 4)
  }

  /** The first `g` groups, when they are full, are the characters of
      their values. */
  lemma {:induction false} FullGroupsText(b: seq<byte>, g: nat)
    requires 3 * g <= |b|
    ensures EncodeGroups(b, g, true) == Chars(FullSextets(b, g))
  {
    if g > 0 {
      var h := g - 1;
      FullGroupsText(b, h);
      FullTextStep(b, h);
    }
  }

  /** One more full group extends the text by the characters of its values. */
  lemma FullTextStep(b: seq<byte>, h: nat)
    requires 3 * h + 3 <= |b|
    requires EncodeGroups(b, h, true) == Chars(FullSextets(b, h))
    ensures EncodeGroups(b, h + 1, true) == Chars(FullSextets(b, h + 1))
  {
    var chunk, prev := Group(b, h), FullSextets(b, h);
    var d := GroupSextets(AlignedValue(chunk), 4);
    FullGroup(b, h);
    TextStep(prev, chunk, 4);
    assert EncodeGroups(b, h + 1, true) == Chars(prev) + GroupText(AlignedValue(chunk), 3);
    assert Chars(prev + d) + Padding(0) == Chars(prev + d);
  }

  /** The values of the first `g` groups, when they are full, hold the bits
      of the first `3g` bytes. */
  lemma {:induction false} FullGroupsBits(b: seq<byte>, g: nat)
    requires 3 * g <= |b|
    ensures SextetBits(FullSextets(b, g)) == ByteBits(b[..3 * g])
  {
    if g > 0 {
      var h := g - 1;
      FullGroupsBits(b, h);
      FullBitsStep(b, h);
    }
  }

  /** One more full group extends the values by the bits of its bytes. */
  lemma FullBitsStep(b: seq<byte>, h: nat)
    requires 3 * h + 3 <= |b|
    requires SextetBits(FullSextets(b, h)) == ByteBits(b[..3 * h])
    ensures SextetBits(FullSextets(b, h + 1)) == ByteBits(b[..3 * h + 3])
  {
    var chunk, prev := Group(b, h), FullSextets(b, h);
    var bytes := b[..3 * h];
    FullGroup(b, h);
    BitsStep(prev, bytes, chunk, 4);
    assert FullSextets(b, h + 1) == prev + GroupSextets(AlignedValue(chunk), 4);
    assert ByteBits(bytes + chunk) + Zeros(0) == ByteBits(bytes + chunk);
  }

  /** A group that is not the last short one holds three bytes. */
  lemma FullGroup(b: seq<byte>, g: nat)
    requires 3 * g + 3 <= |b|
    ensures |Group(b, g)| == 3 && CharsToWrite(3) == 4
    ensures b[..3 * g + 3] == b[..3 * g] + Group(b, g)
  {
  }

  /** The encoding is the characters of some values followed by padding,
      and the bits of the values are the bits of the bytes followed by zero
      bits: none and no `=` for whole groups, four bits and `==` after one
      spare byte, two bits and `=` after two (section 4 of RFC 4648). */
  lemma EncodeShape(b: seq<byte>) returns (vs: seq<sextet>, q: nat, z: nat)
    ensures Base64Encode(b) == Chars(vs) + Padding(q)
    ensures SextetBits(vs) == ByteBits(b) + Zeros(z) && z < 6
    ensures |b| % 3 == 0 ==> q == 0 && z == 0
    ensures |b| % 3 == 1 ==> q == 2 && z == 4
    ensures |b| % 3 == 2 ==> q == 1 && z == 2
  {
    var n := Groups(|b|);
    if 3 * n == |b| {
      vs, q, z := FullSextets(b, n), 0, 0;
      FullShape(b, n);
      WholeGroups(|b|, n);
    } else {
      var h := n - 1;
      var chunk := Group(b, h);
      var c := CharsToWrite(|chunk|);
      vs, q, z := FullSextets(b, h) + GroupSextets(AlignedValue(chunk), c), 4 - c, 6 * c - 8 * |chunk|;
      LastGroup(b, h);
      PartialText(b, h, chunk, c);
      PartialBits(b, h, chunk, c);
      PaddingCounts(|b|, h, |chunk|);
    }
  }

  /** A last group of `m` bytes takes `4 - CharsToWrite(m)` padding
      characters and `6 * CharsToWrite(m) - 8 * m` zero bits. */
  lemma PaddingCounts(len: nat, h: nat, m: nat)
    requires m == len - 3 * h && 1 <= m <= 2
    ensures len % 3 == m
    ensures m == 1 ==> 4 - CharsToWrite(m) == 2 && 6 * CharsToWrite(m) - 8 * m == 4
    ensures m == 2 ==> 4 - CharsToWrite(m) == 1 && 6 * CharsToWrite(m) - 8 * m == 2
  {
  }

  /** A length of `n` full groups leaves no remainder. */
  lemma WholeGroups(len: nat, n: nat)
    requires len == 3 * n
    ensures len % 3 == 0
  {
  }

  /** An input made of full groups only: no padding and no spare bits. */
  lemma FullShape(b: seq<byte>, n: nat)
    requires n == Groups(|b|) && 3 * n == |b|
    ensures Base64Encode(b) == Chars(FullSextets(b, n)) + Padding(0)
    ensures SextetBits(FullSextets(b, n)) == ByteBits(b) + Zeros(0)
  {
    FullGroupsText(b, n);
    FullGroupsBits(b, n);
    assert b[..3 * n] == b;
    assert Padding(0) == [] && Zeros(0) == [];
  }

  /** The last group `h` of an input whose length is not a multiple of three. */
  lemma LastGroup(b: seq<byte>, h: nat)
    requires 3 * h < |b| < 3 * h + 3
    ensures Groups(|b|) == h + 1
    ensures 1 <= |Group(b, h)| <= 2 && b == b[..3 * h] + Group(b, h)
  {
  }

  /** The text of an input whose last group `h` is short. */
  lemma PartialText(b: seq<byte>, h: nat, chunk: seq<byte>, c: nat)
    requires 3 * h < |b| < 3 * h + 3
    requires chunk == Group(b, h) && c == CharsToWrite(|chunk|)
    ensures Base64Encode(b) == Chars(FullSextets(b, h) + GroupSextets(AlignedValue(chunk), c)) + Padding(4 - c)
  {
    var prev := FullSextets(b, h);
    LastGroup(b, h);
    FullGroupsText(b, h);
    TextStep(prev, chunk, c);
    assert Base64Encode(b) == EncodeGroups(b, h + 1, true);
    assert EncodeGroups(b, h + 1, true) == Chars(prev) + GroupText(AlignedValue(chunk), |chunk|);
  }

  /** The bits of an input whose last group `h` is short. */
  lemma PartialBits(b: seq<byte>, h: nat, chunk: seq<byte>, c: nat)
    requires 3 * h < |b| < 3 * h + 3
    requires chunk == Group(b, h) && c == CharsToWrite(|chunk|)
    ensures SextetBits(FullSextets(b, h) + GroupSextets(AlignedValue(chunk), c)) ==
      ByteBits(b) + Zeros(6 * c - 8 * |chunk|)
  {
    var bytes := b[..3 * h];
    LastGroup(b, h);
    FullGroupsBits(b, h);
    BitsStep(FullSextets(b, h), bytes, chunk, c);
    assert bytes + chunk == b;
  }

  /** A table character is not whitespace and converts back to its value. */
  lemma TableCharValue(v: sextet)
    ensures IsBase64Char(TableChar(v)) && !IsSpace(TableChar(v))
    ensures Base64CharToValue(TableChar(v)) == v
  {
    TableCharIsTable(v);
    TableInverse(v);
  }

  /** Decoding stops where the characters of `vs` end. */
  lemma {:induction false} PaddedEnd(vs: seq<sextet>, q: nat, from: nat)
    requires from <= |vs|
    ensures Base64End(Chars(vs) + Padding(q), from) == |vs|
    decreases |vs| - from
  {
    var t := Chars(vs) + Padding(q);
    if from < |vs| {
      TableCharValue(vs[from]);
      CharsAt(vs, from);
      PaddedEnd(vs, q, from + 1);
    } else if q > 0 {
      PaddingAt(q, 0);
      assert t[from] == '=';
    }
  }

  /** The values read from the characters of `vs` are `vs`. */
  lemma {:induction false} PaddedSextets(vs: seq<sextet>, q: nat, n: nat)
    requires n <= |vs|
    ensures Sextets(Chars(vs) + Padding(q), n) == vs[..n]
  {
    if n > 0 {
      var t := Chars(vs) + Padding(q);
      PaddedSextets(vs, q, n - 1);
      TableCharValue(vs[n - 1]);
      CharsAt(vs, n - 1);
      assert vs[..n] == vs[..n - 1] + [vs[n - 1]];
    }
  }

  /** Decoding values followed by padding regroups the values' bits. */
  lemma DecodePadded(vs: seq<sextet>, q: nat, cap: nat)
    ensures var bytes := BitsToBytes(SextetBits(vs));
      Base64Decoded(Chars(vs) + Padding(q), cap) == if |bytes| <= cap then Some(bytes) else None
  {
    var t := Chars(vs) + Padding(q);
    PaddedEnd(vs, q, 0);
    PaddedSextets(vs, q, |vs|);
    assert vs[..|vs|] == vs;
    if |vs| < |t| {
      PaddingAt(q, 0);
      assert t[|vs|] == '=';
    }
  }

  /** Round trip: decoding the RFC 4648 text of `b` into a buffer of `cap`
      bytes gives `b` back, and fails exactly when `b` does not fit. */
  lemma Base64RoundTrip(b: seq<byte>, cap: nat)
    ensures Base64Decoded(Base64Encode(b), cap) == if |b| <= cap then Some(b) else None
  {
    var vs, q, z := EncodeShape(b);
    DecodePadded(vs, q, cap);
    BitsToBytesOfByteBits(b, Zeros(z));
  }

  // ---------------------------------------------------------------------
  // The text `encode_base64` writes, against RFC 4648

  /** Full groups are laid out the same way by both encoders. */
  lemma {:induction false} FullGroupsAgree(b: seq<byte>, g: nat)
    requires 3 * g <= |b|
    ensures EncodeGroups(b, g, false) == EncodeGroups(b, g, true)
  {
    if g > 0 {
      var h := g - 1;
      FullGroupsAgree(b, h);
      FullGroup(b, h);
      assert EncodeGroups(b, h + 1, false) == EncodeGroups(b, h + 1, true);
    }
  }

  /** When the input length is a multiple of three, `encode_base64` writes
      the RFC 4648 text, so its output decodes back to the input. */
  lemma AsWrittenWhenFull(b: seq<byte>, cap: nat)
    requires |b| % 3 == 0
    ensures EncodeAsWritten(b) == Base64Encode(b)
    ensures Base64Decoded(EncodeAsWritten(b), cap) == if |b| <= cap then Some(b) else None
  {
    FullGroupsAgree(b, Groups(|b|));
    Base64RoundTrip(b, cap);
  }

  /** The bits above a byte's lowest eight are zero. */
  lemma ShrByte(x: byte)
    ensures Shr(x, 12) == 0 && Shr(x, 18) == 0
  {
    Shr6(x, 0);
    Shr6(x, 6);
    Shr6(x, 12);
  }

  /** `Man` is `TWFu`, both in the RFC 4648 layout and as `encode_base64`
      writes it: a full group needs no shifting into place. */
  lemma EncodeThreeExample()
    ensures Base64Encode([0x4D, 0x61, 0x6E]) == "TWFu"
    ensures EncodeAsWritten([0x4D, 0x61, 0x6E]) == "TWFu"
  {
    var b: seq<byte> := [0x4D, 0x61, 0x6E];
    assert Groups(3) == 1 && Group(b, 0) == b;
    ManValue();
    ManText();
    assert AlignedValue(b) == 0x4D616E;
    assert Base64Encode(b) == EncodeGroups(b, 0, true) + GroupText(0x4D616E, 3);
    AsWrittenWhenFull(b, 3);
  }

  /** The bytes of `Man` as one number. */
  lemma ManValue()
    ensures GroupValue([0x4D, 0x61, 0x6E]) == 0x4D616E
  {
    var b: seq<byte> := [0x4D, 0x61, 0x6E];
    assert b[..1] == [0x4D] && b[..1][..0] == [] && b[..2] == [0x4D, 0x61] && b[..2][..1] == [0x4D];
    assert GroupValue(b[..1]) == 0x4D;
    assert GroupValue(b[..2]) == 0x4D61;
  }

  /** The four values of `Man`, from bit 18 down. */
  lemma ManShifts()
    ensures Shr(0x4D616E, 6) == 0x13585 && Shr(0x4D616E, 12) == 0x4D6 && Shr(0x4D616E, 18) == 19
  {
    var v := 0x4D616E;
    Shr6(v, 0);
    Shr6(v, 6);
    Shr6(v, 12);
  }

  /** The text of the group `Man`. */
  lemma ManText()
    ensures GroupText(0x4D616E, 3) == "TWFu"
  {
    var v := 0x4D616E;
    ManChars();
    assert CharsToWrite(3) == 4;
    assert GroupChars(v, 4) == [GroupChar(v, 0), GroupChar(v, 1), GroupChar(v, 2), GroupChar(v, 3)];
    assert Padding(0) == [];
  }

  /** The four characters of the group `Man`. */
  lemma ManChars()
    ensures GroupChar(0x4D616E, 0) == 'T' && GroupChar(0x4D616E, 1) == 'W'
    ensures GroupChar(0x4D616E, 2) == 'F' && GroupChar(0x4D616E, 3) == 'u'
  {
    ManShifts();
  }

  /** A one-byte group as `encode_base64` builds it: nothing is shifted
      into place, so its text is `AA==` whatever the byte is. */
  lemma OneByteText(x: byte)
    ensures GroupText(GroupValue([x]), 1) == "AA=="
  {
    var b := [x];
    assert GroupValue(b) == x by {
      assert b[..0] == [];
    }
    ShrByte(x);
    assert CharsToWrite(1) == 2;
    assert GroupChars(x, 2) == [GroupChar(x, 0), GroupChar(x, 1)];
    assert Padding(2) == ['=', '='];
  }

  /** Every input one byte longer than a multiple of three: `encode_base64`
      writes its last byte as `AA==`, whatever the byte is. */
  lemma AsWrittenOneByteTail(b: seq<byte>)
    requires |b| % 3 == 1
    ensures |EncodeAsWritten(b)| >= 4
    ensures EncodeAsWritten(b)[|EncodeAsWritten(b)| - 4..] == "AA=="
  {
    var h := Groups(|b|) - 1;
    assert 3 * h + 1 == |b|;
    var x := b[|b| - 1];
    assert Group(b, h) == [x];
    var init, last := EncodeGroups(b, h, false), GroupText(GroupValue([x]), 1);
    assert EncodeAsWritten(b) == init + last;
    OneByteText(x);
    assert (init + last)[|init + last| - 4..] == last;
  }

  /** A one-byte input is written `AA==`. */
  lemma AsWrittenOneByte(x: byte)
    ensures EncodeAsWritten([x]) == "AA=="
  {
    AsWrittenOneByteTail([x]);
    assert |EncodeAsWritten([x])| == 4;
  }

  /** `Ma` is `TWE=`: a two-byte final group moved to the top of 24 bits
      gives three characters and one `=`. */
  lemma EncodeTwoExample()
    ensures Base64Encode([0x4D, 0x61]) == "TWE="
  {
    var b: seq<byte> := [0x4D, 0x61];
    assert Groups(2) == 1 && Group(b, 0) == b;
    assert GroupValue(b) == 0x4D61 by {
      assert b[..1] == [0x4D] && b[..1][..0] == [];
    }
    var v := AlignedValue(b);
    assert v == 0x4D6100;
    Shr6(v, 0);
    Shr6(v, 6);
    Shr6(v, 12);
    assert Shr(v, 6) == 0x13584 && Shr(v, 12) == 0x4D6 && Shr(v, 18) == 19;
    assert CharsToWrite(2) == 3;
    assert GroupChars(v, 3) == [GroupChar(v, 0), GroupChar(v, 1), GroupChar(v, 2)];
    assert GroupChar(v, 0) == 'T' && GroupChar(v, 1) == 'W' && GroupChar(v, 2) == 'E';
    assert Padding(1) == ['='];
    assert Base64Encode(b) == EncodeGroups(b, 0, true) + GroupText(v, 2);
  }

  /** A two-byte input: `encode_base64` reads the low 16 bits from bit 18
      down, so `Ma` is written `AE1=`, not the RFC 4648 text `TWE=`. */
  lemma AsWrittenTwoBytes()
    ensures EncodeAsWritten([0x4D, 0x61]) == "AE1="
    ensures EncodeAsWritten([0x4D, 0x61]) != Base64Encode([0x4D, 0x61])
  {
    var b: seq<byte> := [0x4D, 0x61];
    assert Groups(2) == 1 && Group(b, 0) == b;
    assert GroupValue(b) == 0x4D61 by {
      assert b[..1] == [0x4D] && b[..1][..0] == [];
      assert GroupValue(b[..1]) == 0x4D;
    }
    var v := GroupValue(b);
    Shr6(v, 0);
    Shr6(v, 6);
    Shr6(v, 12);
    assert Shr(v, 6) == 309 && Shr(v, 12) == 4 && Shr(v, 18) == 0;
    assert CharsToWrite(2) == 3;
    assert GroupChars(v, 3) == [GroupChar(v, 0), GroupChar(v, 1), GroupChar(v, 2)];
    assert GroupChar(v, 0) == 'A' && GroupChar(v, 1) == 'E' && GroupChar(v, 2) == '1';
    assert Padding(1) == ['='];
    assert EncodeAsWritten(b) == EncodeGroups(b, 0, false) + GroupText(v, 2);
    EncodeTwoExample();
    assert "AE1="[0] != "TWE="[0];
  }

  /** The text `AA==` decodes to the single byte zero. */
  lemma DecodeAA(cap: nat)
    requires cap >= 1
    ensures Base64Decoded("AA==", cap) == Some([0])
  {
    var vs: seq<sextet> := [0, 0];
    assert Chars(vs) + Padding(2) == "AA==" by {
      assert vs[..1] == [0];
      assert Chars(vs[..1]) == ['A'];
      assert Padding(2) == ['=', '='];
    }
    DecodePadded(vs, 2, cap);
    ZeroSextets();
    BitsToBytesOfByteBits([0], NatBits(0, 4));
  }

  /** Two zero values hold a zero byte and four spare zero bits. */
  lemma ZeroSextets()
    ensures SextetBits([0, 0]) == ByteBits([0]) + NatBits(0, 4)
  {
    var vs: seq<sextet> := [0, 0];
    assert vs[..1] == [0];
    assert SextetBits(vs) == NatBits(0, 6) + NatBits(0, 6);
    Pow2Values();
    NatBitsConcat(0, 0, 6, 6);
    NatBitsConcat(0, 0, 8, 4);
    assert ByteBits([0]) == NatBits(0, 8) + ByteBits([]);
  }

  /** Every one-byte input other than zero is lost: `encode_base64`'s text
      decodes to the byte zero. */
  lemma AsWrittenLosesByte(x: byte)
    ensures Base64Decoded(EncodeAsWritten([x]), 1) == Some([0])
    ensures x != 0 ==> Base64Decoded(EncodeAsWritten([x]), 1) != Some([x])
    ensures x != 0 ==> EncodeAsWritten([x]) != Base64Encode([x])
  {
    AsWrittenOneByte(x);
    DecodeAA(1);
    Base64RoundTrip([x], 1);
  }
}
