/** The base64 codec of src/encoders.c: the alphabet of section 4 of
    RFC 4648, a decoder that collects 6-bit values in an accumulator and
    stops at the first `=`, and an encoder that works in groups of up to
    three bytes. */
module Base64 {
  import opened Bytes
  import opened Bits

  /** `base64_table`: the 64 characters in value order. */
  const Base64Table: seq<char> :=
    "ABCDEFGHIJKLMNOPQRSTUVWXYZ" + "abcdefghijklmnopqrstuvwxyz" + "0123456789" + "+/"

  /** `base64_char_to_value`: 0..63 for a character of the alphabet, -2 for
      the padding character `=` and -1 for any other character. */
  function Base64CharToValue(c: char): (v: int)
    ensures -2 <= v < 64
    ensures v == -2 <==> c == '='
  {
    if 'A' <= c <= 'Z' then c as int - 'A' as int
    else if 'a' <= c <= 'z' then c as int - 'a' as int + 26
    else if '0' <= c <= '9' then c as int - '0' as int + 52
    else if c == '+' then 62
    else if c == '/' then 63
    else if c == '=' then -2
    else -1
  }

  predicate IsBase64Char(c: char) {
    Base64CharToValue(c) >= 0
  }

  /** The alphabet characters are exactly the letters, the digits, `+` and `/`. */
  lemma Base64Chars(c: char)
    ensures IsBase64Char(c) <==>
      'A' <= c <= 'Z' || 'a' <= c <= 'z' || '0' <= c <= '9' || c == '+' || c == '/'
    ensures IsSpace(c) ==> Base64CharToValue(c) == -1
  {
  }

  /** The table lists the capital letters, the small letters and the
      digits in order, then `+` and `/`. */
  lemma TableUpper(k: nat)
    requires k < 26
    ensures |Base64Table| == 64 && Base64Table[k] as int == 'A' as int + k
  {
    var upper := "ABCDEFGHIJKLMNOPQRSTUVWXYZ";
    assert Base64Table == upper + ("abcdefghijklmnopqrstuvwxyz" + "0123456789" + "+/");
    assert Base64Table[k] == upper[k];
  }

  lemma TableLower(k: nat)
    requires k < 26
    ensures |Base64Table| == 64 && Base64Table[26 + k] as int == 'a' as int + k
  {
    var upper, lower := "ABCDEFGHIJKLMNOPQRSTUVWXYZ", "abcdefghijklmnopqrstuvwxyz";
    assert Base64Table == upper + (lower + ("0123456789" + "+/"));
    assert Base64Table[26 + k] == lower[k];
  }

  lemma TableDigit(k: nat)
    requires k < 10
    ensures |Base64Table| == 64 && Base64Table[52 + k] as int == '0' as int + k
  {
    var letters, digits := "ABCDEFGHIJKLMNOPQRSTUVWXYZ" + "abcdefghijklmnopqrstuvwxyz", "0123456789";
    assert Base64Table == letters + (digits + "+/");
    assert Base64Table[52 + k] == digits[k];
  }

  lemma TableSigns()
    ensures |Base64Table| == 64 && Base64Table[62] == '+' && Base64Table[63] == '/'
  {
  }

  /** `base64_table[v]`, computed from the runs the table consists of
      (`TableCharIsTable` shows the two agree). */
  function TableChar(v: sextet): char {
    if v < 26 then ('A' as int + v) as char
    else if v < 52 then ('a' as int + v - 26) as char
    else if v < 62 then ('0' as int + v - 52) as char
    else if v == 62 then '+'
    else '/'
  }

  lemma TableCharIsTable(v: sextet)
    ensures |Base64Table| == 64 && TableChar(v) == Base64Table[v]
  {
    TableSigns();
    if v < 26 {
      TableUpper(v);
    } else if v < 52 {
      TableLower(v - 26);
    } else if v < 62 {
      TableDigit(v - 52);
    }
  }

  /** Looking a value up in the table and converting the character back
      gives the value again. */
  lemma TableInverse(v: sextet)
    ensures |Base64Table| == 64
    ensures Base64CharToValue(Base64Table[v]) == v
  {
    TableCharIsTable(v);
  }

  /** Converting an alphabet character to its value and looking the value up
      gives the character again. */
  lemma TableOnto(c: char)
    requires IsBase64Char(c)
    ensures |Base64Table| == 64
    ensures Base64Table[Base64CharToValue(c)] == c
  {
    TableCharIsTable(Base64CharToValue(c));
  }

  // ---------------------------------------------------------------------
  // What decode_base64 accepts and produces

  /** The first position at or after `from` whose character is neither
      whitespace nor in the alphabet (a `=` or an invalid character), or |s|. */
  function Base64End(s: seq<char>, from: nat): (p: nat)
    requires from <= |s|
    ensures from <= p <= |s|
    ensures p < |s| ==> !IsSpace(s[p]) && !IsBase64Char(s[p])
    decreases |s| - from
  {
    if from == |s| || !(IsSpace(s[from]) || IsBase64Char(s[from])) then from
    else Base64End(s, from + 1)
  }

  /** The values of the alphabet characters among the first `n` characters. */
  function Sextets(s: seq<char>, n: nat): (vs: seq<sextet>)
    requires n <= |s|
    ensures |vs| <= n
  {
    if n == 0 then []
    else Sextets(s, n - 1) + (if IsBase64Char(s[n - 1]) then [Base64CharToValue(s[n - 1]) as sextet] else [])
  }

  /** What decoding `s` into a buffer of `cap` bytes gives: the text is read
      up to its first `=` or its end, whitespace is skipped, the bits of the
      values are regrouped into bytes and fewer than eight bits left over
      are dropped. It fails on an invalid character before the first `=`
      and when the bytes do not fit. */
  function Base64Decoded(s: seq<char>, cap: nat): Option<seq<byte>> {
    var p := Base64End(s, 0);
    var bytes := BitsToBytes(SextetBits(Sextets(s, p)));
    if (p < |s| && s[p] != '=') || |bytes| > cap then None else Some(bytes)
  }

  /** `k` values decode to 6k/8 bytes, rounded down. */
  lemma Base64DecodedLength(s: seq<char>, cap: nat)
    requires Base64Decoded(s, cap).Some?
    ensures |Base64Decoded(s, cap).value| == 6 * |Sextets(s, Base64End(s, 0))| / 8
    ensures |Base64Decoded(s, cap).value| <= cap
  {
  }

  /** Nothing after the first `=` matters. */
  lemma Base64IgnoresTail(s: seq<char>, t: seq<char>, cap: nat)
    requires '=' in s
    ensures Base64Decoded(s + t, cap) == Base64Decoded(s, cap)
  {
    var p := Base64End(s, 0);
    EndPrefix(s, t, 0);
    SextetsPrefix(s, t, p);
  }

  lemma {:induction false} EndPrefix(s: seq<char>, t: seq<char>, from: nat)
    requires from <= |s| && '=' in s[from..]
    ensures Base64End(s + t, from) == Base64End(s, from) < |s|
    decreases |s| - from
  {
    assert s[from..][0] == s[from];
    if IsSpace(s[from]) || IsBase64Char(s[from]) {
      assert s[from] != '=';
      assert s[from + 1..] == s[from..][1..];
      EndPrefix(s, t, from + 1);
    }
  }

  lemma {:induction false} SextetsPrefix(s: seq<char>, t: seq<char>, n: nat)
    requires n <= |s|
    ensures Sextets(s + t, n) == Sextets(s, n)
  {
    if n > 0 {
      SextetsPrefix(s, t, n - 1);
      assert (s + t)[n - 1] == s[n - 1];
    }
  }

  lemma {:induction false} SextetsExtend(s: seq<char>, i: nat, p: nat)
    requires i <= p <= |s|
    ensures |Sextets(s, i)| <= |Sextets(s, p)|
    decreases p - i
  {
    if i < p {
      SextetsExtend(s, i, p - 1);
    }
  }

  // ---------------------------------------------------------------------
  // decode_base64

  /** The state of the decoder after reading `i` characters: no `=` and no
      invalid character yet, and the bytes written followed by the low
      `bits` bits of the accumulator are the bits of the values read. */
  ghost predicate Decoding(s: seq<char>, i: nat, out: seq<byte>, buffer: nat, bits: nat) {
    i <= |s| && Base64End(s, 0) == Base64End(s, i) &&
    (bits == 0 || bits == 2 || bits == 4 || bits == 6 || bits == 8 || bits == 10 || bits == 12) &&
    Holds(out, buffer, bits, Sextets(s, i))
  }

  /** The bytes written followed by the low `bits` bits of the accumulator
      are the bits of the values `vs`. */
  ghost predicate Holds(out: seq<byte>, buffer: nat, bits: nat, vs: seq<sextet>) {
    ByteBits(out) + NatBits(buffer, bits) == SextetBits(vs)
  }

  /** The byte the decoder emits once it holds at least eight bits:
      `(buffer >> (bits - 8)) & 0xFF`. */
  function Emitted(buffer: nat, bits: nat): byte
    requires bits >= 8
  {
    (buffer / Pow2(bits - 8)) % 256
  }

  lemma DecodeSpace(s: seq<char>, i: nat, out: seq<byte>, buffer: nat, bits: nat)
    requires Decoding(s, i, out, buffer, bits) && i < |s| && IsSpace(s[i])
    ensures Decoding(s, i + 1, out, buffer, bits)
  {
    Base64Chars(s[i]);
    assert Sextets(s, i + 1) == Sextets(s, i);
  }

  /** Shifting a value into the accumulator appends its six bits. */
  lemma SextetStep(out: seq<byte>, buffer: nat, bits: nat, vs: seq<sextet>, v: sextet)
    requires Holds(out, buffer, bits, vs)
    ensures Holds(out, buffer * 64 + v, bits + 6, vs + [v])
  {
    var a, b, c := ByteBits(out), NatBits(buffer, bits), NatBits(v, 6);
    var w, x := vs + [v], buffer * 64 + v;
    assert w[..|vs|] == vs;
    assert SextetBits(w) == (a + b) + c;
    AppendAssoc(a, b, c);
    NatBitsSplit6(x, bits);
    assert x / 64 == buffer && x % 64 == v;
    assert NatBits(x, bits + 6) == b + c;
  }

  lemma DecodeSextet(s: seq<char>, i: nat, out: seq<byte>, buffer: nat, bits: nat, x: nat)
    requires Decoding(s, i, out, buffer, bits) && bits < 8 && i < |s| && IsBase64Char(s[i])
    requires x == buffer * 64 + Base64CharToValue(s[i])
    ensures Decoding(s, i + 1, out, x, bits + 6)
  {
    var v: sextet := Base64CharToValue(s[i]);
    var vs := Sextets(s, i);
    assert Base64End(s, i) == Base64End(s, i + 1);
    assert Sextets(s, i + 1) == vs + [v];
    SextetStep(out, buffer, bits, vs, v);
  }

  /** `x` and `q * 2^n + x` agree in their low `n` bits. */
  lemma NatBitsLow(x: nat, q: nat, r: nat, n: nat)
    requires x == q * Pow2(n) + r && r < Pow2(n)
    ensures NatBits(x, n) == NatBits(r, n)
  {
    calc {
      NatBits(x, n);
    == { assert x == q * Pow2(n) + r && 0 + n == n; }
      NatBits(q * Pow2(n) + r, 0 + n);
    == { NatBitsConcat(q, r, 0, n); }
      NatBits(q, 0) + NatBits(r, n);
    == { assert NatBits(q, 0) == []; }
      NatBits(r, n);
    }
  }

  /** Eight bits of a number are those of its low byte. */
  lemma NatBitsByte(q: nat)
    ensures NatBits(q, 8) == NatBits(q % 256, 8)
  {
    Pow2Values();
    NatBitsLow(q, q / 256, q % 256, 8);
  }

  /** With `d == 2^k`, the top eight of `8 + k` bits are those of `x / d`
      and the low `k` those of `x`. */
  lemma SplitBelow(x: nat, k: nat, d: nat)
    requires d == Pow2(k) && (k == 2 || k == 4)
    ensures NatBits(x, 8 + k) == NatBits((x / d) % 256, 8) + NatBits(x, k)
  {
    var q := x / d;
    var r := x % d;
    assert x == q * d + r && r < d;
    NatBitsConcat(q, r, 8, k);
    NatBitsByte(q);
    NatBitsLow(x, q, r, k);
  }

  /** Of `n` (8, 10 or 12) bits, the top eight are the emitted byte. */
  lemma EmitSplit(x: nat, n: nat)
    requires n == 8 || n == 10 || n == 12
    ensures NatBits(x, n) == NatBits(Emitted(x, n), 8) + NatBits(x, n - 8)
  {
    Pow2Values();
    if n == 8 {
      NatBitsByte(x);
    } else if n == 10 {
      SplitBelow(x, 2, 4);
    } else {
      SplitBelow(x, 4, 16);
    }
  }

  /** Emitting the top byte moves eight bits from the accumulator to the output. */
  lemma EmitStep(out: seq<byte>, buffer: nat, bits: nat, vs: seq<sextet>, written: seq<byte>)
    requires Holds(out, buffer, bits, vs)
    requires bits == 8 || bits == 10 || bits == 12
    requires written == out + [Emitted(buffer, bits)]
    ensures Holds(written, buffer, bits - 8, vs)
  {
    var b := Emitted(buffer, bits);
    ByteBitsAppend(out, [b]);
    assert ByteBits([b]) == NatBits(b, 8) + ByteBits([]);
    EmitSplit(buffer, bits);
  }

  lemma DecodeInvalid(s: seq<char>, i: nat, out: seq<byte>, buffer: nat, bits: nat, cap: nat)
    requires Decoding(s, i, out, buffer, bits) && i < |s|
    requires !IsSpace(s[i]) && Base64CharToValue(s[i]) == -1
    ensures Base64Decoded(s, cap) == None
  {
    Base64Chars(s[i]);
  }

  /** A value that completes a byte: the byte is emitted. */
  lemma DecodeByte(s: seq<char>, i: nat, out: seq<byte>, buffer: nat, bits: nat, written: seq<byte>)
    requires Decoding(s, i, out, buffer, bits) && bits < 8 && bits + 6 >= 8
    requires i < |s| && IsBase64Char(s[i])
    requires written == out + [Emitted(buffer * 64 + Base64CharToValue(s[i]), bits + 6)]
    ensures Decoding(s, i + 1, written, buffer * 64 + Base64CharToValue(s[i]), bits - 2)
  {
    var j, x, n := i + 1, buffer * 64 + Base64CharToValue(s[i]), bits + 6;
    DecodeSextet(s, i, out, buffer, bits, x);
    assert Decoding(s, j, out, x, n);
    DecodeEmit(s, j, out, x, n, written);
    assert n - 8 == bits - 2;
  }

  /** Emitting a byte keeps the decoder's state. */
  lemma DecodeEmit(s: seq<char>, i: nat, out: seq<byte>, buffer: nat, bits: nat, written: seq<byte>)
    requires Decoding(s, i, out, buffer, bits) && (bits == 8 || bits == 10 || bits == 12)
    requires written == out + [Emitted(buffer, bits)]
    ensures Decoding(s, i, written, buffer, bits - 8)
  {
    EmitStep(out, buffer, bits, Sextets(s, i), written);
  }

  /** A value that completes a byte while `cap` bytes are already written:
      the text holds more than fits. */
  lemma DecodeOverflow(s: seq<char>, i: nat, out: seq<byte>, buffer: nat, bits: nat, cap: nat)
    requires Decoding(s, i, out, buffer, bits) && bits < 8 && bits + 6 >= 8
    requires i < |s| && IsBase64Char(s[i]) && |out| >= cap
    ensures Base64Decoded(s, cap) == None
  {
    var p := Base64End(s, i + 1);
    assert |Sextets(s, i + 1)| == |Sextets(s, i)| + 1;
    SextetsExtend(s, i + 1, p);
    var k := |Sextets(s, p)|;
    assert 8 * |out| + 8 <= 6 * |Sextets(s, i + 1)| <= 6 * k;
    assert |BitsToBytes(SextetBits(Sextets(s, p)))| == 6 * k / 8 > |out|;
  }

  /** At a `=` or at the end of the text, what has been written is the result. */
  lemma DecodeStop(s: seq<char>, i: nat, out: seq<byte>, buffer: nat, bits: nat, cap: nat)
    requires Decoding(s, i, out, buffer, bits) && bits < 8 && |out| <= cap
    requires i == |s| || s[i] == '='
    ensures Base64Decoded(s, cap) == Some(out)
  {
    BitsToBytesOfByteBits(out, NatBits(buffer, bits));
  }

  /** `decode_base64`: the text is `base64` and the buffer `output`, whose
      length is `output_size`. Returns the number of bytes written, which
      are `Base64Decoded`, or -1 when that fails. The accumulator is
      unbounded here and `buffer << 6 | value` is `buffer * 64 + value`.
      The text is a C string, which `strlen` ends at its first NUL. */
  method DecodeBase64(base64: seq<char>, output: array<byte>) returns (r: int)
    requires '\0' !in base64
    modifies output
    ensures Base64Decoded(base64, output.Length).None? ==> r == -1
    ensures Base64Decoded(base64, output.Length).Some? ==>
      r == |Base64Decoded(base64, output.Length).value| &&
      output[..r] == Base64Decoded(base64, output.Length).value
    ensures r >= 0 ==> output[r..] == old(output[r..])
  {
    ghost var init := output[..];
    ghost var written: seq<byte> := [];
    var base64Len := |base64|;
    var outputIdx := 0;
    var buffer: nat := 0;
    var bitsCollected := 0;
    var i := 0;
    while i < base64Len
      invariant 0 <= i <= base64Len && outputIdx == |written| <= output.Length
      invariant bitsCollected < 8
      invariant Decoding(base64, i, written, buffer, bitsCollected)
      invariant output[..] == written + init[outputIdx..]
    {
      var step;
      step, outputIdx, buffer, bitsCollected, written :=
        DecodeChar(base64, i, output, outputIdx, buffer, bitsCollected, written, init);
      if step == Fail {
        return -1;
      }
      if step == Stop {
        break;
      }
      i := i + 1;
    }
    DecodeStop(base64, i, written, buffer, bitsCollected, output.Length);
    assert output[..outputIdx] == written && output[outputIdx..] == init[outputIdx..];
    return outputIdx;
  }

  /** One pass of the loop of `decode_base64` over character `i`: a space is
      skipped, an invalid character or a byte that does not fit fails, `=`
      stops, and a valid character is shifted into the accumulator, which
      emits a byte after the bytes `written` so far once it holds eight bits. */
  method DecodeChar(base64: seq<char>, i: nat, output: array<byte>, outputIdx: nat, buffer: nat, bits: nat,
                    ghost written: seq<byte>, ghost init: seq<byte>)
    returns (step: Step, nextIdx: nat, nextBuffer: nat, nextBits: nat, ghost nextWritten: seq<byte>)
    requires i < |base64| && Decoding(base64, i, written, buffer, bits) && bits < 8
    requires outputIdx == |written| <= output.Length == |init| && output[..] == written + init[outputIdx..]
    modifies output
    ensures step == Fail ==> Base64Decoded(base64, output.Length) == None
    ensures step != Fail ==>
      nextIdx == |nextWritten| <= output.Length && nextBits < 8 &&
      output[..] == nextWritten + init[nextIdx..]
    ensures step == Stop ==> base64[i] == '=' && Decoding(base64, i, nextWritten, nextBuffer, nextBits)
    ensures step == Read ==> Decoding(base64, i + 1, nextWritten, nextBuffer, nextBits)
  {
    step, nextIdx, nextBuffer, nextBits, nextWritten := Read, outputIdx, buffer, bits, written;
    if IsSpace(base64[i]) {
      DecodeSpace(base64, i, written, buffer, bits);
      return;
    }
    var value := Base64CharToValue(base64[i]);
    if value == -1 {
      DecodeInvalid(base64, i, written, buffer, bits, output.Length);
      step := Fail;
      return;
    }
    if value == -2 {
      Base64Chars(base64[i]);
      step := Stop;
      return;
    }
    step, nextIdx, nextBuffer, nextBits, nextWritten :=
      ShiftIn(base64, i, value, output, outputIdx, buffer, bits, written, init);
  }

  /** The rest of a pass over a valid character `i` of value `value`: the
      accumulator takes its six bits and, once it holds eight, a byte goes
      to `output`, or the loop fails when `output` is full. */
  method ShiftIn(base64: seq<char>, i: nat, value: int, output: array<byte>, outputIdx: nat,
                 buffer: nat, bits: nat, ghost written: seq<byte>, ghost init: seq<byte>)
    returns (step: Step, nextIdx: nat, nextBuffer: nat, nextBits: nat, ghost nextWritten: seq<byte>)
    requires i < |base64| && Decoding(base64, i, written, buffer, bits) && bits < 8
    requires IsBase64Char(base64[i]) && value == Base64CharToValue(base64[i])
    requires outputIdx == |written| <= output.Length == |init| && output[..] == written + init[outputIdx..]
    modifies output
    ensures step != Stop
    ensures step == Fail ==> Base64Decoded(base64, output.Length) == None
    ensures step == Read ==>
      nextIdx == |nextWritten| <= output.Length && nextBits < 8 &&
      output[..] == nextWritten + init[nextIdx..] &&
      Decoding(base64, i + 1, nextWritten, nextBuffer, nextBits)
  {
    step, nextIdx, nextWritten := Read, outputIdx, written;
    nextBuffer := buffer * 64 + value;
    nextBits := bits + 6;
    if nextBits >= 8 {
      if outputIdx >= output.Length {
        DecodeOverflow(base64, i, written, buffer, bits, output.Length);
        step := Fail;
        return;
      }
      nextWritten := EmitByte(base64, i, output, outputIdx, nextBuffer, nextBits, buffer, bits, written, init);
      nextIdx := outputIdx + 1;
      nextBits := nextBits - 8;
    } else {
      DecodeSextet(base64, i, written, buffer, bits, nextBuffer);
    }
  }

  /** The emitting branch of the loop of `decode_base64`: the sixth bit
      shifted into an accumulator of `held` bits makes a whole byte, which
      goes to `output` after the bytes `written` so far. */
  method EmitByte(base64: seq<char>, i: nat, output: array<byte>, outputIdx: nat, buffer: nat, bits: nat,
                  ghost before: nat, ghost held: nat, ghost written: seq<byte>, ghost init: seq<byte>)
    returns (ghost next: seq<byte>)
    requires Decoding(base64, i, written, before, held) && held < 8 && bits == held + 6 >= 8
    requires i < |base64| && IsBase64Char(base64[i]) && buffer == before * 64 + Base64CharToValue(base64[i])
    requires outputIdx == |written| < output.Length == |init| && output[..] == written + init[outputIdx..]
    modifies output
    ensures next == written + [Emitted(buffer, bits)]
    ensures Decoding(base64, i + 1, next, buffer, bits - 8)
    ensures output[..] == next + init[outputIdx + 1..]
  {
    next := written + [Emitted(buffer, bits)];
    DecodeByte(base64, i, written, before, held, next);
    Put(output, outputIdx, Emitted(buffer, bits), written, init);
  }

  // ---------------------------------------------------------------------
  // encode_base64

  /** The number of groups of up to three bytes in `n` bytes. */
  function Groups(n: nat): nat {
    (n + 2) / 3
  }

  /** The bytes of group `g`: three bytes, or what is left for the last one. */
  function Group(b: seq<byte>, g: nat): (chunk: seq<byte>)
    requires 3 * g < |b|
    ensures 1 <= |chunk| <= 3
  {
    if |b| - 3 * g < 3 then b[3 * g..] else b[3 * g..3 * g + 3]
  }

  /** The bytes of a group as one number, built by `buffer = (buffer << 8) | byte`. */
  function GroupValue(chunk: seq<byte>): nat {
    if chunk == [] then 0 else GroupValue(chunk[..|chunk| - 1]) * 256 + chunk[|chunk| - 1]
  }

  /** `chars_to_write` for a group of `m` bytes. */
  function CharsToWrite(m: nat): nat {
    (m * 8 + 5) / 6
  }

  /** Character `j` of a group: `base64_table[(buffer >> (3 - j) * 6) & 0x3F]`. */
  function GroupChar(buffer: nat, j: nat): char
    requires j <= 3
  {
    TableChar(Shr(buffer, (3 - j) * 6) % 64)
  }

  /** The first `n` characters of a group. */
  function GroupChars(buffer: nat, n: nat): (cs: seq<char>)
    requires n <= 4
    ensures |cs| == n
  {
    if n == 0 then [] else GroupChars(buffer, n - 1) + [GroupChar(buffer, n - 1)]
  }

  /** `n` padding characters. */
  function Padding(n: nat): (p: seq<char>)
    ensures |p| == n
  {
    if n == 0 then [] else Padding(n - 1) + ['=']
  }

  lemma {:induction false} PaddingAt(n: nat, k: nat)
    requires k < n
    ensures Padding(n)[k] == '='
  {
    if k < n - 1 {
      PaddingAt(n - 1, k);
    }
  }

  /** The four characters written for a group of `m` bytes held in `buffer`. */
  function GroupText(buffer: nat, m: nat): (t: seq<char>)
    requires 1 <= m <= 3
    ensures |t| == 4
  {
    GroupChars(buffer, CharsToWrite(m)) + Padding(4 - CharsToWrite(m))
  }

  /** The group's bytes moved to the top of 24 bits, as section 4 of RFC 4648
      lays a short final group out. */
  function AlignedValue(chunk: seq<byte>): nat
    requires 1 <= |chunk| <= 3
  {
    if |chunk| == 1 then GroupValue(chunk) * 65536
    else if |chunk| == 2 then GroupValue(chunk) * 256
    else GroupValue(chunk)
  }

  /** The text of the first `g` groups, the buffer of each group taken as
      `encode_base64` builds it or, when `aligned`, moved to the top. */
  function EncodeGroups(b: seq<byte>, g: nat, aligned: bool): (t: seq<char>)
    requires 3 * g <= |b| + 2
    ensures |t| == 4 * g
  {
    if g == 0 then []
    else
      var chunk := Group(b, g - 1);
      EncodeGroups(b, g - 1, aligned) +
      GroupText(if aligned then AlignedValue(chunk) else GroupValue(chunk), |chunk|)
  }

  /** What `encode_base64` writes for `b`. */
  function EncodeAsWritten(b: seq<byte>): (t: seq<char>)
    ensures |t| == 4 * Groups(|b|)
  {
    EncodeGroups(b, Groups(|b|), false)
  }

  /** The base64 encoding of section 4 of RFC 4648. */
  function Base64Encode(b: seq<byte>): (t: seq<char>)
    ensures |t| == 4 * Groups(|b|)
  {
    EncodeGroups(b, Groups(|b|), true)
  }

  /** `encode_base64`: `input` holds `input_size` bytes and `output` has
      `output_size` characters. Fails with -1, before writing the group,
      when a group would not leave room for the terminating NUL; otherwise
      returns the length of the text `EncodeAsWritten`, followed by a NUL.
      An empty input needs room for the NUL alone. */
  method EncodeBase64(input: array<byte>, output: array<char>) returns (r: int)
    requires input.Length > 0 || output.Length > 0
    modifies output
    ensures r == -1 <==> input.Length > 0 && output.Length <= 4 * Groups(input.Length)
    ensures r != -1 ==>
      r == 4 * Groups(input.Length) && r < output.Length &&
      output[..r] == EncodeAsWritten(input[..]) && output[r] == '\0'
    ensures r != -1 ==> output[r + 1..] == old(output[r + 1..])
  {
    ghost var b := input[..];
    ghost var init := output[..];
    var inputSize := input.Length;
    var outputIdx := 0;
    var i := 0;
    ghost var g := 0;
    while i < inputSize
      invariant 0 <= g <= Groups(inputSize) && i == 3 * g && outputIdx == 4 * g
      invariant g > 0 ==> outputIdx < output.Length
      invariant output[..] == EncodeGroups(b, g, false) + init[outputIdx..]
    {
      GroupsLeft(inputSize, g);
      if outputIdx + 4 >= output.Length {
        return -1;
      }
      outputIdx := EncodeGroup(input, output, i, outputIdx, g, init);
      i := i + 3;
      g := g + 1;
    }
    GroupsDone(inputSize, g);
    ghost var text := EncodeGroups(b, g, false);
    Put(output, outputIdx, '\0', text, init);
    assert output[..outputIdx] == text && output[outputIdx + 1..] == init[outputIdx + 1..];
    return outputIdx;
  }

  /** One pass of the outer loop of `encode_base64`: group `g`, which
      starts at byte `i`, is encoded into `output` at `outputIdx`. */
  method EncodeGroup(input: array<byte>, output: array<char>, i: nat, outputIdx: nat, ghost g: nat,
                     ghost init: seq<char>)
    returns (next: nat)
    requires i == 3 * g < input.Length && outputIdx == 4 * g && outputIdx + 4 < output.Length == |init|
    requires output[..] == EncodeGroups(input[..], g, false) + init[outputIdx..]
    modifies output
    ensures next == outputIdx + 4
    ensures output[..] == EncodeGroups(input[..], g + 1, false) + init[next..]
  {
    ghost var b := input[..];
    var bytesToProcess := if input.Length - i < 3 then input.Length - i else 3;
    var buffer := BuildBuffer(input, i, bytesToProcess);
    assert input[i..i + bytesToProcess] == b[i..i + bytesToProcess];
    ghost var done := EncodeGroups(b, g, false);
    next := WriteGroup(output, outputIdx, buffer, bytesToProcess, done, init);
    GroupWritten(b, g, done, buffer, bytesToProcess, done + GroupText(buffer, bytesToProcess));
  }

  /** The "build 24-bit buffer" loop of `encode_base64`. */
  method BuildBuffer(input: array<byte>, i: nat, m: nat) returns (buffer: nat)
    requires i + m <= input.Length
    ensures buffer == GroupValue(input[i..i + m])
  {
    buffer := 0;
    var j := 0;
    while j < m
      invariant 0 <= j <= m
      invariant buffer == GroupValue(input[i..i + j])
    {
      assert input[i..i + j + 1][..j] == input[i..i + j];
      buffer := buffer * 256 + input[i + j];
      j := j + 1;
    }
  }

  /** The "encode to base64" and "add padding" loops of `encode_base64`:
      `output` holds `done` and then its initial contents `init`, and the
      four characters of a group of `m` bytes go after `done`. */
  method WriteGroup(output: array<char>, outputIdx: nat, buffer: nat, m: nat,
                    ghost done: seq<char>, ghost init: seq<char>)
    returns (next: nat)
    requires 1 <= m <= 3 && outputIdx == |done| && outputIdx + 4 <= output.Length == |init|
    requires output[..] == done + init[outputIdx..]
    modifies output
    ensures next == outputIdx + 4
    ensures output[..] == (done + GroupText(buffer, m)) + init[next..]
  {
    ghost var text: seq<char> := [];
    next := outputIdx;
    var bits := m * 8;
    var charsToWrite := (bits + 5) / 6;
    var j := 0;
    while j < charsToWrite
      invariant 0 <= j <= charsToWrite <= 4 && next == outputIdx + j == |done + text|
      invariant output[..] == (done + text) + init[next..] && text == GroupChars(buffer, j)
    {
      var shift := (3 - j) * 6;
      var index := Shr(buffer, shift) % 64;
      Put(output, next, TableChar(index), done + text, init);
      AppendAssoc(done, text, [TableChar(index)]);
      text := text + [TableChar(index)];
      next := next + 1;
      j := j + 1;
    }
    ghost var chars := charsToWrite;
    while charsToWrite < 4
      invariant chars <= charsToWrite <= 4 && next == outputIdx + charsToWrite == |done + text|
      invariant output[..] == (done + text) + init[next..]
      invariant text == GroupChars(buffer, chars) + Padding(charsToWrite - chars)
    {
      Put(output, next, '=', done + text, init);
      AppendAssoc(done, text, ['=']);
      AppendAssoc(GroupChars(buffer, chars), Padding(charsToWrite - chars), ['=']);
      text := text + ['='];
      next := next + 1;
      charsToWrite := charsToWrite + 1;
    }
    assert chars == CharsToWrite(m) && text == GroupText(buffer, m);
  }

  /** One group has been written. */
  lemma GroupWritten(b: seq<byte>, g: nat, done: seq<char>, buffer: nat, m: nat, text: seq<char>)
    requires 3 * g < |b| && done == EncodeGroups(b, g, false)
    requires m == if |b| - 3 * g < 3 then |b| - 3 * g else 3
    requires buffer == GroupValue(b[3 * g..3 * g + m])
    requires text == done + GroupText(buffer, m)
    ensures text == EncodeGroups(b, g + 1, false)
  {
    assert Group(b, g) == b[3 * g..3 * g + m];
  }

  /** Before group `g`, at least one more group is due. */
  lemma GroupsLeft(n: nat, g: nat)
    requires 3 * g < n
    ensures g < Groups(n) && 4 * g + 4 <= 4 * Groups(n)
  {
  }

  /** Past the last byte, every group has been written. */
  lemma GroupsDone(n: nat, g: nat)
    requires n <= 3 * g && g <= Groups(n)
    ensures g == Groups(n)
  {
  }

  // ---------------------------------------------------------------------
  // Worked examples

  /** "TW==" holds the values 19 and 22, whose twelve bits start with the
      byte 0x4D; the four bits left over are dropped. */
  lemma DecodePaddedExample()
    ensures Base64Decoded("TW==", 1) == Some([0x4D])
  {
    var s := "TW==";
    assert Base64End(s, 2) == 2 && Base64End(s, 0) == 2;
    assert Sextets(s, 2) == [19, 22];
    var bits := SextetBits([19, 22]);
    assert bits == NatBits(19, 6) + NatBits(22, 6);
    NatBitsConcat(19, 22, 6, 6);
    Pow2Values();
    assert bits == NatBits(19 * 64 + 22, 12);
    NatBitsConcat(0x4D, 6, 8, 4);
    assert bits[..8] == NatBits(0x4D, 8);
    BitsValueOfNatBits(0x4D, 8);
    assert |bits[8..]| == 4 && BitsToBytes(bits[8..]) == [];
    assert BitsToBytes(bits) == [BitsValue(bits[..8])] + BitsToBytes(bits[8..]) == [0x4D];
    assert s[2] == '=';
  }

  /** "TWFu" holds the values 19, 22, 5 and 46, whose 24 bits are the bytes
      0x4D 0x61 0x6E. */
  lemma DecodeGroupExample()
    ensures Base64Decoded("TWFu", 3) == Some([0x4D, 0x61, 0x6E])
  {
    var s := "TWFu";
    assert Base64End(s, 4) == 4 && Base64End(s, 0) == 4;
    var vs: seq<sextet> := [19, 22, 5, 46];
    assert Sextets(s, 4) == vs;
    GroupExampleBits();
    GroupExampleBytes();
  }

  lemma GroupExampleBits()
    ensures SextetBits([19, 22, 5, 46]) == NatBits(0x4D, 8) + (NatBits(0x61, 8) + NatBits(0x6E, 8))
  {
    var vs: seq<sextet> := [19, 22, 5, 46];
    Pow2Values();
    assert SextetBits([19, 22]) == NatBits(19, 6) + NatBits(22, 6);
    assert SextetBits([19, 22, 5]) == SextetBits([19, 22]) + NatBits(5, 6);
    assert vs[..3] == [19, 22, 5];
    assert SextetBits(vs) == SextetBits([19, 22, 5]) + NatBits(46, 6);
    NatBitsConcat(19, 22, 6, 6);
    assert SextetBits([19, 22]) == NatBits(1238, 12);
    NatBitsConcat(1238, 5, 12, 6);
    assert SextetBits([19, 22, 5]) == NatBits(79237, 18);
    NatBitsConcat(79237, 46, 18, 6);
    assert SextetBits(vs) == NatBits(0x4D616E, 24);
    NatBitsConcat(0x4D, 0x616E, 8, 16);
    NatBitsConcat(0x61, 0x6E, 8, 8);
  }

  lemma GroupExampleBytes()
    ensures BitsToBytes(NatBits(0x4D, 8) + (NatBits(0x61, 8) + NatBits(0x6E, 8))) == [0x4D, 0x61, 0x6E]
  {
    var b0, b1, b2 := NatBits(0x4D, 8), NatBits(0x61, 8), NatBits(0x6E, 8);
    var bits := b0 + (b1 + b2);
    Pow2Values();
    assert bits[..8] == b0 && bits[8..] == b1 + b2;
    BitsValueOfNatBits(0x4D, 8);
    BitsValueOfNatBits(0x61, 8);
    BitsValueOfNatBits(0x6E, 8);
    assert b2[..8] == b2 && |b2[8..]| == 0 && BitsToBytes(b2[8..]) == [];
    assert BitsToBytes(b2) == [0x6E];
    assert (b1 + b2)[..8] == b1 && (b1 + b2)[8..] == b2;
    assert BitsToBytes(b1 + b2) == [0x61, 0x6E];
  }
}
