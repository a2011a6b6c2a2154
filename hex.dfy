/** The base16 codec of src/encoders.c: lowercase encoding, and a lenient
    decoder that accepts either case, skips whitespace, pads an odd final
    digit and silently stops when the output is full. */
module Hex {
  import opened Bytes

  type nibble = x: int | 0 <= x < 16

  /** `hex_char_to_value`: the value of a hex digit of either case, -1 for
      anything else. */
  function HexCharToValue(c: char): (v: int)
    ensures -1 <= v < 16
  {
    if '0' <= c <= '9' then c as int - '0' as int
    else if 'a' <= c <= 'f' then c as int - 'a' as int + 10
    else if 'A' <= c <= 'F' then c as int - 'A' as int + 10
    else -1
  }

  /** `value_to_hex_char`: the lowercase digit of a value in 0..15, `?`
      for anything else. */
  function ValueToHexChar(value: int): (c: char)
    ensures c == '?' <==> !(0 <= value < 16)
  {
    if 0 <= value <= 9 then ('0' as int + value) as char
    else if 10 <= value <= 15 then ('a' as int + (value - 10)) as char
    else '?'
  }

  /** Exactly the ten decimal digits and the letters `a`-`f` in either case
      are hex digits. */
  lemma HexDigitChars(c: char)
    ensures HexCharToValue(c) >= 0 <==> '0' <= c <= '9' || 'a' <= c <= 'f' || 'A' <= c <= 'F'
  {
  }

  /** A value in 0..15 is written as a lowercase digit that reads back as
      the value. */
  lemma ValueToHexCharInverse(value: int)
    requires 0 <= value < 16
    ensures HexCharToValue(ValueToHexChar(value)) == value
    ensures !('A' <= ValueToHexChar(value) <= 'F')
  {
  }

  /** ASCII lowercase of a character. */
  function LowerChar(c: char): char {
    if 'A' <= c <= 'Z' then (c as int + 32) as char else c
  }

  /** Reading a digit and writing its value back gives the digit in lowercase. */
  lemma HexCharToValueInverse(c: char)
    requires HexCharToValue(c) >= 0
    ensures ValueToHexChar(HexCharToValue(c)) == LowerChar(c)
  {
  }

  predicate IsHexDigit(c: char) {
    HexCharToValue(c) >= 0
  }

  /** A character the decoder accepts: whitespace or a hex digit. */
  predicate IsHexTextChar(c: char) {
    IsSpace(c) || IsHexDigit(c)
  }

  predicate IsHexText(s: seq<char>) {
    forall k :: 0 <= k < |s| ==> IsHexTextChar(s[k])
  }

  /** The position of the first character at or after `from` that is
      neither whitespace nor a hex digit, or `|s|` when there is none. */
  function FirstBad(s: seq<char>, from: nat): (p: nat)
    requires from <= |s|
    ensures from <= p <= |s|
    ensures p < |s| ==> !IsHexTextChar(s[p])
    decreases |s| - from
  {
    if from == |s| || !IsHexTextChar(s[from]) then from else FirstBad(s, from + 1)
  }

  /** The values of the hex digits among the first `n` characters of `s`,
      in order; whitespace is dropped. */
  function Digits(s: seq<char>, n: nat): (d: seq<nibble>)
    requires n <= |s|
    ensures |d| <= n
  {
    if n == 0 then []
    else Digits(s, n - 1) + (if IsHexDigit(s[n - 1]) then [HexCharToValue(s[n - 1])] else [])
  }

  /** `(high << 4) | low` for two nibbles. */
  function PackByte(high: nibble, low: nibble): byte {
    high * 16 + low
  }

  /** Pairs digits into bytes, high nibble first; an unpaired final digit
      is the high nibble of a byte whose low nibble is zero. */
  function Pack(d: seq<nibble>): (b: seq<byte>)
    ensures |b| == (|d| + 1) / 2
  {
    if |d| == 0 then []
    else if |d| == 1 then [PackByte(d[0], 0)]
    else [PackByte(d[0], d[1])] + Pack(d[2..])
  }

  /** The first `n` elements of `s`, or all of it when it is shorter. */
  function Truncate<T>(s: seq<T>, n: nat): (r: seq<T>)
    ensures |r| <= n && |r| <= |s|
    ensures r == s[..|r|]
    ensures |s| <= n ==> r == s
  {
    if n >= |s| then s else s[..n]
  }

  lemma TruncateAppend<T>(a: seq<T>, b: seq<T>, n: nat)
    requires |a| == n
    ensures Truncate(a + b, n) == a
  {
    assert (a + b)[..n] == a;
  }

  /** What `decode_hex` produces from `hex` when `cap` bytes fit in the
      output: -1 (None) when the first character that is neither whitespace
      nor a hex digit is reached while the output still has room, and
      otherwise the paired digits before that character, cut to `cap`. */
  function HexDecoded(hex: seq<char>, cap: nat): Option<seq<byte>> {
    var p := FirstBad(hex, 0);
    var d := Digits(hex, p);
    if p < |hex| && |d| / 2 < cap then None else Some(Truncate(Pack(d), cap))
  }

  /** `encode_hex` of one byte: high nibble, then low nibble. */
  function HexPair(x: byte): seq<char> {
    [ValueToHexChar(x / 16), ValueToHexChar(x % 16)]
  }

  /** The text `encode_hex` writes before its NUL terminator. */
  function HexEncode(b: seq<byte>): (s: seq<char>)
    ensures |s| == 2 * |b|
  {
    if b == [] then [] else HexEncode(b[..|b| - 1]) + HexPair(b[|b| - 1])
  }

  // ---------------------------------------------------------------------
  // Lemmas about the specification functions

  /** Characters appended after position `n` do not change the digits before it. */
  lemma {:induction false} DigitsPrefix(s: seq<char>, t: seq<char>, n: nat)
    requires n <= |s|
    ensures Digits(s + t, n) == Digits(s, n)
    decreases n
  {
    if n > 0 {
      DigitsPrefix(s, t, n - 1);
      assert (s + t)[n - 1] == s[n - 1];
    }
  }

  /** The digits of `s + t` are those of `s` followed by those of `t`. */
  lemma {:induction false} DigitsShift(s: seq<char>, t: seq<char>, k: nat)
    requires k <= |t|
    ensures Digits(s + t, |s| + k) == Digits(s, |s|) + Digits(t, k)
    decreases k
  {
    if k == 0 {
      DigitsPrefix(s, t, |s|);
    } else {
      DigitsShift(s, t, k - 1);
      assert (s + t)[|s| + k - 1] == t[k - 1];
    }
  }

  /** Reading further only appends digits. */
  lemma {:induction false} DigitsExtend(s: seq<char>, i: nat, p: nat)
    requires i <= p <= |s|
    ensures |Digits(s, i)| <= |Digits(s, p)|
    ensures Digits(s, p)[..|Digits(s, i)|] == Digits(s, i)
    decreases p
  {
    if i < p {
      DigitsExtend(s, i, p - 1);
    }
  }

  /** Packing splits at a byte boundary: `d` holds the digits of `n` whole bytes. */
  lemma {:induction false} PackAppend(d: seq<nibble>, e: seq<nibble>, n: nat)
    requires |d| == 2 * n
    ensures Pack(d + e) == Pack(d) + Pack(e)
    decreases n
  {
    if n == 0 {
      assert d + e == e;
    } else {
      assert (d + e)[2..] == d[2..] + e;
      PackAppend(d[2..], e, n - 1);
    }
  }

  /** Digits are the bytes' nibbles, high first. */
  function Nibbles(b: seq<byte>): (d: seq<nibble>)
    ensures |d| == 2 * |b|
  {
    if b == [] then [] else Nibbles(b[..|b| - 1]) + [b[|b| - 1] / 16, b[|b| - 1] % 16]
  }

  lemma {:induction false} HexEncodeDigits(b: seq<byte>)
    ensures IsHexText(HexEncode(b)) && Digits(HexEncode(b), 2 * |b|) == Nibbles(b)
    decreases |b|
  {
    if b != [] {
      var x := b[|b| - 1];
      var init := HexEncode(b[..|b| - 1]);
      HexEncodeDigits(b[..|b| - 1]);
      var pair := HexPair(x);
      ValueToHexCharInverse(x / 16);
      ValueToHexCharInverse(x % 16);
      assert Digits(pair, 2) == [x / 16, x % 16];
      DigitsShift(init, pair, 2);
      assert IsHexText(init + pair) by {
        forall k | 0 <= k < |init| + 2 ensures IsHexTextChar((init + pair)[k]) {
          if k < |init| { assert (init + pair)[k] == init[k]; }
        }
      }
    }
  }

  lemma {:induction false} PackNibbles(b: seq<byte>)
    ensures Pack(Nibbles(b)) == b
    decreases |b|
  {
    if b != [] {
      var x := b[|b| - 1];
      PackNibbles(b[..|b| - 1]);
      PackAppend(Nibbles(b[..|b| - 1]), [x / 16, x % 16], |b| - 1);
      assert [x / 16, x % 16][2..] == [];
      assert b == b[..|b| - 1] + [x];
    }
  }

  /** Hex round trip: decoding the encoding of `b` into room for at least
      `|b|` bytes gives back exactly `b`. */
  lemma HexRoundTrip(b: seq<byte>, cap: nat)
    requires cap >= |b|
    ensures HexDecoded(HexEncode(b), cap) == Some(b)
  {
    var s := HexEncode(b);
    HexEncodeDigits(b);
    assert s[..|s|] == s;
    FirstBadSkip(s, |s|);
    PackNibbles(b);
  }

  /** Position `2i` holds the high and `2i + 1` the low nibble of byte `i`,
      each as a lowercase hex digit. */
  lemma {:induction false} HexEncodeAt(b: seq<byte>, i: nat)
    requires i < |b|
    ensures HexEncode(b)[2 * i] == ValueToHexChar(b[i] / 16)
    ensures HexEncode(b)[2 * i + 1] == ValueToHexChar(b[i] % 16)
    decreases |b|
  {
    if i < |b| - 1 {
      HexEncodeAt(b[..|b| - 1], i);
    }
  }

  /** The decoder never produces more than `cap` bytes. */
  lemma HexDecodedWithinCapacity(hex: seq<char>, cap: nat)
    ensures HexDecoded(hex, cap).Some? ==> |HexDecoded(hex, cap).value| <= cap
  {
  }

  /** Once `2 * cap` digits have been read the decoder stops: whatever
      follows, even characters that are not hex, is never looked at. */
  lemma HexDecodeStopsWhenFull(pre: seq<char>, rest: seq<char>, cap: nat)
    requires IsHexText(pre) && |Digits(pre, |pre|)| == 2 * cap
    ensures HexDecoded(pre + rest, cap) == Some(Pack(Digits(pre, |pre|)))
  {
    var s := pre + rest;
    assert s[..|pre|] == pre;
    FirstBadSkip(s, |pre|);
    DigitsPrefix(pre, rest, |pre|);
    StoppedWhenFull(s, |pre|, cap);
  }

  /** The decoder state when the output fills after reading `s[..i]`. */
  lemma StoppedWhenFull(s: seq<char>, i: nat, cap: nat)
    requires i <= |s| && FirstBad(s, 0) == FirstBad(s, i) && |Digits(s, i)| == 2 * cap
    ensures HexDecoded(s, cap) == Some(Pack(Digits(s, i)))
  {
    var p := FirstBad(s, i);
    var d, e := Digits(s, p), Digits(s, i);
    DigitsExtend(s, i, p);
    var rest := d[|e|..];
    assert d == e + rest;
    PackAppend(e, rest, cap);
    TruncateAppend(Pack(e), Pack(rest), cap);
  }

  /** Every character before the first bad one is whitespace or a hex digit. */
  lemma {:induction false} FirstBadIsFirst(s: seq<char>, from: nat)
    requires from <= |s|
    ensures forall k :: from <= k < FirstBad(s, from) ==> IsHexTextChar(s[k])
    decreases |s| - from
  {
    if from < |s| && IsHexTextChar(s[from]) {
      FirstBadIsFirst(s, from + 1);
    }
  }

  /** Scanning from the start passes over a prefix that holds no bad character. */
  lemma {:induction false} FirstBadSkip(s: seq<char>, n: nat)
    requires n <= |s| && IsHexText(s[..n])
    ensures FirstBad(s, 0) == FirstBad(s, n)
  {
    var j := n;
    while j > 0
      invariant 0 <= j <= n && FirstBad(s, j) == FirstBad(s, n)
    {
      assert s[..n][j - 1] == s[j - 1];
      j := j - 1;
    }
  }

  /** Passing a good character does not move the first bad one. */
  lemma FirstBadNext(s: seq<char>, n: nat)
    requires n < |s| && IsHexTextChar(s[n])
    ensures FirstBad(s, n + 1) == FirstBad(s, n)
  {
  }

  /** Whitespace adds no digit. */
  lemma DigitsSkip(s: seq<char>, n: nat)
    requires n < |s| && IsSpace(s[n])
    ensures Digits(s, n + 1) == Digits(s, n)
  {
    assert Digits(s, n + 1) == Digits(s, n) + [];
  }

  /** A hex digit adds its value. */
  lemma DigitsNext(s: seq<char>, n: nat)
    requires n < |s| && IsHexDigit(s[n])
    ensures Digits(s, n + 1) == Digits(s, n) + [HexCharToValue(s[n])]
  {
  }

  /** The state of `decode_hex` after it has read `hex[..i]` and written
      `out`: no bad character has been passed, and `out` holds the bytes of
      the digits read so far, which pair up exactly. */
  ghost predicate Reading(hex: seq<char>, i: nat, out: seq<byte>, cap: nat) {
    i <= |hex| && FirstBad(hex, 0) == FirstBad(hex, i) &&
    |Digits(hex, i)| == 2 * |out| && |out| <= cap && out == Pack(Digits(hex, i))
  }

  lemma ReadSpace(hex: seq<char>, i: nat, out: seq<byte>, cap: nat)
    requires Reading(hex, i, out, cap) && i < |hex| && IsSpace(hex[i])
    ensures Reading(hex, i + 1, out, cap)
  {
    DigitsSkip(hex, i);
    FirstBadNext(hex, i);
  }

  /** A high digit at `i` and a low digit at `j`, with only whitespace
      between them, add one byte. */
  lemma ReadPair(hex: seq<char>, i: nat, j: nat, out: seq<byte>, cap: nat)
    requires Reading(hex, i, out, cap) && |out| < cap
    requires i < j < |hex| && IsHexDigit(hex[i]) && IsHexDigit(hex[j])
    requires Digits(hex, j) == Digits(hex, i + 1) && FirstBad(hex, j) == FirstBad(hex, i + 1)
    ensures Reading(hex, j + 1, out + [PackByte(HexCharToValue(hex[i]), HexCharToValue(hex[j]))], cap)
  {
    var high, low := HexCharToValue(hex[i]), HexCharToValue(hex[j]);
    var before := Digits(hex, i);
    DigitsNext(hex, i);
    DigitsNext(hex, j);
    FirstBadNext(hex, i);
    FirstBadNext(hex, j);
    assert Digits(hex, j + 1) == before + [high, low];
    PackAppend(before, [high, low], |out|);
    assert Pack([high, low]) == [PackByte(high, low)];
  }

  /** A high digit at `i` followed only by whitespace: it becomes a byte of
      its own and the result is complete. */
  lemma ReadOdd(hex: seq<char>, i: nat, out: seq<byte>, cap: nat)
    requires Reading(hex, i, out, cap) && |out| < cap && i < |hex| && IsHexDigit(hex[i])
    requires Digits(hex, |hex|) == Digits(hex, i + 1) && FirstBad(hex, |hex|) == FirstBad(hex, i + 1)
    ensures HexDecoded(hex, cap) == Some(out + [PackByte(HexCharToValue(hex[i]), 0)])
  {
    var high := HexCharToValue(hex[i]);
    var before := Digits(hex, i);
    DigitsNext(hex, i);
    FirstBadNext(hex, i);
    PackAppend(before, [high], |out|);
    assert Pack([high]) == [PackByte(high, 0)];
  }

  /** Reaching a bad character before the output fills makes the result -1. */
  lemma ReadBad(hex: seq<char>, i: nat, out: seq<byte>, cap: nat)
    requires Reading(hex, i, out, cap) && |out| < cap && i < |hex| && !IsHexTextChar(hex[i])
    ensures HexDecoded(hex, cap) == None
  {
  }

  /** A bad character where the low digit of a pair should be. */
  lemma ReadBadLow(hex: seq<char>, i: nat, j: nat, out: seq<byte>, cap: nat)
    requires Reading(hex, i, out, cap) && |out| < cap
    requires i < j < |hex| && IsHexDigit(hex[i]) && !IsHexTextChar(hex[j])
    requires Digits(hex, j) == Digits(hex, i + 1) && FirstBad(hex, j) == FirstBad(hex, i + 1)
    ensures HexDecoded(hex, cap) == None
  {
    DigitsNext(hex, i);
    FirstBadNext(hex, i);
  }

  /** The loop ends with the text read or the output full. */
  lemma ReadDone(hex: seq<char>, i: nat, out: seq<byte>, cap: nat)
    requires Reading(hex, i, out, cap) && (i == |hex| || |out| == cap)
    ensures HexDecoded(hex, cap) == Some(out)
  {
    if i < |hex| {
      StoppedWhenFull(hex, i, cap);
    }
  }

  // ---------------------------------------------------------------------
  // The imperative code

  /** The inner `while` of `decode_hex`: the first position at or after `i`
      that does not hold whitespace. Skipping adds no digit and does not pass
      a bad character. */
  method SkipSpaces(hex: seq<char>, i: nat) returns (j: nat)
    requires i <= |hex|
    ensures i <= j <= |hex| && (j < |hex| ==> !IsSpace(hex[j]))
    ensures Digits(hex, j) == Digits(hex, i)
    ensures FirstBad(hex, j) == FirstBad(hex, i)
  {
    j := i;
    while j < |hex| && IsSpace(hex[j])
      invariant i <= j <= |hex|
      invariant Digits(hex, j) == Digits(hex, i)
      invariant FirstBad(hex, j) == FirstBad(hex, i)
    {
      DigitsSkip(hex, j);
      j := j + 1;
    }
  }

  /** `decode_hex`, with the output array's length as `output_size`. The
      text is a C string: `strlen` ends it at its first NUL, so it holds none. */
  method DecodeHex(hex: seq<char>, output: array<byte>) returns (r: int)
    requires '\0' !in hex
    modifies output
    ensures HexDecoded(hex, output.Length).None? ==> r == -1
    ensures HexDecoded(hex, output.Length).Some? ==>
              r == |HexDecoded(hex, output.Length).value| &&
              output[..r] == HexDecoded(hex, output.Length).value
    ensures r >= 0 ==> output[r..] == old(output[r..])
  {
    ghost var init := output[..];
    ghost var written: seq<byte> := [];
    var hexLen := |hex|;
    var outputIdx := 0;
    var i := 0;
    while i < hexLen && outputIdx < output.Length
      invariant 0 <= i <= hexLen && outputIdx == |written| <= output.Length
      invariant Reading(hex, i, written, output.Length)
      invariant output[..] == written + init[outputIdx..]
      decreases hexLen - i
    {
      if IsSpace(hex[i]) {
        ReadSpace(hex, i, written, output.Length);
        i := i + 1;
        continue;
      }
      var high := HexCharToValue(hex[i]);
      if high < 0 {
        ReadBad(hex, i, written, output.Length);
        return -1;
      }
      var step;
      step, i, outputIdx, written := DecodePair(hex, i, high, output, outputIdx, written, init);
      if step == Fail {
        return -1;
      }
      if step == Stop {
        return outputIdx;
      }
    }
    ReadDone(hex, i, written, output.Length);
    assert output[..outputIdx] == written && output[outputIdx..] == init[outputIdx..];
    return outputIdx;
  }

  /** The rest of a pass of `decode_hex`'s loop once the digit at `first`
      (of value `high`) has been read: spaces are skipped, then the text
      ends (an odd number of digits: the byte is padded with 0 and decoding
      stops), or a second digit completes the byte, or an invalid character
      fails. */
  method DecodePair(hex: seq<char>, first: nat, high: int, output: array<byte>, outputIdx: nat,
                    ghost written: seq<byte>, ghost init: seq<byte>)
    returns (step: Step, i: nat, nextIdx: nat, ghost nextWritten: seq<byte>)
    requires Reading(hex, first, written, output.Length) && first < |hex| && IsHexDigit(hex[first])
    requires high == HexCharToValue(hex[first])
    requires outputIdx == |written| < output.Length == |init| && output[..] == written + init[outputIdx..]
    modifies output
    ensures step == Fail ==> HexDecoded(hex, output.Length) == None
    ensures step != Fail ==>
      nextIdx == outputIdx + 1 == |nextWritten| && output[..] == nextWritten + init[nextIdx..]
    ensures step == Stop ==>
      HexDecoded(hex, output.Length) == Some(nextWritten) &&
      output[..nextIdx] == nextWritten && output[nextIdx..] == init[nextIdx..]
    ensures step == Read ==> first < i <= |hex| && Reading(hex, i, nextWritten, output.Length)
  {
    nextIdx, nextWritten := outputIdx, written;
    i := SkipSpaces(hex, first + 1);
    if i >= |hex| {
      // odd number of hex digits: pad with 0, then `break` and return
      Put(output, outputIdx, PackByte(high, 0), written, init);
      ReadOdd(hex, first, written, output.Length);
      nextWritten := written + [PackByte(high, 0)];
      nextIdx := outputIdx + 1;
      assert output[..nextIdx] == nextWritten && output[nextIdx..] == init[nextIdx..];
      return Stop, i, nextIdx, nextWritten;
    }
    var low := HexCharToValue(hex[i]);
    if low < 0 {
      ReadBadLow(hex, first, i, written, output.Length);
      return Fail, i, nextIdx, nextWritten;
    }
    ReadPair(hex, first, i, written, output.Length);
    Put(output, outputIdx, PackByte(high, low), written, init);
    nextWritten := written + [PackByte(high, low)];
    nextIdx := outputIdx + 1;
    i := i + 1;
    step := Read;
  }

  /** `encode_hex`: writes two lowercase digits per byte and a NUL. */
  method EncodeHex(input: array<byte>, output: array<char>) returns (r: int)
    requires output.Length >= input.Length * 2 + 1
    modifies output
    ensures r == 0
    ensures output[..2 * input.Length] == HexEncode(input[..])
    ensures output[2 * input.Length] == '\0'
    ensures output[2 * input.Length + 1..] == old(output[2 * input.Length + 1..])
  {
    ghost var init := output[..];
    var i := 0;
    while i < input.Length
      invariant 0 <= i <= input.Length
      invariant output[..2 * i] == HexEncode(input[..i])
      invariant output[2 * i..] == init[2 * i..]
    {
      assert input[..i + 1][..i] == input[..i];
      WritePair(output, i * 2, input[i], init);
      i := i + 1;
    }
    assert input[..i] == input[..];
    ghost var last := output[..];
    output[2 * i] := '\0';
    assert output[..2 * i] == last[..2 * i];
    assert output[2 * i + 1..] == last[2 * i..][1..];
    return 0;
  }

  /** The body of `encode_hex`'s loop: the two digits of `x` go to
      `output[idx]` and `output[idx + 1]`. */
  method WritePair(output: array<char>, idx: nat, x: byte, ghost init: seq<char>)
    requires idx + 2 <= output.Length == |init| && output[idx..] == init[idx..]
    modifies output
    ensures output[..idx + 2] == old(output[..idx]) + HexPair(x)
    ensures output[idx + 2..] == init[idx + 2..]
  {
    output[idx] := ValueToHexChar((x / 16) % 16);
    output[idx + 1] := ValueToHexChar(x % 16);
    assert output[..idx + 2] == output[..idx] + [output[idx], output[idx + 1]];
    assert output[idx + 2..] == old(output[idx..])[2..];
  }

  // ---------------------------------------------------------------------
  // Worked examples

  /** The two bytes 0x4A 0xE1 are written as "4ae1". */
  lemma EncodeExample()
    ensures HexEncode([0x4A, 0xE1]) == "4ae1"
  {
    var b: seq<byte> := [0x4A, 0xE1];
    assert b[..1] == [0x4A] && b[..1][..0] == [];
    assert HexPair(0x4A) == "4a" && HexPair(0xE1) == "e1";
  }

  /** "4ae1" reads back as 0x4A 0xE1. */
  lemma DecodeExample()
    ensures HexDecoded("4ae1", 2) == Some([0x4A, 0xE1])
  {
    var s := "4ae1";
    assert FirstBad(s, 4) == 4 && FirstBad(s, 0) == 4;
    assert Digits(s, 4) == [4, 10, 14, 1];
    assert Pack([4, 10, 14, 1]) == [0x4A, 0xE1];
  }

  /** An odd final digit is the high nibble of a last byte: "4ae" reads as
      0x4A 0xE0. */
  lemma DecodeOddExample()
    ensures HexDecoded("4ae", 2) == Some([0x4A, 0xE0])
  {
    var s := "4ae";
    assert FirstBad(s, 3) == 3 && FirstBad(s, 0) == 3;
    assert Digits(s, 3) == [4, 10, 14];
    assert Pack([4, 10, 14]) == [0x4A, 0xE0];
  }
}
