# Byte codecs and byte transforms of a small C conversion tool

This project models and verifies the two byte-level cores of a command-line
tool that converts between data formats and transforms buffers in place.

- **`src/encoders.c`: the format codecs.**
  - Base16. The encoder writes lowercase hex. The decoder accepts either
    case and skips whitespace. It pads an odd final digit with a zero low
    nibble, and stops without error once the output is full.
  - Base64 with the alphabet of section 4 of RFC 4648. The decoder is a
    6-bit accumulator that stops at the first `=`. The encoder works in
    groups of up to three bytes and pads with `=`.
- **`src/actions.c`: the in-place transforms.**
  - Caesar rotation.
  - The RC4 stream cipher: key schedule, keystream generator, and the
    action that XORs the keystream into the data.
  - ASCII uppercase and lowercase.
  - Repeating-key XOR.

Every C function that loops over a buffer is a Dafny `method` with the
same loop. Each method is proved against a specification function over
sequences, and the promised properties are proved as lemmas about those
functions:

- the hex round trip of this program's own lowercase format, and the
  RFC 4648 base64 round trip;
- RC4's permutation invariant and self-inverse cipher;
- the Caesar inverse;
- idempotent case mapping;
- the XOR self-inverse.

Modules:

| file | module | contents |
|---|---|---|
| `bytes.dfy` | `Bytes` | `byte`, `Option`, C-locale `isspace`, `>>` on unsigned values, the `^` operator with a few worked values, the outcome of one turn of a decoding loop, and a one-element array write |
| `bits.dfy` | `Bits` | bit strings, the reference view in which base64 regroups 8-bit bytes into 6-bit values |
| `hex.dfy` | `Hex` | `hex_char_to_value`, `value_to_hex_char`, `decode_hex`, `encode_hex` |
| `base64.dfy` | `Base64` | `base64_table`, `base64_char_to_value`, `decode_base64`, `encode_base64` |
| `base64_laws.dfy` | `Base64Laws` | the RFC 4648 encoding, its round trip, and how `encode_base64` departs from it |
| `actions.dfy` | `Actions` | `action_caesar`, `action_uppercase`, `action_lowercase`, `action_xor` |
| `rc4.dfy` | `Rc4` | `rc4_ksa`, `rc4_prga`, `action_rc4` |

How the C interface maps onto the model:

- A C buffer and its size are an `array` and its `Length`. The output
  capacity `output_size` is the output array's length.
- A NUL-terminated input string is a `seq<char>` with no NUL, so `strlen`
  is its length.
- A key is a `seq<byte>`. A null key and an empty key are both `[]`.
- Every failure is the single return code -1. In the specification
  functions it appears as `None`.

## Model

| member | source | states |
|---|---|---|
| Hex.HexCharToValue | src/encoders.c:12-21 | the value of a character is -1 or lies in 0..15 |
| Hex.HexDigitChars | src/encoders.c:12-21 | a character has a value exactly when it is `0-9`, `a-f` or `A-F` |
| Hex.ValueToHexChar | src/encoders.c:23-30 | the result is `?` exactly when the value is outside 0..15 |
| Hex.ValueToHexCharInverse | src/encoders.c:12-30 | a value in 0..15 is written as a non-capital digit that reads back as that value |
| Hex.HexCharToValueInverse | src/encoders.c:12-30 | reading a digit and writing its value gives the digit in lowercase |
| Hex.SkipSpaces | src/encoders.c:46-48 | the whitespace-skipping loop stops at the first non-space or the end, and passes no digit and no bad character |
| Hex.DecodeHex | src/encoders.c:32-61 | returns -1 exactly when `HexDecoded` fails: a non-space, non-hex character is reached while the output has room. Otherwise it returns the byte count `r` and `output[..r]` holds the decoded bytes: digit pairs high nibble first, an odd final digit padded with zero, cut to the capacity. Every byte from index `r` on is left as it was |
| Hex.DecodePair | src/encoders.c:45-58 | after a high digit: skips whitespace, then either pads an odd final digit and stops with the whole result, fails on a bad low digit (so `HexDecoded` fails), or stores the pair and goes on reading. A stored byte goes at `output_idx` and nothing after it changes |
| Hex.HexDecodedWithinCapacity | src/encoders.c:37-60 | the decoder never produces more bytes than the output holds |
| Hex.HexDecodeStopsWhenFull | src/encoders.c:37-60 | once the digits for `cap` bytes are read, decoding succeeds whatever follows, even characters that are not hex |
| Hex.EncodeHex | src/encoders.c:63-70 | returns 0, writes the `2n` characters of `HexEncode` and a NUL at index `2n`, and leaves every character after the NUL as it was |
| Hex.WritePair | src/encoders.c:65-66 | one turn of the loop appends the two digits of the byte at `2i` and `2i + 1` and changes nothing after them |
| Hex.HexEncodeAt | src/encoders.c:64-67 | index `2i` holds the high nibble and `2i + 1` the low nibble of byte `i`, as lowercase digits |
| Hex.EncodeExample | src/encoders.c:63-70 | the bytes `4A E1` are written as `4ae1` |
| Hex.DecodeExample | src/encoders.c:32-61 | `4ae1` with room for two bytes decodes to `4A E1` |
| Hex.DecodeOddExample | src/encoders.c:49-52 | `4ae` decodes to `4A E0`: the odd final digit gets a zero low nibble |
| Hex.HexRoundTrip | src/encoders.c:32-70 | decoding the encoding of `b` with capacity at least the length of `b` gives back exactly `b`, so the count is that length |
| Base64.Base64CharToValue | src/encoders.c:76-91 | the value lies in -2..63 and is -2 exactly for `=` |
| Base64.Base64Chars | src/encoders.c:76-91 | the alphabet is exactly the letters, the digits, `+` and `/`; whitespace maps to -1 |
| Base64.TableCharIsTable | src/encoders.c:73-74 | the computed table character equals the entry of the 64-character literal |
| Base64.TableInverse | src/encoders.c:73-91 | looking a value up in the table and converting the character back gives the value |
| Base64.TableOnto | src/encoders.c:73-91 | converting an alphabet character to its value and looking it up gives the character |
| Base64.Base64DecodedLength | src/encoders.c:98-119 | after `k` alphabet characters before the first `=`, decoding gives `6k / 8` bytes, rounded down, within the capacity |
| Base64.Base64IgnoresTail | src/encoders.c:106-108 | nothing after the first `=` changes the result, valid or not |
| Base64.DecodeBase64 | src/encoders.c:93-120 | returns -1 exactly when `Base64Decoded` fails: an invalid character before the first `=`, or more bytes than fit. Otherwise returns the count `r`, and `output[..r]` holds the bytes whose bits are the bits of the values read. Every byte from index `r` on is left as it was. The loop keeps fewer than eight bits pending |
| Base64.DecodeChar | src/encoders.c:99-117 | one turn of the loop over character `i` either fails (so `Base64Decoded` fails), stops at an `=`, or goes on with the decoded prefix grown. A byte it stores lands at `output_idx` and nothing after it changes |
| Base64.ShiftIn | src/encoders.c:109-117 | shifting in an alphabet value never stops the loop. When it fails (a byte is due and the output is full), `Base64Decoded` fails too. Otherwise the decoded prefix and the pending bits go on to the next character, fewer than eight bits pending, and nothing past the prefix changes |
| Base64.EmitByte | src/encoders.c:115-116 | the byte stored extends the decoded prefix by one byte, the decoding invariant holds at the next character with eight fewer bits pending, and nothing after the stored byte changes |
| Base64.DecodePaddedExample | src/encoders.c:93-120 | `TW==` with room for one byte decodes to `4D`: the first `=` ends the text |
| Base64.DecodeGroupExample | src/encoders.c:93-120 | `TWFu` decodes to `4D 61 6E`: four values give three whole bytes |
| Base64.BuildBuffer | src/encoders.c:133-135 | the group loop leaves the group's bytes in `buffer` as one big-endian number |
| Base64.WriteGroup | src/encoders.c:138-151 | exactly four characters are appended at `output_idx`: `chars_to_write` table characters of `buffer >> (3 - j) * 6`, then `=` padding. Nothing after them changes |
| Base64.EncodeGroup | src/encoders.c:129-151 | one pass of the outer loop appends the four characters of group `g` to the text written so far, and changes nothing after them |
| Base64.EncodeBase64 | src/encoders.c:122-155 | returns -1 exactly when the input is non-empty and the output holds at most `4 * ceil(n / 3)` characters. Otherwise returns `4 * ceil(n / 3)`, writes `EncodeAsWritten` and a NUL after it, and leaves every character after the NUL as it was; an empty input gives 0 |
| Base64Laws.GroupValueBound | src/encoders.c:129-135 | a group's buffer is below `2^(8m)`, so it fits the 32-bit `buffer` |
| Base64Laws.EncodeShape | src/encoders.c:122-155 | the RFC 4648 text of `b` is the table characters of some 6-bit values then `=` padding; those values' bits are the bits of `b`, then fewer than six zero bits. By `n % 3` = 0, 1, 2 the padding is 0, 2, 1 characters and the zero bits 0, 4, 2 |
| Base64Laws.Base64RoundTrip | src/encoders.c:93-155 | decoding the RFC 4648 text of `b` with capacity `cap` gives `b` when it fits in `cap` bytes, and -1 otherwise |
| Base64Laws.FullGroupsAgree | src/encoders.c:125-152 | for full groups the text as written equals the RFC 4648 text |
| Base64Laws.AsWrittenWhenFull | src/encoders.c:93-155 | when `n` is a multiple of three, `encode_base64` writes the RFC 4648 text, and decoding it gives the input back |
| Base64Laws.AsWrittenOneByteTail | src/encoders.c:130-145 | for every input whose length is one more than a multiple of three, `encode_base64` ends its text with `AA==`, whatever the last byte is |
| Base64Laws.AsWrittenOneByte | src/encoders.c:133-145 | a one-byte input is encoded as `AA==`, whatever the byte |
| Base64Laws.EncodeThreeExample | src/encoders.c:125-151 | `Man` (`4D 61 6E`) is `TWFu`, both in the RFC 4648 layout and as `encode_base64` writes it |
| Base64Laws.EncodeTwoExample | src/encoders.c:138-151 | in the RFC 4648 layout the two bytes `4D 61` (`Ma`) give `TWE=`: three characters and one `=` |
| Base64Laws.AsWrittenTwoBytes | src/encoders.c:133-151 | `encode_base64` writes `4D 61` as `AE1=`, not the RFC 4648 text `TWE=`: a two-byte final group is read from bit 18 down too |
| Base64Laws.DecodeAA | src/encoders.c:93-120 | `AA==` decodes to the single byte 0 |
| Base64Laws.AsWrittenLosesByte | src/encoders.c:133-145 | for every non-zero byte `x`, the text written for `[x]` decodes to `[0]`, not `[x]`, and differs from the RFC 4648 text |
| Actions.CRem | src/actions.c:14 | C's `%`: the remainder is below the divisor in magnitude and takes the dividend's sign |
| Actions.NormShift | src/actions.c:14-17 | the normalised shift is in 0..25 |
| Actions.NormShiftIsMod | src/actions.c:14-17 | the normalised shift is the shift modulo 26 in the mathematical sense, for either sign |
| Actions.RotateKeepsClass | src/actions.c:19-23 | rotation keeps `a-z` in `a-z` and `A-Z` in `A-Z`, and leaves every other byte unchanged |
| Actions.RotateBack | src/actions.c:19-23 | rotating by `s` and then by `t`, with `s + t` a multiple of 26, gives the byte back |
| Actions.CaesarInverse | src/actions.c:12-26 | the Caesar rotation by `-shift` undoes the rotation by `shift` (and neither changes the length) |
| Actions.ActionCaesar | src/actions.c:12-26 | returns 0 and leaves `data` rotated byte by byte as `Caesar` says |
| Actions.CaesarExample | src/actions.c:12-26 | `abc XYZ` shifted by 3 is `def ABC`: letters wrap within their case and the space is kept |
| Actions.ToUpper | src/actions.c:72-73 | the result is never in `a-z`; it differs from the byte exactly when the byte is in `a-z`, and is then the byte minus 32, a capital |
| Actions.ToLower | src/actions.c:81-82 | the result is never in `A-Z`; it differs from the byte exactly when the byte is in `A-Z`, and is then the byte plus 32, a small letter |
| Actions.UppercaseChanges | src/actions.c:70-77 | after uppercasing no byte is in `a-z`, and exactly the bytes in `a-z` changed |
| Actions.LowercaseChanges | src/actions.c:79-86 | after lowercasing no byte is in `A-Z`, and exactly the bytes in `A-Z` changed |
| Actions.UppercaseIdempotent | src/actions.c:70-77 | uppercasing twice is uppercasing once |
| Actions.LowercaseIdempotent | src/actions.c:79-86 | lowercasing twice is lowercasing once |
| Actions.CaseFolding | src/actions.c:70-86 | lowercasing after uppercasing is lowercasing, and the other way round |
| Actions.ActionUppercase | src/actions.c:70-77 | returns 0 and leaves `data` uppercased as `Uppercase` says |
| Actions.ActionLowercase | src/actions.c:79-86 | returns 0 and leaves `data` lowercased as `Lowercase` says |
| Bytes.XorTwice | src/actions.c:94 | XOR with the same byte twice gives the byte back |
| Actions.XorWithKeyTwice | src/actions.c:93-95 | XOR with the repeated key twice restores the data |
| Actions.ActionXor | src/actions.c:88-97 | returns -1 exactly for an empty key, and then leaves `data` unchanged. For any non-empty key it returns 0, and `data[i]` is XORed with `key[i % key_len]` |
| Actions.XorExample | src/actions.c:93-95 | the bytes `01 02 03 04` XORed with the key `AB` become `40 40 42 46`: the key repeats from its start |
| Rc4.IdentityIsPermutation | src/actions.c:30-32 | the starting table `S[i] = i` is a permutation of 0..255 |
| Rc4.FillIdentity | src/actions.c:30-32 | the first loop leaves `S[i] = i` everywhere |
| Rc4.SwapPermutation | src/actions.c:37-39 | swapping two entries of a permutation gives a permutation |
| Rc4.KsaStep | src/actions.c:36-39 | one step of the scrambling loop sets `j` to `(j + S[i] + key[i % key_len]) % 256`, swaps `S[i]` and `S[j]` and changes nothing else in `S`; the rest of the schedule from there ends where the whole schedule would |
| Rc4.KsaFromPermutation | src/actions.c:35-40 | the scrambling loop keeps the table a permutation |
| Rc4.Ksa | src/actions.c:29-41 | the key schedule leaves `S` equal to `KeySchedule(key)` |
| Rc4.KeySchedulePermutation | src/actions.c:29-41 | after the key schedule, `S` is a permutation of 0..255 |
| Rc4.Next | src/actions.c:45-49 | a generator step keeps `i` and `j` in 0..255 and the table at 256 entries |
| Rc4.NextPermutation | src/actions.c:44-52 | a generator step keeps `S` a permutation |
| Rc4.Prga | src/actions.c:44-52 | the step updates `S`, `*i` and `*j` to `Next` of the old state and returns `Output` of it, `S[(S[i] + S[j]) % 256]` after the swap |
| Rc4.AfterPermutation | src/actions.c:60-66 | every state the generator reaches from the key schedule holds a permutation |
| Rc4.KeystreamPrefix | src/actions.c:63-66 | the keystream depends only on the key: drawing fewer bytes gives a prefix of the same stream |
| Rc4.CipherStep | src/actions.c:64-65 | one loop turn draws keystream byte `k` and XORs it into `data[k]`, moving the boundary between output and input by one |
| Rc4.Rc4Prefix | src/actions.c:63-66 | encrypting a prefix gives the prefix of the encryption |
| Rc4.Rc4Twice | src/actions.c:54-68 | applying the cipher twice with the same key restores the data |
| Rc4.ActionRc4 | src/actions.c:54-68 | returns -1 exactly for an empty key, and then leaves `data` unchanged. For any non-empty key it returns 0, and byte `k` is XORed with keystream byte `k` of the key |

## Left out

- Base64.DecodeBase64: `int buffer` is an unbounded natural number here, so
  the signed overflow of `buffer << 6` on long inputs is not modelled.
  The loop invariant constrains only the low `bits_collected` bits of
  `buffer`, and only those bits are ever emitted. That a 32-bit `int`
  would hold the same low bits after it overflows is an argument, not a
  proof: in C that overflow is undefined behaviour.
- Base64.EncodeBase64: `uint32_t buffer` is a natural number too.
  `Base64Laws.GroupValueBound` shows it stays below 2^24, so nothing
  wraps.
- Base64.EncodeBase64 requires a non-empty input or a non-empty output.
  With both empty, the source writes its NUL at `output[0]` outside the
  buffer, which the model cannot represent.
- `>>` on a non-negative value is `Bytes.Shr` (halving), and `& 0x3F` and
  `& 0xFF` are `% 64` and `% 256`.
- Hex.EncodeHex requires room for `2n + 1` characters. That is the capacity
  documented for `encode_hex` in `include/encoders.h`; the C code does not
  check it.
- `base64_table` is a constant of the same 64 characters. The encoder reads
  it through `Base64.TableChar`, a computed form that
  `Base64.TableCharIsTable` proves equal to the constant.
- The loop bodies of `encode_base64`, `rc4_ksa` and `action_rc4` are split
  into helper methods: `BuildBuffer`, `WriteGroup`, `EncodeGroup`,
  `FillIdentity`, `KsaStep` and `CipherStep`. These do in order exactly
  what the inline loops do.
- Hex.DecodeHex, Base64.DecodeBase64 and Base64.EncodeBase64 return
  `(int)output_idx` (src/encoders.c:60, 119 and 154). The model returns the
  count as an unbounded integer, so a count above `INT_MAX`, which C
  would convert in an implementation-defined way, is not modelled.
- Hex.DecodeHex and Base64.DecodeBase64 require a text without NUL: the C
  text is a string whose length `strlen` takes, so it ends at the first
  NUL.
- The loop bodies of `decode_hex` and `decode_base64` are split into helper
  methods too: `DecodePair`, and `DecodeChar` with `ShiftIn` and
  `EmitByte`. Each returns a `Step` that says whether the loop reads on,
  ends (`break` or the return that ends the text) or returns -1.
- What the output holds after a -1 return is left unspecified, as in the
  source. Only the -1 is modelled.
- No RFC 6229 key stream is included: evaluating 256 key-schedule swaps
  is beyond what the verifier handles in reasonable time.
- Actions.ActionCaesar: `shift` is an unbounded integer. The C `int` is
  assumed already parsed (by `atoi` in `src/processor.c`, which is not part
  of this model). Actions.CaesarInverse likewise ignores that `-shift`
  overflows for `INT_MIN`.
- Actions.ActionXor and Rc4.ActionRc4 take the key as bytes. In the source,
  the key comes from `strlen` and so holds no zero byte. Nothing in the
  model depends on that, so any bytes are allowed.
- `toupper` and `tolower` have their C-locale meaning: minus or plus 32 on
  ASCII letters. Locales are not modelled.
- Hex.DecodeHex and Base64.DecodeBase64: `isspace` has its C-locale
  meaning: space, `\t`, `\n`, `\v`, `\f`, `\r`.
- File I/O, argument parsing, action dispatch and exit codes
  (`src/file_io.c`, `src/args.c`, `src/processor.c`, `src/main.c`) are not
  part of this model.

## Findings

| source | as written | input that shows it | evidently intended | confidence | as-written member | corrected member |
|---|---|---|---|---|---|---|
| src/encoders.c:133-145 | a short final group of `m` bytes is built in the low `8m` bits of `buffer`, and its characters are read from bits 18, 12, 6 and 0 anyway | the one-byte input `[0x4D]` is encoded as `AA==`, which decodes to `[0x00]`, and every input of length `3k + 1` ends in `AA==`; the two bytes `4D 61` are written `AE1=` instead of `TWE=` | move the group to the top of 24 bits (`buffer << 8 * (3 - m)`), as section 4 of RFC 4648 lays it out; then `[0x4D]` is `TQ==` and every input round-trips | high; not executed | Base64.EncodeAsWritten, Base64Laws.AsWrittenOneByteTail, Base64Laws.AsWrittenLosesByte, Base64Laws.AsWrittenTwoBytes | Base64.Base64Encode, Base64Laws.Base64RoundTrip, Base64Laws.EncodeTwoExample |
