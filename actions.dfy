/** The in-place byte transforms of `actions.c` other than RC4: Caesar
    rotation, ASCII upper- and lowercase, and repeating-key XOR. Each
    action rewrites `data[0..size)` in place and returns 0, or -1 for a
    missing key. */
module Actions {
  import opened Bytes

  predicate IsLower(c: int) {
    'a' as int <= c <= 'z' as int
  }

  predicate IsUpper(c: int) {
    'A' as int <= c <= 'Z' as int
  }

  // ---------------------------------------------------------------------
  // action_caesar

  /** C's `%` on `int`: the remainder takes the sign of the dividend. */
  function CRem(a: int, b: int): (r: int)
    requires b > 0
    ensures -b < r < b
    ensures a >= 0 ==> r >= 0
    ensures a < 0 ==> r <= 0
  {
    if a >= 0 then a % b else -((-a) % b)
  }

  /** `shift = shift % 26; if (shift < 0) shift += 26;` */
  function NormShift(shift: int): (s: int)
    ensures 0 <= s < 26
  {
    var r := CRem(shift, 26);
    if r < 0 then r + 26 else r
  }

  /** The rotation of one byte by `s` places within its case; any byte that
      is not an ASCII letter is kept. */
  function Rotate(c: byte, s: int): (d: byte)
    requires 0 <= s < 26
  {
    if IsLower(c) then ('a' as int + (c - 'a' as int + s) % 26)
    else if IsUpper(c) then ('A' as int + (c - 'A' as int + s) % 26)
    else c
  }

  /** What `action_caesar(data, size, shift)` leaves in `data`. */
  function Caesar(data: seq<byte>, shift: int): (r: seq<byte>)
    ensures |r| == |data|
  {
    seq(|data|, k requires 0 <= k < |data| => Rotate(data[k], NormShift(shift)))
  }

  /** The normalised shift is the shift modulo 26 in the mathematical
      sense, whatever the sign of the shift. */
  lemma NormShiftIsMod(shift: int)
    ensures NormShift(shift) == shift % 26
  {
    if shift < 0 {
      var q := (-shift) / 26;
      var m := (-shift) % 26;
      assert shift == -26 * q - m;
      if m == 0 {
        assert shift == 26 * (-q);
      } else {
        assert shift == 26 * (-q - 1) + (26 - m);
      }
    }
  }

  /** Rotation keeps letters in their case and every other byte fixed. */
  lemma RotateKeepsClass(c: byte, s: int)
    requires 0 <= s < 26
    ensures IsLower(Rotate(c, s)) <==> IsLower(c)
    ensures IsUpper(Rotate(c, s)) <==> IsUpper(c)
    ensures !IsLower(c) && !IsUpper(c) ==> Rotate(c, s) == c
  {
  }

  /** Rotating by `s` and then by `t` places, where `s + t` is a multiple of
      26, gives the byte back. */
  lemma {:induction false} RotateBack(c: byte, s: int, t: int)
    requires 0 <= s < 26 && 0 <= t < 26 && (s + t) % 26 == 0
    ensures Rotate(Rotate(c, s), t) == c
  {
    if IsLower(c) {
      RotateIndexBack(c - 'a' as int, s, t);
    } else if IsUpper(c) {
      RotateIndexBack(c - 'A' as int, s, t);
    }
  }

  lemma RotateIndexBack(x: int, s: int, t: int)
    requires 0 <= x < 26 && 0 <= s < 26 && 0 <= t < 26 && (s + t) % 26 == 0
    ensures ((x + s) % 26 + t) % 26 == x
  {
    assert s + t == 0 || s + t == 26;
    if x + s < 26 {
      assert (x + s) % 26 == x + s;
    } else {
      assert (x + s) % 26 == x + s - 26;
    }
  }

  /** `action_caesar` with `-shift` undoes `action_caesar` with `shift`. */
  lemma CaesarInverse(data: seq<byte>, shift: int)
    ensures Caesar(Caesar(data, shift), -shift) == data
  {
    var s, t := NormShift(shift), NormShift(-shift);
    NormShiftIsMod(shift);
    NormShiftIsMod(-shift);
    assert (s + t) % 26 == 0;
    forall k | 0 <= k < |data|
      ensures Caesar(Caesar(data, shift), -shift)[k] == data[k]
    {
      RotateBack(data[k], s, t);
    }
  }

  /** `action_caesar`: rotates every ASCII letter of `data` by `shift`
      places within its case and returns 0. */
  method ActionCaesar(data: array<byte>, shift: int) returns (r: int)
    modifies data
    ensures r == 0 && data[..] == Caesar(old(data[..]), shift)
  {
    ghost var d := data[..];
    var s := CRem(shift, 26);
    if s < 0 {
      s := s + 26;
    }
    var i := 0;
    while i < data.Length
      invariant 0 <= i <= data.Length
      invariant forall k :: 0 <= k < i ==> data[k] == Caesar(d, shift)[k]
      invariant forall k :: i <= k < data.Length ==> data[k] == d[k]
    {
      var c := data[i];
      assert c == d[i];
      if c >= 'a' as int && c <= 'z' as int {
        data[i] := 'a' as int + (c - 'a' as int + s) % 26;
      } else if c >= 'A' as int && c <= 'Z' as int {
        data[i] := 'A' as int + (c - 'A' as int + s) % 26;
      }
      i := i + 1;
    }
    assert data[..] == Caesar(d, shift);
    return 0;
  }

  // ---------------------------------------------------------------------
  // action_uppercase and action_lowercase (C locale)

  /** `toupper` applied to a byte in `a-z`; every other byte is kept. */
  function ToUpper(c: byte): (u: byte)
    ensures !IsLower(u)
    ensures u != c <==> IsLower(c)
    ensures IsLower(c) ==> u == c - 32 && IsUpper(u)
  {
    if IsLower(c) then c - 32 else c
  }

  /** `tolower` applied to a byte in `A-Z`; every other byte is kept. */
  function ToLower(c: byte): (l: byte)
    ensures !IsUpper(l)
    ensures l != c <==> IsUpper(c)
    ensures IsUpper(c) ==> l == c + 32 && IsLower(l)
  {
    if IsUpper(c) then c + 32 else c
  }

  function Uppercase(data: seq<byte>): (r: seq<byte>)
    ensures |r| == |data|
  {
    seq(|data|, k requires 0 <= k < |data| => ToUpper(data[k]))
  }

  function Lowercase(data: seq<byte>): (r: seq<byte>)
    ensures |r| == |data|
  {
    seq(|data|, k requires 0 <= k < |data| => ToLower(data[k]))
  }

  /** After `action_uppercase` no byte is in `a-z`; exactly the bytes that
      were in `a-z` changed. */
  lemma UppercaseChanges(data: seq<byte>)
    ensures forall k :: 0 <= k < |data| ==> !IsLower(Uppercase(data)[k])
    ensures forall k :: 0 <= k < |data| ==> (Uppercase(data)[k] != data[k] <==> IsLower(data[k]))
  {
  }

  /** After `action_lowercase` no byte is in `A-Z`; exactly the bytes that
      were in `A-Z` changed. */
  lemma LowercaseChanges(data: seq<byte>)
    ensures forall k :: 0 <= k < |data| ==> !IsUpper(Lowercase(data)[k])
    ensures forall k :: 0 <= k < |data| ==> (Lowercase(data)[k] != data[k] <==> IsUpper(data[k]))
  {
  }

  lemma UppercaseIdempotent(data: seq<byte>)
    ensures Uppercase(Uppercase(data)) == Uppercase(data)
  {
  }

  lemma LowercaseIdempotent(data: seq<byte>)
    ensures Lowercase(Lowercase(data)) == Lowercase(data)
  {
  }

  /** Case folding forgets the case: lowercasing an uppercased buffer is the
      same as lowercasing the original, and the other way round. */
  lemma CaseFolding(data: seq<byte>)
    ensures Lowercase(Uppercase(data)) == Lowercase(data)
    ensures Uppercase(Lowercase(data)) == Uppercase(data)
  {
  }

  /** `action_uppercase`: every byte in `a-z` becomes its uppercase letter. */
  method ActionUppercase(data: array<byte>) returns (r: int)
    modifies data
    ensures r == 0 && data[..] == Uppercase(old(data[..]))
  {
    ghost var d := data[..];
    var i := 0;
    while i < data.Length
      invariant 0 <= i <= data.Length
      invariant forall k :: 0 <= k < i ==> data[k] == Uppercase(d)[k]
      invariant forall k :: i <= k < data.Length ==> data[k] == d[k]
    {
      assert data[i] == d[i];
      if data[i] >= 'a' as int && data[i] <= 'z' as int {
        data[i] := data[i] - 32;
      }
      i := i + 1;
    }
    assert data[..] == Uppercase(d);
    return 0;
  }

  /** `action_lowercase`: every byte in `A-Z` becomes its lowercase letter. */
  method ActionLowercase(data: array<byte>) returns (r: int)
    modifies data
    ensures r == 0 && data[..] == Lowercase(old(data[..]))
  {
    ghost var d := data[..];
    var i := 0;
    while i < data.Length
      invariant 0 <= i <= data.Length
      invariant forall k :: 0 <= k < i ==> data[k] == Lowercase(d)[k]
      invariant forall k :: i <= k < data.Length ==> data[k] == d[k]
    {
      assert data[i] == d[i];
      if data[i] >= 'A' as int && data[i] <= 'Z' as int {
        data[i] := data[i] + 32;
      }
      i := i + 1;
    }
    assert data[..] == Lowercase(d);
    return 0;
  }

  // ---------------------------------------------------------------------
  // action_xor

  /** The key repeated to the length of `data`: `key[i % key_len]`. */
  function RepeatedKey(key: seq<byte>, n: nat): (ks: seq<byte>)
    requires |key| > 0
    ensures |ks| == n
  {
    seq(n, k requires 0 <= k < n => key[k % |key|])
  }

  /** What `action_xor(data, size, key)` leaves in `data`. */
  function XorWithKey(data: seq<byte>, key: seq<byte>): (r: seq<byte>)
    requires |key| > 0
    ensures |r| == |data|
  {
    XorAll(data, RepeatedKey(key, |data|))
  }

  /** XOR with the same key twice restores the data. */
  lemma XorWithKeyTwice(data: seq<byte>, key: seq<byte>)
    requires |key| > 0
    ensures XorWithKey(XorWithKey(data, key), key) == data
  {
    XorAllTwice(data, RepeatedKey(key, |data|));
  }

  /** `action_xor`: a missing key (null or the empty string, both
      `[]` here) gives -1 and leaves `data` alone; otherwise byte `i` is
      XORed with `key[i % key_len]` and the result is 0. */
  method ActionXor(data: array<byte>, key: seq<byte>) returns (r: int)
    modifies data
    ensures r == -1 <==> |key| == 0
    ensures r == -1 ==> data[..] == old(data[..])
    ensures |key| > 0 ==> r == 0 && data[..] == XorWithKey(old(data[..]), key)
  {
    if |key| == 0 {
      return -1;
    }
    ghost var d := data[..];
    var i := 0;
    while i < data.Length
      invariant 0 <= i <= data.Length
      invariant forall k :: 0 <= k < i ==> data[k] == XorWithKey(d, key)[k]
      invariant forall k :: i <= k < data.Length ==> data[k] == d[k]
    {
      assert data[i] == d[i];
      data[i] := Xor(data[i], key[i % |key|]);
      i := i + 1;
    }
    assert data[..] == XorWithKey(d, key);
    return 0;
  }

  // ---------------------------------------------------------------------
  // Worked examples

  /** The bytes of a text, one per character. */
  function Ascii(s: string): (b: seq<byte>)
    requires forall k :: 0 <= k < |s| ==> s[k] as int < 256
    ensures |b| == |s|
  {
    seq(|s|, k requires 0 <= k < |s| => s[k] as int)
  }

  /** "abc XYZ" shifted by 3 is "def ABC": letters wrap within their case
      and the space is kept. */
  lemma CaesarExample()
    ensures Caesar(Ascii("abc XYZ"), 3) == Ascii("def ABC")
  {
    var d, e := Ascii("abc XYZ"), Ascii("def ABC");
    assert NormShift(3) == 3;
    forall k | 0 <= k < 7
      ensures Caesar(d, 3)[k] == e[k]
    {
    }
  }

  /** A two-byte key repeats over four bytes. */
  lemma XorExample()
    ensures XorWithKey([1, 2, 3, 4], [0x41, 0x42]) == [0x40, 0x40, 0x42, 0x46]
  {
    Xor01With41();
    Xor02With42();
    Xor03With41();
    Xor04With42();
    var r := XorWithKey([1, 2, 3, 4], [0x41, 0x42]);
    assert r[0] == 0x40 && r[1] == 0x40 && r[2] == 0x42 && r[3] == 0x46;
  }
}
