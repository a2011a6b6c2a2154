/** RC4 (ARCFOUR) as `actions.c` implements it: the key schedule
    `rc4_ksa`, the keystream step `rc4_prga` and `action_rc4`, which XORs
    the data with the keystream in place. */
module Rc4 {
  import opened Bytes

  /** The table `S[i] = i` the key schedule starts from. */
  function Identity(): (s: seq<byte>)
    ensures |s| == 256
  {
    seq(256, k requires 0 <= k < 256 => k)
  }

  /** `S` has 256 entries and every byte value among them, so each value
      once: a permutation of 0..255. */
  ghost predicate IsPermutation(s: seq<byte>) {
    |s| == 256 && forall v: byte :: v in s
  }

  lemma IdentityIsPermutation()
    ensures IsPermutation(Identity())
  {
    forall v: byte
      ensures v in Identity()
    {
      assert Identity()[v] == v;
    }
  }

  /** `temp = S[a]; S[a] = S[b]; S[b] = temp;` */
  function Swap(s: seq<byte>, a: nat, b: nat): (t: seq<byte>)
    requires a < |s| && b < |s|
    ensures |t| == |s|
  {
    s[a := s[b]][b := s[a]]
  }

  /** A swap moves values around and loses none. */
  lemma SwapKeepsValues(s: seq<byte>, a: nat, b: nat)
    requires a < |s| && b < |s|
    ensures forall v :: v in s ==> v in Swap(s, a, b)
  {
    var t := Swap(s, a, b);
    forall v | v in s
      ensures v in t
    {
      var k :| 0 <= k < |s| && s[k] == v;
      if k == a {
        assert t[b] == v;
      } else if k == b {
        assert t[a] == v;
      } else {
        assert t[k] == v;
      }
    }
  }

  /** Swapping two entries of a permutation gives a permutation. */
  lemma SwapPermutation(s: seq<byte>, a: nat, b: nat)
    requires IsPermutation(s) && a < 256 && b < 256
    ensures IsPermutation(Swap(s, a, b))
  {
    SwapKeepsValues(s, a, b);
  }

  // ---------------------------------------------------------------------
  // rc4_ksa

  /** `(uint8_t)key[i % key_len]`: the key repeated. */
  function KeyAt(key: seq<byte>, i: nat): byte
    requires |key| > 0
  {
    key[i % |key|]
  }

  /** The key schedule's second loop from step `i` on, `j` as the previous
      step left it: `j = (j + S[i] + key[i % key_len]) % 256`, then swap
      `S[i]` and `S[j]`. */
  function KsaFrom(key: seq<byte>, s: seq<byte>, i: nat, j: nat): (t: seq<byte>)
    requires |key| > 0 && |s| == 256 && i <= 256 && j < 256
    ensures |t| == 256
    decreases 256 - i
  {
    if i == 256 then s
    else
      var j' := (j + s[i] + KeyAt(key, i)) % 256;
      KsaFrom(key, Swap(s, i, j'), i + 1, j')
  }

  /** The table `rc4_ksa` leaves for `key`: a permutation of 0..255. */
  function KeySchedule(key: seq<byte>): (s: seq<byte>)
    requires |key| > 0
    ensures |s| == 256
  {
    KsaFrom(key, Identity(), 0, 0)
  }

  /** Each step of the key schedule keeps the table a permutation. */
  lemma {:induction false} KsaFromPermutation(key: seq<byte>, s: seq<byte>, i: nat, j: nat)
    requires |key| > 0 && IsPermutation(s) && i <= 256 && j < 256
    ensures IsPermutation(KsaFrom(key, s, i, j))
    decreases 256 - i
  {
    if i < 256 {
      var j' := (j + s[i] + KeyAt(key, i)) % 256;
      SwapPermutation(s, i, j');
      KsaFromPermutation(key, Swap(s, i, j'), i + 1, j');
    }
  }

  /** After `rc4_ksa`, `S` is a permutation of 0..255. */
  lemma KeySchedulePermutation(key: seq<byte>)
    requires |key| > 0
    ensures IsPermutation(KeySchedule(key))
  {
    IdentityIsPermutation();
    KsaFromPermutation(key, Identity(), 0, 0);
  }

  /** `rc4_ksa`'s first loop: `S[i] = i` for every `i`. */
  method FillIdentity(S: array<byte>)
    requires S.Length == 256
    modifies S
    ensures S[..] == Identity()
  {
    for i := 0 to 256
      invariant forall k :: 0 <= k < i ==> S[k] == k
    {
      S[i] := i;
    }
  }

  /** One step of `rc4_ksa`'s second loop: the new `j`, then the swap of
      `S[i]` and `S[j]`; what is left of the schedule then ends where the
      whole of it would have. */
  method KsaStep(key: seq<byte>, S: array<byte>, i: nat, j: nat) returns (j': nat)
    requires |key| > 0 && S.Length == 256 && i < 256 && j < 256
    modifies S
    ensures j' == (j + old(S[i]) + KeyAt(key, i)) % 256 && j' < 256
    ensures S[..] == Swap(old(S[..]), i, j')
    ensures KsaFrom(key, S[..], i + 1, j') == KsaFrom(key, old(S[..]), i, j)
  {
    ghost var s := S[..];
    j' := (j + S[i] + KeyAt(key, i)) % 256;
    ghost var t := Swap(s, i, j');
    assert KsaFrom(key, s, i, j) == KsaFrom(key, t, i + 1, j');
    var temp := S[i];
    S[i] := S[j'];
    S[j'] := temp;
    assert S[..] == t;
  }

  /** `rc4_ksa`: fills `S` with the identity and then scrambles it with the
      key. */
  method Ksa(key: seq<byte>, S: array<byte>)
    requires |key| > 0 && S.Length == 256
    modifies S
    ensures S[..] == KeySchedule(key)
  {
    FillIdentity(S);
    var j := 0;
    for i := 0 to 256
      invariant j < 256
      invariant KsaFrom(key, S[..], i, j) == KeySchedule(key)
    {
      j := KsaStep(key, S, i, j);
    }
  }

  // ---------------------------------------------------------------------
  // rc4_prga

  /** The generator's state: the table `S` and the indices `*i` and `*j`. */
  datatype State = State(s: seq<byte>, i: nat, j: nat)

  predicate Valid(st: State) {
    |st.s| == 256 && st.i < 256 && st.j < 256
  }

  /** The state after one `rc4_prga` step: the indices stay in 0..255 and
      the table keeps its values. */
  function Next(st: State): (n: State)
    requires Valid(st)
    ensures Valid(n)
  {
    var i := (st.i + 1) % 256;
    var j := (st.j + st.s[i]) % 256;
    State(Swap(st.s, i, j), i, j)
  }

  /** An `rc4_prga` step keeps the table a permutation. */
  lemma NextPermutation(st: State)
    requires Valid(st) && IsPermutation(st.s)
    ensures IsPermutation(Next(st).s)
  {
    var i := (st.i + 1) % 256;
    SwapPermutation(st.s, i, (st.j + st.s[i]) % 256);
  }

  /** The byte one `rc4_prga` step returns: `S[(S[i] + S[j]) % 256]` of the
      table after the swap. */
  function Output(st: State): byte
    requires Valid(st)
  {
    var n := Next(st);
    n.s[(n.s[n.i] as int + n.s[n.j]) % 256]
  }

  /** `rc4_prga`: `S` and the indices, passed by address in the source, are
      updated in place and returned. */
  method Prga(S: array<byte>, i: nat, j: nat) returns (i': nat, j': nat, k: byte)
    requires S.Length == 256 && i < 256 && j < 256
    modifies S
    ensures State(S[..], i', j') == Next(State(old(S[..]), i, j))
    ensures k == Output(State(old(S[..]), i, j))
  {
    ghost var s := S[..];
    i' := (i + 1) % 256;
    j' := (j + S[i']) % 256;
    var temp := S[i'];
    S[i'] := S[j'];
    S[j'] := temp;
    assert S[..] == Swap(s, i', j');
    var t := (S[i'] as int + S[j']) % 256;
    k := S[t];
  }

  // ---------------------------------------------------------------------
  // action_rc4

  /** The generator after `n` steps from the scheduled table and `i = j = 0`. */
  function After(key: seq<byte>, n: nat): (st: State)
    requires |key| > 0
    ensures Valid(st)
  {
    if n == 0 then State(KeySchedule(key), 0, 0) else Next(After(key, n - 1))
  }

  /** Every state the generator reaches holds a permutation. */
  lemma {:induction false} AfterPermutation(key: seq<byte>, n: nat)
    requires |key| > 0
    ensures IsPermutation(After(key, n).s)
  {
    if n == 0 {
      KeySchedulePermutation(key);
    } else {
      var m := n - 1;
      AfterPermutation(key, m);
      NextPermutation(After(key, m));
    }
  }

  /** The first `n` keystream bytes of `key`: byte `k` is what step `k + 1`
      returns. */
  function Keystream(key: seq<byte>, n: nat): (ks: seq<byte>)
    requires |key| > 0
    ensures |ks| == n
  {
    seq(n, k requires 0 <= k < n => Output(After(key, k)))
  }

  /** Drawing fewer bytes gives a prefix of the same stream. */
  lemma KeystreamPrefix(key: seq<byte>, m: nat, n: nat)
    requires |key| > 0 && m <= n
    ensures Keystream(key, m) == Keystream(key, n)[..m]
  {
  }

  /** What `action_rc4(data, size, key)` leaves in `data`. */
  function Rc4Cipher(data: seq<byte>, key: seq<byte>): (r: seq<byte>)
    requires |key| > 0
    ensures |r| == |data|
  {
    XorAll(data, Keystream(key, |data|))
  }

  /** RC4 with the same key twice restores the data. */
  lemma Rc4Twice(data: seq<byte>, key: seq<byte>)
    requires |key| > 0
    ensures Rc4Cipher(Rc4Cipher(data, key), key) == data
  {
    XorAllTwice(data, Keystream(key, |data|));
  }

  /** The cipher works byte by byte along the stream: the encryption of a
      prefix is the prefix of the encryption. */
  lemma Rc4Prefix(data: seq<byte>, more: seq<byte>, key: seq<byte>)
    requires |key| > 0
    ensures Rc4Cipher(data + more, key)[..|data|] == Rc4Cipher(data, key)
  {
    KeystreamPrefix(key, |data|, |data + more|);
  }

  /** One turn of `action_rc4`'s loop: draws keystream byte `k` and XORs
      it into `data[k]`. */
  method CipherStep(data: array<byte>, S: array<byte>, key: seq<byte>, ghost d: seq<byte>,
                    k: nat, i: nat, j: nat) returns (i': nat, j': nat)
    requires |key| > 0 && data != S && S.Length == 256 && k < data.Length == |d|
    requires State(S[..], i, j) == After(key, k)
    requires data[..k] == Rc4Cipher(d, key)[..k] && data[k..] == d[k..]
    modifies data, S
    ensures State(S[..], i', j') == After(key, k + 1)
    ensures data[..k + 1] == Rc4Cipher(d, key)[..k + 1] && data[k + 1..] == d[k + 1..]
  {
    ghost var before := data[..];
    var ks;
    i', j', ks := Prga(S, i, j);
    assert ks == Keystream(key, |d|)[k];
    var x := Xor(data[k], ks);
    data[k] := x;
    assert data[..] == before[k := x];
    PrefixGrows(Rc4Cipher(d, key), d, before, k, x);
  }

  /** Writing byte `k` of the target into a buffer that holds the target
      up to `k` and the original from `k` on moves the boundary by one. */
  lemma PrefixGrows(c: seq<byte>, d: seq<byte>, out: seq<byte>, k: nat, x: byte)
    requires |c| == |d| == |out| && k < |out|
    requires out[..k] == c[..k] && out[k..] == d[k..] && x == c[k]
    ensures out[k := x][..k + 1] == c[..k + 1] && out[k := x][k + 1..] == d[k + 1..]
  {
    assert out[k := x][..k + 1] == out[..k] + [x];
    assert out[k := x][k + 1..] == out[k + 1..];
    assert out[k + 1..] == out[k..][1..];
  }

  /** `action_rc4`: a missing key (null or empty, both `[]` here) gives -1
      and leaves `data` alone; otherwise byte `k` is XORed with keystream
      byte `k` and the result is 0. */
  method ActionRc4(data: array<byte>, key: seq<byte>) returns (r: int)
    modifies data
    ensures r == -1 <==> |key| == 0
    ensures r == -1 ==> data[..] == old(data[..])
    ensures |key| > 0 ==> r == 0 && data[..] == Rc4Cipher(old(data[..]), key)
  {
    if |key| == 0 {
      return -1;
    }
    ghost var d := data[..];
    var S := new byte[256];
    var i, j := 0, 0;
    Ksa(key, S);
    for k := 0 to data.Length
      invariant State(S[..], i, j) == After(key, k)
      invariant data[..k] == Rc4Cipher(d, key)[..k]
      invariant data[k..] == d[k..]
    {
      i, j := CipherStep(data, S, key, d, k, i, j);
    }
    assert data[..] == data[..data.Length];
    return 0;
  }
}
