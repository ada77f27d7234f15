/** `_hash` (utils.c): a 32-bit Murmur-style digest of a C string, reduced
    modulo a table size to pick a slot. A `uint32_t` is a `Word`, a number
    below 2^32, and every operation on it wraps around explicitly. */
module Murmur {
  import opened Bowl

  const WORD: nat := 0x1_0000_0000

  type Word = w: int | 0 <= w < 0x1_0000_0000

  const C1: Word := 0xcc9e2d51
  const C2: Word := 0x1b873593
  const N: Word := 0xe6546b64
  const M: Word := 5
  const C3: Word := 0x85ebca6b
  const C4: Word := 0xc2b2ae35
  const R1: nat := 15
  const R2: nat := 13
  const R3: nat := 16
  const R4: nat := 13
  const SEED: Word := 0x0AF172FE

  function Pow2(n: nat): (r: nat)
    ensures 0 < r
  {
    if n == 0 then 1 else 2 * Pow2(n - 1)
  }

  lemma {:induction false} Pow2Add(a: nat, b: nat)
    ensures Pow2(a) * Pow2(b) == Pow2(a + b)
  {
    if a > 0 {
      Pow2Add(a - 1, b);
    }
  }

  lemma Pow2Word()
    ensures Pow2(32) == WORD
  {
    Pow2Add(16, 16);
    Pow2Add(8, 8);
    Pow2Add(4, 4);
    Pow2Add(2, 2);
  }

  /** `a * b` on `uint32_t`: the product modulo 2^32. */
  function Mul(a: Word, b: Word): Word
  {
    (a * b) % WORD
  }

  /** `a + b` on `uint32_t`. */
  function Add(a: Word, b: Word): Word
  {
    (a + b) % WORD
  }

  /** The exclusive or of the low `n` bits of `a` and `b`. */
  function XorBits(a: nat, b: nat, n: nat): (r: nat)
    ensures r < Pow2(n)
  {
    if n == 0 then 0 else 2 * XorBits(a / 2, b / 2, n - 1) + (a % 2 + b % 2) % 2
  }

  /** `a ^ b` on `uint32_t`. */
  function Xor(a: Word, b: Word): Word
  {
    Pow2Word();
    XorBits(a, b, 32)
  }

  /** `v >> s`. */
  function Shr(v: Word, s: nat): Word
  {
    var d := Pow2(s);
    DivAtMost(v, d);
    v / d
  }

  /** Dividing by a positive number does not make a number larger. */
  lemma DivAtMost(v: nat, d: nat)
    requires 0 < d
    ensures 0 <= v / d <= v
  {
    var q, r := v / d, v % d;
    assert v == q * d + r && 0 <= r;
    NatMulGrows(q, d);
  }

  /** ROTL32: the low `32 - s` bits move up by `s` and the high `s` bits come
      round to the bottom; the two parts share no bit, so the `|` is a sum. */
  function Rotl(v: Word, s: nat): Word
    requires 0 < s < 32
  {
    RotlBound(v, s);
    (v % Pow2(32 - s)) * Pow2(s) + v / Pow2(32 - s)
  }

  lemma RotlBound(v: Word, s: nat)
    requires 0 < s < 32
    ensures 0 <= (v % Pow2(32 - s)) * Pow2(s) + v / Pow2(32 - s) < WORD
  {
    var lo, hi := Pow2(32 - s), Pow2(s);
    Pow2Add(32 - s, s);
    Pow2Word();
    assert lo * hi == WORD;
    SplitBelow(v, lo, hi);
  }

  /** Moving the low part of `v` (below `lo`) up by a factor `hi` and adding
      the high part keeps the sum below `lo * hi`. */
  lemma SplitBelow(v: nat, lo: nat, hi: nat)
    requires 0 < lo && 0 < hi && v < lo * hi
    ensures 0 <= (v % lo) * hi + v / lo < lo * hi
  {
    DivAtMost(v, lo);
    NatMulGrows(v % lo, hi);
    QuotientBelow(v, lo, hi);
    MulBelow(v % lo, lo, hi);
  }

  lemma NatMulGrows(q: nat, d: nat)
    requires 0 < d
    ensures q <= q * d
  {
    assert q * d == q * (d - 1) + q;
  }

  /** A number below `lo * hi`, divided by `lo`, is below `hi`. */
  lemma QuotientBelow(v: nat, lo: nat, hi: nat)
    requires 0 < lo && v < lo * hi
    ensures v / lo < hi
  {
    var q := v / lo;
    assert q * lo <= v;
    MulCancel(q, hi, lo);
  }

  lemma MulCancel(a: nat, b: nat, c: nat)
    requires 0 < c && a * c < b * c
    ensures a < b
  {
  }

  /** The high part and the low part together stay below `lo * hi`. */
  lemma MulBelow(r: nat, lo: nat, hi: nat)
    requires r < lo && 0 < hi
    ensures r * hi + hi <= lo * hi
  {
    assert (r + 1) * hi <= lo * hi;
  }

  /** The `j`-th 4-byte block of the key, read as a little-endian word. */
  function Block(key: seq<Byte>, j: nat): Word
    requires 4 * j + 4 <= |key|
  {
    key[4 * j] as int + 0x100 * key[4 * j + 1] as int
    + 0x1_0000 * key[4 * j + 2] as int + 0x100_0000 * key[4 * j + 3] as int
  }

  /** The scrambling of one block: multiply, rotate, multiply. */
  function MixK(k: Word): Word
  {
    Mul(Rotl(Mul(k, C1), R1), C2)
  }

  /** One round of the block loop as the code has it: the scrambled block is
      xor-ed into the running hash, and the next statement overwrites the
      running hash with the rotated block, so `h` does not occur on the right. */
  function Round(h: Word, block: Word): Word
  {
    Add(Mul(Rotl(MixK(block), R2), M), N)
  }

  /** The running hash after the first `n` blocks. */
  function Blocks(key: seq<Byte>, n: nat): Word
    requires 4 * n <= |key|
  {
    if n == 0 then SEED else Round(Blocks(key, n - 1), Block(key, n - 1))
  }

  /** The trailing `|key| % 4` bytes, gathered into one word, scrambled and
      xor-ed into the running hash (the switch that falls through). */
  function Tail(key: seq<Byte>, h: Word): Word
  {
    var t := key[4 * (|key| / 4)..];
    var k3: Word := if |t| == 3 then Xor(0, 0x1_0000 * t[2] as int) else 0;
    var k2: Word := if |t| >= 2 then Xor(k3, 0x100 * t[1] as int) else k3;
    if |t| >= 1 then Xor(h, MixK(Xor(k2, t[0]))) else h
  }

  /** The final avalanche, after the low 32 bits of the key length are
      mixed in. */
  function Finalise(h: Word, keyLen: nat): Word
  {
    var h1 := Xor(h, keyLen % WORD);
    var h2 := Xor(h1, Shr(h1, R3));
    var h3 := Mul(h2, C3);
    var h4 := Xor(h3, Shr(h3, R4));
    var h5 := Mul(h4, C4);
    Xor(h5, Shr(h5, R3))
  }

  /** The 32-bit digest of a key, before the reduction modulo the table size. */
  function Digest(key: CString): Word
  {
    Finalise(Tail(key, Blocks(key, |key| / 4)), |key|)
  }

  /** The slot a key hashes to in a table of `len` slots. */
  function SlotOf(key: CString, len: nat): (r: nat)
    requires 0 < len
    ensures r < len
  {
    Digest(key) % len
  }

  /** The block loop of `_hash`: the running hash after every full 4-byte
      block of the key. */
  method MixBlocks(key: CString) returns (h: Word)
    ensures h == Blocks(key, |key| / 4)
  {
    var l := |key| / 4;
    h := SEED;
    var i := 0;
    while i < l
      invariant 0 <= i <= l
      invariant h == Blocks(key, i)
    {
      var k := Block(key, i);
      k := Mul(k, C1);
      k := Rotl(k, R1);
      k := Mul(k, C2);
      assert k == MixK(Block(key, i));
      h := Xor(h, k);
      h := Rotl(k, R2);
      h := Add(Mul(h, M), N);
      i := i + 1;
    }
  }

  /** The switch of `_hash` over the `|key| % 4` trailing bytes. */
  method MixTail(key: CString, h0: Word) returns (h: Word)
    ensures h == Tail(key, h0)
  {
    h := h0;
    var keyLen := |key|;
    var tail := key[4 * (keyLen / 4)..];
    assert |tail| == keyLen % 4;
    var k: Word := 0;
    if keyLen % 4 == 3 {
      k := Xor(k, 0x1_0000 * tail[2] as int);
    }
    if keyLen % 4 >= 2 {
      k := Xor(k, 0x100 * tail[1] as int);
    }
    if keyLen % 4 >= 1 {
      k := Xor(k, tail[0]);
      k := Mul(k, C1);
      k := Rotl(k, R1);
      k := Mul(k, C2);
      h := Xor(h, k);
    }
  }

  /** `_hash(str, len, &out)`, with the table-size guard as it is meant to be
      (a zero size is rejected): the slot of `str` in a table of `len` slots. */
  method Hash(str: Option<CString>, len: nat) returns (e: ErrT, out: nat)
    ensures str.None? || len == 0 ==> e == InvalidParams
    ensures str.Some? && 0 < len ==> e == Ok && out == SlotOf(str.value, len) && out < len
  {
    if str.None? || len == 0 {
      return InvalidParams, 0;
    }
    var key := str.value;
    var h := MixBlocks(key);
    h := MixTail(key, h);
    h := Xor(h, |key| % WORD);
    h := Xor(h, Shr(h, R3));
    h := Mul(h, C3);
    h := Xor(h, Shr(h, R4));
    h := Mul(h, C4);
    h := Xor(h, Shr(h, R3));
    out := h % len;
    e := Ok;
  }

  /** The table-size guard as written, `CHECK((len < 0), ...)`: it returns
      INVALID_PARAMS unless `len < 0`, which an unsigned size never is. */
  function HashGuardAsWritten(len: nat): ErrT
  {
    Check(len < 0, InvalidParams)
  }

  /** As written, every call is rejected, whatever the key and the size. */
  lemma HashAsWrittenRejectsAll(len: nat)
    ensures HashGuardAsWritten(len) == InvalidParams
    ensures 0 < len ==> Check(0 < len, InvalidParams) == Ok
  {
  }

  /** Because each round discards the running hash, only the last full block
      and the tail reach the digest: keys of one length that agree from their
      last full block on have the same digest. */
  lemma DigestIgnoresEarlyBlocks(a: CString, b: CString)
    requires |a| == |b| && 4 <= |a|
    requires a[4 * (|a| / 4) - 4..] == b[4 * (|b| / 4) - 4..]
    ensures Digest(a) == Digest(b)
  {
    var l := |a| / 4;
    var s := 4 * l - 4;
    assert a[s..][0] == b[s..][0] && a[s..][1] == b[s..][1];
    assert a[s..][2] == b[s..][2] && a[s..][3] == b[s..][3];
    assert Block(a, l - 1) == Block(b, l - 1);
    assert Blocks(a, l) == Blocks(b, l);
    assert a[4 * l..] == a[s..][4..] == b[s..][4..] == b[4 * l..];
  }

  /** "abcdXXXX" and "efghXXXX" collide in every table size. */
  lemma DigestCollides()
    ensures var a: CString := [0x61, 0x62, 0x63, 0x64, 0x58, 0x58, 0x58, 0x58];
            var b: CString := [0x65, 0x66, 0x67, 0x68, 0x58, 0x58, 0x58, 0x58];
            a != b && forall len: nat :: 0 < len ==> SlotOf(a, len) == SlotOf(b, len)
  {
    var a: CString := [0x61, 0x62, 0x63, 0x64, 0x58, 0x58, 0x58, 0x58];
    var b: CString := [0x65, 0x66, 0x67, 0x68, 0x58, 0x58, 0x58, 0x58];
    assert a[0] != b[0];
    DigestIgnoresEarlyBlocks(a, b);
  }
}
