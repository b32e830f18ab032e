/** SHA-256 as FIPS 180-4 defines it, over whole bytes. */
module Fips180 {
  import opened Bytes

  // Words are 32 bits wide; their sums are modulo 2^32 (section 2.2.2).
  type word = bv32

  /** The round constants of section 4.2.2, found by halving their range. */
  function K(t: nat): word
    requires t < 64
  {
    if t < 32 then (
      if t < 16 then (
        if t < 8 then (
          match t
          case 0 => 0x428a2f98
          case 1 => 0x71374491
          case 2 => 0xb5c0fbcf
          case 3 => 0xe9b5dba5
          case 4 => 0x3956c25b
          case 5 => 0x59f111f1
          case 6 => 0x923f82a4
          case _ => 0xab1c5ed5
        ) else (
          match t
          case 8 => 0xd807aa98
          case 9 => 0x12835b01
          case 10 => 0x243185be
          case 11 => 0x550c7dc3
          case 12 => 0x72be5d74
          case 13 => 0x80deb1fe
          case 14 => 0x9bdc06a7
          case _ => 0xc19bf174
        )
      ) else (
        if t < 24 then (
          match t
          case 16 => 0xe49b69c1
          case 17 => 0xefbe4786
          case 18 => 0x0fc19dc6
          case 19 => 0x240ca1cc
          case 20 => 0x2de92c6f
          case 21 => 0x4a7484aa
          case 22 => 0x5cb0a9dc
          case _ => 0x76f988da
        ) else (
          match t
          case 24 => 0x983e5152
          case 25 => 0xa831c66d
          case 26 => 0xb00327c8
          case 27 => 0xbf597fc7
          case 28 => 0xc6e00bf3
          case 29 => 0xd5a79147
          case 30 => 0x06ca6351
          case _ => 0x14292967
        )
      )
    ) else (
      if t < 48 then (
        if t < 40 then (
          match t
          case 32 => 0x27b70a85
          case 33 => 0x2e1b2138
          case 34 => 0x4d2c6dfc
          case 35 => 0x53380d13
          case 36 => 0x650a7354
          case 37 => 0x766a0abb
          case 38 => 0x81c2c92e
          case _ => 0x92722c85
        ) else (
          match t
          case 40 => 0xa2bfe8a1
          case 41 => 0xa81a664b
          case 42 => 0xc24b8b70
          case 43 => 0xc76c51a3
          case 44 => 0xd192e819
          case 45 => 0xd6990624
          case 46 => 0xf40e3585
          case _ => 0x106aa070
        )
      ) else (
        if t < 56 then (
          match t
          case 48 => 0x19a4c116
          case 49 => 0x1e376c08
          case 50 => 0x2748774c
          case 51 => 0x34b0bcb5
          case 52 => 0x391c0cb3
          case 53 => 0x4ed8aa4a
          case 54 => 0x5b9cca4f
          case _ => 0x682e6ff3
        ) else (
          match t
          case 56 => 0x748f82ee
          case 57 => 0x78a5636f
          case 58 => 0x84c87814
          case 59 => 0x8cc70208
          case 60 => 0x90befffa
          case 61 => 0xa4506ceb
          case 62 => 0xbef9a3f7
          case _ => 0xc67178f2
        )
      )
    )
  }

  // Section 5.3.3.
  const H0: seq<word> := [
    0x6a09e667, 0xbb67ae85, 0x3c6ef372, 0xa54ff53a, 0x510e527f, 0x9b05688c, 0x1f83d9ab, 0x5be0cd19]

  // Section 3.2: addition, bitwise operations, rotation and shift on words.
  function Add(x: word, y: word): word { x + y }

  function Xor(x: word, y: word): word { x ^ y }

  function And(x: word, y: word): word { x & y }

  function Not(x: word): word { !x }

  function Rotr(x: word, n: bv6): word
    requires 0 < n < 32
  {
    (x >> n) | (x << (32 - n))
  }

  function Shr(x: word, n: bv6): word
    requires n < 32
  {
    x >> n
  }

  // Section 4.1.2, equations 4.2 to 4.7.
  function Ch(x: word, y: word, z: word): word { Xor(And(x, y), And(Not(x), z)) }

  function Maj(x: word, y: word, z: word): word { Xor(Xor(And(x, y), And(x, z)), And(y, z)) }

  function BigSigma0(x: word): word { Xor(Xor(Rotr(x, 2), Rotr(x, 13)), Rotr(x, 22)) }

  function BigSigma1(x: word): word { Xor(Xor(Rotr(x, 6), Rotr(x, 11)), Rotr(x, 25)) }

  function SmallSigma0(x: word): word { Xor(Xor(Rotr(x, 7), Rotr(x, 18)), Shr(x, 3)) }

  function SmallSigma1(x: word): word { Xor(Xor(Rotr(x, 17), Rotr(x, 19)), Shr(x, 10)) }

  function WordOf(value: u32): word { value as word }

  function ValueOf(w: word): u32 { w as int }

  /** Word t of a 64-byte block (section 5.2.1). */
  function BlockWord(block: seq<byte>, t: nat): word
    requires |block| == 64 && t < 16
  {
    WordOf(ReadBe32(block, 4 * t))
  }

  /** The message schedule (section 6.2.2, step 1), its sum written from the oldest word on. */
  function W(block: seq<byte>, t: nat): word
    requires |block| == 64 && t < 64
  {
    if t < 16 then BlockWord(block, t)
    else Add(Add(Add(W(block, t - 16), SmallSigma0(W(block, t - 15))), W(block, t - 7)), SmallSigma1(W(block, t - 2)))
  }

  datatype Working = Working(a: word, b: word, c: word, d: word, e: word, f: word, g: word, h: word)

  /** One round (section 6.2.2, step 3). */
  function Round(v: Working, k: word, w: word): Working {
    var t1 := Add(Add(Add(Add(v.h, BigSigma1(v.e)), Ch(v.e, v.f, v.g)), k), w);
    var t2 := Add(BigSigma0(v.a), Maj(v.a, v.b, v.c));
    Working(Add(t1, t2), v.a, v.b, v.c, Add(v.d, t1), v.e, v.f, v.g)
  }

  function WorkingOf(hash: seq<word>): Working
    requires |hash| == 8
  {
    Working(hash[0], hash[1], hash[2], hash[3], hash[4], hash[5], hash[6], hash[7])
  }

  /** The working variables after the first t rounds over a block. */
  function Rounds(hash: seq<word>, block: seq<byte>, t: nat): Working
    requires |hash| == 8 && |block| == 64 && t <= 64
  {
    if t == 0 then WorkingOf(hash) else Round(Rounds(hash, block, t - 1), K(t - 1), W(block, t - 1))
  }

  /** The next intermediate hash value (section 6.2.2, step 4). */
  function NextHash(hash: seq<word>, block: seq<byte>): (next: seq<word>)
    requires |hash| == 8 && |block| == 64
    ensures |next| == 8
  {
    var v := Rounds(hash, block, 64);
    [Add(hash[0], v.a), Add(hash[1], v.b), Add(hash[2], v.c), Add(hash[3], v.d),
     Add(hash[4], v.e), Add(hash[5], v.f), Add(hash[6], v.g), Add(hash[7], v.h)]
  }

  /** The hash value after every whole block of `bytes` (section 5.2.1). */
  function HashBlocks(bytes: seq<byte>): (hash: seq<word>)
    requires |bytes| % 64 == 0
    ensures |hash| == 8
    decreases |bytes|
  {
    if |bytes| == 0 then H0
    else NextHash(HashBlocks(bytes[..|bytes| - 64]), bytes[|bytes| - 64..])
  }

  /** How many zero bytes follow the 0x80 byte of a message of n bytes. */
  function ZeroBytes(n: nat): nat {
    (119 - n % 64) % 64
  }

  /** The `size` bytes of a number, most significant first. */
  function BigEndian(value: nat, size: nat): (bytes: seq<byte>)
    ensures |bytes| == size
  {
    if size == 0 then [] else BigEndian(value / 0x100, size - 1) + [value % 0x100]
  }

  function BigEndianValue(bytes: seq<byte>): nat {
    if |bytes| == 0 then 0 else 0x100 * BigEndianValue(bytes[..|bytes| - 1]) + bytes[|bytes| - 1]
  }

  /** A message padded to whole blocks, with `bits` in its length field. */
  function Padded(message: seq<byte>, bits: nat): (padded: seq<byte>)
    ensures |padded| % 64 == 0
  {
    message + [0x80] + seq(ZeroBytes(|message|), _ => 0) + BigEndian(bits, 8)
  }

  /** The eight hash words, most significant byte first, one after another. */
  function WordBytes(hash: seq<word>): (bytes: seq<byte>)
    ensures |bytes| == 4 * |hash|
  {
    if |hash| == 0 then []
    else WordBytes(hash[..|hash| - 1]) + Be32(ValueOf(hash[|hash| - 1]))
  }

  /** SHA-256 of a message the standard defines one for (sections 5.1.1 and 6.2). */
  function Sha256(message: seq<byte>): (digest: seq<byte>)
    requires 8 * |message| < 0x1_0000_0000_0000_0000
    ensures |digest| == 32
  {
    WordBytes(HashBlocks(Padded(message, 8 * |message|)))
  }

  /** Section 5.1.1: the 1 bit and k zero bits leave room for the length field. */
  predicate ZeroBitsFit(bits: nat, k: nat) {
    (bits + 1 + k) % 512 == 448
  }

  /** The number of zero bits is the smallest that fits; the 0x80 byte holds seven of them. */
  lemma ZeroBytesAreFewest(n: nat)
    ensures ZeroBitsFit(8 * n, 7 + 8 * ZeroBytes(n))
    ensures forall k: nat :: k < 7 + 8 * ZeroBytes(n) ==> !ZeroBitsFit(8 * n, k)
  {
    hide ZeroBytes, ZeroBitsFit;
    forall k: nat | k <= 7 + 8 * ZeroBytes(n)
      ensures ZeroBitsFit(8 * n, k) <==> k == 7 + 8 * ZeroBytes(n)
    {
      ZeroBitsFitIff(n, k);
    }
  }

  lemma ZeroBitsFitIff(n: nat, k: nat)
    requires k <= 7 + 8 * ZeroBytes(n)
    ensures ZeroBitsFit(8 * n, k) <==> k == 7 + 8 * ZeroBytes(n)
  {
    var q, r := n / 64, n % 64;
    assert n == 64 * q + r;
    ModuloOfSum(q, 8 * r + 1 + k);
    assert 8 * n + 1 + k == 512 * q + (8 * r + 1 + k);
    RemainderFitsIff(r, k, ZeroBytes(n));
  }

  lemma RemainderFitsIff(r: nat, k: nat, zeros: nat)
    requires r < 64 && zeros == (119 - r) % 64 && k <= 7 + 8 * zeros
    ensures (8 * r + 1 + k) % 512 == 448 <==> k == 7 + 8 * zeros
  {
    assert zeros == if r <= 55 then 55 - r else 119 - r;
  }

  lemma ModuloOfSum(q: nat, x: nat)
    ensures (512 * q + x) % 512 == x % 512
  {
  }

  function Pow256(n: nat): nat {
    if n == 0 then 1 else 0x100 * Pow256(n - 1)
  }

  /** Fixed-size big-endian bytes hold every number that fits in them. */
  lemma {:induction false} BigEndianIsExact(value: nat, size: nat)
    requires value < Pow256(size)
    ensures BigEndianValue(BigEndian(value, size)) == value
  {
    if size > 0 {
      BigEndianIsExact(value / 0x100, size - 1);
      assert BigEndian(value, size)[..size - 1] == BigEndian(value / 0x100, size - 1);
    }
  }

  /** The length field of every message the standard allows holds its bit count. */
  lemma LengthFieldIsExact(bits: u64)
    ensures BigEndianValue(BigEndian(bits, 8)) == bits
  {
    assert Pow256(8) == 0x100 * 0x100 * Pow256(6) && Pow256(6) == 0x1_0000 * Pow256(4);
    assert Pow256(4) == 0x1_0000 * Pow256(2) && Pow256(2) == 0x1_0000;
    BigEndianIsExact(bits, 8);
  }
}
