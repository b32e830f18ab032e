/** What FIPS 180-4 says its constants are: root fractions of the first primes. */
module Fips180Constants {
  import opened Fips180

  /** The first sixty-four primes. */
  function Prime(t: nat): nat
    requires t < 64
  {
    if t < 32 then (
      if t < 16 then (
        if t < 8 then (
          match t
          case 0 => 2
          case 1 => 3
          case 2 => 5
          case 3 => 7
          case 4 => 11
          case 5 => 13
          case 6 => 17
          case _ => 19
        ) else (
          match t
          case 8 => 23
          case 9 => 29
          case 10 => 31
          case 11 => 37
          case 12 => 41
          case 13 => 43
          case 14 => 47
          case _ => 53
        )
      ) else (
        if t < 24 then (
          match t
          case 16 => 59
          case 17 => 61
          case 18 => 67
          case 19 => 71
          case 20 => 73
          case 21 => 79
          case 22 => 83
          case _ => 89
        ) else (
          match t
          case 24 => 97
          case 25 => 101
          case 26 => 103
          case 27 => 107
          case 28 => 109
          case 29 => 113
          case 30 => 127
          case _ => 131
        )
      )
    ) else (
      if t < 48 then (
        if t < 40 then (
          match t
          case 32 => 137
          case 33 => 139
          case 34 => 149
          case 35 => 151
          case 36 => 157
          case 37 => 163
          case 38 => 167
          case _ => 173
        ) else (
          match t
          case 40 => 179
          case 41 => 181
          case 42 => 191
          case 43 => 193
          case 44 => 197
          case 45 => 199
          case 46 => 211
          case _ => 223
        )
      ) else (
        if t < 56 then (
          match t
          case 48 => 227
          case 49 => 229
          case 50 => 233
          case 51 => 239
          case 52 => 241
          case 53 => 251
          case 54 => 257
          case _ => 263
        ) else (
          match t
          case 56 => 269
          case 57 => 271
          case 58 => 277
          case 59 => 281
          case 60 => 283
          case 61 => 293
          case 62 => 307
          case _ => 311
        )
      )
    )
  }

  predicate IsPrime(n: nat) {
    2 <= n && forall d :: 2 <= d < n ==> n % d != 0
  }

  /** No prime up to 17 divides n, unless it is n itself. */
  predicate Sieved(n: nat) {
    && (n % 2 != 0 || n == 2)
    && (n % 3 != 0 || n == 3)
    && (n % 5 != 0 || n == 5)
    && (n % 7 != 0 || n == 7)
    && (n % 11 != 0 || n == 11)
    && (n % 13 != 0 || n == 13)
    && (n % 17 != 0 || n == 17)
  }

  /** Below 19 squared the sieve leaves exactly the primes. */
  lemma SieveIsExact(n: nat)
    requires 2 <= n < 361
    ensures IsPrime(n) <==> Sieved(n)
  {
    if Sieved(n) {
      forall d | 2 <= d < n
        ensures n % d != 0
      {
        if n % d == 0 {
          SmallFactor(n, d, n / d);
        }
      }
    }
  }

  /** Of two factors of a number below 361 one is below 19, and a prime of the sieve divides it. */
  lemma SmallFactor(n: nat, d: nat, e: nat)
    requires n == d * e && 2 <= d && 2 <= e
    ensures n < 361 ==> !Sieved(n)
  {
    if d < 19 {
      FactorIsSieved(n, d, e);
    } else if e < 19 {
      FactorIsSieved(n, e, d);
    } else {
      assert 361 <= 19 * e <= d * e;
    }
  }

  lemma FactorIsSieved(n: nat, d: nat, e: nat)
    requires n == d * e && 2 <= d < 19 && 2 <= e
    ensures !Sieved(n)
  {
    if d % 2 == 0 {
      FactorRemains(n, 2, d / 2, e);
    } else if d % 3 == 0 {
      FactorRemains(n, 3, d / 3, e);
    } else {
      assert d in {5, 7, 11, 13, 17};
      FactorRemains(n, d, 1, e);
    }
  }

  lemma FactorRemains(n: nat, q: nat, m: nat, e: nat)
    requires q in {2, 3, 5, 7, 11, 13, 17} && n == q * m * e && 1 <= m && 2 <= e
    ensures !Sieved(n)
  {
    hide Sieved;
    var f := m * e;
    assert 2 <= f;
    assert n == q * f;
    MultipleIsSieved(n, q, f);
  }

  lemma MultipleIsSieved(n: nat, q: nat, f: nat)
    requires q in {2, 3, 5, 7, 11, 13, 17} && n == q * f && 2 <= f
    ensures !Sieved(n)
  {
    assert n != q;
    assert n % q == 0 by {
      RemainderOfMultiple(q, f);
    }
  }

  lemma RemainderOfMultiple(q: nat, f: int)
    requires q > 0
    ensures q * f % q == 0
  {
    var x := f - q * f / q;
    assert q * x == q * f % q;
    ProductGrows(q, x);
  }

  lemma ProductGrows(q: int, x: int)
    requires q > 0
    ensures x >= 1 ==> q * x >= q
    ensures x <= -1 ==> q * x <= -q
  {
  }

  /** Prime t is the next prime after prime t - 1, and prime 0 the first of all. */
  predicate IsNextPrime(t: nat)
    requires t < 64
  {
    && IsPrime(Prime(t))
    && (t == 0 ==> Prime(t) == 2)
    && (t > 0 ==> Prime(t - 1) < Prime(t) && forall n :: Prime(t - 1) < n < Prime(t) ==> !IsPrime(n))
  }

  /** The sieve leaves nothing from a to before b. */
  predicate NoneSieved(a: nat, b: nat)
    decreases b - a
  {
    a >= b || (!Sieved(a) && NoneSieved(a + 1, b))
  }

  lemma {:induction false} NoneSievedBetween(a: nat, b: nat, n: nat)
    requires NoneSieved(a, b) && a <= n < b
    ensures !Sieved(n)
    decreases b - a
  {
    hide Sieved;
    if a < n {
      NoneSievedBetween(a + 1, b, n);
    }
  }

  lemma NextPrime(t: nat, p: nat, q: nat)
    requires 0 < t < 64 && p == Prime(t - 1) && q == Prime(t)
    requires 2 <= p < q < 361 && NoneSieved(p + 1, q) && Sieved(q)
    ensures IsNextPrime(t)
  {
    hide IsPrime, Sieved, Prime, NoneSieved;
    SieveIsExact(q);
    forall n | p < n < q
      ensures !IsPrime(n)
    {
      NoneSievedBetween(p + 1, q, n);
      SieveIsExact(n);
    }
  }

  lemma Primes0To7()
    ensures forall t :: 0 <= t < 8 ==> IsNextPrime(t)
  {
    hide IsNextPrime, IsPrime;
    FirstPrime();
    NextPrime(1, 2, 3);
    NextPrime(2, 3, 5);
    NextPrime(3, 5, 7);
    assert NoneSieved(8, 11);
    NextPrime(4, 7, 11);
    NextPrime(5, 11, 13);
    assert NoneSieved(14, 17);
    NextPrime(6, 13, 17);
    NextPrime(7, 17, 19);
  }

  lemma Primes8To15()
    ensures forall t :: 8 <= t < 16 ==> IsNextPrime(t)
  {
    hide IsNextPrime, IsPrime;
    assert NoneSieved(20, 23);
    NextPrime(8, 19, 23);
    assert NoneSieved(24, 29);
    NextPrime(9, 23, 29);
    NextPrime(10, 29, 31);
    assert NoneSieved(32, 37);
    NextPrime(11, 31, 37);
    assert NoneSieved(38, 41);
    NextPrime(12, 37, 41);
    NextPrime(13, 41, 43);
    assert NoneSieved(44, 47);
    NextPrime(14, 43, 47);
    assert NoneSieved(48, 53);
    NextPrime(15, 47, 53);
  }

  lemma Primes16To23()
    ensures forall t :: 16 <= t < 24 ==> IsNextPrime(t)
  {
    hide IsNextPrime, IsPrime;
    assert NoneSieved(54, 59);
    NextPrime(16, 53, 59);
    NextPrime(17, 59, 61);
    assert NoneSieved(62, 67);
    NextPrime(18, 61, 67);
    assert NoneSieved(68, 71);
    NextPrime(19, 67, 71);
    NextPrime(20, 71, 73);
    assert NoneSieved(74, 79);
    NextPrime(21, 73, 79);
    assert NoneSieved(80, 83);
    NextPrime(22, 79, 83);
    assert NoneSieved(84, 89);
    NextPrime(23, 83, 89);
  }

  lemma Primes24To31()
    ensures forall t :: 24 <= t < 32 ==> IsNextPrime(t)
  {
    hide IsNextPrime, IsPrime;
    assert NoneSieved(90, 97);
    NextPrime(24, 89, 97);
    assert NoneSieved(98, 101);
    NextPrime(25, 97, 101);
    NextPrime(26, 101, 103);
    assert NoneSieved(104, 107);
    NextPrime(27, 103, 107);
    NextPrime(28, 107, 109);
    assert NoneSieved(110, 113);
    NextPrime(29, 109, 113);
    assert NoneSieved(114, 127);
    NextPrime(30, 113, 127);
    assert NoneSieved(128, 131);
    NextPrime(31, 127, 131);
  }

  lemma Primes32To39()
    ensures forall t :: 32 <= t < 40 ==> IsNextPrime(t)
  {
    hide IsNextPrime, IsPrime;
    assert NoneSieved(132, 137);
    NextPrime(32, 131, 137);
    NextPrime(33, 137, 139);
    assert NoneSieved(140, 149);
    NextPrime(34, 139, 149);
    NextPrime(35, 149, 151);
    assert NoneSieved(152, 157);
    NextPrime(36, 151, 157);
    assert NoneSieved(158, 163);
    NextPrime(37, 157, 163);
    assert NoneSieved(164, 167);
    NextPrime(38, 163, 167);
    assert NoneSieved(168, 173);
    NextPrime(39, 167, 173);
  }

  lemma Primes40To47()
    ensures forall t :: 40 <= t < 48 ==> IsNextPrime(t)
  {
    hide IsNextPrime, IsPrime;
    assert NoneSieved(174, 179);
    NextPrime(40, 173, 179);
    NextPrime(41, 179, 181);
    assert NoneSieved(182, 191);
    NextPrime(42, 181, 191);
    NextPrime(43, 191, 193);
    assert NoneSieved(194, 197);
    NextPrime(44, 193, 197);
    NextPrime(45, 197, 199);
    assert NoneSieved(200, 211);
    NextPrime(46, 199, 211);
    assert NoneSieved(212, 223);
    NextPrime(47, 211, 223);
  }

  lemma Primes48To55()
    ensures forall t :: 48 <= t < 56 ==> IsNextPrime(t)
  {
    hide IsNextPrime, IsPrime;
    assert NoneSieved(224, 227);
    NextPrime(48, 223, 227);
    NextPrime(49, 227, 229);
    assert NoneSieved(230, 233);
    NextPrime(50, 229, 233);
    assert NoneSieved(234, 239);
    NextPrime(51, 233, 239);
    NextPrime(52, 239, 241);
    assert NoneSieved(242, 251);
    NextPrime(53, 241, 251);
    assert NoneSieved(252, 257);
    NextPrime(54, 251, 257);
    assert NoneSieved(258, 263);
    NextPrime(55, 257, 263);
  }

  lemma Primes56To63()
    ensures forall t :: 56 <= t < 64 ==> IsNextPrime(t)
  {
    hide IsNextPrime, IsPrime;
    assert NoneSieved(264, 269);
    NextPrime(56, 263, 269);
    NextPrime(57, 269, 271);
    assert NoneSieved(272, 277);
    NextPrime(58, 271, 277);
    assert NoneSieved(278, 281);
    NextPrime(59, 277, 281);
    NextPrime(60, 281, 283);
    assert NoneSieved(284, 293);
    NextPrime(61, 283, 293);
    assert NoneSieved(294, 307);
    NextPrime(62, 293, 307);
    assert NoneSieved(308, 311);
    NextPrime(63, 307, 311);
  }

  lemma FirstPrime()
    ensures IsNextPrime(0)
  {
  }

  /** n and the bits k after the point are the square root of p, cut off after 32 bits. */
  predicate SquareRootIs(p: nat, n: nat, k: nat) {
    var r := n * 0x1_0000_0000 + k;
    r * r <= p * 0x1_0000_0000_0000_0000 < (r + 1) * (r + 1)
  }

  /** The same of the cube root. */
  predicate CubeRootIs(p: nat, n: nat, k: nat) {
    var r := n * 0x1_0000_0000 + k;
    r * r * r <= p * 0x1_0000_0000_0000_0000_0000_0000 < (r + 1) * (r + 1) * (r + 1)
  }

  ghost predicate SquareRootBits(p: nat, k: nat) {
    exists n: nat :: SquareRootIs(p, n, k)
  }

  ghost predicate CubeRootBits(p: nat, k: nat) {
    exists n: nat :: CubeRootIs(p, n, k)
  }

  ghost predicate IsInitialWord(i: nat)
    requires i < 8
  {
    SquareRootBits(Prime(i), ValueOf(H0[i]))
  }

  ghost predicate IsConstant(t: nat)
    requires t < 64
  {
    CubeRootBits(Prime(t), ValueOf(K(t)))
  }

  lemma InitialWord(i: nat, p: nat, n: nat, k: nat)
    requires i < 8 && p == Prime(i) && k == ValueOf(H0[i]) && SquareRootIs(p, n, k)
    ensures IsInitialWord(i)
  {
    hide Prime, SquareRootIs, ValueOf;
  }

  lemma Constant(t: nat, p: nat, n: nat, k: nat)
    requires t < 64 && p == Prime(t) && k == ValueOf(K(t)) && CubeRootIs(p, n, k)
    ensures IsConstant(t)
  {
    hide Prime, K, CubeRootIs, ValueOf;
  }

  /** Section 5.3.3: initial word i is the first 32 bits of the fraction of the square root of prime i. */
  lemma InitialHashIsSquareRoots()
    ensures forall i :: 0 <= i < 8 ==> IsInitialWord(i)
  {
    hide IsInitialWord;
    InitialWord(0, 2, 1, 0x6a09e667);
    InitialWord(1, 3, 1, 0xbb67ae85);
    InitialWord(2, 5, 2, 0x3c6ef372);
    InitialWord(3, 7, 2, 0xa54ff53a);
    InitialWord(4, 11, 3, 0x510e527f);
    InitialWord(5, 13, 3, 0x9b05688c);
    InitialWord(6, 17, 4, 0x1f83d9ab);
    InitialWord(7, 19, 4, 0x5be0cd19);
  }

  lemma Constants0To7()
    ensures forall t :: 0 <= t < 8 ==> IsConstant(t)
  {
    hide IsConstant;
    Constant(0, 2, 1, 0x428a2f98);
    Constant(1, 3, 1, 0x71374491);
    Constant(2, 5, 1, 0xb5c0fbcf);
    Constant(3, 7, 1, 0xe9b5dba5);
    Constant(4, 11, 2, 0x3956c25b);
    Constant(5, 13, 2, 0x59f111f1);
    Constant(6, 17, 2, 0x923f82a4);
    Constant(7, 19, 2, 0xab1c5ed5);
  }

  lemma Constants8To15()
    ensures forall t :: 8 <= t < 16 ==> IsConstant(t)
  {
    hide IsConstant;
    Constant(8, 23, 2, 0xd807aa98);
    Constant(9, 29, 3, 0x12835b01);
    Constant(10, 31, 3, 0x243185be);
    Constant(11, 37, 3, 0x550c7dc3);
    Constant(12, 41, 3, 0x72be5d74);
    Constant(13, 43, 3, 0x80deb1fe);
    Constant(14, 47, 3, 0x9bdc06a7);
    Constant(15, 53, 3, 0xc19bf174);
  }

  lemma Constants16To23()
    ensures forall t :: 16 <= t < 24 ==> IsConstant(t)
  {
    hide IsConstant;
    Constant(16, 59, 3, 0xe49b69c1);
    Constant(17, 61, 3, 0xefbe4786);
    Constant(18, 67, 4, 0x0fc19dc6);
    Constant(19, 71, 4, 0x240ca1cc);
    Constant(20, 73, 4, 0x2de92c6f);
    Constant(21, 79, 4, 0x4a7484aa);
    Constant(22, 83, 4, 0x5cb0a9dc);
    Constant(23, 89, 4, 0x76f988da);
  }

  lemma Constants24To31()
    ensures forall t :: 24 <= t < 32 ==> IsConstant(t)
  {
    hide IsConstant;
    Constant(24, 97, 4, 0x983e5152);
    Constant(25, 101, 4, 0xa831c66d);
    Constant(26, 103, 4, 0xb00327c8);
    Constant(27, 107, 4, 0xbf597fc7);
    Constant(28, 109, 4, 0xc6e00bf3);
    Constant(29, 113, 4, 0xd5a79147);
    Constant(30, 127, 5, 0x06ca6351);
    Constant(31, 131, 5, 0x14292967);
  }

  lemma Constants32To39()
    ensures forall t :: 32 <= t < 40 ==> IsConstant(t)
  {
    hide IsConstant;
    Constant(32, 137, 5, 0x27b70a85);
    Constant(33, 139, 5, 0x2e1b2138);
    Constant(34, 149, 5, 0x4d2c6dfc);
    Constant(35, 151, 5, 0x53380d13);
    Constant(36, 157, 5, 0x650a7354);
    Constant(37, 163, 5, 0x766a0abb);
    Constant(38, 167, 5, 0x81c2c92e);
    Constant(39, 173, 5, 0x92722c85);
  }

  lemma Constants40To47()
    ensures forall t :: 40 <= t < 48 ==> IsConstant(t)
  {
    hide IsConstant;
    Constant(40, 179, 5, 0xa2bfe8a1);
    Constant(41, 181, 5, 0xa81a664b);
    Constant(42, 191, 5, 0xc24b8b70);
    Constant(43, 193, 5, 0xc76c51a3);
    Constant(44, 197, 5, 0xd192e819);
    Constant(45, 199, 5, 0xd6990624);
    Constant(46, 211, 5, 0xf40e3585);
    Constant(47, 223, 6, 0x106aa070);
  }

  lemma Constants48To55()
    ensures forall t :: 48 <= t < 56 ==> IsConstant(t)
  {
    hide IsConstant;
    Constant(48, 227, 6, 0x19a4c116);
    Constant(49, 229, 6, 0x1e376c08);
    Constant(50, 233, 6, 0x2748774c);
    Constant(51, 239, 6, 0x34b0bcb5);
    Constant(52, 241, 6, 0x391c0cb3);
    Constant(53, 251, 6, 0x4ed8aa4a);
    Constant(54, 257, 6, 0x5b9cca4f);
    Constant(55, 263, 6, 0x682e6ff3);
  }

  lemma Constants56To63()
    ensures forall t :: 56 <= t < 64 ==> IsConstant(t)
  {
    hide IsConstant;
    Constant(56, 269, 6, 0x748f82ee);
    Constant(57, 271, 6, 0x78a5636f);
    Constant(58, 277, 6, 0x84c87814);
    Constant(59, 281, 6, 0x8cc70208);
    Constant(60, 283, 6, 0x90befffa);
    Constant(61, 293, 6, 0xa4506ceb);
    Constant(62, 307, 6, 0xbef9a3f7);
    Constant(63, 311, 6, 0xc67178f2);
  }

  lemma PrimesAreTheFirst()
    ensures forall t :: 0 <= t < 64 ==> IsNextPrime(t)
  {
    hide IsNextPrime;
    Primes0To7();
    Primes8To15();
    Primes16To23();
    Primes24To31();
    Primes32To39();
    Primes40To47();
    Primes48To55();
    Primes56To63();
  }

  /** Section 4.2.2: constant t is the first 32 bits of the fraction of the cube root of prime t. */
  lemma ConstantsAreCubeRoots()
    ensures forall t :: 0 <= t < 64 ==> IsConstant(t)
  {
    hide IsConstant;
    Constants0To7();
    Constants8To15();
    Constants16To23();
    Constants24To31();
    Constants32To39();
    Constants40To47();
    Constants48To55();
    Constants56To63();
  }
}
