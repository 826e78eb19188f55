/** The constants of lib/libtpm/sha256.c, sha512.c and sha.c are those that FIPS 180-4 derives from roots of
    prime numbers. */
module ShaConstants {
  import opened Primes
  import Sha1
  import Sha256
  import Sha512

  /** `c` is `b` times the cube root of `p`, rounded down. */
  predicate IsCubeRoot(c: nat, p: nat, b: nat) { c * c * c <= p * b * b * b < (c + 1) * (c + 1) * (c + 1) }

  /** `c` is `b` times the square root of `p`, rounded down. */
  predicate IsSquareRoot(c: nat, p: nat, b: nat) { c * c <= p * b * b < (c + 1) * (c + 1) }

  const B30: nat := 0x4000_0000
  const B32: nat := 0x1_0000_0000
  const B64: nat := 0x1_0000_0000_0000_0000

  // ----- the roots, with the integer part in front of the underscore

  function CubeRoots256(): (s: seq<nat>)
    ensures |s| == 64
  {
    CubeRoots256_0() + CubeRoots256_16() + CubeRoots256_32() + CubeRoots256_48()
  }

  function CubeRoots256_0(): (s: seq<nat>)
    ensures |s| == 16
  {
    [
      0x1_428a2f98, 0x1_71374491, 0x1_b5c0fbcf, 0x1_e9b5dba5,
      0x2_3956c25b, 0x2_59f111f1, 0x2_923f82a4, 0x2_ab1c5ed5,
      0x2_d807aa98, 0x3_12835b01, 0x3_243185be, 0x3_550c7dc3,
      0x3_72be5d74, 0x3_80deb1fe, 0x3_9bdc06a7, 0x3_c19bf174
    ]
  }

  function CubeRoots256_16(): (s: seq<nat>)
    ensures |s| == 16
  {
    [
      0x3_e49b69c1, 0x3_efbe4786, 0x4_0fc19dc6, 0x4_240ca1cc,
      0x4_2de92c6f, 0x4_4a7484aa, 0x4_5cb0a9dc, 0x4_76f988da,
      0x4_983e5152, 0x4_a831c66d, 0x4_b00327c8, 0x4_bf597fc7,
      0x4_c6e00bf3, 0x4_d5a79147, 0x5_06ca6351, 0x5_14292967
    ]
  }

  function CubeRoots256_32(): (s: seq<nat>)
    ensures |s| == 16
  {
    [
      0x5_27b70a85, 0x5_2e1b2138, 0x5_4d2c6dfc, 0x5_53380d13,
      0x5_650a7354, 0x5_766a0abb, 0x5_81c2c92e, 0x5_92722c85,
      0x5_a2bfe8a1, 0x5_a81a664b, 0x5_c24b8b70, 0x5_c76c51a3,
      0x5_d192e819, 0x5_d6990624, 0x5_f40e3585, 0x6_106aa070
    ]
  }

  function CubeRoots256_48(): (s: seq<nat>)
    ensures |s| == 16
  {
    [
      0x6_19a4c116, 0x6_1e376c08, 0x6_2748774c, 0x6_34b0bcb5,
      0x6_391c0cb3, 0x6_4ed8aa4a, 0x6_5b9cca4f, 0x6_682e6ff3,
      0x6_748f82ee, 0x6_78a5636f, 0x6_84c87814, 0x6_8cc70208,
      0x6_90befffa, 0x6_a4506ceb, 0x6_bef9a3f7, 0x6_c67178f2
    ]
  }

  lemma CubeRoots256_0Are()
    ensures forall i :: 0 <= i < 16 ==> IsCubeRoot(CubeRoots256_0()[i], Primes0()[i], B32)
  {
  }

  // the constants are what the roots leave modulo 2^32 or 2^64

  lemma CubeRoots256_0End()
    ensures forall i :: 0 <= i < 16 ==> Sha256.K0()[i] as nat == CubeRoots256_0()[i] % B32
  {
  }

  lemma CubeRoots256_16Are()
    ensures forall i :: 0 <= i < 16 ==> IsCubeRoot(CubeRoots256_16()[i], Primes16()[i], B32)
  {
  }

  lemma CubeRoots256_16End()
    ensures forall i :: 0 <= i < 16 ==> Sha256.K16()[i] as nat == CubeRoots256_16()[i] % B32
  {
  }

  lemma CubeRoots256_32Are()
    ensures forall i :: 0 <= i < 16 ==> IsCubeRoot(CubeRoots256_32()[i], Primes32()[i], B32)
  {
  }

  lemma CubeRoots256_32End()
    ensures forall i :: 0 <= i < 16 ==> Sha256.K32()[i] as nat == CubeRoots256_32()[i] % B32
  {
  }

  lemma CubeRoots256_48Are()
    ensures forall i :: 0 <= i < 16 ==> IsCubeRoot(CubeRoots256_48()[i], Primes48()[i], B32)
  {
  }

  lemma CubeRoots256_48End()
    ensures forall i :: 0 <= i < 16 ==> Sha256.K48()[i] as nat == CubeRoots256_48()[i] % B32
  {
  }

  function CubeRoots512(): (s: seq<nat>)
    ensures |s| == 80
  {
    CubeRoots512_0() + CubeRoots512_16() + CubeRoots512_32() + CubeRoots512_48() + CubeRoots512_64()
  }

  function CubeRoots512_0(): (s: seq<nat>)
    ensures |s| == 16
  {
    [
      0x1_428a2f98d728ae22, 0x1_7137449123ef65cd, 0x1_b5c0fbcfec4d3b2f, 0x1_e9b5dba58189dbbc,
      0x2_3956c25bf348b538, 0x2_59f111f1b605d019, 0x2_923f82a4af194f9b, 0x2_ab1c5ed5da6d8118,
      0x2_d807aa98a3030242, 0x3_12835b0145706fbe, 0x3_243185be4ee4b28c, 0x3_550c7dc3d5ffb4e2,
      0x3_72be5d74f27b896f, 0x3_80deb1fe3b1696b1, 0x3_9bdc06a725c71235, 0x3_c19bf174cf692694
    ]
  }

  function CubeRoots512_16(): (s: seq<nat>)
    ensures |s| == 16
  {
    [
      0x3_e49b69c19ef14ad2, 0x3_efbe4786384f25e3, 0x4_0fc19dc68b8cd5b5, 0x4_240ca1cc77ac9c65,
      0x4_2de92c6f592b0275, 0x4_4a7484aa6ea6e483, 0x4_5cb0a9dcbd41fbd4, 0x4_76f988da831153b5,
      0x4_983e5152ee66dfab, 0x4_a831c66d2db43210, 0x4_b00327c898fb213f, 0x4_bf597fc7beef0ee4,
      0x4_c6e00bf33da88fc2, 0x4_d5a79147930aa725, 0x5_06ca6351e003826f, 0x5_142929670a0e6e70
    ]
  }

  function CubeRoots512_32(): (s: seq<nat>)
    ensures |s| == 16
  {
    [
      0x5_27b70a8546d22ffc, 0x5_2e1b21385c26c926, 0x5_4d2c6dfc5ac42aed, 0x5_53380d139d95b3df,
      0x5_650a73548baf63de, 0x5_766a0abb3c77b2a8, 0x5_81c2c92e47edaee6, 0x5_92722c851482353b,
      0x5_a2bfe8a14cf10364, 0x5_a81a664bbc423001, 0x5_c24b8b70d0f89791, 0x5_c76c51a30654be30,
      0x5_d192e819d6ef5218, 0x5_d69906245565a910, 0x5_f40e35855771202a, 0x6_106aa07032bbd1b8
    ]
  }

  function CubeRoots512_48(): (s: seq<nat>)
    ensures |s| == 16
  {
    [
      0x6_19a4c116b8d2d0c8, 0x6_1e376c085141ab53, 0x6_2748774cdf8eeb99, 0x6_34b0bcb5e19b48a8,
      0x6_391c0cb3c5c95a63, 0x6_4ed8aa4ae3418acb, 0x6_5b9cca4f7763e373, 0x6_682e6ff3d6b2b8a3,
      0x6_748f82ee5defb2fc, 0x6_78a5636f43172f60, 0x6_84c87814a1f0ab72, 0x6_8cc702081a6439ec,
      0x6_90befffa23631e28, 0x6_a4506cebde82bde9, 0x6_bef9a3f7b2c67915, 0x6_c67178f2e372532b
    ]
  }

  function CubeRoots512_64(): (s: seq<nat>)
    ensures |s| == 16
  {
    [
      0x6_ca273eceea26619c, 0x6_d186b8c721c0c207, 0x6_eada7dd6cde0eb1e, 0x6_f57d4f7fee6ed178,
      0x7_06f067aa72176fba, 0x7_0a637dc5a2c898a6, 0x7_113f9804bef90dae, 0x7_1b710b35131c471b,
      0x7_28db77f523047d84, 0x7_32caab7b40c72493, 0x7_3c9ebe0a15c9bebc, 0x7_431d67c49c100d4c,
      0x7_4cc5d4becb3e42b6, 0x7_597f299cfc657e2a, 0x7_5fcb6fab3ad6faec, 0x7_6c44198c4a475817
    ]
  }

  lemma CubeRoots512_0Are()
    ensures forall i :: 0 <= i < 16 ==> IsCubeRoot(CubeRoots512_0()[i], Primes0()[i], B64)
  {
  }

  lemma CubeRoots512_0End()
    ensures forall i :: 0 <= i < 16 ==> Sha512.K0()[i] as nat == CubeRoots512_0()[i] % B64
  {
  }

  lemma CubeRoots512_16Are()
    ensures forall i :: 0 <= i < 16 ==> IsCubeRoot(CubeRoots512_16()[i], Primes16()[i], B64)
  {
  }

  lemma CubeRoots512_16End()
    ensures forall i :: 0 <= i < 16 ==> Sha512.K16()[i] as nat == CubeRoots512_16()[i] % B64
  {
  }

  lemma CubeRoots512_32Are()
    ensures forall i :: 0 <= i < 16 ==> IsCubeRoot(CubeRoots512_32()[i], Primes32()[i], B64)
  {
  }

  lemma CubeRoots512_32End()
    ensures forall i :: 0 <= i < 16 ==> Sha512.K32()[i] as nat == CubeRoots512_32()[i] % B64
  {
  }

  lemma CubeRoots512_48Are()
    ensures forall i :: 0 <= i < 16 ==> IsCubeRoot(CubeRoots512_48()[i], Primes48()[i], B64)
  {
  }

  lemma CubeRoots512_48End()
    ensures forall i :: 0 <= i < 16 ==> Sha512.K48()[i] as nat == CubeRoots512_48()[i] % B64
  {
  }

  lemma CubeRoots512_64Are()
    ensures forall i :: 0 <= i < 16 ==> IsCubeRoot(CubeRoots512_64()[i], Primes64()[i], B64)
  {
  }

  lemma CubeRoots512_64End()
    ensures forall i :: 0 <= i < 16 ==> Sha512.K64()[i] as nat == CubeRoots512_64()[i] % B64
  {
  }

  function SquareRoots256(): (s: seq<nat>)
    ensures |s| == 8
  {
    [
      0x1_6a09e667, 0x1_bb67ae85, 0x2_3c6ef372, 0x2_a54ff53a,
      0x3_510e527f, 0x3_9b05688c, 0x4_1f83d9ab, 0x4_5be0cd19
    ]
  }

  function SquareRoots512(): (s: seq<nat>)
    ensures |s| == 8
  {
    [
      0x1_6a09e667f3bcc908, 0x1_bb67ae8584caa73b, 0x2_3c6ef372fe94f82b, 0x2_a54ff53a5f1d36f1,
      0x3_510e527fade682d1, 0x3_9b05688c2b3e6c1f, 0x4_1f83d9abfb41bd6b, 0x4_5be0cd19137e2179
    ]
  }

  function SquareRoots384(): (s: seq<nat>)
    ensures |s| == 8
  {
    [
      0x4_cbbb9d5dc1059ed8, 0x5_629a292a367cd507, 0x5_9159015a3070dd17, 0x6_152fecd8f70e5939,
      0x6_67332667ffc00b31, 0x6_8eb44a8768581511, 0x6_db0c2e0d64f98fa7, 0x7_47b5481dbefa4fa4
    ]
  }

  lemma SquareRoots256Are()
    ensures forall i :: 0 <= i < 8 ==> IsSquareRoot(SquareRoots256()[i], Primes0()[i], B32)
  {
  }

  lemma SquareRoots256End()
    ensures forall i :: 0 <= i < 8 ==> Sha256.InitialHash()[i] as nat == SquareRoots256()[i] % B32
  {
  }

  lemma SquareRoots512Are()
    ensures forall i :: 0 <= i < 8 ==> IsSquareRoot(SquareRoots512()[i], Primes0()[i], B64)
  {
  }

  lemma SquareRoots512End()
    ensures forall i :: 0 <= i < 8 ==> Sha512.InitialHash512()[i] as nat == SquareRoots512()[i] % B64
  {
  }

  lemma SquareRoots384Are()
    ensures forall i :: 0 <= i < 8 ==> IsSquareRoot(SquareRoots384()[i], Primes0()[i + 8], B64)
  {
  }

  lemma SquareRoots384End()
    ensures forall i :: 0 <= i < 8 ==> Sha512.InitialHash384()[i] as nat == SquareRoots384()[i] % B64
  {
  }

  // ----- the constants

  /** Section 4.2.2: the constant of round t is the first 32 bits of the fractional part of the cube root of
      the t-th prime number, counted from 0. */
  lemma Sha256RoundConstants(t: nat)
    requires t < 64
    ensures exists p: nat, c: nat :: IsNthPrime(p, t) && IsCubeRoot(c, p, B32) && Sha256.K()[t] as nat == c % B32
  {
    hide IsCubeRoot, IsNthPrime;
    ListedInOrder(t);
    CubeRoots256_0Are();
    CubeRoots256_0End();
    CubeRoots256_16Are();
    CubeRoots256_16End();
    CubeRoots256_32Are();
    CubeRoots256_32End();
    CubeRoots256_48Are();
    CubeRoots256_48End();
    var c := CubeRoots256()[t];
    assert IsCubeRoot(c, FirstPrimes()[t], B32) && Sha256.K()[t] as nat == c % B32;
  }

  /** Section 4.2.3: the constant of round t is the first 64 bits of the fractional part of the cube root of
      the t-th prime number, counted from 0. */
  lemma Sha512RoundConstants(t: nat)
    requires t < 80
    ensures exists p: nat, c: nat :: IsNthPrime(p, t) && IsCubeRoot(c, p, B64) && Sha512.K()[t] as nat == c % B64
  {
    hide IsCubeRoot, IsNthPrime;
    ListedInOrder(t);
    CubeRoots512_0Are();
    CubeRoots512_0End();
    CubeRoots512_16Are();
    CubeRoots512_16End();
    CubeRoots512_32Are();
    CubeRoots512_32End();
    CubeRoots512_48Are();
    CubeRoots512_48End();
    CubeRoots512_64Are();
    CubeRoots512_64End();
    var c := CubeRoots512()[t];
    assert IsCubeRoot(c, FirstPrimes()[t], B64) && Sha512.K()[t] as nat == c % B64;
  }

  /** Sections 5.3.3 to 5.3.5: the initial hash values are the first bits of the fractional parts of the square
      roots of the first eight primes, and of the ninth to sixteenth for SHA-384. */
  lemma InitialHashes(i: nat)
    requires i < 8
    ensures exists p: nat, c: nat ::
              IsNthPrime(p, i) && IsSquareRoot(c, p, B32) && Sha256.InitialHash()[i] as nat == c % B32
    ensures exists p: nat, c: nat ::
              IsNthPrime(p, i) && IsSquareRoot(c, p, B64) && Sha512.InitialHash512()[i] as nat == c % B64
    ensures exists p: nat, c: nat ::
              IsNthPrime(p, i + 8) && IsSquareRoot(c, p, B64) && Sha512.InitialHash384()[i] as nat == c % B64
  {
    hide IsSquareRoot, IsNthPrime;
    ListedInOrder(i);
    ListedInOrder(i + 8);
    SquareRoots256Are();
    SquareRoots256End();
    SquareRoots512Are();
    SquareRoots512End();
    SquareRoots384Are();
    SquareRoots384End();
    assert IsSquareRoot(SquareRoots256()[i], FirstPrimes()[i], B32);
    assert IsSquareRoot(SquareRoots512()[i], FirstPrimes()[i], B64);
    assert IsSquareRoot(SquareRoots384()[i], FirstPrimes()[i + 8], B64);
  }

  /** The constants of SHA-1 in section 4.2.1 are 2^30 times the square roots of 2, 3, 5 and 10. */
  lemma Sha1RoundConstants(t: nat)
    requires t < 80
    ensures IsSquareRoot(Sha1.K(t) as nat, if t < 20 then 2 else if t < 40 then 3 else if t < 60 then 5 else 10, B30)
  {
  }

  /** Section 5.3.1: read as little-endian words, the initial hash of SHA-1 counts its digits up, down, and up
      and down at once. */
  lemma Sha1InitialHash()
    ensures var h := Sha1.InitialHash();
            && h[0] as nat == LittleEndian(0x01, 0x23, 0x45, 0x67)
            && h[1] as nat == LittleEndian(0x89, 0xab, 0xcd, 0xef)
            && h[2] as nat == LittleEndian(0xfe, 0xdc, 0xba, 0x98)
            && h[3] as nat == LittleEndian(0x76, 0x54, 0x32, 0x10)
            && h[4] as nat == LittleEndian(0xf0, 0xe1, 0xd2, 0xc3)
  {
  }

  function LittleEndian(a: nat, b: nat, c: nat, d: nat): nat { a + 0x100 * (b + 0x100 * (c + 0x100 * d)) }
}
