/** The prime numbers up to 409, from which FIPS 180-4 derives its constants. */
module Primes {
  import Arith

  ghost predicate IsPrime(n: nat) { n >= 2 && forall d :: 2 <= d < n ==> n % d != 0 }

  ghost function PrimesBelow(n: nat): set<nat> { set m: nat | m < n && IsPrime(m) }

  /** `p` is the t-th prime, counted from 0. */
  ghost predicate IsNthPrime(p: nat, t: nat) { IsPrime(p) && |PrimesBelow(p)| == t }

  /** No prime below 23 divides `n`, except `n` itself. */
  predicate Unsieved(n: nat) {
    && n >= 2
    && (n == 2 || n % 2 != 0) && (n == 3 || n % 3 != 0) && (n == 5 || n % 5 != 0) && (n == 7 || n % 7 != 0)
    && (n == 11 || n % 11 != 0) && (n == 13 || n % 13 != 0) && (n == 17 || n % 17 != 0) && (n == 19 || n % 19 != 0)
  }

  const LIMIT := 529

  lemma SmallFactor(d: nat) returns (f: nat)
    requires 2 <= d < 23
    ensures f in {2, 3, 5, 7, 11, 13, 17, 19} && f <= d && d % f == 0
  {
    f := if d % 2 == 0 then 2 else if d % 3 == 0 then 3 else if d % 5 == 0 then 5 else if d % 7 == 0 then 7 else d;
  }

  lemma FactorOfFactor(n: nat, d: nat, f: nat)
    requires d > 0 && f > 0 && n % d == 0 && d % f == 0
    ensures n % f == 0
  {
    var a, b := n / d, d / f;
    assert n == (a * b) * f;
    Arith.MultipleOf(a * b, f);
  }

  /** A number below the square of 23 that is not prime has a divisor below 23. */
  lemma SmallDivisor(n: nat, d: nat) returns (small: nat)
    requires n < LIMIT && 2 <= d < n && n % d == 0
    ensures 2 <= small < 23 && small < n && n % small == 0
  {
    var e := n / d;
    assert n == e * d;
    Arith.Compare(2, e, d);
    Arith.Compare(23, e, d);
    Arith.MultipleOf(d, e);
    small := if d < 23 then d else e;
  }

  /** Below the square of 23 the sieve is enough. */
  lemma SieveFindsPrimes(n: nat)
    requires n < LIMIT
    ensures Unsieved(n) <==> IsPrime(n)
  {
    if n >= 2 && !IsPrime(n) {
      var d :| 2 <= d < n && n % d == 0;
      var small := SmallDivisor(n, d);
      var f := SmallFactor(small);
      FactorOfFactor(n, small, f);
    } else if n >= 2 {
      assert forall d :: d in {2, 3, 5, 7, 11, 13, 17, 19} && d < n ==> n % d != 0;
      SmallIsItself(n);
    }
  }

  lemma SmallIsItself(n: nat)
    requires 2 <= n < LIMIT && forall d :: d in {2, 3, 5, 7, 11, 13, 17, 19} && d < n ==> n % d != 0
    ensures Unsieved(n)
  {
    assert 2 < n ==> n % 2 != 0;
    assert 3 < n ==> n % 3 != 0;
    assert 5 < n ==> n % 5 != 0;
    assert 7 < n ==> n % 7 != 0;
    assert 11 < n ==> n % 11 != 0;
    assert 13 < n ==> n % 13 != 0;
    assert 17 < n ==> n % 17 != 0;
    assert 19 < n ==> n % 19 != 0;
  }

  lemma AllUnsievedArePrime()
    ensures forall n :: 0 <= n < LIMIT && Unsieved(n) ==> IsPrime(n)
  {
    forall n: nat | n < LIMIT && Unsieved(n)
      ensures IsPrime(n)
    {
      SieveFindsPrimes(n);
    }
  }

  /** What is left modulo 30 by the primes 2, 3 and 5. */
  lemma Modulo30(n: nat)
    requires n % 2 != 0 && n % 3 != 0 && n % 5 != 0
    ensures n % 30 in {1, 7, 11, 13, 17, 19, 23, 29}
  {
    var k, r := n / 30, n % 30;
    var a, b, c := r / 2, r / 3, r / 5;
    assert n == 30 * k + r;
    Arith.MultipleOf(15 * k + a, 2);
    Arith.MultipleOf(10 * k + b, 3);
    Arith.MultipleOf(6 * k + c, 5);
    assert n == (15 * k + a) * 2 + r % 2 && n == (10 * k + b) * 3 + r % 3 && n == (6 * k + c) * 5 + r % 5;
    Below30(r);
  }

  lemma Below30(r: nat)
    requires r < 30 && r % 2 != 0 && r % 3 != 0 && r % 5 != 0
    ensures r in {1, 7, 11, 13, 17, 19, 23, 29}
  {
  }

  /** The first 80 primes, which the lemmas below show to be all primes up to 409. */
  function FirstPrimes(): (p: seq<nat>)
    ensures |p| == 80
  {
    Primes0() + Primes16() + Primes32() + Primes48() + Primes64()
  }

  function Primes0(): (p: seq<nat>)
    ensures |p| == 16
  {
    [2, 3, 5, 7, 11, 13, 17, 19, 23, 29, 31, 37, 41, 43, 47, 53]
  }

  function Primes16(): (p: seq<nat>)
    ensures |p| == 16
  {
    [59, 61, 67, 71, 73, 79, 83, 89, 97, 101, 103, 107, 109, 113, 127, 131]
  }

  function Primes32(): (p: seq<nat>)
    ensures |p| == 16
  {
    [137, 139, 149, 151, 157, 163, 167, 173, 179, 181, 191, 193, 197, 199, 211, 223]
  }

  function Primes48(): (p: seq<nat>)
    ensures |p| == 16
  {
    [227, 229, 233, 239, 241, 251, 257, 263, 269, 271, 277, 281, 283, 293, 307, 311]
  }

  function Primes64(): (p: seq<nat>)
    ensures |p| == 16
  {
    [313, 317, 331, 337, 347, 349, 353, 359, 367, 373, 379, 383, 389, 397, 401, 409]
  }

  lemma ArePrime0()
    ensures forall i :: 0 <= i < 16 ==> IsPrime(Primes0()[i])
  {
    AllUnsievedArePrime();
    assert Unsieved(2) && Unsieved(3) && Unsieved(5) && Unsieved(7);
    assert Unsieved(11) && Unsieved(13) && Unsieved(17) && Unsieved(19);
    assert Unsieved(23) && Unsieved(29) && Unsieved(31) && Unsieved(37);
    assert Unsieved(41) && Unsieved(43) && Unsieved(47) && Unsieved(53);
  }

  lemma AreAll0(n: nat)
    requires n <= 53 && Unsieved(n)
    ensures n in Primes0()
  {
    if n > 5 {
      Modulo30(n);
      assert n / 30 < 2;
    }
  }

  lemma ArePrime16()
    ensures forall i :: 0 <= i < 16 ==> IsPrime(Primes16()[i])
  {
    AllUnsievedArePrime();
    assert Unsieved(59) && Unsieved(61) && Unsieved(67) && Unsieved(71);
    assert Unsieved(73) && Unsieved(79) && Unsieved(83) && Unsieved(89);
    assert Unsieved(97) && Unsieved(101) && Unsieved(103) && Unsieved(107);
    assert Unsieved(109) && Unsieved(113) && Unsieved(127) && Unsieved(131);
  }

  lemma AreAll16(n: nat)
    requires 53 < n <= 131 && Unsieved(n)
    ensures n in Primes16()
  {
    Modulo30(n);
    var k := n / 30;
    assert k == 1 || k == 2 || k == 3 || k == 4;
  }

  lemma ArePrime32()
    ensures forall i :: 0 <= i < 16 ==> IsPrime(Primes32()[i])
  {
    AllUnsievedArePrime();
    assert Unsieved(137) && Unsieved(139) && Unsieved(149) && Unsieved(151);
    assert Unsieved(157) && Unsieved(163) && Unsieved(167) && Unsieved(173);
    assert Unsieved(179) && Unsieved(181) && Unsieved(191) && Unsieved(193);
    assert Unsieved(197) && Unsieved(199) && Unsieved(211) && Unsieved(223);
  }

  lemma AreAll32(n: nat)
    requires 131 < n <= 223 && Unsieved(n)
    ensures n in Primes32()
  {
    Modulo30(n);
    var k := n / 30;
    assert k == 4 || k == 5 || k == 6 || k == 7;
  }

  lemma ArePrime48()
    ensures forall i :: 0 <= i < 16 ==> IsPrime(Primes48()[i])
  {
    AllUnsievedArePrime();
    assert Unsieved(227) && Unsieved(229) && Unsieved(233) && Unsieved(239);
    assert Unsieved(241) && Unsieved(251) && Unsieved(257) && Unsieved(263);
    assert Unsieved(269) && Unsieved(271) && Unsieved(277) && Unsieved(281);
    assert Unsieved(283) && Unsieved(293) && Unsieved(307) && Unsieved(311);
  }

  lemma AreAll48(n: nat)
    requires 223 < n <= 311 && Unsieved(n)
    ensures n in Primes48()
  {
    Modulo30(n);
    var k := n / 30;
    assert k == 7 || k == 8 || k == 9 || k == 10;
  }

  lemma ArePrime64()
    ensures forall i :: 0 <= i < 16 ==> IsPrime(Primes64()[i])
  {
    AllUnsievedArePrime();
    assert Unsieved(313) && Unsieved(317) && Unsieved(331) && Unsieved(337);
    assert Unsieved(347) && Unsieved(349) && Unsieved(353) && Unsieved(359);
    assert Unsieved(367) && Unsieved(373) && Unsieved(379) && Unsieved(383);
    assert Unsieved(389) && Unsieved(397) && Unsieved(401) && Unsieved(409);
  }

  lemma AreAll64(n: nat)
    requires 311 < n <= 409 && Unsieved(n)
    ensures n in Primes64()
  {
    Modulo30(n);
    var k := n / 30;
    assert k == 10 || k == 11 || k == 12 || k == 13;
  }

  /** The list is ascending and holds exactly the primes up to 409. */
  lemma PrimesAre()
    ensures forall i, j :: 0 <= i < j < 80 ==> FirstPrimes()[i] < FirstPrimes()[j]
    ensures forall n: nat :: n <= 409 ==> (IsPrime(n) <==> n in FirstPrimes())
  {
    Ascending();
    forall n: nat | n <= 409
      ensures IsPrime(n) <==> n in FirstPrimes()
    {
      IsListed(n);
    }
  }

  lemma {:induction false} ListedInOrder(t: nat)
    requires t < 80
    ensures IsNthPrime(FirstPrimes()[t], t)
  {
    hide IsPrime, FirstPrimes;
    PrimesAre();
    var p := FirstPrimes()[t];
    SmallestIs2();
    assert p in FirstPrimes() && p <= 409;
    if t == 0 {
      assert PrimesBelow(p) == {} by { NoneBelow2(); }
    } else {
      var q := FirstPrimes()[t - 1];
      ListedInOrder(t - 1);
      forall m: nat | m < p && IsPrime(m)
        ensures m < q || m == q
      {
        assert m in FirstPrimes();
        var i :| 0 <= i < 80 && FirstPrimes()[i] == m;
        assert i < t;
      }
      assert PrimesBelow(p) == PrimesBelow(q) + {q};
    }
  }

  lemma SmallestIs2()
    ensures FirstPrimes()[0] == 2 && FirstPrimes()[79] == 409
  {
  }

  lemma NoneBelow2()
    ensures PrimesBelow(2) == {}
  {
  }

  lemma IsListed(n: nat)
    requires n <= 409
    ensures IsPrime(n) <==> n in FirstPrimes()
  {
    hide IsPrime, Unsieved, Primes0, Primes16, Primes32, Primes48, Primes64;
    SieveFindsPrimes(n);
    if Unsieved(n) {
      if n <= 53 {
        AreAll0(n);
      } else if n <= 131 {
        AreAll16(n);
      } else if n <= 223 {
        AreAll32(n);
      } else if n <= 311 {
        AreAll48(n);
      } else {
        AreAll64(n);
      }
    }
    ArePrime0();
    ArePrime16();
    ArePrime32();
    ArePrime48();
    ArePrime64();
  }

  lemma Ascending()
    ensures forall i, j :: 0 <= i < j < 80 ==> FirstPrimes()[i] < FirstPrimes()[j]
  {
    hide Primes0, Primes16, Primes32, Primes48, Primes64;
    Ascending0();
    Ascending16();
    Ascending32();
    Ascending48();
    Ascending64();
  }

  predicate Rises(s: seq<nat>, lo: nat, hi: nat) {
    (forall i, j :: 0 <= i < j < |s| ==> s[i] < s[j]) && forall i :: 0 <= i < |s| ==> lo <= s[i] <= hi
  }

  lemma Ascending0()
    ensures Rises(Primes0(), 2, 53)
  {
  }

  lemma Ascending16()
    ensures Rises(Primes16(), 59, 131)
  {
  }

  lemma Ascending32()
    ensures Rises(Primes32(), 137, 223)
  {
  }

  lemma Ascending48()
    ensures Rises(Primes48(), 227, 311)
  {
  }

  lemma Ascending64()
    ensures Rises(Primes64(), 313, 409)
  {
  }
}
