/** Where the constants of SHA-256 come from: the first 32 bits of the fractional parts of the cube roots of
    the first sixty-four primes (FIPS 180-4 section 4.2.2), and of the square roots of the first eight
    (section 5.3.3). */
module Fips180Constants {
  import opened Bytes
  import F = Fips180

  // The first sixty-four primes

  predicate Divides(d: nat, n: nat)
    requires d > 0
  {
    n % d == 0
  }

  predicate IsPrime(n: nat) {
    n >= 2 && forall d :: 2 <= d < n ==> !Divides(d, n)
  }

  /** The number of primes below a number. */
  function PrimesBelow(n: nat): nat {
    if n == 0 then 0 else PrimesBelow(n - 1) + (if IsPrime(n - 1) then 1 else 0)
  }

  function Prime(t: nat): nat
    requires t < 64
  {
    match t
    case 0 => 2 case 1 => 3 case 2 => 5 case 3 => 7
    case 4 => 11 case 5 => 13 case 6 => 17 case 7 => 19
    case 8 => 23 case 9 => 29 case 10 => 31 case 11 => 37
    case 12 => 41 case 13 => 43 case 14 => 47 case 15 => 53
    case 16 => 59 case 17 => 61 case 18 => 67 case 19 => 71
    case 20 => 73 case 21 => 79 case 22 => 83 case 23 => 89
    case 24 => 97 case 25 => 101 case 26 => 103 case 27 => 107
    case 28 => 109 case 29 => 113 case 30 => 127 case 31 => 131
    case 32 => 137 case 33 => 139 case 34 => 149 case 35 => 151
    case 36 => 157 case 37 => 163 case 38 => 167 case 39 => 173
    case 40 => 179 case 41 => 181 case 42 => 191 case 43 => 193
    case 44 => 197 case 45 => 199 case 46 => 211 case 47 => 223
    case 48 => 227 case 49 => 229 case 50 => 233 case 51 => 239
    case 52 => 241 case 53 => 251 case 54 => 257 case 55 => 263
    case 56 => 269 case 57 => 271 case 58 => 277 case 59 => 281
    case 60 => 283 case 61 => 293 case 62 => 307 case _ => 311
  }

  /** Not divisible by a prime below 19, but for that prime itself. */
  predicate Sieved(n: nat) {
    && n >= 2
    && (n % 2 != 0 || n == 2) && (n % 3 != 0 || n == 3) && (n % 5 != 0 || n == 5) && (n % 7 != 0 || n == 7)
    && (n % 11 != 0 || n == 11) && (n % 13 != 0 || n == 13) && (n % 17 != 0 || n == 17)
  }

  lemma SievedIsPrime(n: nat)
    requires n < 19 * 19
    ensures IsPrime(n) <==> Sieved(n)
  {
    if IsPrime(n) {
      forall q | 2 <= q < n ensures n % q != 0 {
        assert !Divides(q, n);
      }
    }
    if Sieved(n) {
      forall d | 2 <= d < n ensures !Divides(d, n) {
        if Divides(d, n) {
          Factors(n, d, n / d);
        }
      }
    }
  }

  lemma Factors(n: nat, d: nat, e: nat)
    requires 2 <= d < n < 19 * 19 && n == d * e
    ensures !Sieved(n)
  {
    assert e != 0 && e != 1;
    if d < 19 {
      SmallFactor(n, d, e);
    } else {
      assert e >= 19 ==> d * e >= 19 * e >= 19 * 19;
      SmallFactor(n, e, d);
    }
  }

  lemma SmallFactor(n: nat, d: nat, e: nat)
    requires 2 <= d < 19 && 2 <= e && n == d * e
    ensures !Sieved(n)
  {
    hide Sieved;
    if d % 2 == 0 {
      Multiple(n, 2, d / 2, e);
    } else if d % 3 == 0 {
      Multiple(n, 3, d / 3, e);
    } else if d % 5 == 0 {
      Multiple(n, 5, d / 5, e);
    } else {
      assert d == 7 || d == 11 || d == 13 || d == 17;
      Multiple(n, d, 1, e);
    }
  }

  lemma Multiple(n: nat, q: nat, z: nat, e: nat)
    requires q in {2, 3, 5, 7, 11, 13, 17} && z >= 1 && e >= 2 && n == q * z * e
    ensures !Sieved(n)
  {
    hide Sieved;
    var m := z * e;
    assert m >= e;
    assert n == q * m;
    if q == 2 {
      SiftedOut(2 * m, m);
    } else if q == 3 {
      SiftedOut(3 * m, m);
    } else if q == 5 {
      SiftedOut(5 * m, m);
    } else if q == 7 {
      SiftedOut(7 * m, m);
    } else if q == 11 {
      SiftedOut(11 * m, m);
    } else if q == 13 {
      SiftedOut(13 * m, m);
    } else {
      SiftedOut(17 * m, m);
    }
  }

  lemma SiftedOut(n: nat, m: nat)
    requires m >= 2
    requires n == 2 * m || n == 3 * m || n == 5 * m || n == 7 * m || n == 11 * m || n == 13 * m || n == 17 * m
    ensures !Sieved(n)
  {
    Multiples(m);
  }

  lemma Multiples(m: nat)
    ensures 2 * m % 2 == 0 && 3 * m % 3 == 0 && 5 * m % 5 == 0 && 7 * m % 7 == 0
    ensures 11 * m % 11 == 0 && 13 * m % 13 == 0 && 17 * m % 17 == 0
  {
  }

  /** How many odd numbers from a on and below b the sieve lets through. */
  function SievedBetween(a: nat, b: nat): nat
    decreases b - a
  {
    if a >= b then 0 else (if Sieved(a) then 1 else 0) + SievedBetween(a + 2, b)
  }

  lemma {:induction false} CountUp(a: nat, b: nat)
    requires 3 <= a <= b <= 19 * 19 && a % 2 == 1 && b % 2 == 1
    ensures PrimesBelow(b) == PrimesBelow(a) + SievedBetween(a, b)
    decreases b - a
  {
    hide Sieved, IsPrime;
    if a < b {
      CountUp(a + 2, b);
      SievedIsPrime(a);
      EvenIsNot(a + 1);
      assert PrimesBelow(a + 1) == PrimesBelow(a) + (if Sieved(a) then 1 else 0);
      assert PrimesBelow(a + 2) == PrimesBelow(a + 1);
    }
  }

  lemma EvenIsNot(n: nat)
    requires n > 2 && n % 2 == 0
    ensures !IsPrime(n)
  {
    assert Divides(2, n);
  }

  lemma {:induction false} CountSplit(a: nat, b: nat, c: nat)
    requires a <= b <= c && (b - a) % 2 == 0
    ensures SievedBetween(a, c) == SievedBetween(a, b) + SievedBetween(b, c)
    decreases b - a
  {
    hide Sieved;
    if a < b {
      CountSplit(a + 2, b, c);
    }
  }

  /** The odd prime p is followed by the odd number q, with no prime in between. */
  predicate Follows(p: nat, q: nat) {
    3 <= p < q < 19 * 19 && p % 2 == 1 && q % 2 == 1 && Sieved(p) && SievedBetween(p, q) == 1
  }

  lemma NextPrime(t: nat)
    requires 1 <= t < 63
    ensures Follows(Prime(t), Prime(t + 1))
  {
    hide Prime, Follows;
    if t < 32 {
      if t < 8 {
        NextPrime1(t);
      } else if t < 16 {
        NextPrime8(t);
      } else if t < 24 {
        NextPrime16(t);
      } else {
        NextPrime24(t);
      }
    } else if t < 40 {
      NextPrime32(t);
    } else if t < 48 {
      NextPrime40(t);
    } else if t < 56 {
      NextPrime48(t);
    } else {
      NextPrime56(t);
    }
  }

  lemma NextPrime1(t: nat)
    requires 1 <= t < 8
    ensures Follows(Prime(t), Prime(t + 1))
  {
    match t
    case 1 => assert Follows(3, 5);
    case 2 => assert Follows(5, 7);
    case 3 => assert Follows(7, 11);
    case 4 => assert Follows(11, 13);
    case 5 => assert Follows(13, 17);
    case 6 => assert Follows(17, 19);
    case _ => assert Follows(19, 23);
  }

  lemma NextPrime8(t: nat)
    requires 8 <= t < 16
    ensures Follows(Prime(t), Prime(t + 1))
  {
    match t
    case 8 => assert Follows(23, 29);
    case 9 => assert Follows(29, 31);
    case 10 => assert Follows(31, 37);
    case 11 => assert Follows(37, 41);
    case 12 => assert Follows(41, 43);
    case 13 => assert Follows(43, 47);
    case 14 => assert Follows(47, 53);
    case _ => assert Follows(53, 59);
  }

  lemma NextPrime16(t: nat)
    requires 16 <= t < 24
    ensures Follows(Prime(t), Prime(t + 1))
  {
    match t
    case 16 => assert Follows(59, 61);
    case 17 => assert Follows(61, 67);
    case 18 => assert Follows(67, 71);
    case 19 => assert Follows(71, 73);
    case 20 => assert Follows(73, 79);
    case 21 => assert Follows(79, 83);
    case 22 => assert Follows(83, 89);
    case _ => assert Follows(89, 97);
  }

  lemma NextPrime24(t: nat)
    requires 24 <= t < 32
    ensures Follows(Prime(t), Prime(t + 1))
  {
    match t
    case 24 => assert Follows(97, 101);
    case 25 => assert Follows(101, 103);
    case 26 => assert Follows(103, 107);
    case 27 => assert Follows(107, 109);
    case 28 => assert Follows(109, 113);
    case 29 =>
      CountSplit(113, 121, 127);
      assert SievedBetween(113, 121) == 1 && SievedBetween(121, 127) == 0;
    case 30 => assert Follows(127, 131);
    case _ => assert Follows(131, 137);
  }

  lemma NextPrime32(t: nat)
    requires 32 <= t < 40
    ensures Follows(Prime(t), Prime(t + 1))
  {
    match t
    case 32 => assert Follows(137, 139);
    case 33 => assert Follows(139, 149);
    case 34 => assert Follows(149, 151);
    case 35 => assert Follows(151, 157);
    case 36 => assert Follows(157, 163);
    case 37 => assert Follows(163, 167);
    case 38 => assert Follows(167, 173);
    case _ => assert Follows(173, 179);
  }

  lemma NextPrime40(t: nat)
    requires 40 <= t < 48
    ensures Follows(Prime(t), Prime(t + 1))
  {
    match t
    case 40 => assert Follows(179, 181);
    case 41 => assert Follows(181, 191);
    case 42 => assert Follows(191, 193);
    case 43 => assert Follows(193, 197);
    case 44 => assert Follows(197, 199);
    case 45 => assert Follows(199, 211);
    case 46 => assert Follows(211, 223);
    case _ => assert Follows(223, 227);
  }

  lemma NextPrime48(t: nat)
    requires 48 <= t < 56
    ensures Follows(Prime(t), Prime(t + 1))
  {
    match t
    case 48 => assert Follows(227, 229);
    case 49 => assert Follows(229, 233);
    case 50 => assert Follows(233, 239);
    case 51 => assert Follows(239, 241);
    case 52 => assert Follows(241, 251);
    case 53 => assert Follows(251, 257);
    case 54 => assert Follows(257, 263);
    case _ => assert Follows(263, 269);
  }

  lemma NextPrime56(t: nat)
    requires 56 <= t < 63
    ensures Follows(Prime(t), Prime(t + 1))
  {
    match t
    case 56 => assert Follows(269, 271);
    case 57 => assert Follows(271, 277);
    case 58 => assert Follows(277, 281);
    case 59 => assert Follows(281, 283);
    case 60 => assert Follows(283, 293);
    case 61 =>
      CountSplit(293, 301, 307);
      assert SievedBetween(293, 301) == 1 && SievedBetween(301, 307) == 0;
    case _ => assert Follows(307, 311);
  }

  /** Prime(t) is the t-th prime, counted from zero. */
  lemma {:induction false} NthPrime(t: nat)
    requires t < 64
    ensures IsPrime(Prime(t)) && PrimesBelow(Prime(t)) == t
  {
    if t <= 1 {
      FirstPrimes();
    } else {
      NthPrime(t - 1);
      NextPrime(t - 1);
      TableSieved(t);
      SievedIsPrime(Prime(t));
      hide Sieved, IsPrime, Prime;
      CountUp(Prime(t - 1), Prime(t));
    }
  }

  lemma FirstPrimes()
    ensures IsPrime(2) && PrimesBelow(2) == 0
    ensures IsPrime(3) && PrimesBelow(3) == 1
  {
    SievedIsPrime(2);
    SievedIsPrime(3);
    assert PrimesBelow(1) == PrimesBelow(0) == 0;
    assert PrimesBelow(2) == PrimesBelow(1);
  }

  lemma TableSieved(t: nat)
    requires t < 64
    ensures Sieved(Prime(t)) && Prime(t) < 19 * 19
  {
    if 1 <= t < 63 {
      NextPrime(t);
    }
  }

  // Roots

  /** n is the integer part of 2^32 times the cube root of p. */
  predicate ScaledCubeRoot(p: nat, n: nat) {
    n * n * n <= p * 0x1_0000_0000_0000_0000_0000_0000 < (n + 1) * (n + 1) * (n + 1)
  }

  /** n is the integer part of 2^32 times the square root of p. */
  predicate ScaledSquareRoot(p: nat, n: nat) {
    n * n <= p * 0x1_0000_0000_0000_0000 < (n + 1) * (n + 1)
  }

  /** K(t) is the first 32 bits of the fractional part of the cube root of the t-th prime. */
  lemma RoundConstant(t: nat) returns (n: nat)
    requires t < 64
    ensures IsPrime(Prime(t)) && PrimesBelow(Prime(t)) == t
    ensures ScaledCubeRoot(Prime(t), n) && F.K(t) as nat == n % TWO_TO_THE_32
  {
    NthPrime(t);
    if t < 16 {
      n := RoundConstants0(t);
    } else if t < 32 {
      n := RoundConstants16(t);
    } else if t < 48 {
      n := RoundConstants32(t);
    } else {
      n := RoundConstants48(t);
    }
  }

  lemma RoundConstants0(t: nat) returns (n: nat)
    requires 0 <= t < 16
    ensures ScaledCubeRoot(Prime(t), n) && F.K(t) as nat == n % TWO_TO_THE_32
  {
    match t
    case 0 => n := 0x1_428a2f98;
    case 1 => n := 0x1_71374491;
    case 2 => n := 0x1_b5c0fbcf;
    case 3 => n := 0x1_e9b5dba5;
    case 4 => n := 0x2_3956c25b;
    case 5 => n := 0x2_59f111f1;
    case 6 => n := 0x2_923f82a4;
    case 7 => n := 0x2_ab1c5ed5;
    case 8 => n := 0x2_d807aa98;
    case 9 => n := 0x3_12835b01;
    case 10 => n := 0x3_243185be;
    case 11 => n := 0x3_550c7dc3;
    case 12 => n := 0x3_72be5d74;
    case 13 => n := 0x3_80deb1fe;
    case 14 => n := 0x3_9bdc06a7;
    case _ => n := 0x3_c19bf174;
  }

  lemma RoundConstants16(t: nat) returns (n: nat)
    requires 16 <= t < 32
    ensures ScaledCubeRoot(Prime(t), n) && F.K(t) as nat == n % TWO_TO_THE_32
  {
    match t
    case 16 => n := 0x3_e49b69c1;
    case 17 => n := 0x3_efbe4786;
    case 18 => n := 0x4_0fc19dc6;
    case 19 => n := 0x4_240ca1cc;
    case 20 => n := 0x4_2de92c6f;
    case 21 => n := 0x4_4a7484aa;
    case 22 => n := 0x4_5cb0a9dc;
    case 23 => n := 0x4_76f988da;
    case 24 => n := 0x4_983e5152;
    case 25 => n := 0x4_a831c66d;
    case 26 => n := 0x4_b00327c8;
    case 27 => n := 0x4_bf597fc7;
    case 28 => n := 0x4_c6e00bf3;
    case 29 => n := 0x4_d5a79147;
    case 30 => n := 0x5_06ca6351;
    case _ => n := 0x5_14292967;
  }

  lemma RoundConstants32(t: nat) returns (n: nat)
    requires 32 <= t < 48
    ensures ScaledCubeRoot(Prime(t), n) && F.K(t) as nat == n % TWO_TO_THE_32
  {
    match t
    case 32 => n := 0x5_27b70a85;
    case 33 => n := 0x5_2e1b2138;
    case 34 => n := 0x5_4d2c6dfc;
    case 35 => n := 0x5_53380d13;
    case 36 => n := 0x5_650a7354;
    case 37 => n := 0x5_766a0abb;
    case 38 => n := 0x5_81c2c92e;
    case 39 => n := 0x5_92722c85;
    case 40 => n := 0x5_a2bfe8a1;
    case 41 => n := 0x5_a81a664b;
    case 42 => n := 0x5_c24b8b70;
    case 43 => n := 0x5_c76c51a3;
    case 44 => n := 0x5_d192e819;
    case 45 => n := 0x5_d6990624;
    case 46 => n := 0x5_f40e3585;
    case _ => n := 0x6_106aa070;
  }

  lemma RoundConstants48(t: nat) returns (n: nat)
    requires 48 <= t < 64
    ensures ScaledCubeRoot(Prime(t), n) && F.K(t) as nat == n % TWO_TO_THE_32
  {
    match t
    case 48 => n := 0x6_19a4c116;
    case 49 => n := 0x6_1e376c08;
    case 50 => n := 0x6_2748774c;
    case 51 => n := 0x6_34b0bcb5;
    case 52 => n := 0x6_391c0cb3;
    case 53 => n := 0x6_4ed8aa4a;
    case 54 => n := 0x6_5b9cca4f;
    case 55 => n := 0x6_682e6ff3;
    case 56 => n := 0x6_748f82ee;
    case 57 => n := 0x6_78a5636f;
    case 58 => n := 0x6_84c87814;
    case 59 => n := 0x6_8cc70208;
    case 60 => n := 0x6_90befffa;
    case 61 => n := 0x6_a4506ceb;
    case 62 => n := 0x6_bef9a3f7;
    case _ => n := 0x6_c67178f2;
  }

  /** Word t of the initial hash value is the first 32 bits of the fractional part of the square root of the
      t-th prime. */
  lemma InitialValue(t: nat) returns (n: nat)
    requires t < 8
    ensures IsPrime(Prime(t)) && PrimesBelow(Prime(t)) == t
    ensures ScaledSquareRoot(Prime(t), n) && F.InitialHash()[t] as nat == n % TWO_TO_THE_32
  {
    NthPrime(t);
    match t
    case 0 => n := 0x1_6a09e667;
    case 1 => n := 0x1_bb67ae85;
    case 2 => n := 0x2_3c6ef372;
    case 3 => n := 0x2_a54ff53a;
    case 4 => n := 0x3_510e527f;
    case 5 => n := 0x3_9b05688c;
    case 6 => n := 0x4_1f83d9ab;
    case _ => n := 0x4_5be0cd19;
  }
}
