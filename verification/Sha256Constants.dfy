/**
 Where the constants of SHA-256 come from (FIPS 180-2, sections 4.2.2 and 5.3.2):
 they are the first 32 bits of the fractional parts of the cube roots and square
 roots of the first primes.
 */
module Sha256Constants {
  import opened Common
  import opened Word32
  import opened Sha256

  // ----- the first 64 primes

  function Times(a: nat, b: nat): nat {
    a * b
  }

  ghost predicate IsPrime(n: nat) {
    n >= 2 && forall a: nat, b: nat :: Times(a, b) == n ==> a == 1 || b == 1
  }

  function Prime(t: nat): nat
    requires t < 64
  {
    match t
    case 0 => 2 case 1 => 3 case 2 => 5 case 3 => 7 case 4 => 11 case 5 => 13 case 6 => 17 case 7 => 19 case 8 => 23 case 9 => 29 case 10 => 31 case 11 => 37
    case 12 => 41 case 13 => 43 case 14 => 47 case 15 => 53 case 16 => 59 case 17 => 61 case 18 => 67 case 19 => 71 case 20 => 73 case 21 => 79 case 22 => 83 case 23 => 89
    case 24 => 97 case 25 => 101 case 26 => 103 case 27 => 107 case 28 => 109 case 29 => 113 case 30 => 127 case 31 => 131 case 32 => 137 case 33 => 139 case 34 => 149 case 35 => 151
    case 36 => 157 case 37 => 163 case 38 => 167 case 39 => 173 case 40 => 179 case 41 => 181 case 42 => 191 case 43 => 193 case 44 => 197 case 45 => 199 case 46 => 211 case 47 => 223
    case 48 => 227 case 49 => 229 case 50 => 233 case 51 => 239 case 52 => 241 case 53 => 251 case 54 => 257 case 55 => 263 case 56 => 269 case 57 => 271 case 58 => 277 case 59 => 281
    case 60 => 283 case 61 => 293 case 62 => 307 case _ => 311
  }

  predicate HasSmallDivisor(n: nat) {
    || (n > 2 && n % 2 == 0) || (n > 3 && n % 3 == 0) || (n > 5 && n % 5 == 0) || (n > 7 && n % 7 == 0)
    || (n > 11 && n % 11 == 0) || (n > 13 && n % 13 == 0) || (n > 17 && n % 17 == 0)
  }

  lemma DividedIsNotPrime(n: nat)
    requires HasSmallDivisor(n)
    ensures !IsPrime(n)
  {
    var d := if n > 2 && n % 2 == 0 then 2 else if n > 3 && n % 3 == 0 then 3 else if n > 5 && n % 5 == 0 then 5
             else if n > 7 && n % 7 == 0 then 7 else if n > 11 && n % 11 == 0 then 11 else if n > 13 && n % 13 == 0 then 13 else 17;
    assert Times(d, n / d) == n;
  }

  lemma By2(k: nat)
    requires k >= 2
    ensures HasSmallDivisor(2 * k)
  {
    assert (2 * k) % 2 == 0;
  }

  lemma By3(k: nat)
    requires k >= 2
    ensures HasSmallDivisor(3 * k)
  {
    assert (3 * k) % 3 == 0;
  }

  lemma By5(k: nat)
    requires k >= 2
    ensures HasSmallDivisor(5 * k)
  {
    assert (5 * k) % 5 == 0;
  }

  lemma By7(k: nat)
    requires k >= 2
    ensures HasSmallDivisor(7 * k)
  {
    assert (7 * k) % 7 == 0;
  }

  lemma By11(k: nat)
    requires k >= 2
    ensures HasSmallDivisor(11 * k)
  {
    assert (11 * k) % 11 == 0;
  }

  lemma By13(k: nat)
    requires k >= 2
    ensures HasSmallDivisor(13 * k)
  {
    assert (13 * k) % 13 == 0;
  }

  lemma By17(k: nat)
    requires k >= 2
    ensures HasSmallDivisor(17 * k)
  {
    assert (17 * k) % 17 == 0;
  }

  lemma SmallFactor(n: nat, a: nat, b: nat)
    requires 2 <= a <= 18 && b >= 2 && Times(a, b) == n
    ensures HasSmallDivisor(n)
  {
    hide HasSmallDivisor;
    match a
    case 2 => By2(b);
    case 3 => By3(b);
    case 4 => By2(2 * b);
    case 5 => By5(b);
    case 6 => By2(3 * b);
    case 7 => By7(b);
    case 8 => By2(4 * b);
    case 9 => By3(3 * b);
    case 10 => By2(5 * b);
    case 11 => By11(b);
    case 12 => By2(6 * b);
    case 13 => By13(b);
    case 14 => By2(7 * b);
    case 15 => By3(5 * b);
    case 16 => By2(8 * b);
    case 17 => By17(b);
    case _ => By2(9 * b);
  }

  /** Below 19 * 19, a number that no smaller prime divides is a prime. */
  lemma UndividedIsPrime(n: nat)
    requires 2 <= n < 361 && !HasSmallDivisor(n)
    ensures IsPrime(n)
  {
    hide HasSmallDivisor;
    forall a: nat, b: nat | Times(a, b) == n ensures a == 1 || b == 1 {
      if 2 <= a <= 18 && b >= 2 {
        SmallFactor(n, a, b);
      } else if 2 <= b <= 18 && a >= 2 {
        Turned(a, b);
        SmallFactor(n, b, a);
      } else {
        LargeProduct(a, b);
      }
    }
  }

  lemma Turned(a: nat, b: nat)
    ensures Times(a, b) == Times(b, a)
  {
  }

  lemma LargeProduct(a: nat, b: nat)
    ensures a >= 19 && b >= 19 ==> Times(a, b) >= 361
    ensures a == 0 || b == 0 ==> Times(a, b) == 0
  {
    if a >= 19 && b >= 19 {
      Larger(a, 19, b);
    }
  }

  lemma Larger(a: nat, b: nat, c: nat)
    requires b <= c
    ensures a * b <= a * c
  {
  }

  /** All numbers from `from` on, below `to`, have small divisors. */
  predicate AllDivided(from: nat, to: nat)
    decreases if from < to then to - from else 0
  {
    from >= to || (HasSmallDivisor(from) && AllDivided(from + 1, to))
  }

  lemma {:induction false} DividedAt(from: nat, to: nat, n: nat)
    requires AllDivided(from, to) && from <= n < to
    ensures HasSmallDivisor(n)
    decreases if from < to then to - from else 0
  {
    if from < n {
      DividedAt(from + 1, to, n);
    }
  }

  ghost predicate Listed(t: nat)
    requires t < 64
  {
    && 2 <= Prime(t) < 361 && !HasSmallDivisor(Prime(t))
    && (t > 0 ==> Prime(t - 1) < Prime(t) && AllDivided(Prime(t - 1) + 1, Prime(t)))
  }

  lemma Listed0(t: nat)
    requires 0 <= t < 8
    ensures Listed(t)
  {
    match t
    case 0 => assert AllDivided(2, 2) && !HasSmallDivisor(2);
    case 1 => assert AllDivided(3, 3) && !HasSmallDivisor(3);
    case 2 => assert AllDivided(4, 5) && !HasSmallDivisor(5);
    case 3 => assert AllDivided(6, 7) && !HasSmallDivisor(7);
    case 4 => assert AllDivided(8, 11) && !HasSmallDivisor(11);
    case 5 => assert AllDivided(12, 13) && !HasSmallDivisor(13);
    case 6 => assert AllDivided(14, 17) && !HasSmallDivisor(17);
    case _ => assert AllDivided(18, 19) && !HasSmallDivisor(19);
  }

  lemma Listed8(t: nat)
    requires 8 <= t < 16
    ensures Listed(t)
  {
    match t
    case 8 => assert AllDivided(20, 23) && !HasSmallDivisor(23);
    case 9 => assert AllDivided(24, 29) && !HasSmallDivisor(29);
    case 10 => assert AllDivided(30, 31) && !HasSmallDivisor(31);
    case 11 => assert AllDivided(32, 37) && !HasSmallDivisor(37);
    case 12 => assert AllDivided(38, 41) && !HasSmallDivisor(41);
    case 13 => assert AllDivided(42, 43) && !HasSmallDivisor(43);
    case 14 => assert AllDivided(44, 47) && !HasSmallDivisor(47);
    case _ => assert AllDivided(48, 53) && !HasSmallDivisor(53);
  }

  lemma Listed16(t: nat)
    requires 16 <= t < 24
    ensures Listed(t)
  {
    match t
    case 16 => assert AllDivided(54, 59) && !HasSmallDivisor(59);
    case 17 => assert AllDivided(60, 61) && !HasSmallDivisor(61);
    case 18 => assert AllDivided(62, 67) && !HasSmallDivisor(67);
    case 19 => assert AllDivided(68, 71) && !HasSmallDivisor(71);
    case 20 => assert AllDivided(72, 73) && !HasSmallDivisor(73);
    case 21 => assert AllDivided(74, 79) && !HasSmallDivisor(79);
    case 22 => assert AllDivided(80, 83) && !HasSmallDivisor(83);
    case _ => assert AllDivided(84, 89) && !HasSmallDivisor(89);
  }

  lemma Listed24(t: nat)
    requires 24 <= t < 32
    ensures Listed(t)
  {
    match t
    case 24 => assert AllDivided(90, 97) && !HasSmallDivisor(97);
    case 25 => assert AllDivided(98, 101) && !HasSmallDivisor(101);
    case 26 => assert AllDivided(102, 103) && !HasSmallDivisor(103);
    case 27 => assert AllDivided(104, 107) && !HasSmallDivisor(107);
    case 28 => assert AllDivided(108, 109) && !HasSmallDivisor(109);
    case 29 => assert AllDivided(110, 113) && !HasSmallDivisor(113);
    case 30 => assert AllDivided(114, 127) && !HasSmallDivisor(127);
    case _ => assert AllDivided(128, 131) && !HasSmallDivisor(131);
  }

  lemma Listed32(t: nat)
    requires 32 <= t < 40
    ensures Listed(t)
  {
    match t
    case 32 => assert AllDivided(132, 137) && !HasSmallDivisor(137);
    case 33 => assert AllDivided(138, 139) && !HasSmallDivisor(139);
    case 34 => assert AllDivided(140, 149) && !HasSmallDivisor(149);
    case 35 => assert AllDivided(150, 151) && !HasSmallDivisor(151);
    case 36 => assert AllDivided(152, 157) && !HasSmallDivisor(157);
    case 37 => assert AllDivided(158, 163) && !HasSmallDivisor(163);
    case 38 => assert AllDivided(164, 167) && !HasSmallDivisor(167);
    case _ => assert AllDivided(168, 173) && !HasSmallDivisor(173);
  }

  lemma Listed40(t: nat)
    requires 40 <= t < 48
    ensures Listed(t)
  {
    match t
    case 40 => assert AllDivided(174, 179) && !HasSmallDivisor(179);
    case 41 => assert AllDivided(180, 181) && !HasSmallDivisor(181);
    case 42 => assert AllDivided(182, 191) && !HasSmallDivisor(191);
    case 43 => assert AllDivided(192, 193) && !HasSmallDivisor(193);
    case 44 => assert AllDivided(194, 197) && !HasSmallDivisor(197);
    case 45 => assert AllDivided(198, 199) && !HasSmallDivisor(199);
    case 46 => assert AllDivided(200, 211) && !HasSmallDivisor(211);
    case _ => assert AllDivided(212, 223) && !HasSmallDivisor(223);
  }

  lemma Listed48(t: nat)
    requires 48 <= t < 56
    ensures Listed(t)
  {
    match t
    case 48 => assert AllDivided(224, 227) && !HasSmallDivisor(227);
    case 49 => assert AllDivided(228, 229) && !HasSmallDivisor(229);
    case 50 => assert AllDivided(230, 233) && !HasSmallDivisor(233);
    case 51 => assert AllDivided(234, 239) && !HasSmallDivisor(239);
    case 52 => assert AllDivided(240, 241) && !HasSmallDivisor(241);
    case 53 => assert AllDivided(242, 251) && !HasSmallDivisor(251);
    case 54 => assert AllDivided(252, 257) && !HasSmallDivisor(257);
    case _ => assert AllDivided(258, 263) && !HasSmallDivisor(263);
  }

  lemma Listed56(t: nat)
    requires 56 <= t < 64
    ensures Listed(t)
  {
    match t
    case 56 => assert AllDivided(264, 269) && !HasSmallDivisor(269);
    case 57 => assert AllDivided(270, 271) && !HasSmallDivisor(271);
    case 58 => assert AllDivided(272, 277) && !HasSmallDivisor(277);
    case 59 => assert AllDivided(278, 281) && !HasSmallDivisor(281);
    case 60 => assert AllDivided(282, 283) && !HasSmallDivisor(283);
    case 61 => assert AllDivided(284, 293) && !HasSmallDivisor(293);
    case 62 => assert AllDivided(294, 307) && !HasSmallDivisor(307);
    case _ => assert AllDivided(308, 311) && !HasSmallDivisor(311);
  }

  /** They are primes, 2 is the first one, and there is none between two of them. */
  lemma PrimesInOrder(t: nat)
    requires t < 64
    ensures IsPrime(Prime(t)) && Prime(0) == 2
    ensures t > 0 ==> Prime(t - 1) < Prime(t) && forall n :: Prime(t - 1) < n < Prime(t) ==> !IsPrime(n)
  {
    hide HasSmallDivisor, IsPrime, Prime;
    FirstPrime();
    if t < 8 {
      Listed0(t);
    } else if t < 16 {
      Listed8(t);
    } else if t < 24 {
      Listed16(t);
    } else if t < 32 {
      Listed24(t);
    } else if t < 40 {
      Listed32(t);
    } else if t < 48 {
      Listed40(t);
    } else if t < 56 {
      Listed48(t);
    } else {
      Listed56(t);
    }
    UndividedIsPrime(Prime(t));
    if t > 0 {
      forall n | Prime(t - 1) < n < Prime(t) ensures !IsPrime(n) {
        DividedAt(Prime(t - 1) + 1, Prime(t), n);
        DividedIsNotPrime(n);
      }
    }
  }

  lemma FirstPrime()
    ensures Prime(0) == 2
  {
  }

  // ----- the round constants

  const TWO_96: nat := 0x1_0000_0000_0000_0000_0000_0000

  predicate EndsIn(x: nat, w: Word) {
    x == Scaled(x / TWO_32, w)
  }

  /** x is the cube root of 2^96 * p, rounded down. */
  predicate RoundedRoot(x: nat, p: nat) {
    x * x * x <= p * TWO_96 < (x + 1) * (x + 1) * (x + 1)
  }

  /** w is the first 32 bits of the fraction of the cube root of p: that is a + w / 2^32, rounded down. */
  ghost predicate CubeRootFraction(w: Word, p: nat) {
    exists a: nat {:trigger Scaled(a, w)} :: RoundedRoot(Scaled(a, w), p)
  }

  ghost predicate SquareRootFraction(w: Word, p: nat) {
    exists a: nat {:trigger Scaled(a, w)} :: var x := Scaled(a, w); x * x <= p * TWO_64 < (x + 1) * (x + 1)
  }

  function ValueOf(w: Word): (n: nat)
    ensures n < TWO_32
  {
    w as nat
  }

  /** 2^32 times a + w / 2^32 */
  function Scaled(a: nat, w: Word): nat {
    TWO_32 * a + ValueOf(w)
  }

  /** 2^32 times the cube roots, rounded down. */
  function Root(t: nat): nat
    requires t < 64
  {
    match t
    case 0 => 0x1_428a2f98 case 1 => 0x1_71374491 case 2 => 0x1_b5c0fbcf case 3 => 0x1_e9b5dba5
    case 4 => 0x2_3956c25b case 5 => 0x2_59f111f1 case 6 => 0x2_923f82a4 case 7 => 0x2_ab1c5ed5
    case 8 => 0x2_d807aa98 case 9 => 0x3_12835b01 case 10 => 0x3_243185be case 11 => 0x3_550c7dc3
    case 12 => 0x3_72be5d74 case 13 => 0x3_80deb1fe case 14 => 0x3_9bdc06a7 case 15 => 0x3_c19bf174
    case 16 => 0x3_e49b69c1 case 17 => 0x3_efbe4786 case 18 => 0x4_0fc19dc6 case 19 => 0x4_240ca1cc
    case 20 => 0x4_2de92c6f case 21 => 0x4_4a7484aa case 22 => 0x4_5cb0a9dc case 23 => 0x4_76f988da
    case 24 => 0x4_983e5152 case 25 => 0x4_a831c66d case 26 => 0x4_b00327c8 case 27 => 0x4_bf597fc7
    case 28 => 0x4_c6e00bf3 case 29 => 0x4_d5a79147 case 30 => 0x5_06ca6351 case 31 => 0x5_14292967
    case 32 => 0x5_27b70a85 case 33 => 0x5_2e1b2138 case 34 => 0x5_4d2c6dfc case 35 => 0x5_53380d13
    case 36 => 0x5_650a7354 case 37 => 0x5_766a0abb case 38 => 0x5_81c2c92e case 39 => 0x5_92722c85
    case 40 => 0x5_a2bfe8a1 case 41 => 0x5_a81a664b case 42 => 0x5_c24b8b70 case 43 => 0x5_c76c51a3
    case 44 => 0x5_d192e819 case 45 => 0x5_d6990624 case 46 => 0x5_f40e3585 case 47 => 0x6_106aa070
    case 48 => 0x6_19a4c116 case 49 => 0x6_1e376c08 case 50 => 0x6_2748774c case 51 => 0x6_34b0bcb5
    case 52 => 0x6_391c0cb3 case 53 => 0x6_4ed8aa4a case 54 => 0x6_5b9cca4f case 55 => 0x6_682e6ff3
    case 56 => 0x6_748f82ee case 57 => 0x6_78a5636f case 58 => 0x6_84c87814 case 59 => 0x6_8cc70208
    case 60 => 0x6_90befffa case 61 => 0x6_a4506ceb case 62 => 0x6_bef9a3f7 case _ => 0x6_c67178f2
  }

  lemma RootOf0(t: nat)
    requires 0 <= t < 8
    ensures RoundedRoot(Root(t), Prime(t))
  {
    match t
    case 0 => assert RoundedRoot(0x1_428a2f98, 2);
    case 1 => assert RoundedRoot(0x1_71374491, 3);
    case 2 => assert RoundedRoot(0x1_b5c0fbcf, 5);
    case 3 => assert RoundedRoot(0x1_e9b5dba5, 7);
    case 4 => assert RoundedRoot(0x2_3956c25b, 11);
    case 5 => assert RoundedRoot(0x2_59f111f1, 13);
    case 6 => assert RoundedRoot(0x2_923f82a4, 17);
    case _ => assert RoundedRoot(0x2_ab1c5ed5, 19);
  }

  lemma RootOf8(t: nat)
    requires 8 <= t < 16
    ensures RoundedRoot(Root(t), Prime(t))
  {
    match t
    case 8 => assert RoundedRoot(0x2_d807aa98, 23);
    case 9 => assert RoundedRoot(0x3_12835b01, 29);
    case 10 => assert RoundedRoot(0x3_243185be, 31);
    case 11 => assert RoundedRoot(0x3_550c7dc3, 37);
    case 12 => assert RoundedRoot(0x3_72be5d74, 41);
    case 13 => assert RoundedRoot(0x3_80deb1fe, 43);
    case 14 => assert RoundedRoot(0x3_9bdc06a7, 47);
    case _ => assert RoundedRoot(0x3_c19bf174, 53);
  }

  lemma RootEnds0(t: nat)
    requires 0 <= t < 8
    ensures EndsIn(Root(t), K(t))
  {
    match t
    case 0 => assert EndsIn(0x1_428a2f98, 0x428a2f98);
    case 1 => assert EndsIn(0x1_71374491, 0x71374491);
    case 2 => assert EndsIn(0x1_b5c0fbcf, 0xb5c0fbcf);
    case 3 => assert EndsIn(0x1_e9b5dba5, 0xe9b5dba5);
    case 4 => assert EndsIn(0x2_3956c25b, 0x3956c25b);
    case 5 => assert EndsIn(0x2_59f111f1, 0x59f111f1);
    case 6 => assert EndsIn(0x2_923f82a4, 0x923f82a4);
    case _ => assert EndsIn(0x2_ab1c5ed5, 0xab1c5ed5);
  }

  lemma RootEnds8(t: nat)
    requires 8 <= t < 16
    ensures EndsIn(Root(t), K(t))
  {
    match t
    case 8 => assert EndsIn(0x2_d807aa98, 0xd807aa98);
    case 9 => assert EndsIn(0x3_12835b01, 0x12835b01);
    case 10 => assert EndsIn(0x3_243185be, 0x243185be);
    case 11 => assert EndsIn(0x3_550c7dc3, 0x550c7dc3);
    case 12 => assert EndsIn(0x3_72be5d74, 0x72be5d74);
    case 13 => assert EndsIn(0x3_80deb1fe, 0x80deb1fe);
    case 14 => assert EndsIn(0x3_9bdc06a7, 0x9bdc06a7);
    case _ => assert EndsIn(0x3_c19bf174, 0xc19bf174);
  }

  lemma RootOf16(t: nat)
    requires 16 <= t < 24
    ensures RoundedRoot(Root(t), Prime(t))
  {
    match t
    case 16 => assert RoundedRoot(0x3_e49b69c1, 59);
    case 17 => assert RoundedRoot(0x3_efbe4786, 61);
    case 18 => assert RoundedRoot(0x4_0fc19dc6, 67);
    case 19 => assert RoundedRoot(0x4_240ca1cc, 71);
    case 20 => assert RoundedRoot(0x4_2de92c6f, 73);
    case 21 => assert RoundedRoot(0x4_4a7484aa, 79);
    case 22 => assert RoundedRoot(0x4_5cb0a9dc, 83);
    case _ => assert RoundedRoot(0x4_76f988da, 89);
  }

  lemma RootOf24(t: nat)
    requires 24 <= t < 32
    ensures RoundedRoot(Root(t), Prime(t))
  {
    match t
    case 24 => assert RoundedRoot(0x4_983e5152, 97);
    case 25 => assert RoundedRoot(0x4_a831c66d, 101);
    case 26 => assert RoundedRoot(0x4_b00327c8, 103);
    case 27 => assert RoundedRoot(0x4_bf597fc7, 107);
    case 28 => assert RoundedRoot(0x4_c6e00bf3, 109);
    case 29 => assert RoundedRoot(0x4_d5a79147, 113);
    case 30 => assert RoundedRoot(0x5_06ca6351, 127);
    case _ => assert RoundedRoot(0x5_14292967, 131);
  }

  lemma RootEnds16(t: nat)
    requires 16 <= t < 24
    ensures EndsIn(Root(t), K(t))
  {
    match t
    case 16 => assert EndsIn(0x3_e49b69c1, 0xe49b69c1);
    case 17 => assert EndsIn(0x3_efbe4786, 0xefbe4786);
    case 18 => assert EndsIn(0x4_0fc19dc6, 0x0fc19dc6);
    case 19 => assert EndsIn(0x4_240ca1cc, 0x240ca1cc);
    case 20 => assert EndsIn(0x4_2de92c6f, 0x2de92c6f);
    case 21 => assert EndsIn(0x4_4a7484aa, 0x4a7484aa);
    case 22 => assert EndsIn(0x4_5cb0a9dc, 0x5cb0a9dc);
    case _ => assert EndsIn(0x4_76f988da, 0x76f988da);
  }

  lemma RootEnds24(t: nat)
    requires 24 <= t < 32
    ensures EndsIn(Root(t), K(t))
  {
    match t
    case 24 => assert EndsIn(0x4_983e5152, 0x983e5152);
    case 25 => assert EndsIn(0x4_a831c66d, 0xa831c66d);
    case 26 => assert EndsIn(0x4_b00327c8, 0xb00327c8);
    case 27 => assert EndsIn(0x4_bf597fc7, 0xbf597fc7);
    case 28 => assert EndsIn(0x4_c6e00bf3, 0xc6e00bf3);
    case 29 => assert EndsIn(0x4_d5a79147, 0xd5a79147);
    case 30 => assert EndsIn(0x5_06ca6351, 0x06ca6351);
    case _ => assert EndsIn(0x5_14292967, 0x14292967);
  }

  lemma RootOf32(t: nat)
    requires 32 <= t < 40
    ensures RoundedRoot(Root(t), Prime(t))
  {
    match t
    case 32 => assert RoundedRoot(0x5_27b70a85, 137);
    case 33 => assert RoundedRoot(0x5_2e1b2138, 139);
    case 34 => assert RoundedRoot(0x5_4d2c6dfc, 149);
    case 35 => assert RoundedRoot(0x5_53380d13, 151);
    case 36 => assert RoundedRoot(0x5_650a7354, 157);
    case 37 => assert RoundedRoot(0x5_766a0abb, 163);
    case 38 => assert RoundedRoot(0x5_81c2c92e, 167);
    case _ => assert RoundedRoot(0x5_92722c85, 173);
  }

  lemma RootOf40(t: nat)
    requires 40 <= t < 48
    ensures RoundedRoot(Root(t), Prime(t))
  {
    match t
    case 40 => assert RoundedRoot(0x5_a2bfe8a1, 179);
    case 41 => assert RoundedRoot(0x5_a81a664b, 181);
    case 42 => assert RoundedRoot(0x5_c24b8b70, 191);
    case 43 => assert RoundedRoot(0x5_c76c51a3, 193);
    case 44 => assert RoundedRoot(0x5_d192e819, 197);
    case 45 => assert RoundedRoot(0x5_d6990624, 199);
    case 46 => assert RoundedRoot(0x5_f40e3585, 211);
    case _ => assert RoundedRoot(0x6_106aa070, 223);
  }

  lemma RootEnds32(t: nat)
    requires 32 <= t < 40
    ensures EndsIn(Root(t), K(t))
  {
    match t
    case 32 => assert EndsIn(0x5_27b70a85, 0x27b70a85);
    case 33 => assert EndsIn(0x5_2e1b2138, 0x2e1b2138);
    case 34 => assert EndsIn(0x5_4d2c6dfc, 0x4d2c6dfc);
    case 35 => assert EndsIn(0x5_53380d13, 0x53380d13);
    case 36 => assert EndsIn(0x5_650a7354, 0x650a7354);
    case 37 => assert EndsIn(0x5_766a0abb, 0x766a0abb);
    case 38 => assert EndsIn(0x5_81c2c92e, 0x81c2c92e);
    case _ => assert EndsIn(0x5_92722c85, 0x92722c85);
  }

  lemma RootEnds40(t: nat)
    requires 40 <= t < 48
    ensures EndsIn(Root(t), K(t))
  {
    match t
    case 40 => assert EndsIn(0x5_a2bfe8a1, 0xa2bfe8a1);
    case 41 => assert EndsIn(0x5_a81a664b, 0xa81a664b);
    case 42 => assert EndsIn(0x5_c24b8b70, 0xc24b8b70);
    case 43 => assert EndsIn(0x5_c76c51a3, 0xc76c51a3);
    case 44 => assert EndsIn(0x5_d192e819, 0xd192e819);
    case 45 => assert EndsIn(0x5_d6990624, 0xd6990624);
    case 46 => assert EndsIn(0x5_f40e3585, 0xf40e3585);
    case _ => assert EndsIn(0x6_106aa070, 0x106aa070);
  }

  lemma RootOf48(t: nat)
    requires 48 <= t < 56
    ensures RoundedRoot(Root(t), Prime(t))
  {
    match t
    case 48 => assert RoundedRoot(0x6_19a4c116, 227);
    case 49 => assert RoundedRoot(0x6_1e376c08, 229);
    case 50 => assert RoundedRoot(0x6_2748774c, 233);
    case 51 => assert RoundedRoot(0x6_34b0bcb5, 239);
    case 52 => assert RoundedRoot(0x6_391c0cb3, 241);
    case 53 => assert RoundedRoot(0x6_4ed8aa4a, 251);
    case 54 => assert RoundedRoot(0x6_5b9cca4f, 257);
    case _ => assert RoundedRoot(0x6_682e6ff3, 263);
  }

  lemma RootOf56(t: nat)
    requires 56 <= t < 64
    ensures RoundedRoot(Root(t), Prime(t))
  {
    match t
    case 56 => assert RoundedRoot(0x6_748f82ee, 269);
    case 57 => assert RoundedRoot(0x6_78a5636f, 271);
    case 58 => assert RoundedRoot(0x6_84c87814, 277);
    case 59 => assert RoundedRoot(0x6_8cc70208, 281);
    case 60 => assert RoundedRoot(0x6_90befffa, 283);
    case 61 => assert RoundedRoot(0x6_a4506ceb, 293);
    case 62 => assert RoundedRoot(0x6_bef9a3f7, 307);
    case _ => assert RoundedRoot(0x6_c67178f2, 311);
  }

  lemma RootEnds48(t: nat)
    requires 48 <= t < 56
    ensures EndsIn(Root(t), K(t))
  {
    match t
    case 48 => assert EndsIn(0x6_19a4c116, 0x19a4c116);
    case 49 => assert EndsIn(0x6_1e376c08, 0x1e376c08);
    case 50 => assert EndsIn(0x6_2748774c, 0x2748774c);
    case 51 => assert EndsIn(0x6_34b0bcb5, 0x34b0bcb5);
    case 52 => assert EndsIn(0x6_391c0cb3, 0x391c0cb3);
    case 53 => assert EndsIn(0x6_4ed8aa4a, 0x4ed8aa4a);
    case 54 => assert EndsIn(0x6_5b9cca4f, 0x5b9cca4f);
    case _ => assert EndsIn(0x6_682e6ff3, 0x682e6ff3);
  }

  lemma RootEnds56(t: nat)
    requires 56 <= t < 64
    ensures EndsIn(Root(t), K(t))
  {
    match t
    case 56 => assert EndsIn(0x6_748f82ee, 0x748f82ee);
    case 57 => assert EndsIn(0x6_78a5636f, 0x78a5636f);
    case 58 => assert EndsIn(0x6_84c87814, 0x84c87814);
    case 59 => assert EndsIn(0x6_8cc70208, 0x8cc70208);
    case 60 => assert EndsIn(0x6_90befffa, 0x90befffa);
    case 61 => assert EndsIn(0x6_a4506ceb, 0xa4506ceb);
    case 62 => assert EndsIn(0x6_bef9a3f7, 0xbef9a3f7);
    case _ => assert EndsIn(0x6_c67178f2, 0xc67178f2);
  }

  /** The constant of round t is taken from the cube root of the prime number t. */
  lemma ConstantsAreCubeRoots(t: nat)
    requires t < 64
    ensures CubeRootFraction(K(t), Prime(t))
  {
    hide K, Prime, Root, RoundedRoot, Scaled;
    if t < 8 {
      RootOf0(t);
      RootEnds0(t);
    } else if t < 16 {
      RootOf8(t);
      RootEnds8(t);
    } else if t < 24 {
      RootOf16(t);
      RootEnds16(t);
    } else if t < 32 {
      RootOf24(t);
      RootEnds24(t);
    } else if t < 40 {
      RootOf32(t);
      RootEnds32(t);
    } else if t < 48 {
      RootOf40(t);
      RootEnds40(t);
    } else if t < 56 {
      RootOf48(t);
      RootEnds48(t);
    } else {
      RootOf56(t);
      RootEnds56(t);
    }
  }

  /** The initial hash value is taken from the square roots of the first eight primes. */
  lemma InitialHashIsSquareRoots()
    ensures var v := InitialHash();
            && SquareRootFraction(v.a, Prime(0))
            && SquareRootFraction(v.b, Prime(1))
            && SquareRootFraction(v.c, Prime(2))
            && SquareRootFraction(v.d, Prime(3))
            && SquareRootFraction(v.e, Prime(4))
            && SquareRootFraction(v.f, Prime(5))
            && SquareRootFraction(v.g, Prime(6))
            && SquareRootFraction(v.h, Prime(7))
  {
    var v := InitialHash();
    SquareRootOf(v.a, 2, 1);
    SquareRootOf(v.b, 3, 1);
    SquareRootOf(v.c, 5, 2);
    SquareRootOf(v.d, 7, 2);
    SquareRootOf(v.e, 11, 3);
    SquareRootOf(v.f, 13, 3);
    SquareRootOf(v.g, 17, 4);
    SquareRootOf(v.h, 19, 4);
  }

  lemma SquareRootOf(w: Word, p: nat, a: nat)
    requires var x := Scaled(a, w); x * x <= p * TWO_64 < (x + 1) * (x + 1)
    ensures SquareRootFraction(w, p)
  {
    hide Scaled;
  }

  /** There is only one such word. */
  lemma CubeRootIsUnique(w: Word, v: Word, p: nat)
    requires CubeRootFraction(w, p) && CubeRootFraction(v, p)
    ensures w == v
  {
    var a: nat :| RoundedRoot(Scaled(a, w), p);
    var b: nat :| RoundedRoot(Scaled(b, v), p);
    var x, y := Scaled(a, w), Scaled(b, v);
    if x < y {
      Cubes(x + 1, y);
    } else if y < x {
      Cubes(y + 1, x);
    }
    SameWord(a, w, b, v);
  }

  lemma Cubes(x: nat, y: nat)
    requires x <= y
    ensures x * x * x <= y * y * y
  {
    Larger(x, x, y);
    Larger(y, x, y);
    Larger(x * x, x, y);
    Larger(y, x * x, y * y);
  }

  lemma SameWord(a: nat, w: Word, b: nat, v: Word)
    requires Scaled(a, w) == Scaled(b, v)
    ensures w == v
  {
    hide ValueOf;
    Remainders(a, ValueOf(w), b, ValueOf(v));
    SameNumber(w, v);
  }

  lemma Remainders(a: nat, r: nat, b: nat, s: nat)
    requires TWO_32 * a + r == TWO_32 * b + s && r < TWO_32 && s < TWO_32
    ensures r == s
  {
  }

  lemma SameNumber(w: Word, v: Word)
    requires ValueOf(w) == ValueOf(v)
    ensures w == v
  {
    WordOfNumber(w);
    WordOfNumber(v);
  }

  lemma WordOfNumber(w: Word)
    ensures ValueOf(w) as Word == w
  {
  }
}
