/** The constants of the hash, as sections 4.2.2 and 5.3.3 of FIPS 180-4 define them by roots of primes. */
module Sha256Constants {
  import opened Sha256

  // ----- primes

  ghost predicate Prime(n: nat) {
    n >= 2 && forall d: nat :: 2 <= d < n ==> n % d != 0
  }

  ghost function PrimesBelow(n: nat): set<nat> {
    set p: nat | p < n && Prime(p)
  }

  /** `p` is a prime, and there are `t` smaller ones. */
  ghost predicate NthPrime(t: nat, p: nat) {
    Prime(p) && |PrimesBelow(p)| == t
  }

  /** `n` has a proper divisor among the primes up to 17. */
  predicate Composite(n: nat) {
    || (n % 2 == 0 && n != 2) || (n % 3 == 0 && n != 3) || (n % 5 == 0 && n != 5) || (n % 7 == 0 && n != 7)
    || (n % 11 == 0 && n != 11) || (n % 13 == 0 && n != 13) || (n % 17 == 0 && n != 17)
  }

  lemma PrimeIff(n: nat)
    requires 2 <= n < 361
    ensures Prime(n) <==> !Composite(n)
  {
    if !Prime(n) {
      var d: nat :| 2 <= d < n && n % d == 0;
      var e := n / d;
      Cofactor(n, d, e);
      hide Prime, Composite;
      if d < 19 {
        SmallDivisor(n, d, e);
      } else {
        SmallDivisor(n, e, d);
      }
    } else if Composite(n) {
      ProperDivisor(n);
    }
  }

  lemma ProperDivisor(n: nat)
    requires 2 <= n && Composite(n)
    ensures !Prime(n)
  {
    var p := if n % 2 == 0 && n != 2 then 2 else if n % 3 == 0 && n != 3 then 3 else if n % 5 == 0 && n != 5 then 5
      else if n % 7 == 0 && n != 7 then 7 else if n % 11 == 0 && n != 11 then 11 else if n % 13 == 0 && n != 13 then 13 else 17;
    assert n % p == 0 && p < n;
  }

  lemma Cofactor(n: nat, d: nat, e: nat)
    requires 2 <= d < n < 361 && n % d == 0 && e == n / d
    ensures n == d * e && 2 <= e && (d < 19 || e < 19)
  {
    if d >= 19 && e >= 19 {
      Product(d, e);
    }
  }

  lemma Product(d: nat, e: nat)
    requires d >= 19 && e >= 19
    ensures d * e >= 361
  {
    assert d * e >= 19 * e;
  }

  lemma SmallDivisor(n: nat, d: nat, e: nat)
    requires 2 <= d < 19 && 2 <= e && n == d * e
    ensures Composite(n)
  {
    var p := if d % 2 == 0 then 2 else if d % 3 == 0 then 3 else if d % 5 == 0 then 5 else d;
    var k := d / p;
    assert d == p * k && k >= 1;
    Divides(n, p, k, e);
    OneOfSeven(n, p);
  }

  lemma Divides(n: nat, p: nat, k: nat, e: nat)
    requires p >= 2 && k >= 1 && e >= 2 && n == (p * k) * e
    ensures n % p == 0 && n != p
  {
    var m := k * e;
    Larger(k, e);
    assert (p * k) * e == p * m;
    Multiple(p, m);
  }

  lemma Larger(k: nat, e: nat)
    requires k >= 1 && e >= 2
    ensures k * e >= 2
  {
    assert k * e >= 1 * e;
  }

  lemma Multiple(p: nat, m: nat)
    requires p >= 2 && m >= 2
    ensures (p * m) % p == 0 && p * m != p
  {
    assert p * m >= p * 2;
  }

  lemma OneOfSeven(n: nat, p: nat)
    requires p == 2 || p == 3 || p == 5 || p == 7 || p == 11 || p == 13 || p == 17
    requires n % p == 0 && n != p
    ensures Composite(n)
  {
  }

  /** The first prime from `n` on is `next`. */
  predicate Leap(n: nat, next: nat)
    decreases next - n
  {
    if n >= next then n == next && !Composite(next) else Composite(n) && Leap(n + 1, next)
  }

  lemma {:induction false} NoPrimeBetween(n: nat, next: nat, q: nat)
    requires 2 <= n <= q < next < 361 && Leap(n, next)
    ensures !Prime(q)
    decreases q - n
  {
    if n == q {
      PrimeIff(q);
    } else {
      NoPrimeBetween(n + 1, next, q);
    }
  }

  lemma {:induction false} LeapEnds(n: nat, next: nat)
    requires Leap(n, next)
    ensures n <= next && !Composite(next)
    decreases next - n
  {
    if n < next {
      LeapEnds(n + 1, next);
    }
  }

  lemma FirstPrime()
    ensures NthPrime(0, 2)
  {
    assert PrimesBelow(2) == {};
  }

  lemma NextPrime(t: nat, p: nat, q: nat)
    requires NthPrime(t, p) && q < 361 && Leap(p + 1, q)
    ensures NthPrime(t + 1, q)
  {
    LeapEnds(p + 1, q);
    PrimeIff(q);
    hide Prime, Composite;
    forall r: nat | r in PrimesBelow(q) ensures r in PrimesBelow(p) + {p} {
      if p < r {
        NoPrimeBetween(p + 1, q, r);
      }
    }
    assert PrimesBelow(q) == PrimesBelow(p) + {p};
  }

  // ----- roots

  /** `c` is 2^32 times the cube root of `p`, without its fraction. */
  ghost predicate CubeRoot(c: nat, p: nat) {
    c * c * c <= p * 0x1_0000_0000_0000_0000_0000_0000 < (c + 1) * (c + 1) * (c + 1)
  }

  /** `c` is 2^32 times the square root of `p`, without its fraction. */
  ghost predicate SquareRoot(c: nat, p: nat) {
    c * c <= p * 0x1_0000_0000_0000_0000 < (c + 1) * (c + 1)
  }

  /** `w` is the first 32 bits of the fractional part of the cube root of prime number `t`, counted from 0. */
  ghost predicate FromCubeRoot(t: nat, w: Word) {
    exists p: nat, c: nat :: NthPrime(t, p) && CubeRoot(c, p) && c % MODULUS == w as int
  }

  /** The same with the square root. */
  ghost predicate FromSquareRoot(t: nat, w: Word) {
    exists p: nat, c: nat :: NthPrime(t, p) && SquareRoot(c, p) && c % MODULUS == w as int
  }


  lemma Roots0()
    ensures CubeRoot(0x1_428a2f98, 2) && 0x1_428a2f98 % MODULUS == ROW0[0] as int && Leap(3, 3)
    ensures CubeRoot(0x1_71374491, 3) && 0x1_71374491 % MODULUS == ROW0[1] as int && Leap(4, 5)
    ensures CubeRoot(0x1_b5c0fbcf, 5) && 0x1_b5c0fbcf % MODULUS == ROW0[2] as int && Leap(6, 7)
    ensures CubeRoot(0x1_e9b5dba5, 7) && 0x1_e9b5dba5 % MODULUS == ROW0[3] as int && Leap(8, 11)
    ensures CubeRoot(0x2_3956c25b, 11) && 0x2_3956c25b % MODULUS == ROW0[4] as int && Leap(12, 13)
    ensures CubeRoot(0x2_59f111f1, 13) && 0x2_59f111f1 % MODULUS == ROW0[5] as int && Leap(14, 17)
    ensures CubeRoot(0x2_923f82a4, 17) && 0x2_923f82a4 % MODULUS == ROW0[6] as int && Leap(18, 19)
    ensures CubeRoot(0x2_ab1c5ed5, 19) && 0x2_ab1c5ed5 % MODULUS == ROW0[7] as int && Leap(20, 23)
  {
  }

  lemma Row0()
    requires NthPrime(0, 2)
    ensures forall i :: 0 <= i < 8 ==> FromCubeRoot(0 + i, ROW0[i])
    ensures NthPrime(8, 23)
  {
    hide NthPrime, FromCubeRoot, CubeRoot, Leap;
    Roots0();
    OneConstant(0, 2, 0x1_428a2f98, ROW0[0], 3);
    OneConstant(1, 3, 0x1_71374491, ROW0[1], 5);
    OneConstant(2, 5, 0x1_b5c0fbcf, ROW0[2], 7);
    OneConstant(3, 7, 0x1_e9b5dba5, ROW0[3], 11);
    OneConstant(4, 11, 0x2_3956c25b, ROW0[4], 13);
    OneConstant(5, 13, 0x2_59f111f1, ROW0[5], 17);
    OneConstant(6, 17, 0x2_923f82a4, ROW0[6], 19);
    OneConstant(7, 19, 0x2_ab1c5ed5, ROW0[7], 23);
  }

  lemma Roots1()
    ensures CubeRoot(0x2_d807aa98, 23) && 0x2_d807aa98 % MODULUS == ROW1[0] as int && Leap(24, 29)
    ensures CubeRoot(0x3_12835b01, 29) && 0x3_12835b01 % MODULUS == ROW1[1] as int && Leap(30, 31)
    ensures CubeRoot(0x3_243185be, 31) && 0x3_243185be % MODULUS == ROW1[2] as int && Leap(32, 37)
    ensures CubeRoot(0x3_550c7dc3, 37) && 0x3_550c7dc3 % MODULUS == ROW1[3] as int && Leap(38, 41)
    ensures CubeRoot(0x3_72be5d74, 41) && 0x3_72be5d74 % MODULUS == ROW1[4] as int && Leap(42, 43)
    ensures CubeRoot(0x3_80deb1fe, 43) && 0x3_80deb1fe % MODULUS == ROW1[5] as int && Leap(44, 47)
    ensures CubeRoot(0x3_9bdc06a7, 47) && 0x3_9bdc06a7 % MODULUS == ROW1[6] as int && Leap(48, 53)
    ensures CubeRoot(0x3_c19bf174, 53) && 0x3_c19bf174 % MODULUS == ROW1[7] as int && Leap(54, 59)
  {
  }

  lemma Row1()
    requires NthPrime(8, 23)
    ensures forall i :: 0 <= i < 8 ==> FromCubeRoot(8 + i, ROW1[i])
    ensures NthPrime(16, 59)
  {
    hide NthPrime, FromCubeRoot, CubeRoot, Leap;
    Roots1();
    OneConstant(8, 23, 0x2_d807aa98, ROW1[0], 29);
    OneConstant(9, 29, 0x3_12835b01, ROW1[1], 31);
    OneConstant(10, 31, 0x3_243185be, ROW1[2], 37);
    OneConstant(11, 37, 0x3_550c7dc3, ROW1[3], 41);
    OneConstant(12, 41, 0x3_72be5d74, ROW1[4], 43);
    OneConstant(13, 43, 0x3_80deb1fe, ROW1[5], 47);
    OneConstant(14, 47, 0x3_9bdc06a7, ROW1[6], 53);
    OneConstant(15, 53, 0x3_c19bf174, ROW1[7], 59);
  }

  lemma Roots2()
    ensures CubeRoot(0x3_e49b69c1, 59) && 0x3_e49b69c1 % MODULUS == ROW2[0] as int && Leap(60, 61)
    ensures CubeRoot(0x3_efbe4786, 61) && 0x3_efbe4786 % MODULUS == ROW2[1] as int && Leap(62, 67)
    ensures CubeRoot(0x4_0fc19dc6, 67) && 0x4_0fc19dc6 % MODULUS == ROW2[2] as int && Leap(68, 71)
    ensures CubeRoot(0x4_240ca1cc, 71) && 0x4_240ca1cc % MODULUS == ROW2[3] as int && Leap(72, 73)
    ensures CubeRoot(0x4_2de92c6f, 73) && 0x4_2de92c6f % MODULUS == ROW2[4] as int && Leap(74, 79)
    ensures CubeRoot(0x4_4a7484aa, 79) && 0x4_4a7484aa % MODULUS == ROW2[5] as int && Leap(80, 83)
    ensures CubeRoot(0x4_5cb0a9dc, 83) && 0x4_5cb0a9dc % MODULUS == ROW2[6] as int && Leap(84, 89)
    ensures CubeRoot(0x4_76f988da, 89) && 0x4_76f988da % MODULUS == ROW2[7] as int && Leap(90, 97)
  {
  }

  lemma Row2()
    requires NthPrime(16, 59)
    ensures forall i :: 0 <= i < 8 ==> FromCubeRoot(16 + i, ROW2[i])
    ensures NthPrime(24, 97)
  {
    hide NthPrime, FromCubeRoot, CubeRoot, Leap;
    Roots2();
    OneConstant(16, 59, 0x3_e49b69c1, ROW2[0], 61);
    OneConstant(17, 61, 0x3_efbe4786, ROW2[1], 67);
    OneConstant(18, 67, 0x4_0fc19dc6, ROW2[2], 71);
    OneConstant(19, 71, 0x4_240ca1cc, ROW2[3], 73);
    OneConstant(20, 73, 0x4_2de92c6f, ROW2[4], 79);
    OneConstant(21, 79, 0x4_4a7484aa, ROW2[5], 83);
    OneConstant(22, 83, 0x4_5cb0a9dc, ROW2[6], 89);
    OneConstant(23, 89, 0x4_76f988da, ROW2[7], 97);
  }

  lemma Roots3()
    ensures CubeRoot(0x4_983e5152, 97) && 0x4_983e5152 % MODULUS == ROW3[0] as int && Leap(98, 101)
    ensures CubeRoot(0x4_a831c66d, 101) && 0x4_a831c66d % MODULUS == ROW3[1] as int && Leap(102, 103)
    ensures CubeRoot(0x4_b00327c8, 103) && 0x4_b00327c8 % MODULUS == ROW3[2] as int && Leap(104, 107)
    ensures CubeRoot(0x4_bf597fc7, 107) && 0x4_bf597fc7 % MODULUS == ROW3[3] as int && Leap(108, 109)
    ensures CubeRoot(0x4_c6e00bf3, 109) && 0x4_c6e00bf3 % MODULUS == ROW3[4] as int && Leap(110, 113)
    ensures CubeRoot(0x4_d5a79147, 113) && 0x4_d5a79147 % MODULUS == ROW3[5] as int && Leap(114, 127)
    ensures CubeRoot(0x5_06ca6351, 127) && 0x5_06ca6351 % MODULUS == ROW3[6] as int && Leap(128, 131)
    ensures CubeRoot(0x5_14292967, 131) && 0x5_14292967 % MODULUS == ROW3[7] as int && Leap(132, 137)
  {
  }

  lemma Row3()
    requires NthPrime(24, 97)
    ensures forall i :: 0 <= i < 8 ==> FromCubeRoot(24 + i, ROW3[i])
    ensures NthPrime(32, 137)
  {
    hide NthPrime, FromCubeRoot, CubeRoot, Leap;
    Roots3();
    OneConstant(24, 97, 0x4_983e5152, ROW3[0], 101);
    OneConstant(25, 101, 0x4_a831c66d, ROW3[1], 103);
    OneConstant(26, 103, 0x4_b00327c8, ROW3[2], 107);
    OneConstant(27, 107, 0x4_bf597fc7, ROW3[3], 109);
    OneConstant(28, 109, 0x4_c6e00bf3, ROW3[4], 113);
    OneConstant(29, 113, 0x4_d5a79147, ROW3[5], 127);
    OneConstant(30, 127, 0x5_06ca6351, ROW3[6], 131);
    OneConstant(31, 131, 0x5_14292967, ROW3[7], 137);
  }

  lemma Roots4()
    ensures CubeRoot(0x5_27b70a85, 137) && 0x5_27b70a85 % MODULUS == ROW4[0] as int && Leap(138, 139)
    ensures CubeRoot(0x5_2e1b2138, 139) && 0x5_2e1b2138 % MODULUS == ROW4[1] as int && Leap(140, 149)
    ensures CubeRoot(0x5_4d2c6dfc, 149) && 0x5_4d2c6dfc % MODULUS == ROW4[2] as int && Leap(150, 151)
    ensures CubeRoot(0x5_53380d13, 151) && 0x5_53380d13 % MODULUS == ROW4[3] as int && Leap(152, 157)
    ensures CubeRoot(0x5_650a7354, 157) && 0x5_650a7354 % MODULUS == ROW4[4] as int && Leap(158, 163)
    ensures CubeRoot(0x5_766a0abb, 163) && 0x5_766a0abb % MODULUS == ROW4[5] as int && Leap(164, 167)
    ensures CubeRoot(0x5_81c2c92e, 167) && 0x5_81c2c92e % MODULUS == ROW4[6] as int && Leap(168, 173)
    ensures CubeRoot(0x5_92722c85, 173) && 0x5_92722c85 % MODULUS == ROW4[7] as int && Leap(174, 179)
  {
  }

  lemma Row4()
    requires NthPrime(32, 137)
    ensures forall i :: 0 <= i < 8 ==> FromCubeRoot(32 + i, ROW4[i])
    ensures NthPrime(40, 179)
  {
    hide NthPrime, FromCubeRoot, CubeRoot, Leap;
    Roots4();
    OneConstant(32, 137, 0x5_27b70a85, ROW4[0], 139);
    OneConstant(33, 139, 0x5_2e1b2138, ROW4[1], 149);
    OneConstant(34, 149, 0x5_4d2c6dfc, ROW4[2], 151);
    OneConstant(35, 151, 0x5_53380d13, ROW4[3], 157);
    OneConstant(36, 157, 0x5_650a7354, ROW4[4], 163);
    OneConstant(37, 163, 0x5_766a0abb, ROW4[5], 167);
    OneConstant(38, 167, 0x5_81c2c92e, ROW4[6], 173);
    OneConstant(39, 173, 0x5_92722c85, ROW4[7], 179);
  }

  lemma Roots5()
    ensures CubeRoot(0x5_a2bfe8a1, 179) && 0x5_a2bfe8a1 % MODULUS == ROW5[0] as int && Leap(180, 181)
    ensures CubeRoot(0x5_a81a664b, 181) && 0x5_a81a664b % MODULUS == ROW5[1] as int && Leap(182, 191)
    ensures CubeRoot(0x5_c24b8b70, 191) && 0x5_c24b8b70 % MODULUS == ROW5[2] as int && Leap(192, 193)
    ensures CubeRoot(0x5_c76c51a3, 193) && 0x5_c76c51a3 % MODULUS == ROW5[3] as int && Leap(194, 197)
    ensures CubeRoot(0x5_d192e819, 197) && 0x5_d192e819 % MODULUS == ROW5[4] as int && Leap(198, 199)
    ensures CubeRoot(0x5_d6990624, 199) && 0x5_d6990624 % MODULUS == ROW5[5] as int && Leap(200, 211)
    ensures CubeRoot(0x5_f40e3585, 211) && 0x5_f40e3585 % MODULUS == ROW5[6] as int && Leap(212, 223)
    ensures CubeRoot(0x6_106aa070, 223) && 0x6_106aa070 % MODULUS == ROW5[7] as int && Leap(224, 227)
  {
  }

  lemma Row5()
    requires NthPrime(40, 179)
    ensures forall i :: 0 <= i < 8 ==> FromCubeRoot(40 + i, ROW5[i])
    ensures NthPrime(48, 227)
  {
    hide NthPrime, FromCubeRoot, CubeRoot, Leap;
    Roots5();
    OneConstant(40, 179, 0x5_a2bfe8a1, ROW5[0], 181);
    OneConstant(41, 181, 0x5_a81a664b, ROW5[1], 191);
    OneConstant(42, 191, 0x5_c24b8b70, ROW5[2], 193);
    OneConstant(43, 193, 0x5_c76c51a3, ROW5[3], 197);
    OneConstant(44, 197, 0x5_d192e819, ROW5[4], 199);
    OneConstant(45, 199, 0x5_d6990624, ROW5[5], 211);
    OneConstant(46, 211, 0x5_f40e3585, ROW5[6], 223);
    OneConstant(47, 223, 0x6_106aa070, ROW5[7], 227);
  }

  lemma Roots6()
    ensures CubeRoot(0x6_19a4c116, 227) && 0x6_19a4c116 % MODULUS == ROW6[0] as int && Leap(228, 229)
    ensures CubeRoot(0x6_1e376c08, 229) && 0x6_1e376c08 % MODULUS == ROW6[1] as int && Leap(230, 233)
    ensures CubeRoot(0x6_2748774c, 233) && 0x6_2748774c % MODULUS == ROW6[2] as int && Leap(234, 239)
    ensures CubeRoot(0x6_34b0bcb5, 239) && 0x6_34b0bcb5 % MODULUS == ROW6[3] as int && Leap(240, 241)
    ensures CubeRoot(0x6_391c0cb3, 241) && 0x6_391c0cb3 % MODULUS == ROW6[4] as int && Leap(242, 251)
    ensures CubeRoot(0x6_4ed8aa4a, 251) && 0x6_4ed8aa4a % MODULUS == ROW6[5] as int && Leap(252, 257)
    ensures CubeRoot(0x6_5b9cca4f, 257) && 0x6_5b9cca4f % MODULUS == ROW6[6] as int && Leap(258, 263)
    ensures CubeRoot(0x6_682e6ff3, 263) && 0x6_682e6ff3 % MODULUS == ROW6[7] as int && Leap(264, 269)
  {
  }

  lemma Row6()
    requires NthPrime(48, 227)
    ensures forall i :: 0 <= i < 8 ==> FromCubeRoot(48 + i, ROW6[i])
    ensures NthPrime(56, 269)
  {
    hide NthPrime, FromCubeRoot, CubeRoot, Leap;
    Roots6();
    OneConstant(48, 227, 0x6_19a4c116, ROW6[0], 229);
    OneConstant(49, 229, 0x6_1e376c08, ROW6[1], 233);
    OneConstant(50, 233, 0x6_2748774c, ROW6[2], 239);
    OneConstant(51, 239, 0x6_34b0bcb5, ROW6[3], 241);
    OneConstant(52, 241, 0x6_391c0cb3, ROW6[4], 251);
    OneConstant(53, 251, 0x6_4ed8aa4a, ROW6[5], 257);
    OneConstant(54, 257, 0x6_5b9cca4f, ROW6[6], 263);
    OneConstant(55, 263, 0x6_682e6ff3, ROW6[7], 269);
  }

  lemma Roots7()
    ensures CubeRoot(0x6_748f82ee, 269) && 0x6_748f82ee % MODULUS == ROW7[0] as int && Leap(270, 271)
    ensures CubeRoot(0x6_78a5636f, 271) && 0x6_78a5636f % MODULUS == ROW7[1] as int && Leap(272, 277)
    ensures CubeRoot(0x6_84c87814, 277) && 0x6_84c87814 % MODULUS == ROW7[2] as int && Leap(278, 281)
    ensures CubeRoot(0x6_8cc70208, 281) && 0x6_8cc70208 % MODULUS == ROW7[3] as int && Leap(282, 283)
    ensures CubeRoot(0x6_90befffa, 283) && 0x6_90befffa % MODULUS == ROW7[4] as int && Leap(284, 293)
    ensures CubeRoot(0x6_a4506ceb, 293) && 0x6_a4506ceb % MODULUS == ROW7[5] as int && Leap(294, 307)
    ensures CubeRoot(0x6_bef9a3f7, 307) && 0x6_bef9a3f7 % MODULUS == ROW7[6] as int && Leap(308, 311)
    ensures CubeRoot(0x6_c67178f2, 311) && 0x6_c67178f2 % MODULUS == ROW7[7] as int && Leap(312, 313)
  {
  }

  lemma Row7()
    requires NthPrime(56, 269)
    ensures forall i :: 0 <= i < 8 ==> FromCubeRoot(56 + i, ROW7[i])
    ensures NthPrime(64, 313)
  {
    hide NthPrime, FromCubeRoot, CubeRoot, Leap;
    Roots7();
    OneConstant(56, 269, 0x6_748f82ee, ROW7[0], 271);
    OneConstant(57, 271, 0x6_78a5636f, ROW7[1], 277);
    OneConstant(58, 277, 0x6_84c87814, ROW7[2], 281);
    OneConstant(59, 281, 0x6_8cc70208, ROW7[3], 283);
    OneConstant(60, 283, 0x6_90befffa, ROW7[4], 293);
    OneConstant(61, 293, 0x6_a4506ceb, ROW7[5], 307);
    OneConstant(62, 307, 0x6_bef9a3f7, ROW7[6], 311);
    OneConstant(63, 311, 0x6_c67178f2, ROW7[7], 313);
  }

  lemma OneConstant(t: nat, p: nat, c: nat, w: Word, q: nat)
    requires NthPrime(t, p) && CubeRoot(c, p) && c % MODULUS == w as int && q < 361 && Leap(p + 1, q)
    ensures FromCubeRoot(t, w) && NthPrime(t + 1, q)
  {
    hide CubeRoot, Leap, NthPrime;
    NextPrime(t, p, q);
  }

  /** Section 4.2.2: the 64 constants are the first 32 bits of the fractional parts of the cube roots of the first 64 primes. */
  lemma ConstantsAreRoots()
    ensures |K| == 64 && forall t :: 0 <= t < 64 ==> FromCubeRoot(t, K[t])
  {
    hide NthPrime, FromCubeRoot;
    FirstPrime();
    Row0();
    Row1();
    Row2();
    Row3();
    Row4();
    Row5();
    Row6();
    Row7();
    Rows();
    forall t | 0 <= t < 64 ensures FromCubeRoot(t, K[t]) {
      var i := t % 8;
      assert t == t / 8 * 8 + i;
    }
  }

  /** Section 5.3.3: the initial hash value consists of the first 32 bits of the fractional parts of the square roots of the first 8 primes. */
  lemma InitialAreRoots()
    ensures forall t :: 0 <= t < 8 ==> FromSquareRoot(t, Words(INIT)[t])
  {
    hide NthPrime;
    FirstPrime();
    assert SquareRoot(0x1_6a09e667, 2);
    assert Leap(3, 3);
    NextPrime(0, 2, 3);
    assert SquareRoot(0x1_bb67ae85, 3);
    assert Leap(4, 5);
    NextPrime(1, 3, 5);
    assert SquareRoot(0x2_3c6ef372, 5);
    assert Leap(6, 7);
    NextPrime(2, 5, 7);
    assert SquareRoot(0x2_a54ff53a, 7);
    assert Leap(8, 11);
    NextPrime(3, 7, 11);
    assert SquareRoot(0x3_510e527f, 11);
    assert Leap(12, 13);
    NextPrime(4, 11, 13);
    assert SquareRoot(0x3_9b05688c, 13);
    assert Leap(14, 17);
    NextPrime(5, 13, 17);
    assert SquareRoot(0x4_1f83d9ab, 17);
    assert Leap(18, 19);
    NextPrime(6, 17, 19);
    assert SquareRoot(0x4_5be0cd19, 19);
    assert Leap(20, 23);
    NextPrime(7, 19, 23);
  }
}
