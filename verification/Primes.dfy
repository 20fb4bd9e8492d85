/** The numbers behind the tables of cocarrier/sha2.c are the first 80 primes. */
module Primes {

  ghost predicate IsPrime(n: nat) { n >= 2 && forall d: nat | 2 <= d < n :: n % d != 0 }

  // The first 80 primes.
  function Prime(i: nat): nat
    requires i < 80
  {
    if i < 8 then [2, 3, 5, 7, 11, 13, 17, 19][i]
    else if i < 16 then [23, 29, 31, 37, 41, 43, 47, 53][i - 8]
    else if i < 24 then [59, 61, 67, 71, 73, 79, 83, 89][i - 16]
    else if i < 32 then [97, 101, 103, 107, 109, 113, 127, 131][i - 24]
    else if i < 40 then [137, 139, 149, 151, 157, 163, 167, 173][i - 32]
    else if i < 48 then [179, 181, 191, 193, 197, 199, 211, 223][i - 40]
    else if i < 56 then [227, 229, 233, 239, 241, 251, 257, 263][i - 48]
    else if i < 64 then [269, 271, 277, 281, 283, 293, 307, 311][i - 56]
    else if i < 72 then [313, 317, 331, 337, 347, 349, 353, 359][i - 64]
    else [367, 373, 379, 383, 389, 397, 401, 409][i - 72]
  }

  // Not divisible by a smaller prime below 23.
  predicate Passes(n: nat) {
    && (n <= 2 || n % 2 != 0) && (n <= 3 || n % 3 != 0) && (n <= 5 || n % 5 != 0) && (n <= 7 || n % 7 != 0)
    && (n <= 11 || n % 11 != 0) && (n <= 13 || n % 13 != 0) && (n <= 17 || n % 17 != 0) && (n <= 19 || n % 19 != 0)
  }

  // Below 23 * 23 that is enough.
  lemma PassesExact(n: nat)
    requires 2 <= n < 529
    ensures IsPrime(n) <==> Passes(n)
  {
    if Passes(n) {
      forall d: nat | 2 <= d < n
        ensures n % d != 0
      {
        NoDivisor(n, d);
      }
    }
    if IsPrime(n) {
      assert forall d: nat | 2 <= d < n :: n % d != 0;
    }
  }

  lemma Multiple(p: int, q: int)
    requires p > 0
    ensures p * q % p == 0
  {
    var d, r := p * q / p, p * q % p;
    assert p * q == p * d + r;
    assert p * (q - d) == r;
    Scaled(p, q - d);
  }

  lemma Scaled(p: int, t: int)
    requires p > 0
    ensures t >= 1 ==> p * t >= p
    ensures t <= -1 ==> p * t <= -p
  {
  }

  // A multiple of a small prime does not pass.
  lemma Fails(n: nat, p: nat)
    requires p in {2, 3, 5, 7, 11, 13, 17, 19} && n % p == 0 && n > p
    ensures !Passes(n)
  {
  }

  lemma SmallPrime(m: nat) returns (p: nat, q: nat)
    requires 2 <= m <= 22
    ensures p in {2, 3, 5, 7, 11, 13, 17, 19} && m == p * q && p <= m
  {
    if m % 2 == 0 {
      p, q := 2, m / 2;
    } else if m % 3 == 0 {
      p, q := 3, m / 3;
    } else if m % 5 == 0 {
      p, q := 5, m / 5;
    } else {
      p, q := m, 1;
    }
  }

  lemma SmallFactor(n: nat, m: nat, k: nat)
    requires n == m * k && 2 <= m <= 22 && m < n
    ensures !Passes(n)
  {
    hide Passes;
    var p, q := SmallPrime(m);
    assert n == p * (q * k);
    Multiple(p, q * k);
    Fails(n, p);
  }

  lemma NoDivisor(n: nat, d: nat)
    requires 2 <= d < n < 529 && Passes(n)
    ensures n % d != 0
  {
    if n % d == 0 {
      var e := n / d;
      assert n == d * e;
      Cofactor(n, d, e);
      if d <= 22 {
        SmallFactor(n, d, e);
      } else {
        SmallFactor(n, e, d);
      }
    }
  }

  // Of two factors below 23 * 23 one is below 23.
  lemma Cofactor(n: nat, d: nat, e: nat)
    requires n == d * e && 2 <= d < n < 529
    ensures 2 <= e < n && (d <= 22 || e <= 22)
  {
    assert e != 0 && e != 1;
    assert d >= 23 && e >= 23 ==> d * e >= 23 * e;
  }

  // No number from a up to b passes.
  predicate NonePass(a: nat, b: nat)
    decreases b - a
  {
    a >= b || (!Passes(a) && NonePass(a + 1, b))
  }

  lemma {:induction false} NoneBetween(a: nat, b: nat, n: nat)
    requires NonePass(a, b) && a <= n < b
    ensures !Passes(n)
    decreases b - a
  {
    hide Passes;
    if a < n {
      NoneBetween(a + 1, b, n);
    }
  }

  function Below(i: nat): nat
    requires i < 80
  {
    if i == 0 then 1 else Prime(i - 1)
  }

  // Entry i passes, and nothing between it and the entry before does.
  predicate Next(i: nat)
    requires i < 80
  {
    Passes(Prime(i)) && 1 <= Below(i) < Prime(i) <= 409 && NonePass(Below(i) + 1, Prime(i))
  }

  lemma Gap(i: nat, a: nat, b: nat)
    requires i < 80 && Below(i) == a && Prime(i) == b && Passes(b) && 1 <= a < b <= 409 && NonePass(a + 1, b)
    ensures Next(i)
  {
  }

  lemma Table0(i: nat)
    requires 0 <= i < 8
    ensures Next(i)
  {
    match i
    case 0 => assert NonePass(2, 2); Gap(i, 1, 2);
    case 1 => assert NonePass(3, 3); Gap(i, 2, 3);
    case 2 => assert NonePass(4, 5); Gap(i, 3, 5);
    case 3 => assert NonePass(6, 7); Gap(i, 5, 7);
    case 4 => assert NonePass(8, 11); Gap(i, 7, 11);
    case 5 => assert NonePass(12, 13); Gap(i, 11, 13);
    case 6 => assert NonePass(14, 17); Gap(i, 13, 17);
    case 7 => assert NonePass(18, 19); Gap(i, 17, 19);
  }

  lemma Table8(i: nat)
    requires 8 <= i < 16
    ensures Next(i)
  {
    match i
    case 8 => assert NonePass(20, 23); Gap(i, 19, 23);
    case 9 => assert NonePass(24, 29); Gap(i, 23, 29);
    case 10 => assert NonePass(30, 31); Gap(i, 29, 31);
    case 11 => assert NonePass(32, 37); Gap(i, 31, 37);
    case 12 => assert NonePass(38, 41); Gap(i, 37, 41);
    case 13 => assert NonePass(42, 43); Gap(i, 41, 43);
    case 14 => assert NonePass(44, 47); Gap(i, 43, 47);
    case 15 => assert NonePass(48, 53); Gap(i, 47, 53);
  }

  lemma Table16(i: nat)
    requires 16 <= i < 24
    ensures Next(i)
  {
    match i
    case 16 => assert NonePass(54, 59); Gap(i, 53, 59);
    case 17 => assert NonePass(60, 61); Gap(i, 59, 61);
    case 18 => assert NonePass(62, 67); Gap(i, 61, 67);
    case 19 => assert NonePass(68, 71); Gap(i, 67, 71);
    case 20 => assert NonePass(72, 73); Gap(i, 71, 73);
    case 21 => assert NonePass(74, 79); Gap(i, 73, 79);
    case 22 => assert NonePass(80, 83); Gap(i, 79, 83);
    case 23 => assert NonePass(84, 89); Gap(i, 83, 89);
  }

  lemma Table24(i: nat)
    requires 24 <= i < 32
    ensures Next(i)
  {
    match i
    case 24 => assert NonePass(90, 97); Gap(i, 89, 97);
    case 25 => assert NonePass(98, 101); Gap(i, 97, 101);
    case 26 => assert NonePass(102, 103); Gap(i, 101, 103);
    case 27 => assert NonePass(104, 107); Gap(i, 103, 107);
    case 28 => assert NonePass(108, 109); Gap(i, 107, 109);
    case 29 => assert NonePass(110, 113); Gap(i, 109, 113);
    case 30 => assert NonePass(114, 127); Gap(i, 113, 127);
    case 31 => assert NonePass(128, 131); Gap(i, 127, 131);
  }

  lemma Table32(i: nat)
    requires 32 <= i < 40
    ensures Next(i)
  {
    match i
    case 32 => assert NonePass(132, 137); Gap(i, 131, 137);
    case 33 => assert NonePass(138, 139); Gap(i, 137, 139);
    case 34 => assert NonePass(140, 149); Gap(i, 139, 149);
    case 35 => assert NonePass(150, 151); Gap(i, 149, 151);
    case 36 => assert NonePass(152, 157); Gap(i, 151, 157);
    case 37 => assert NonePass(158, 163); Gap(i, 157, 163);
    case 38 => assert NonePass(164, 167); Gap(i, 163, 167);
    case 39 => assert NonePass(168, 173); Gap(i, 167, 173);
  }

  lemma Table40(i: nat)
    requires 40 <= i < 48
    ensures Next(i)
  {
    match i
    case 40 => assert NonePass(174, 179); Gap(i, 173, 179);
    case 41 => assert NonePass(180, 181); Gap(i, 179, 181);
    case 42 => assert NonePass(182, 191); Gap(i, 181, 191);
    case 43 => assert NonePass(192, 193); Gap(i, 191, 193);
    case 44 => assert NonePass(194, 197); Gap(i, 193, 197);
    case 45 => assert NonePass(198, 199); Gap(i, 197, 199);
    case 46 => assert NonePass(200, 211); Gap(i, 199, 211);
    case 47 => assert NonePass(212, 223); Gap(i, 211, 223);
  }

  lemma Table48(i: nat)
    requires 48 <= i < 56
    ensures Next(i)
  {
    match i
    case 48 => assert NonePass(224, 227); Gap(i, 223, 227);
    case 49 => assert NonePass(228, 229); Gap(i, 227, 229);
    case 50 => assert NonePass(230, 233); Gap(i, 229, 233);
    case 51 => assert NonePass(234, 239); Gap(i, 233, 239);
    case 52 => assert NonePass(240, 241); Gap(i, 239, 241);
    case 53 => assert NonePass(242, 251); Gap(i, 241, 251);
    case 54 => assert NonePass(252, 257); Gap(i, 251, 257);
    case 55 => assert NonePass(258, 263); Gap(i, 257, 263);
  }

  lemma Table56(i: nat)
    requires 56 <= i < 64
    ensures Next(i)
  {
    match i
    case 56 => assert NonePass(264, 269); Gap(i, 263, 269);
    case 57 => assert NonePass(270, 271); Gap(i, 269, 271);
    case 58 => assert NonePass(272, 277); Gap(i, 271, 277);
    case 59 => assert NonePass(278, 281); Gap(i, 277, 281);
    case 60 => assert NonePass(282, 283); Gap(i, 281, 283);
    case 61 => assert NonePass(284, 293); Gap(i, 283, 293);
    case 62 => assert NonePass(294, 307); Gap(i, 293, 307);
    case 63 => assert NonePass(308, 311); Gap(i, 307, 311);
  }

  lemma Table64(i: nat)
    requires 64 <= i < 72
    ensures Next(i)
  {
    match i
    case 64 => assert NonePass(312, 313); Gap(i, 311, 313);
    case 65 => assert NonePass(314, 317); Gap(i, 313, 317);
    case 66 => assert NonePass(318, 331); Gap(i, 317, 331);
    case 67 => assert NonePass(332, 337); Gap(i, 331, 337);
    case 68 => assert NonePass(338, 347); Gap(i, 337, 347);
    case 69 => assert NonePass(348, 349); Gap(i, 347, 349);
    case 70 => assert NonePass(350, 353); Gap(i, 349, 353);
    case 71 => assert NonePass(354, 359); Gap(i, 353, 359);
  }

  lemma Table72(i: nat)
    requires 72 <= i < 80
    ensures Next(i)
  {
    match i
    case 72 => assert NonePass(360, 367); Gap(i, 359, 367);
    case 73 => assert NonePass(368, 373); Gap(i, 367, 373);
    case 74 => assert NonePass(374, 379); Gap(i, 373, 379);
    case 75 => assert NonePass(380, 383); Gap(i, 379, 383);
    case 76 => assert NonePass(384, 389); Gap(i, 383, 389);
    case 77 => assert NonePass(390, 397); Gap(i, 389, 397);
    case 78 => assert NonePass(398, 401); Gap(i, 397, 401);
    case 79 => assert NonePass(402, 409); Gap(i, 401, 409);
  }

  /** Every entry of the table is prime, and between neighbours there is no prime. */
  lemma FirstPrimes(i: nat)
    requires i < 80
    ensures IsPrime(Prime(i)) && Below(i) < Prime(i)
    ensures forall n: nat | Below(i) < n < Prime(i) :: !IsPrime(n)
  {
    hide Prime, Passes, IsPrime, NonePass;
    if i < 8 {
      Table0(i);
    } else if i < 16 {
      Table8(i);
    } else if i < 24 {
      Table16(i);
    } else if i < 32 {
      Table24(i);
    } else if i < 40 {
      Table32(i);
    } else if i < 48 {
      Table40(i);
    } else if i < 56 {
      Table48(i);
    } else if i < 64 {
      Table56(i);
    } else if i < 72 {
      Table64(i);
    } else {
      Table72(i);
    }
    PassesExact(Prime(i));
    forall n: nat | Below(i) < n < Prime(i)
      ensures !IsPrime(n)
    {
      NoneBetween(Below(i) + 1, Prime(i), n);
      PassesExact(n);
    }
  }
}
