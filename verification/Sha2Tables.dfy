/** Where the tables of cocarrier/sha2.c come from: FIPS 180-4 defines every constant by the roots of
    the first primes, and the tables hold exactly those values. */
module Sha2Tables {
  import opened Primes
  import opened Sha2Words

  // r = floor(cuberoot(p) * unit), with integer part w and fraction k.
  predicate CubeRoot(w: nat, k: nat, p: nat, unit: nat) {
    k < unit &&
    var r := w * unit + k;
    r * r * r <= p * unit * unit * unit < (r + 1) * (r + 1) * (r + 1)
  }

  // r = floor(squareroot(p) * unit), with integer part w and fraction k.
  predicate SquareRoot(w: nat, k: nat, p: nat, unit: nat) {
    k < unit &&
    var r := w * unit + k;
    r * r <= p * unit * unit < (r + 1) * (r + 1)
  }

  // k are the fractional digits of the root of p, in this unit.
  ghost predicate CubeRootDigits(k: nat, p: nat, unit: nat) { exists w: nat :: CubeRoot(w, k, p, unit) }

  ghost predicate SquareRootDigits(k: nat, p: nat, unit: nat) { exists w: nat :: SquareRoot(w, k, p, unit) }

  lemma CubeRootFact(w: nat, k: nat, p: nat, unit: nat, k': nat, p': nat)
    requires CubeRoot(w, k, p, unit) && k == k' && p == p'
    ensures CubeRootDigits(k', p', unit)
  {
  }

  lemma SquareRootFact(w: nat, k: nat, p: nat, unit: nat, k': nat, p': nat)
    requires SquareRoot(w, k, p, unit) && k == k' && p == p'
    ensures SquareRootDigits(k', p', unit)
  {
  }

  /** Section 4.2.2: the first 32 bits of the fractional parts of the cube roots of the first 64 primes. */
  lemma RoundConstants256(i: nat)
    requires i < 64
    ensures CubeRootDigits(K256(i), Prime(i), 0x1_0000_0000)
  {
    hide CubeRoot, K256, Prime;
    if i < 8 {
      RoundConstants256From0(i);
    } else if i < 16 {
      RoundConstants256From8(i);
    } else if i < 24 {
      RoundConstants256From16(i);
    } else if i < 32 {
      RoundConstants256From24(i);
    } else if i < 40 {
      RoundConstants256From32(i);
    } else if i < 48 {
      RoundConstants256From40(i);
    } else if i < 56 {
      RoundConstants256From48(i);
    } else {
      RoundConstants256From56(i);
    }
  }

  lemma RoundConstants256From0(i: nat)
    requires 0 <= i < 8
    ensures CubeRootDigits(K256(i), Prime(i), 0x1_0000_0000)
  {
    match i
    case 0 => CubeRootFact(1, 0x428a2f98, 2, 0x1_0000_0000, K256(i), Prime(i));
    case 1 => CubeRootFact(1, 0x71374491, 3, 0x1_0000_0000, K256(i), Prime(i));
    case 2 => CubeRootFact(1, 0xb5c0fbcf, 5, 0x1_0000_0000, K256(i), Prime(i));
    case 3 => CubeRootFact(1, 0xe9b5dba5, 7, 0x1_0000_0000, K256(i), Prime(i));
    case 4 => CubeRootFact(2, 0x3956c25b, 11, 0x1_0000_0000, K256(i), Prime(i));
    case 5 => CubeRootFact(2, 0x59f111f1, 13, 0x1_0000_0000, K256(i), Prime(i));
    case 6 => CubeRootFact(2, 0x923f82a4, 17, 0x1_0000_0000, K256(i), Prime(i));
    case 7 => CubeRootFact(2, 0xab1c5ed5, 19, 0x1_0000_0000, K256(i), Prime(i));
  }

  lemma RoundConstants256From8(i: nat)
    requires 8 <= i < 16
    ensures CubeRootDigits(K256(i), Prime(i), 0x1_0000_0000)
  {
    match i
    case 8 => CubeRootFact(2, 0xd807aa98, 23, 0x1_0000_0000, K256(i), Prime(i));
    case 9 => CubeRootFact(3, 0x12835b01, 29, 0x1_0000_0000, K256(i), Prime(i));
    case 10 => CubeRootFact(3, 0x243185be, 31, 0x1_0000_0000, K256(i), Prime(i));
    case 11 => CubeRootFact(3, 0x550c7dc3, 37, 0x1_0000_0000, K256(i), Prime(i));
    case 12 => CubeRootFact(3, 0x72be5d74, 41, 0x1_0000_0000, K256(i), Prime(i));
    case 13 => CubeRootFact(3, 0x80deb1fe, 43, 0x1_0000_0000, K256(i), Prime(i));
    case 14 => CubeRootFact(3, 0x9bdc06a7, 47, 0x1_0000_0000, K256(i), Prime(i));
    case 15 => CubeRootFact(3, 0xc19bf174, 53, 0x1_0000_0000, K256(i), Prime(i));
  }

  lemma RoundConstants256From16(i: nat)
    requires 16 <= i < 24
    ensures CubeRootDigits(K256(i), Prime(i), 0x1_0000_0000)
  {
    match i
    case 16 => CubeRootFact(3, 0xe49b69c1, 59, 0x1_0000_0000, K256(i), Prime(i));
    case 17 => CubeRootFact(3, 0xefbe4786, 61, 0x1_0000_0000, K256(i), Prime(i));
    case 18 => CubeRootFact(4, 0x0fc19dc6, 67, 0x1_0000_0000, K256(i), Prime(i));
    case 19 => CubeRootFact(4, 0x240ca1cc, 71, 0x1_0000_0000, K256(i), Prime(i));
    case 20 => CubeRootFact(4, 0x2de92c6f, 73, 0x1_0000_0000, K256(i), Prime(i));
    case 21 => CubeRootFact(4, 0x4a7484aa, 79, 0x1_0000_0000, K256(i), Prime(i));
    case 22 => CubeRootFact(4, 0x5cb0a9dc, 83, 0x1_0000_0000, K256(i), Prime(i));
    case 23 => CubeRootFact(4, 0x76f988da, 89, 0x1_0000_0000, K256(i), Prime(i));
  }

  lemma RoundConstants256From24(i: nat)
    requires 24 <= i < 32
    ensures CubeRootDigits(K256(i), Prime(i), 0x1_0000_0000)
  {
    match i
    case 24 => CubeRootFact(4, 0x983e5152, 97, 0x1_0000_0000, K256(i), Prime(i));
    case 25 => CubeRootFact(4, 0xa831c66d, 101, 0x1_0000_0000, K256(i), Prime(i));
    case 26 => CubeRootFact(4, 0xb00327c8, 103, 0x1_0000_0000, K256(i), Prime(i));
    case 27 => CubeRootFact(4, 0xbf597fc7, 107, 0x1_0000_0000, K256(i), Prime(i));
    case 28 => CubeRootFact(4, 0xc6e00bf3, 109, 0x1_0000_0000, K256(i), Prime(i));
    case 29 => CubeRootFact(4, 0xd5a79147, 113, 0x1_0000_0000, K256(i), Prime(i));
    case 30 => CubeRootFact(5, 0x06ca6351, 127, 0x1_0000_0000, K256(i), Prime(i));
    case 31 => CubeRootFact(5, 0x14292967, 131, 0x1_0000_0000, K256(i), Prime(i));
  }

  lemma RoundConstants256From32(i: nat)
    requires 32 <= i < 40
    ensures CubeRootDigits(K256(i), Prime(i), 0x1_0000_0000)
  {
    match i
    case 32 => CubeRootFact(5, 0x27b70a85, 137, 0x1_0000_0000, K256(i), Prime(i));
    case 33 => CubeRootFact(5, 0x2e1b2138, 139, 0x1_0000_0000, K256(i), Prime(i));
    case 34 => CubeRootFact(5, 0x4d2c6dfc, 149, 0x1_0000_0000, K256(i), Prime(i));
    case 35 => CubeRootFact(5, 0x53380d13, 151, 0x1_0000_0000, K256(i), Prime(i));
    case 36 => CubeRootFact(5, 0x650a7354, 157, 0x1_0000_0000, K256(i), Prime(i));
    case 37 => CubeRootFact(5, 0x766a0abb, 163, 0x1_0000_0000, K256(i), Prime(i));
    case 38 => CubeRootFact(5, 0x81c2c92e, 167, 0x1_0000_0000, K256(i), Prime(i));
    case 39 => CubeRootFact(5, 0x92722c85, 173, 0x1_0000_0000, K256(i), Prime(i));
  }

  lemma RoundConstants256From40(i: nat)
    requires 40 <= i < 48
    ensures CubeRootDigits(K256(i), Prime(i), 0x1_0000_0000)
  {
    match i
    case 40 => CubeRootFact(5, 0xa2bfe8a1, 179, 0x1_0000_0000, K256(i), Prime(i));
    case 41 => CubeRootFact(5, 0xa81a664b, 181, 0x1_0000_0000, K256(i), Prime(i));
    case 42 => CubeRootFact(5, 0xc24b8b70, 191, 0x1_0000_0000, K256(i), Prime(i));
    case 43 => CubeRootFact(5, 0xc76c51a3, 193, 0x1_0000_0000, K256(i), Prime(i));
    case 44 => CubeRootFact(5, 0xd192e819, 197, 0x1_0000_0000, K256(i), Prime(i));
    case 45 => CubeRootFact(5, 0xd6990624, 199, 0x1_0000_0000, K256(i), Prime(i));
    case 46 => CubeRootFact(5, 0xf40e3585, 211, 0x1_0000_0000, K256(i), Prime(i));
    case 47 => CubeRootFact(6, 0x106aa070, 223, 0x1_0000_0000, K256(i), Prime(i));
  }

  lemma RoundConstants256From48(i: nat)
    requires 48 <= i < 56
    ensures CubeRootDigits(K256(i), Prime(i), 0x1_0000_0000)
  {
    match i
    case 48 => CubeRootFact(6, 0x19a4c116, 227, 0x1_0000_0000, K256(i), Prime(i));
    case 49 => CubeRootFact(6, 0x1e376c08, 229, 0x1_0000_0000, K256(i), Prime(i));
    case 50 => CubeRootFact(6, 0x2748774c, 233, 0x1_0000_0000, K256(i), Prime(i));
    case 51 => CubeRootFact(6, 0x34b0bcb5, 239, 0x1_0000_0000, K256(i), Prime(i));
    case 52 => CubeRootFact(6, 0x391c0cb3, 241, 0x1_0000_0000, K256(i), Prime(i));
    case 53 => CubeRootFact(6, 0x4ed8aa4a, 251, 0x1_0000_0000, K256(i), Prime(i));
    case 54 => CubeRootFact(6, 0x5b9cca4f, 257, 0x1_0000_0000, K256(i), Prime(i));
    case 55 => CubeRootFact(6, 0x682e6ff3, 263, 0x1_0000_0000, K256(i), Prime(i));
  }

  lemma RoundConstants256From56(i: nat)
    requires 56 <= i < 64
    ensures CubeRootDigits(K256(i), Prime(i), 0x1_0000_0000)
  {
    match i
    case 56 => CubeRootFact(6, 0x748f82ee, 269, 0x1_0000_0000, K256(i), Prime(i));
    case 57 => CubeRootFact(6, 0x78a5636f, 271, 0x1_0000_0000, K256(i), Prime(i));
    case 58 => CubeRootFact(6, 0x84c87814, 277, 0x1_0000_0000, K256(i), Prime(i));
    case 59 => CubeRootFact(6, 0x8cc70208, 281, 0x1_0000_0000, K256(i), Prime(i));
    case 60 => CubeRootFact(6, 0x90befffa, 283, 0x1_0000_0000, K256(i), Prime(i));
    case 61 => CubeRootFact(6, 0xa4506ceb, 293, 0x1_0000_0000, K256(i), Prime(i));
    case 62 => CubeRootFact(6, 0xbef9a3f7, 307, 0x1_0000_0000, K256(i), Prime(i));
    case 63 => CubeRootFact(6, 0xc67178f2, 311, 0x1_0000_0000, K256(i), Prime(i));
  }

  /** Section 4.2.3: the first 64 bits of the fractional parts of the cube roots of the first 80 primes. */
  lemma RoundConstants512(i: nat)
    requires i < 80
    ensures CubeRootDigits(K512(i), Prime(i), 0x1_0000_0000_0000_0000)
  {
    hide CubeRoot, K512, Prime;
    if i < 8 {
      RoundConstants512From0(i);
    } else if i < 16 {
      RoundConstants512From8(i);
    } else if i < 24 {
      RoundConstants512From16(i);
    } else if i < 32 {
      RoundConstants512From24(i);
    } else if i < 40 {
      RoundConstants512From32(i);
    } else if i < 48 {
      RoundConstants512From40(i);
    } else if i < 56 {
      RoundConstants512From48(i);
    } else if i < 64 {
      RoundConstants512From56(i);
    } else if i < 72 {
      RoundConstants512From64(i);
    } else {
      RoundConstants512From72(i);
    }
  }

  lemma RoundConstants512From0(i: nat)
    requires 0 <= i < 8
    ensures CubeRootDigits(K512(i), Prime(i), 0x1_0000_0000_0000_0000)
  {
    match i
    case 0 => CubeRootFact(1, 0x428a2f98_d728ae22, 2, 0x1_0000_0000_0000_0000, K512(i), Prime(i));
    case 1 => CubeRootFact(1, 0x71374491_23ef65cd, 3, 0x1_0000_0000_0000_0000, K512(i), Prime(i));
    case 2 => CubeRootFact(1, 0xb5c0fbcf_ec4d3b2f, 5, 0x1_0000_0000_0000_0000, K512(i), Prime(i));
    case 3 => CubeRootFact(1, 0xe9b5dba5_8189dbbc, 7, 0x1_0000_0000_0000_0000, K512(i), Prime(i));
    case 4 => CubeRootFact(2, 0x3956c25b_f348b538, 11, 0x1_0000_0000_0000_0000, K512(i), Prime(i));
    case 5 => CubeRootFact(2, 0x59f111f1_b605d019, 13, 0x1_0000_0000_0000_0000, K512(i), Prime(i));
    case 6 => CubeRootFact(2, 0x923f82a4_af194f9b, 17, 0x1_0000_0000_0000_0000, K512(i), Prime(i));
    case 7 => CubeRootFact(2, 0xab1c5ed5_da6d8118, 19, 0x1_0000_0000_0000_0000, K512(i), Prime(i));
  }

  lemma RoundConstants512From8(i: nat)
    requires 8 <= i < 16
    ensures CubeRootDigits(K512(i), Prime(i), 0x1_0000_0000_0000_0000)
  {
    match i
    case 8 => CubeRootFact(2, 0xd807aa98_a3030242, 23, 0x1_0000_0000_0000_0000, K512(i), Prime(i));
    case 9 => CubeRootFact(3, 0x12835b01_45706fbe, 29, 0x1_0000_0000_0000_0000, K512(i), Prime(i));
    case 10 => CubeRootFact(3, 0x243185be_4ee4b28c, 31, 0x1_0000_0000_0000_0000, K512(i), Prime(i));
    case 11 => CubeRootFact(3, 0x550c7dc3_d5ffb4e2, 37, 0x1_0000_0000_0000_0000, K512(i), Prime(i));
    case 12 => CubeRootFact(3, 0x72be5d74_f27b896f, 41, 0x1_0000_0000_0000_0000, K512(i), Prime(i));
    case 13 => CubeRootFact(3, 0x80deb1fe_3b1696b1, 43, 0x1_0000_0000_0000_0000, K512(i), Prime(i));
    case 14 => CubeRootFact(3, 0x9bdc06a7_25c71235, 47, 0x1_0000_0000_0000_0000, K512(i), Prime(i));
    case 15 => CubeRootFact(3, 0xc19bf174_cf692694, 53, 0x1_0000_0000_0000_0000, K512(i), Prime(i));
  }

  lemma RoundConstants512From16(i: nat)
    requires 16 <= i < 24
    ensures CubeRootDigits(K512(i), Prime(i), 0x1_0000_0000_0000_0000)
  {
    match i
    case 16 => CubeRootFact(3, 0xe49b69c1_9ef14ad2, 59, 0x1_0000_0000_0000_0000, K512(i), Prime(i));
    case 17 => CubeRootFact(3, 0xefbe4786_384f25e3, 61, 0x1_0000_0000_0000_0000, K512(i), Prime(i));
    case 18 => CubeRootFact(4, 0x0fc19dc6_8b8cd5b5, 67, 0x1_0000_0000_0000_0000, K512(i), Prime(i));
    case 19 => CubeRootFact(4, 0x240ca1cc_77ac9c65, 71, 0x1_0000_0000_0000_0000, K512(i), Prime(i));
    case 20 => CubeRootFact(4, 0x2de92c6f_592b0275, 73, 0x1_0000_0000_0000_0000, K512(i), Prime(i));
    case 21 => CubeRootFact(4, 0x4a7484aa_6ea6e483, 79, 0x1_0000_0000_0000_0000, K512(i), Prime(i));
    case 22 => CubeRootFact(4, 0x5cb0a9dc_bd41fbd4, 83, 0x1_0000_0000_0000_0000, K512(i), Prime(i));
    case 23 => CubeRootFact(4, 0x76f988da_831153b5, 89, 0x1_0000_0000_0000_0000, K512(i), Prime(i));
  }

  lemma RoundConstants512From24(i: nat)
    requires 24 <= i < 32
    ensures CubeRootDigits(K512(i), Prime(i), 0x1_0000_0000_0000_0000)
  {
    match i
    case 24 => CubeRootFact(4, 0x983e5152_ee66dfab, 97, 0x1_0000_0000_0000_0000, K512(i), Prime(i));
    case 25 => CubeRootFact(4, 0xa831c66d_2db43210, 101, 0x1_0000_0000_0000_0000, K512(i), Prime(i));
    case 26 => CubeRootFact(4, 0xb00327c8_98fb213f, 103, 0x1_0000_0000_0000_0000, K512(i), Prime(i));
    case 27 => CubeRootFact(4, 0xbf597fc7_beef0ee4, 107, 0x1_0000_0000_0000_0000, K512(i), Prime(i));
    case 28 => CubeRootFact(4, 0xc6e00bf3_3da88fc2, 109, 0x1_0000_0000_0000_0000, K512(i), Prime(i));
    case 29 => CubeRootFact(4, 0xd5a79147_930aa725, 113, 0x1_0000_0000_0000_0000, K512(i), Prime(i));
    case 30 => CubeRootFact(5, 0x06ca6351_e003826f, 127, 0x1_0000_0000_0000_0000, K512(i), Prime(i));
    case 31 => CubeRootFact(5, 0x14292967_0a0e6e70, 131, 0x1_0000_0000_0000_0000, K512(i), Prime(i));
  }

  lemma RoundConstants512From32(i: nat)
    requires 32 <= i < 40
    ensures CubeRootDigits(K512(i), Prime(i), 0x1_0000_0000_0000_0000)
  {
    match i
    case 32 => CubeRootFact(5, 0x27b70a85_46d22ffc, 137, 0x1_0000_0000_0000_0000, K512(i), Prime(i));
    case 33 => CubeRootFact(5, 0x2e1b2138_5c26c926, 139, 0x1_0000_0000_0000_0000, K512(i), Prime(i));
    case 34 => CubeRootFact(5, 0x4d2c6dfc_5ac42aed, 149, 0x1_0000_0000_0000_0000, K512(i), Prime(i));
    case 35 => CubeRootFact(5, 0x53380d13_9d95b3df, 151, 0x1_0000_0000_0000_0000, K512(i), Prime(i));
    case 36 => CubeRootFact(5, 0x650a7354_8baf63de, 157, 0x1_0000_0000_0000_0000, K512(i), Prime(i));
    case 37 => CubeRootFact(5, 0x766a0abb_3c77b2a8, 163, 0x1_0000_0000_0000_0000, K512(i), Prime(i));
    case 38 => CubeRootFact(5, 0x81c2c92e_47edaee6, 167, 0x1_0000_0000_0000_0000, K512(i), Prime(i));
    case 39 => CubeRootFact(5, 0x92722c85_1482353b, 173, 0x1_0000_0000_0000_0000, K512(i), Prime(i));
  }

  lemma RoundConstants512From40(i: nat)
    requires 40 <= i < 48
    ensures CubeRootDigits(K512(i), Prime(i), 0x1_0000_0000_0000_0000)
  {
    match i
    case 40 => CubeRootFact(5, 0xa2bfe8a1_4cf10364, 179, 0x1_0000_0000_0000_0000, K512(i), Prime(i));
    case 41 => CubeRootFact(5, 0xa81a664b_bc423001, 181, 0x1_0000_0000_0000_0000, K512(i), Prime(i));
    case 42 => CubeRootFact(5, 0xc24b8b70_d0f89791, 191, 0x1_0000_0000_0000_0000, K512(i), Prime(i));
    case 43 => CubeRootFact(5, 0xc76c51a3_0654be30, 193, 0x1_0000_0000_0000_0000, K512(i), Prime(i));
    case 44 => CubeRootFact(5, 0xd192e819_d6ef5218, 197, 0x1_0000_0000_0000_0000, K512(i), Prime(i));
    case 45 => CubeRootFact(5, 0xd6990624_5565a910, 199, 0x1_0000_0000_0000_0000, K512(i), Prime(i));
    case 46 => CubeRootFact(5, 0xf40e3585_5771202a, 211, 0x1_0000_0000_0000_0000, K512(i), Prime(i));
    case 47 => CubeRootFact(6, 0x106aa070_32bbd1b8, 223, 0x1_0000_0000_0000_0000, K512(i), Prime(i));
  }

  lemma RoundConstants512From48(i: nat)
    requires 48 <= i < 56
    ensures CubeRootDigits(K512(i), Prime(i), 0x1_0000_0000_0000_0000)
  {
    match i
    case 48 => CubeRootFact(6, 0x19a4c116_b8d2d0c8, 227, 0x1_0000_0000_0000_0000, K512(i), Prime(i));
    case 49 => CubeRootFact(6, 0x1e376c08_5141ab53, 229, 0x1_0000_0000_0000_0000, K512(i), Prime(i));
    case 50 => CubeRootFact(6, 0x2748774c_df8eeb99, 233, 0x1_0000_0000_0000_0000, K512(i), Prime(i));
    case 51 => CubeRootFact(6, 0x34b0bcb5_e19b48a8, 239, 0x1_0000_0000_0000_0000, K512(i), Prime(i));
    case 52 => CubeRootFact(6, 0x391c0cb3_c5c95a63, 241, 0x1_0000_0000_0000_0000, K512(i), Prime(i));
    case 53 => CubeRootFact(6, 0x4ed8aa4a_e3418acb, 251, 0x1_0000_0000_0000_0000, K512(i), Prime(i));
    case 54 => CubeRootFact(6, 0x5b9cca4f_7763e373, 257, 0x1_0000_0000_0000_0000, K512(i), Prime(i));
    case 55 => CubeRootFact(6, 0x682e6ff3_d6b2b8a3, 263, 0x1_0000_0000_0000_0000, K512(i), Prime(i));
  }

  lemma RoundConstants512From56(i: nat)
    requires 56 <= i < 64
    ensures CubeRootDigits(K512(i), Prime(i), 0x1_0000_0000_0000_0000)
  {
    match i
    case 56 => CubeRootFact(6, 0x748f82ee_5defb2fc, 269, 0x1_0000_0000_0000_0000, K512(i), Prime(i));
    case 57 => CubeRootFact(6, 0x78a5636f_43172f60, 271, 0x1_0000_0000_0000_0000, K512(i), Prime(i));
    case 58 => CubeRootFact(6, 0x84c87814_a1f0ab72, 277, 0x1_0000_0000_0000_0000, K512(i), Prime(i));
    case 59 => CubeRootFact(6, 0x8cc70208_1a6439ec, 281, 0x1_0000_0000_0000_0000, K512(i), Prime(i));
    case 60 => CubeRootFact(6, 0x90befffa_23631e28, 283, 0x1_0000_0000_0000_0000, K512(i), Prime(i));
    case 61 => CubeRootFact(6, 0xa4506ceb_de82bde9, 293, 0x1_0000_0000_0000_0000, K512(i), Prime(i));
    case 62 => CubeRootFact(6, 0xbef9a3f7_b2c67915, 307, 0x1_0000_0000_0000_0000, K512(i), Prime(i));
    case 63 => CubeRootFact(6, 0xc67178f2_e372532b, 311, 0x1_0000_0000_0000_0000, K512(i), Prime(i));
  }

  lemma RoundConstants512From64(i: nat)
    requires 64 <= i < 72
    ensures CubeRootDigits(K512(i), Prime(i), 0x1_0000_0000_0000_0000)
  {
    match i
    case 64 => CubeRootFact(6, 0xca273ece_ea26619c, 313, 0x1_0000_0000_0000_0000, K512(i), Prime(i));
    case 65 => CubeRootFact(6, 0xd186b8c7_21c0c207, 317, 0x1_0000_0000_0000_0000, K512(i), Prime(i));
    case 66 => CubeRootFact(6, 0xeada7dd6_cde0eb1e, 331, 0x1_0000_0000_0000_0000, K512(i), Prime(i));
    case 67 => CubeRootFact(6, 0xf57d4f7f_ee6ed178, 337, 0x1_0000_0000_0000_0000, K512(i), Prime(i));
    case 68 => CubeRootFact(7, 0x06f067aa_72176fba, 347, 0x1_0000_0000_0000_0000, K512(i), Prime(i));
    case 69 => CubeRootFact(7, 0x0a637dc5_a2c898a6, 349, 0x1_0000_0000_0000_0000, K512(i), Prime(i));
    case 70 => CubeRootFact(7, 0x113f9804_bef90dae, 353, 0x1_0000_0000_0000_0000, K512(i), Prime(i));
    case 71 => CubeRootFact(7, 0x1b710b35_131c471b, 359, 0x1_0000_0000_0000_0000, K512(i), Prime(i));
  }

  lemma RoundConstants512From72(i: nat)
    requires 72 <= i < 80
    ensures CubeRootDigits(K512(i), Prime(i), 0x1_0000_0000_0000_0000)
  {
    match i
    case 72 => CubeRootFact(7, 0x28db77f5_23047d84, 367, 0x1_0000_0000_0000_0000, K512(i), Prime(i));
    case 73 => CubeRootFact(7, 0x32caab7b_40c72493, 373, 0x1_0000_0000_0000_0000, K512(i), Prime(i));
    case 74 => CubeRootFact(7, 0x3c9ebe0a_15c9bebc, 379, 0x1_0000_0000_0000_0000, K512(i), Prime(i));
    case 75 => CubeRootFact(7, 0x431d67c4_9c100d4c, 383, 0x1_0000_0000_0000_0000, K512(i), Prime(i));
    case 76 => CubeRootFact(7, 0x4cc5d4be_cb3e42b6, 389, 0x1_0000_0000_0000_0000, K512(i), Prime(i));
    case 77 => CubeRootFact(7, 0x597f299c_fc657e2a, 397, 0x1_0000_0000_0000_0000, K512(i), Prime(i));
    case 78 => CubeRootFact(7, 0x5fcb6fab_3ad6faec, 401, 0x1_0000_0000_0000_0000, K512(i), Prime(i));
    case 79 => CubeRootFact(7, 0x6c44198c_4a475817, 409, 0x1_0000_0000_0000_0000, K512(i), Prime(i));
  }

  /** Section 5.3.3: the first 32 bits of the fractional parts of the square roots of the first 8 primes. */
  lemma InitialValue256(i: nat)
    requires i < 8
    ensures SquareRootDigits(H256(i), Prime(i), 0x1_0000_0000)
  {
    match i
    case 0 => SquareRootFact(1, 0x6a09e667, 2, 0x1_0000_0000, H256(i), Prime(i));
    case 1 => SquareRootFact(1, 0xbb67ae85, 3, 0x1_0000_0000, H256(i), Prime(i));
    case 2 => SquareRootFact(2, 0x3c6ef372, 5, 0x1_0000_0000, H256(i), Prime(i));
    case 3 => SquareRootFact(2, 0xa54ff53a, 7, 0x1_0000_0000, H256(i), Prime(i));
    case 4 => SquareRootFact(3, 0x510e527f, 11, 0x1_0000_0000, H256(i), Prime(i));
    case 5 => SquareRootFact(3, 0x9b05688c, 13, 0x1_0000_0000, H256(i), Prime(i));
    case 6 => SquareRootFact(4, 0x1f83d9ab, 17, 0x1_0000_0000, H256(i), Prime(i));
    case 7 => SquareRootFact(4, 0x5be0cd19, 19, 0x1_0000_0000, H256(i), Prime(i));
  }

  /** Section 5.3.4: the first 64 bits of the fractional parts of the square roots of primes 9 to 16. */
  lemma InitialValue384(i: nat)
    requires i < 8
    ensures SquareRootDigits(H384(i), Prime(i + 8), 0x1_0000_0000_0000_0000)
  {
    match i
    case 0 => SquareRootFact(4, 0xcbbb9d5d_c1059ed8, 23, 0x1_0000_0000_0000_0000, H384(i), Prime(i + 8));
    case 1 => SquareRootFact(5, 0x629a292a_367cd507, 29, 0x1_0000_0000_0000_0000, H384(i), Prime(i + 8));
    case 2 => SquareRootFact(5, 0x9159015a_3070dd17, 31, 0x1_0000_0000_0000_0000, H384(i), Prime(i + 8));
    case 3 => SquareRootFact(6, 0x152fecd8_f70e5939, 37, 0x1_0000_0000_0000_0000, H384(i), Prime(i + 8));
    case 4 => SquareRootFact(6, 0x67332667_ffc00b31, 41, 0x1_0000_0000_0000_0000, H384(i), Prime(i + 8));
    case 5 => SquareRootFact(6, 0x8eb44a87_68581511, 43, 0x1_0000_0000_0000_0000, H384(i), Prime(i + 8));
    case 6 => SquareRootFact(6, 0xdb0c2e0d_64f98fa7, 47, 0x1_0000_0000_0000_0000, H384(i), Prime(i + 8));
    case 7 => SquareRootFact(7, 0x47b5481d_befa4fa4, 53, 0x1_0000_0000_0000_0000, H384(i), Prime(i + 8));
  }

  /** Section 5.3.5: the first 64 bits of the fractional parts of the square roots of the first 8 primes. */
  lemma InitialValue512(i: nat)
    requires i < 8
    ensures SquareRootDigits(H512(i), Prime(i), 0x1_0000_0000_0000_0000)
  {
    match i
    case 0 => SquareRootFact(1, 0x6a09e667_f3bcc908, 2, 0x1_0000_0000_0000_0000, H512(i), Prime(i));
    case 1 => SquareRootFact(1, 0xbb67ae85_84caa73b, 3, 0x1_0000_0000_0000_0000, H512(i), Prime(i));
    case 2 => SquareRootFact(2, 0x3c6ef372_fe94f82b, 5, 0x1_0000_0000_0000_0000, H512(i), Prime(i));
    case 3 => SquareRootFact(2, 0xa54ff53a_5f1d36f1, 7, 0x1_0000_0000_0000_0000, H512(i), Prime(i));
    case 4 => SquareRootFact(3, 0x510e527f_ade682d1, 11, 0x1_0000_0000_0000_0000, H512(i), Prime(i));
    case 5 => SquareRootFact(3, 0x9b05688c_2b3e6c1f, 13, 0x1_0000_0000_0000_0000, H512(i), Prime(i));
    case 6 => SquareRootFact(4, 0x1f83d9ab_fb41bd6b, 17, 0x1_0000_0000_0000_0000, H512(i), Prime(i));
    case 7 => SquareRootFact(4, 0x5be0cd19_137e2179, 19, 0x1_0000_0000_0000_0000, H512(i), Prime(i));
  }

  /** Section 5.3.2: the second 32 bits of the fractional parts of the square roots of primes 9 to 16. */
  lemma InitialValue224(i: nat)
    requires i < 8
    ensures H224(i) == H384(i) % 0x1_0000_0000
  {
    match i
    case 0 => assert H384(i) == 0xcbbb9d5d_c1059ed8;
    case 1 => assert H384(i) == 0x629a292a_367cd507;
    case 2 => assert H384(i) == 0x9159015a_3070dd17;
    case 3 => assert H384(i) == 0x152fecd8_f70e5939;
    case 4 => assert H384(i) == 0x67332667_ffc00b31;
    case 5 => assert H384(i) == 0x8eb44a87_68581511;
    case 6 => assert H384(i) == 0xdb0c2e0d_64f98fa7;
    case 7 => assert H384(i) == 0x47b5481d_befa4fa4;
  }
}
