/** The three-argument word functions of FIPS 180-4, section 4.1, bit by bit. */
module WordBits {
  import opened Sha2Words

  // ----- 32-bit words

  // One bit of a word.
  predicate Single32(m: bv32) { m != 0 && m & (m - 1) == 0 }

  function Bit32(x: bv32, m: bv32): nat { if x & m == 0 then 0 else 1 }

  lemma OneBit32(x: bv32, m: bv32)
    requires Single32(m)
    ensures x & m == 0 || x & m == m
  {
  }

  /** The bits of a word: one after the other, all clear in 0, and opposite in the complement. */
  lemma BitsExact32(x: bv32, m: bv32)
    ensures Single32(1) && (Single32(m) ==> m + m == 0 || Single32(m + m))
    ensures Single32(m) ==> Bit32(m, m) == 1 && Bit32(0, m) == 0 && Bit32(!x, m) == 1 - Bit32(x, m)
  {
    if Single32(m) {
      OneBit32(x, m);
      Complement32(x, m);
      FlipBit32(x, m);
      Doubled32(m);
    }
  }

  lemma Complement32(x: bv32, m: bv32)
    ensures !x & m == (x & m) ^ m
  {
  }

  lemma Doubled32(m: bv32)
    requires Single32(m)
    ensures m + m == 0 || Single32(m + m)
  {
  }

  // What the functions do on a set m of bits.
  lemma ChMask32(x: bv32, y: bv32, z: bv32, m: bv32)
    ensures x & m == m ==> Ch32(x, y, z) & m == y & m
    ensures x & m == 0 ==> Ch32(x, y, z) & m == z & m
  {
  }

  lemma MajSymmetric32(x: bv32, y: bv32, z: bv32)
    ensures Maj32(x, y, z) == Maj32(x, z, y) == Maj32(y, z, x)
  {
  }

  lemma MajMask32(x: bv32, y: bv32, z: bv32, m: bv32)
    requires x & m == y & m
    ensures Maj32(x, y, z) & m == x & m
  {
  }

  lemma XorSame32(x: bv32, y: bv32, z: bv32, m: bv32)
    requires x & m == y & m
    ensures Xor32(x, y, z) & m == z & m
  {
  }

  lemma Differ32(x: bv32, y: bv32, m: bv32)
    requires (x & m == 0 && y & m == m) || (x & m == m && y & m == 0)
    ensures (x ^ y) & m == m
  {
  }

  lemma FlipBit32(z: bv32, m: bv32)
    ensures z & m == 0 ==> (z & m) ^ m == m
    ensures z & m == m ==> (z & m) ^ m == 0
  {
  }

  lemma XorOther32(x: bv32, y: bv32, z: bv32, m: bv32)
    requires (x ^ y) & m == m
    ensures Xor32(x, y, z) & m == (z & m) ^ m
  {
  }

  lemma ChBit32(x: bv32, y: bv32, z: bv32, m: bv32)
    requires Single32(m)
    ensures Bit32(Ch32(x, y, z), m) == if Bit32(x, m) == 1 then Bit32(y, m) else Bit32(z, m)
  {
    hide Ch32;
    OneBit32(x, m);
    ChMask32(x, y, z, m);
  }

  lemma MajBit32(x: bv32, y: bv32, z: bv32, m: bv32)
    requires Single32(m)
    ensures Bit32(Maj32(x, y, z), m) == if Bit32(x, m) + Bit32(y, m) + Bit32(z, m) >= 2 then 1 else 0
  {
    hide Maj32;
    OneBit32(x, m);
    OneBit32(y, m);
    OneBit32(z, m);
    MajSymmetric32(x, y, z);
    if x & m == y & m {
      MajMask32(x, y, z, m);
    } else if x & m == z & m {
      MajMask32(x, z, y, m);
    } else {
      MajMask32(y, z, x, m);
    }
  }

  lemma XorBit32(x: bv32, y: bv32, z: bv32, m: bv32)
    requires Single32(m)
    ensures Bit32(Xor32(x, y, z), m) == (Bit32(x, m) + Bit32(y, m) + Bit32(z, m)) % 2
  {
    hide Xor32;
    OneBit32(x, m);
    OneBit32(y, m);
    OneBit32(z, m);
    if x & m == y & m {
      XorSame32(x, y, z, m);
    } else {
      Differ32(x, y, m);
      FlipBit32(z, m);
      XorOther32(x, y, z, m);
    }
  }

  /** Section 4.1: in every bit Ch takes y where x is set and z elsewhere, Maj is the majority of the three,
      and the sum that makes up a sigma is the parity. */
  lemma InEveryBit32(x: bv32, y: bv32, z: bv32, m: bv32)
    requires Single32(m)
    ensures Bit32(Ch32(x, y, z), m) == if Bit32(x, m) == 1 then Bit32(y, m) else Bit32(z, m)
    ensures Bit32(Maj32(x, y, z), m) == if Bit32(x, m) + Bit32(y, m) + Bit32(z, m) >= 2 then 1 else 0
    ensures Bit32(Xor32(x, y, z), m) == (Bit32(x, m) + Bit32(y, m) + Bit32(z, m)) % 2
  {
    hide Ch32, Maj32, Xor32, Bit32, Single32;
    ChBit32(x, y, z, m);
    MajBit32(x, y, z, m);
    XorBit32(x, y, z, m);
  }

  // ----- 64-bit words

  // One bit of a word.
  predicate Single64(m: bv64) { m != 0 && m & (m - 1) == 0 }

  function Bit64(x: bv64, m: bv64): nat { if x & m == 0 then 0 else 1 }

  lemma OneBit64(x: bv64, m: bv64)
    requires Single64(m)
    ensures x & m == 0 || x & m == m
  {
  }

  /** The bits of a word: one after the other, all clear in 0, and opposite in the complement. */
  lemma BitsExact64(x: bv64, m: bv64)
    ensures Single64(1) && (Single64(m) ==> m + m == 0 || Single64(m + m))
    ensures Single64(m) ==> Bit64(m, m) == 1 && Bit64(0, m) == 0 && Bit64(!x, m) == 1 - Bit64(x, m)
  {
    if Single64(m) {
      OneBit64(x, m);
      Complement64(x, m);
      FlipBit64(x, m);
      Doubled64(m);
    }
  }

  lemma Complement64(x: bv64, m: bv64)
    ensures !x & m == (x & m) ^ m
  {
  }

  lemma Doubled64(m: bv64)
    requires Single64(m)
    ensures m + m == 0 || Single64(m + m)
  {
  }

  // What the functions do on a set m of bits.
  lemma ChMask64(x: bv64, y: bv64, z: bv64, m: bv64)
    ensures x & m == m ==> Ch64(x, y, z) & m == y & m
    ensures x & m == 0 ==> Ch64(x, y, z) & m == z & m
  {
  }

  lemma MajSymmetric64(x: bv64, y: bv64, z: bv64)
    ensures Maj64(x, y, z) == Maj64(x, z, y) == Maj64(y, z, x)
  {
  }

  lemma MajMask64(x: bv64, y: bv64, z: bv64, m: bv64)
    requires x & m == y & m
    ensures Maj64(x, y, z) & m == x & m
  {
  }

  lemma XorSame64(x: bv64, y: bv64, z: bv64, m: bv64)
    requires x & m == y & m
    ensures Xor64(x, y, z) & m == z & m
  {
  }

  lemma Differ64(x: bv64, y: bv64, m: bv64)
    requires (x & m == 0 && y & m == m) || (x & m == m && y & m == 0)
    ensures (x ^ y) & m == m
  {
  }

  lemma FlipBit64(z: bv64, m: bv64)
    ensures z & m == 0 ==> (z & m) ^ m == m
    ensures z & m == m ==> (z & m) ^ m == 0
  {
  }

  lemma XorOther64(x: bv64, y: bv64, z: bv64, m: bv64)
    requires (x ^ y) & m == m
    ensures Xor64(x, y, z) & m == (z & m) ^ m
  {
  }

  lemma ChBit64(x: bv64, y: bv64, z: bv64, m: bv64)
    requires Single64(m)
    ensures Bit64(Ch64(x, y, z), m) == if Bit64(x, m) == 1 then Bit64(y, m) else Bit64(z, m)
  {
    hide Ch64;
    OneBit64(x, m);
    ChMask64(x, y, z, m);
  }

  lemma MajBit64(x: bv64, y: bv64, z: bv64, m: bv64)
    requires Single64(m)
    ensures Bit64(Maj64(x, y, z), m) == if Bit64(x, m) + Bit64(y, m) + Bit64(z, m) >= 2 then 1 else 0
  {
    hide Maj64;
    OneBit64(x, m);
    OneBit64(y, m);
    OneBit64(z, m);
    MajSymmetric64(x, y, z);
    if x & m == y & m {
      MajMask64(x, y, z, m);
    } else if x & m == z & m {
      MajMask64(x, z, y, m);
    } else {
      MajMask64(y, z, x, m);
    }
  }

  lemma XorBit64(x: bv64, y: bv64, z: bv64, m: bv64)
    requires Single64(m)
    ensures Bit64(Xor64(x, y, z), m) == (Bit64(x, m) + Bit64(y, m) + Bit64(z, m)) % 2
  {
    hide Xor64;
    OneBit64(x, m);
    OneBit64(y, m);
    OneBit64(z, m);
    if x & m == y & m {
      XorSame64(x, y, z, m);
    } else {
      Differ64(x, y, m);
      FlipBit64(z, m);
      XorOther64(x, y, z, m);
    }
  }

  /** Section 4.1: in every bit Ch takes y where x is set and z elsewhere, Maj is the majority of the three,
      and the sum that makes up a sigma is the parity. */
  lemma InEveryBit64(x: bv64, y: bv64, z: bv64, m: bv64)
    requires Single64(m)
    ensures Bit64(Ch64(x, y, z), m) == if Bit64(x, m) == 1 then Bit64(y, m) else Bit64(z, m)
    ensures Bit64(Maj64(x, y, z), m) == if Bit64(x, m) + Bit64(y, m) + Bit64(z, m) >= 2 then 1 else 0
    ensures Bit64(Xor64(x, y, z), m) == (Bit64(x, m) + Bit64(y, m) + Bit64(z, m)) % 2
  {
    hide Ch64, Maj64, Xor64, Bit64, Single64;
    ChBit64(x, y, z, m);
    MajBit64(x, y, z, m);
    XorBit64(x, y, z, m);
  }
}
