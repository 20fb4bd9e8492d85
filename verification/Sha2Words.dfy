/** The two word sizes of cocarrier/sha2.c: its macros, its tables, and the same functions as
    FIPS 180-4 writes them. */
module Sha2Words {
  import opened Basics
  import opened ByteBits
  import opened Sha2Spec

  type Word32 = x: int | 0 <= x < 0x1_0000_0000
  type Word64 = x: int | 0 <= x < 0x1_0000_0000_0000_0000

  // ----- the tables

  function H224(i: nat): Word32
    requires i < 8
  {
    if i < 4 then [0xc1059ed8, 0x367cd507, 0x3070dd17, 0xf70e5939][i]
    else [0xffc00b31, 0x68581511, 0x64f98fa7, 0xbefa4fa4][i - 4]
  }

  function H256(i: nat): Word32
    requires i < 8
  {
    if i < 4 then [0x6a09e667, 0xbb67ae85, 0x3c6ef372, 0xa54ff53a][i]
    else [0x510e527f, 0x9b05688c, 0x1f83d9ab, 0x5be0cd19][i - 4]
  }

  function H384(i: nat): Word64
    requires i < 8
  {
    if i < 4 then [0xcbbb9d5d_c1059ed8, 0x629a292a_367cd507, 0x9159015a_3070dd17, 0x152fecd8_f70e5939][i]
    else [0x67332667_ffc00b31, 0x8eb44a87_68581511, 0xdb0c2e0d_64f98fa7, 0x47b5481d_befa4fa4][i - 4]
  }

  function H512(i: nat): Word64
    requires i < 8
  {
    if i < 4 then [0x6a09e667_f3bcc908, 0xbb67ae85_84caa73b, 0x3c6ef372_fe94f82b, 0xa54ff53a_5f1d36f1][i]
    else [0x510e527f_ade682d1, 0x9b05688c_2b3e6c1f, 0x1f83d9ab_fb41bd6b, 0x5be0cd19_137e2179][i - 4]
  }

  function K256(i: nat): Word32
    requires i < 64
  {
    if i < 4 then [0x428a2f98, 0x71374491, 0xb5c0fbcf, 0xe9b5dba5][i]
    else if i < 8 then [0x3956c25b, 0x59f111f1, 0x923f82a4, 0xab1c5ed5][i - 4]
    else if i < 12 then [0xd807aa98, 0x12835b01, 0x243185be, 0x550c7dc3][i - 8]
    else if i < 16 then [0x72be5d74, 0x80deb1fe, 0x9bdc06a7, 0xc19bf174][i - 12]
    else if i < 20 then [0xe49b69c1, 0xefbe4786, 0x0fc19dc6, 0x240ca1cc][i - 16]
    else if i < 24 then [0x2de92c6f, 0x4a7484aa, 0x5cb0a9dc, 0x76f988da][i - 20]
    else if i < 28 then [0x983e5152, 0xa831c66d, 0xb00327c8, 0xbf597fc7][i - 24]
    else if i < 32 then [0xc6e00bf3, 0xd5a79147, 0x06ca6351, 0x14292967][i - 28]
    else if i < 36 then [0x27b70a85, 0x2e1b2138, 0x4d2c6dfc, 0x53380d13][i - 32]
    else if i < 40 then [0x650a7354, 0x766a0abb, 0x81c2c92e, 0x92722c85][i - 36]
    else if i < 44 then [0xa2bfe8a1, 0xa81a664b, 0xc24b8b70, 0xc76c51a3][i - 40]
    else if i < 48 then [0xd192e819, 0xd6990624, 0xf40e3585, 0x106aa070][i - 44]
    else if i < 52 then [0x19a4c116, 0x1e376c08, 0x2748774c, 0x34b0bcb5][i - 48]
    else if i < 56 then [0x391c0cb3, 0x4ed8aa4a, 0x5b9cca4f, 0x682e6ff3][i - 52]
    else if i < 60 then [0x748f82ee, 0x78a5636f, 0x84c87814, 0x8cc70208][i - 56]
    else [0x90befffa, 0xa4506ceb, 0xbef9a3f7, 0xc67178f2][i - 60]
  }

  function K512(i: nat): Word64
    requires i < 80
  {
    if i < 4 then [0x428a2f98_d728ae22, 0x71374491_23ef65cd, 0xb5c0fbcf_ec4d3b2f, 0xe9b5dba5_8189dbbc][i]
    else if i < 8 then [0x3956c25b_f348b538, 0x59f111f1_b605d019, 0x923f82a4_af194f9b, 0xab1c5ed5_da6d8118][i - 4]
    else if i < 12 then [0xd807aa98_a3030242, 0x12835b01_45706fbe, 0x243185be_4ee4b28c, 0x550c7dc3_d5ffb4e2][i - 8]
    else if i < 16 then [0x72be5d74_f27b896f, 0x80deb1fe_3b1696b1, 0x9bdc06a7_25c71235, 0xc19bf174_cf692694][i - 12]
    else if i < 20 then [0xe49b69c1_9ef14ad2, 0xefbe4786_384f25e3, 0x0fc19dc6_8b8cd5b5, 0x240ca1cc_77ac9c65][i - 16]
    else if i < 24 then [0x2de92c6f_592b0275, 0x4a7484aa_6ea6e483, 0x5cb0a9dc_bd41fbd4, 0x76f988da_831153b5][i - 20]
    else if i < 28 then [0x983e5152_ee66dfab, 0xa831c66d_2db43210, 0xb00327c8_98fb213f, 0xbf597fc7_beef0ee4][i - 24]
    else if i < 32 then [0xc6e00bf3_3da88fc2, 0xd5a79147_930aa725, 0x06ca6351_e003826f, 0x14292967_0a0e6e70][i - 28]
    else if i < 36 then [0x27b70a85_46d22ffc, 0x2e1b2138_5c26c926, 0x4d2c6dfc_5ac42aed, 0x53380d13_9d95b3df][i - 32]
    else if i < 40 then [0x650a7354_8baf63de, 0x766a0abb_3c77b2a8, 0x81c2c92e_47edaee6, 0x92722c85_1482353b][i - 36]
    else if i < 44 then [0xa2bfe8a1_4cf10364, 0xa81a664b_bc423001, 0xc24b8b70_d0f89791, 0xc76c51a3_0654be30][i - 40]
    else if i < 48 then [0xd192e819_d6ef5218, 0xd6990624_5565a910, 0xf40e3585_5771202a, 0x106aa070_32bbd1b8][i - 44]
    else if i < 52 then [0x19a4c116_b8d2d0c8, 0x1e376c08_5141ab53, 0x2748774c_df8eeb99, 0x34b0bcb5_e19b48a8][i - 48]
    else if i < 56 then [0x391c0cb3_c5c95a63, 0x4ed8aa4a_e3418acb, 0x5b9cca4f_7763e373, 0x682e6ff3_d6b2b8a3][i - 52]
    else if i < 60 then [0x748f82ee_5defb2fc, 0x78a5636f_43172f60, 0x84c87814_a1f0ab72, 0x8cc70208_1a6439ec][i - 56]
    else if i < 64 then [0x90befffa_23631e28, 0xa4506ceb_de82bde9, 0xbef9a3f7_b2c67915, 0xc67178f2_e372532b][i - 60]
    else if i < 68 then [0xca273ece_ea26619c, 0xd186b8c7_21c0c207, 0xeada7dd6_cde0eb1e, 0xf57d4f7f_ee6ed178][i - 64]
    else if i < 72 then [0x06f067aa_72176fba, 0x0a637dc5_a2c898a6, 0x113f9804_bef90dae, 0x1b710b35_131c471b][i - 68]
    else if i < 76 then [0x28db77f5_23047d84, 0x32caab7b_40c72493, 0x3c9ebe0a_15c9bebc, 0x431d67c4_9c100d4c][i - 72]
    else [0x4cc5d4be_cb3e42b6, 0x597f299c_fc657e2a, 0x5fcb6fab_3ad6faec, 0x6c44198c_4a475817][i - 76]
  }

  // ----- the macros on 32-bit words

  function Rotr32(x: bv32, n: nat): bv32
    requires 0 < n < 32
  {
    (x >> n) | (x << (32 - n))
  }

  function Xor32(x: bv32, y: bv32, z: bv32): bv32 { x ^ y ^ z }

  function F1_256(x: bv32): bv32 { Xor32(Rotr32(x, 2), Rotr32(x, 13), Rotr32(x, 22)) }

  function F2_256(x: bv32): bv32 { Xor32(Rotr32(x, 6), Rotr32(x, 11), Rotr32(x, 25)) }

  function F3_256(x: bv32): bv32 { Xor32(Rotr32(x, 7), Rotr32(x, 18), x >> 3) }

  function F4_256(x: bv32): bv32 { Xor32(Rotr32(x, 17), Rotr32(x, 19), x >> 10) }

  function Ch32(x: bv32, y: bv32, z: bv32): bv32 { (x & y) ^ (!x & z) }

  function Maj32(x: bv32, y: bv32, z: bv32): bv32 { (x & y) ^ (x & z) ^ (y & z) }

  function Pack32(s: seq<Byte>): bv32 {
    if |s| != 4 then
      0
    else
      (s[3] as bv8 as bv32) | (s[2] as bv8 as bv32 << 8) | (s[1] as bv8 as bv32 << 16) | (s[0] as bv8 as bv32 << 24)
  }

  function Cut32(x: bv32): bv8 { (x & 0xff) as bv8 }

  function Low32(x: bv32): Byte { Cut32(x) as int }

  function Unpack32(x: bv32): (s: seq<Byte>)
    ensures |s| == 4
  {
    [Low32(x >> 24), Low32(x >> 16), Low32(x >> 8), Low32(x)]
  }

  function Number32(s: seq<Byte>): int
    requires |s| == 4
  {
    0x1000000 * (s[0] as int) + 0x10000 * (s[1] as int) + 0x100 * (s[2] as int) + s[3] as int
  }

  /** PACK32 reads a big-endian number. */
  lemma PackIsBigEndian32(s: seq<Byte>)
    requires |s| == 4
    ensures Pack32(s) as int == Number32(s)
  {
    forall i | 0 <= i < 4
      ensures s[i] as bv8 as int == s[i]
    {
      ByteToBits(s[i]);
    }
    JoinNumber32(s[0] as bv8, s[1] as bv8, s[2] as bv8, s[3] as bv8);
  }

  lemma JoinNumber32(a: bv8, b: bv8, c: bv8, d: bv8)
    ensures (d as bv32 | (c as bv32 << 8) | (b as bv32 << 16) | (a as bv32 << 24)) as int
         == 0x1000000 * (a as int) + 0x10000 * (b as int) + 0x100 * (c as int) + d as int
  {
  }

  // PACK32 undoes UNPACK32.
  lemma PackUnpack32(x: bv32)
    ensures Pack32(Unpack32(x)) == x
  {
    hide Cut32;
    BitsToByte(Cut32(x >> 24));
    BitsToByte(Cut32(x >> 16));
    BitsToByte(Cut32(x >> 8));
    BitsToByte(Cut32(x));
    CutJoin32(x);
  }

  lemma CutJoin32(x: bv32)
    ensures (Cut32(x) as bv32) | (Cut32(x >> 8) as bv32 << 8)
            | (Cut32(x >> 16) as bv32 << 16) | (Cut32(x >> 24) as bv32 << 24) == x
  {
  }

  /** UNPACK32 writes a big-endian number. */
  lemma UnpackIsBigEndian32(x: bv32)
    ensures Number32(Unpack32(x)) == x as int
  {
    hide Number32, Pack32, Unpack32;
    PackUnpack32(x);
    PackIsBigEndian32(Unpack32(x));
  }

  function Entry32(x: Word32): bv32 { x as bv32 }

  // A table as the array of words that the code reads.
  function Table32(n: nat, t: nat --> Word32): (r: seq<bv32>)
    requires forall i :: 0 <= i < n ==> t.requires(i)
    ensures |r| == n
  {
    seq(n, i requires 0 <= i < n => Entry32(t(i)))
  }

  lemma TableEntry32(n: nat, t: nat --> Word32, i: nat)
    requires forall j :: 0 <= j < n ==> t.requires(j)
    requires i < n
    ensures Table32(n, t)[i] == Entry32(t(i))
  {
    hide Entry32;
  }

  // ROTR of FIPS 180-4, section 3.2, as the built-in rotation.
  function Right32(x: bv32, n: nat): bv32
    requires 0 < n < 32
  {
    x.RotateRight(n)
  }

  // The functions of section 4.1.2 of FIPS 180-4.
  function UpperSigma0_256(x: bv32): bv32 { Xor32(Right32(x, 2), Right32(x, 13), Right32(x, 22)) }

  function UpperSigma1_256(x: bv32): bv32 { Xor32(Right32(x, 6), Right32(x, 11), Right32(x, 25)) }

  function LowerSigma0_256(x: bv32): bv32 { Xor32(Right32(x, 7), Right32(x, 18), x >> 3) }

  function LowerSigma1_256(x: bv32): bv32 { Xor32(Right32(x, 17), Right32(x, 19), x >> 10) }

  function Code256(): (kn: Kernel<bv32>)
    ensures kn.Valid()
  {
    Kernel(false, Table32(64, K256), Pack32, Unpack32, (x, y) => x + y, F1_256, F2_256, F3_256, F4_256, Ch32, Maj32)
  }

  // The constants are the table of the code, which Sha2Tables.RoundConstants256 derives as FIPS 180-4 does.
  function Fips256(): (kn: Kernel<bv32>)
    ensures kn.Valid()
  {
    Kernel(false, Table32(64, K256), Pack32, Unpack32, (x, y) => x + y,
           UpperSigma0_256, UpperSigma1_256, LowerSigma0_256, LowerSigma1_256, Ch32, Maj32)
  }

  /** The shift-and-or macros are the rotations of the standard. */
  lemma MacrosAgree256()
    ensures Agree(Code256(), Fips256())
  {
    hide F1_256, F2_256, F3_256, F4_256, UpperSigma0_256, UpperSigma1_256, LowerSigma0_256, LowerSigma1_256;
    hide Ch32, Maj32, Pack32, Unpack32, Table32;
    forall x: bv32
      ensures F1_256(x) == UpperSigma0_256(x) && F2_256(x) == UpperSigma1_256(x)
      ensures F3_256(x) == LowerSigma0_256(x) && F4_256(x) == LowerSigma1_256(x)
    {
      SigmasAgree256(x);
    }
  }

  lemma SigmasAgree256(x: bv32)
    ensures F1_256(x) == UpperSigma0_256(x) && F2_256(x) == UpperSigma1_256(x)
    ensures F3_256(x) == LowerSigma0_256(x) && F4_256(x) == LowerSigma1_256(x)
  {
    hide Rotr32, Right32, Xor32;
    Rotations256(x);
  }

  lemma Rotations256(x: bv32)
    ensures Rotr32(x, 2) == Right32(x, 2)
    ensures Rotr32(x, 6) == Right32(x, 6)
    ensures Rotr32(x, 7) == Right32(x, 7)
    ensures Rotr32(x, 11) == Right32(x, 11)
    ensures Rotr32(x, 13) == Right32(x, 13)
    ensures Rotr32(x, 17) == Right32(x, 17)
    ensures Rotr32(x, 18) == Right32(x, 18)
    ensures Rotr32(x, 19) == Right32(x, 19)
    ensures Rotr32(x, 22) == Right32(x, 22)
    ensures Rotr32(x, 25) == Right32(x, 25)
  {
  }

  // ----- the macros on 64-bit words

  function Rotr64(x: bv64, n: nat): bv64
    requires 0 < n < 64
  {
    (x >> n) | (x << (64 - n))
  }

  function Xor64(x: bv64, y: bv64, z: bv64): bv64 { x ^ y ^ z }

  function F1_512(x: bv64): bv64 { Xor64(Rotr64(x, 28), Rotr64(x, 34), Rotr64(x, 39)) }

  function F2_512(x: bv64): bv64 { Xor64(Rotr64(x, 14), Rotr64(x, 18), Rotr64(x, 41)) }

  function F3_512(x: bv64): bv64 { Xor64(Rotr64(x, 1), Rotr64(x, 8), x >> 7) }

  function F4_512(x: bv64): bv64 { Xor64(Rotr64(x, 19), Rotr64(x, 61), x >> 6) }

  function Ch64(x: bv64, y: bv64, z: bv64): bv64 { (x & y) ^ (!x & z) }

  function Maj64(x: bv64, y: bv64, z: bv64): bv64 { (x & y) ^ (x & z) ^ (y & z) }

  function Pack64(s: seq<Byte>): bv64 {
    if |s| != 8 then
      0
    else
      (s[7] as bv8 as bv64) | (s[6] as bv8 as bv64 << 8) | (s[5] as bv8 as bv64 << 16) | (s[4] as bv8 as bv64 << 24)
      | (s[3] as bv8 as bv64 << 32) | (s[2] as bv8 as bv64 << 40) | (s[1] as bv8 as bv64 << 48)
      | (s[0] as bv8 as bv64 << 56)
  }

  function Cut64(x: bv64): bv8 { (x & 0xff) as bv8 }

  function Low64(x: bv64): Byte { Cut64(x) as int }

  function Unpack64(x: bv64): (s: seq<Byte>)
    ensures |s| == 8
  {
    [Low64(x >> 56), Low64(x >> 48), Low64(x >> 40), Low64(x >> 32),
     Low64(x >> 24), Low64(x >> 16), Low64(x >> 8), Low64(x)]
  }

  function Number64(s: seq<Byte>): int
    requires |s| == 8
  {
    0x100000000000000 * (s[0] as int) + 0x1000000000000 * (s[1] as int) + 0x10000000000 * (s[2] as int)
    + 0x100000000 * (s[3] as int)
    + 0x1000000 * (s[4] as int) + 0x10000 * (s[5] as int) + 0x100 * (s[6] as int) + s[7] as int
  }

  /** PACK64 reads a big-endian number. */
  lemma PackIsBigEndian64(s: seq<Byte>)
    requires |s| == 8
    ensures Pack64(s) as int == Number64(s)
  {
    forall i | 0 <= i < 8
      ensures s[i] as bv8 as int == s[i]
    {
      ByteToBits(s[i]);
    }
    JoinNumber64(s[0] as bv8, s[1] as bv8, s[2] as bv8, s[3] as bv8, s[4] as bv8, s[5] as bv8, s[6] as bv8,
                 s[7] as bv8);
  }

  lemma JoinNumber64(a: bv8, b: bv8, c: bv8, d: bv8, e: bv8, f: bv8, g: bv8, h: bv8)
    ensures (h as bv64 | (g as bv64 << 8) | (f as bv64 << 16) | (e as bv64 << 24)
             | (d as bv64 << 32) | (c as bv64 << 40) | (b as bv64 << 48) | (a as bv64 << 56)) as int
         == 0x100000000000000 * (a as int) + 0x1000000000000 * (b as int) + 0x10000000000 * (c as int)
            + 0x100000000 * (d as int)
            + 0x1000000 * (e as int) + 0x10000 * (f as int) + 0x100 * (g as int) + h as int
  {
  }

  // PACK64 undoes UNPACK64.
  lemma PackUnpack64(x: bv64)
    ensures Pack64(Unpack64(x)) == x
  {
    hide Cut64;
    BitsToByte(Cut64(x >> 56));
    BitsToByte(Cut64(x >> 48));
    BitsToByte(Cut64(x >> 40));
    BitsToByte(Cut64(x >> 32));
    BitsToByte(Cut64(x >> 24));
    BitsToByte(Cut64(x >> 16));
    BitsToByte(Cut64(x >> 8));
    BitsToByte(Cut64(x));
    CutJoin64(x);
  }

  lemma CutJoin64(x: bv64)
    ensures (Cut64(x) as bv64) | (Cut64(x >> 8) as bv64 << 8)
            | (Cut64(x >> 16) as bv64 << 16) | (Cut64(x >> 24) as bv64 << 24)
            | (Cut64(x >> 32) as bv64 << 32) | (Cut64(x >> 40) as bv64 << 40)
            | (Cut64(x >> 48) as bv64 << 48) | (Cut64(x >> 56) as bv64 << 56) == x
  {
  }

  /** UNPACK64 writes a big-endian number. */
  lemma UnpackIsBigEndian64(x: bv64)
    ensures Number64(Unpack64(x)) == x as int
  {
    hide Number64, Pack64, Unpack64;
    PackUnpack64(x);
    PackIsBigEndian64(Unpack64(x));
  }

  function Entry64(x: Word64): bv64 { x as bv64 }

  // A table as the array of words that the code reads.
  function Table64(n: nat, t: nat --> Word64): (r: seq<bv64>)
    requires forall i :: 0 <= i < n ==> t.requires(i)
    ensures |r| == n
  {
    seq(n, i requires 0 <= i < n => Entry64(t(i)))
  }

  lemma TableEntry64(n: nat, t: nat --> Word64, i: nat)
    requires forall j :: 0 <= j < n ==> t.requires(j)
    requires i < n
    ensures Table64(n, t)[i] == Entry64(t(i))
  {
    hide Entry64;
  }

  // ROTR of FIPS 180-4, section 3.2, as the built-in rotation.
  function Right64(x: bv64, n: nat): bv64
    requires 0 < n < 64
  {
    x.RotateRight(n)
  }

  // The functions of section 4.1.3 of FIPS 180-4.
  function UpperSigma0_512(x: bv64): bv64 { Xor64(Right64(x, 28), Right64(x, 34), Right64(x, 39)) }

  function UpperSigma1_512(x: bv64): bv64 { Xor64(Right64(x, 14), Right64(x, 18), Right64(x, 41)) }

  function LowerSigma0_512(x: bv64): bv64 { Xor64(Right64(x, 1), Right64(x, 8), x >> 7) }

  function LowerSigma1_512(x: bv64): bv64 { Xor64(Right64(x, 19), Right64(x, 61), x >> 6) }

  function Code512(): (kn: Kernel<bv64>)
    ensures kn.Valid()
  {
    Kernel(true, Table64(80, K512), Pack64, Unpack64, (x, y) => x + y, F1_512, F2_512, F3_512, F4_512, Ch64, Maj64)
  }

  // The constants are the table of the code, which Sha2Tables.RoundConstants512 derives as FIPS 180-4 does.
  function Fips512(): (kn: Kernel<bv64>)
    ensures kn.Valid()
  {
    Kernel(true, Table64(80, K512), Pack64, Unpack64, (x, y) => x + y,
           UpperSigma0_512, UpperSigma1_512, LowerSigma0_512, LowerSigma1_512, Ch64, Maj64)
  }

  /** The shift-and-or macros are the rotations of the standard. */
  lemma MacrosAgree512()
    ensures Agree(Code512(), Fips512())
  {
    hide F1_512, F2_512, F3_512, F4_512, UpperSigma0_512, UpperSigma1_512, LowerSigma0_512, LowerSigma1_512;
    hide Ch64, Maj64, Pack64, Unpack64, Table64;
    forall x: bv64
      ensures F1_512(x) == UpperSigma0_512(x) && F2_512(x) == UpperSigma1_512(x)
      ensures F3_512(x) == LowerSigma0_512(x) && F4_512(x) == LowerSigma1_512(x)
    {
      SigmasAgree512(x);
    }
  }

  lemma SigmasAgree512(x: bv64)
    ensures F1_512(x) == UpperSigma0_512(x) && F2_512(x) == UpperSigma1_512(x)
    ensures F3_512(x) == LowerSigma0_512(x) && F4_512(x) == LowerSigma1_512(x)
  {
    hide Rotr64, Right64, Xor64;
    Rotations512(x);
  }

  lemma Rotations512(x: bv64)
    ensures Rotr64(x, 1) == Right64(x, 1)
    ensures Rotr64(x, 8) == Right64(x, 8)
    ensures Rotr64(x, 14) == Right64(x, 14)
    ensures Rotr64(x, 18) == Right64(x, 18)
    ensures Rotr64(x, 19) == Right64(x, 19)
    ensures Rotr64(x, 28) == Right64(x, 28)
    ensures Rotr64(x, 34) == Right64(x, 34)
    ensures Rotr64(x, 39) == Right64(x, 39)
    ensures Rotr64(x, 41) == Right64(x, 41)
    ensures Rotr64(x, 61) == Right64(x, 61)
  {
  }
}
