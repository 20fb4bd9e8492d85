/** Bytes as numbers and as eight bits. */
module ByteBits {

  lemma ByteToBits(x: int)
    requires 0 <= x < 256
    ensures x as bv8 as int == x
  {
  }

  lemma BitsToByte(b: bv8)
    ensures b as int as bv8 == b
  {
  }

  // Bit i of a number, the lowest one first.
  function BitOf(x: nat, i: nat): nat {
    if i == 0 then x % 2 else BitOf(x / 2, i - 1)
  }

  lemma LowBit(b: bv8)
    ensures b as int % 2 == if b & 1 == 1 then 1 else 0
  {
  }

  lemma Halved(b: bv8)
    ensures b as int / 2 == (b >> 1) as int
  {
  }

  lemma XorHalved(a: bv8, b: bv8)
    ensures (a ^ b) >> 1 == (a >> 1) ^ (b >> 1)
    ensures (a ^ b) & 1 == 1 <==> (a & 1 == 1) != (b & 1 == 1)
  {
  }

  lemma XorLow(a: bv8, b: bv8)
    ensures (a ^ b) as int % 2 == (a as int % 2 + b as int % 2) % 2
  {
    XorHalved(a, b);
    LowBit(a);
    LowBit(b);
    LowBit(a ^ b);
  }

  lemma NextBit(b: bv8, i: nat)
    requires i > 0
    ensures BitOf(b as int, i) == BitOf((b >> 1) as int, i - 1)
  {
    Halved(b);
  }

  // Exclusive or adds bit by bit, without a carry.
  lemma {:induction false} XorBits(a: bv8, b: bv8, i: nat)
    ensures BitOf((a ^ b) as int, i) == (BitOf(a as int, i) + BitOf(b as int, i)) % 2
  {
    if i == 0 {
      XorLow(a, b);
    } else {
      hide BitOf;
      NextBit(a, i);
      NextBit(b, i);
      NextBit(a ^ b, i);
      XorHalved(a, b);
      XorBits(a >> 1, b >> 1, i - 1);
    }
  }
}
