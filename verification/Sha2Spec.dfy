/** The hash functions of FIPS 180-4 as mathematics.  Everything is written over an abstract word
    type `W`, because cocarrier/sha2.c holds the same algorithm twice: on 32-bit words (SHA-224 and
    SHA-256) and on 64-bit words (SHA-384 and SHA-512).  A `Kernel` says what differs. */
module Sha2Spec {
  import opened Basics

  datatype Kernel<!W(!new)> = Kernel(
    wide: bool,                // false: 32-bit words and 64-byte blocks; true: 64-bit words and 128-byte blocks
    k: seq<W>,                 // the round constants
    pack: seq<Byte> -> W,       // big-endian bytes to a word
    unpack: W -> seq<Byte>,     // a word to big-endian bytes
    add: (W, W) -> W,
    bigA: W -> W,              // the upper-case sigma applied to working variable a
    bigE: W -> W,              // the upper-case sigma applied to working variable e
    small0: W -> W,            // the lower-case sigmas of the message schedule
    small1: W -> W,
    ch: (W, W, W) -> W,
    maj: (W, W, W) -> W)
  {
    function WordBytes(): nat { if wide then 8 else 4 }

    function BlockSize(): nat { if wide then 128 else 64 }

    function Rounds(): nat { if wide then 80 else 64 }

    // Bytes of the length field that ends the padding.
    function LengthField(): nat { if wide then 16 else 8 }

    // n modulo the block size, with a literal divisor in each branch.
    function Rem(n: nat): (r: nat)
      ensures r < BlockSize()
    {
      if wide then n % 128 else n % 64
    }

    ghost predicate Valid() {
      && |k| == Rounds()
      && forall w :: |unpack(w)| == WordBytes()
    }
  }

  /** The eight working variables of FIPS 180-4, section 6.2.2 step 2. */
  datatype Vars<W> = Vars(a: W, b: W, c: W, d: W, e: W, f: W, g: W, h: W)

  function ToVars<W>(s: seq<W>): Vars<W>
    requires |s| == 8
  {
    Vars(s[0], s[1], s[2], s[3], s[4], s[5], s[6], s[7])
  }

  function FromVars<W>(v: Vars<W>): (s: seq<W>)
    ensures |s| == 8 && ToVars(s) == v
  {
    [v.a, v.b, v.c, v.d, v.e, v.f, v.g, v.h]
  }

  // ----- one block (sections 6.2.2 and 6.4.2)

  // Word t of the message schedule, given the words before it.
  function ScheduleWord<W(!new)>(kn: Kernel<W>, block: seq<Byte>, w: seq<W>, t: nat): W
    requires |block| == kn.BlockSize() && t == |w|
  {
    if t < 16 then
      kn.pack(block[t * kn.WordBytes()..(t + 1) * kn.WordBytes()])
    else
      kn.add(kn.add(kn.add(kn.small1(w[t - 2]), w[t - 7]), kn.small0(w[t - 15])), w[t - 16])
  }

  // The first t words of the message schedule.
  function Schedule<W(!new)>(kn: Kernel<W>, block: seq<Byte>, t: nat): (w: seq<W>)
    requires |block| == kn.BlockSize()
    ensures |w| == t
  {
    if t == 0 then []
    else
      var w := Schedule(kn, block, t - 1);
      w + [ScheduleWord(kn, block, w, t - 1)]
  }

  function T1<W(!new)>(kn: Kernel<W>, e: W, f: W, g: W, h: W, kt: W, wt: W): W {
    kn.add(kn.add(kn.add(kn.add(h, kn.bigE(e)), kn.ch(e, f, g)), kt), wt)
  }

  function T2<W(!new)>(kn: Kernel<W>, a: W, b: W, c: W): W {
    kn.add(kn.bigA(a), kn.maj(a, b, c))
  }

  function Round<W(!new)>(kn: Kernel<W>, v: Vars<W>, kt: W, wt: W): Vars<W> {
    var t1 := T1(kn, v.e, v.f, v.g, v.h, kt, wt);
    var t2 := T2(kn, v.a, v.b, v.c);
    Vars(kn.add(t1, t2), v.a, v.b, v.c, kn.add(v.d, t1), v.e, v.f, v.g)
  }

  // The working variables after t rounds.
  function RoundsFrom<W(!new)>(kn: Kernel<W>, v: Vars<W>, w: seq<W>, t: nat): Vars<W>
    requires kn.Valid() && t <= kn.Rounds() && |w| == kn.Rounds()
  {
    if t == 0 then v else Round(kn, RoundsFrom(kn, v, w, t - 1), kn.k[t - 1], w[t - 1])
  }

  function AddVars<W(!new)>(kn: Kernel<W>, u: Vars<W>, v: Vars<W>): Vars<W> {
    Vars(kn.add(u.a, v.a), kn.add(u.b, v.b), kn.add(u.c, v.c), kn.add(u.d, v.d),
         kn.add(u.e, v.e), kn.add(u.f, v.f), kn.add(u.g, v.g), kn.add(u.h, v.h))
  }

  function Compress<W(!new)>(kn: Kernel<W>, h: Vars<W>, block: seq<Byte>): Vars<W>
    requires kn.Valid() && |block| == kn.BlockSize()
  {
    AddVars(kn, h, RoundsFrom(kn, h, Schedule(kn, block, kn.Rounds()), kn.Rounds()))
  }

  // ----- a whole message

  // The hash value after the blocks of data.
  function Fold<W(!new)>(kn: Kernel<W>, h: Vars<W>, data: seq<Byte>): Vars<W>
    requires kn.Valid() && kn.Rem(|data|) == 0
    decreases |data|
  {
    if data == [] then h
    else
      var n := kn.BlockSize();
      Fold(kn, Compress(kn, h, data[..n]), data[n..])
  }

  function Zeros(n: nat): (s: seq<Byte>)
    ensures |s| == n && forall i :: 0 <= i < n ==> s[i] == 0
  {
    seq(n, _ => 0)
  }

  // The low n bytes of x, most significant first.
  function BigEndian(x: nat, n: nat): (s: seq<Byte>)
    ensures |s| == n
  {
    if n == 0 then [] else BigEndian(x / 256, n - 1) + [x % 256]
  }

  // The number of zero bytes between the 0x80 byte and the length field.
  function PadZeros<W(!new)>(kn: Kernel<W>, n: nat): nat {
    var used := kn.Rem(n) + 1 + kn.LengthField();
    if used <= kn.BlockSize() then kn.BlockSize() - used else 2 * kn.BlockSize() - used
  }

  /** The padding of sections 5.1.1 and 5.1.2 for a message of n bytes. */
  function Padding<W(!new)>(kn: Kernel<W>, n: nat): seq<Byte> {
    [0x80] + Zeros(PadZeros(kn, n)) + BigEndian(8 * n, kn.LengthField())
  }

  // The first `words` words of a hash value, as bytes.
  function Output<W(!new)>(kn: Kernel<W>, h: seq<W>, words: nat): (s: seq<Byte>)
    requires words <= |h|
    ensures kn.Valid() ==> |s| == words * kn.WordBytes()
  {
    if words == 0 then [] else Output(kn, h, words - 1) + kn.unpack(h[words - 1])
  }

  function Padded<W(!new)>(kn: Kernel<W>, m: seq<Byte>): (s: seq<Byte>)
    ensures kn.Rem(|s|) == 0
  {
    PaddingFills(kn, |m|);
    m + Padding(kn, |m|)
  }

  /** The digest that FIPS 180-4 defines for message m. */
  function Hash<W(!new)>(kn: Kernel<W>, h0: Vars<W>, words: nat, m: seq<Byte>): (s: seq<Byte>)
    requires kn.Valid() && words <= 8
    ensures |s| == words * kn.WordBytes()
  {
    Output(kn, FromVars(Fold(kn, h0, Padded(kn, m))), words)
  }

  // ----- facts

  lemma RemAdd<W(!new)>(kn: Kernel<W>, a: nat, b: nat)
    requires kn.Rem(a) == 0
    ensures kn.Rem(a + b) == kn.Rem(b)
  {
    if kn.wide {
      Mod128(a / 128, b);
    } else {
      Mod64(a / 64, b);
    }
  }

  // n + 1 bytes, z zeros and the length field fill a whole number of blocks.
  predicate Fills<W(!new)>(kn: Kernel<W>, n: nat, z: nat) {
    kn.Rem(n + 1 + z + kn.LengthField()) == 0
  }

  // Section 5.1: the zero count is the smallest that makes the padded length a whole number of blocks.
  lemma PaddingFills<W(!new)>(kn: Kernel<W>, n: nat)
    ensures kn.Rem(n + |Padding(kn, n)|) == 0
    ensures Fills(kn, n, PadZeros(kn, n))
    ensures forall z: nat :: z < PadZeros(kn, n) ==> !Fills(kn, n, z)
  {
    forall z: nat | z <= PadZeros(kn, n)
      ensures Fills(kn, n, z) <==> z == PadZeros(kn, n)
    {
      PaddingFit(kn, n, z);
    }
    assert Fills(kn, n, PadZeros(kn, n));
  }

  lemma PaddingFit<W(!new)>(kn: Kernel<W>, n: nat, z: nat)
    requires z <= PadZeros(kn, n)
    ensures Fills(kn, n, z) <==> z == PadZeros(kn, n)
  {
    if kn.wide {
      Fit128(n, z);
    } else {
      Fit64(n, z);
    }
  }

  lemma Fit64(n: nat, z: nat)
    requires z <= if n % 64 < 56 then 55 - n % 64 else 119 - n % 64
    ensures (n + 9 + z) % 64 == 0 <==> z == if n % 64 < 56 then 55 - n % 64 else 119 - n % 64
  {
    Mod64(n / 64, n % 64 + 9 + z);
  }

  lemma Fit128(n: nat, z: nat)
    requires z <= if n % 128 < 112 then 111 - n % 128 else 239 - n % 128
    ensures (n + 17 + z) % 128 == 0 <==> z == if n % 128 < 112 then 111 - n % 128 else 239 - n % 128
  {
    Mod128(n / 128, n % 128 + 17 + z);
  }

  lemma Mod64(q: int, r: int)
    ensures (64 * q + r) % 64 == r % 64
  {
  }

  lemma Mod128(q: int, r: int)
    ensures (128 * q + r) % 128 == r % 128
  {
  }

  lemma {:induction false} FoldConcat<W(!new)>(kn: Kernel<W>, h: Vars<W>, a: seq<Byte>, b: seq<Byte>)
    requires kn.Valid() && kn.Rem(|a|) == 0 && kn.Rem(|b|) == 0
    ensures kn.Rem(|a + b|) == 0
    ensures Fold(kn, h, a + b) == Fold(kn, Fold(kn, h, a), b)
    decreases |a|
  {
    hide Compress;
    RemAdd(kn, |a|, |b|);
    if a == [] {
      assert a + b == b;
    } else {
      var n := kn.BlockSize();
      RemAdd(kn, n, |a| - n);
      assert (a + b)[..n] == a[..n] && (a + b)[n..] == a[n..] + b;
      FoldConcat(kn, Compress(kn, h, a[..n]), a[n..], b);
    }
  }

  lemma FoldStep<W(!new)>(kn: Kernel<W>, h: Vars<W>, data: seq<Byte>)
    requires kn.Valid() && kn.Rem(|data|) == 0 && data != []
    ensures kn.BlockSize() <= |data| && kn.Rem(|data| - kn.BlockSize()) == 0
    ensures Fold(kn, h, data) == Fold(kn, Compress(kn, h, data[..kn.BlockSize()]), data[kn.BlockSize()..])
  {
    RemAdd(kn, kn.BlockSize(), |data| - kn.BlockSize());
  }

  // Two kernels that compute the same word functions.
  ghost predicate Agree<W(!new)>(p: Kernel<W>, q: Kernel<W>) {
    && p.wide == q.wide && p.k == q.k
    && (forall s :: p.pack(s) == q.pack(s))
    && (forall x :: p.unpack(x) == q.unpack(x))
    && (forall x, y :: p.add(x, y) == q.add(x, y))
    && (forall x :: p.bigA(x) == q.bigA(x))
    && (forall x :: p.bigE(x) == q.bigE(x))
    && (forall x :: p.small0(x) == q.small0(x))
    && (forall x :: p.small1(x) == q.small1(x))
    && (forall x, y, z :: p.ch(x, y, z) == q.ch(x, y, z))
    && (forall x, y, z :: p.maj(x, y, z) == q.maj(x, y, z))
  }

  lemma {:induction false} AgreeSchedule<W(!new)>(p: Kernel<W>, q: Kernel<W>, block: seq<Byte>, t: nat)
    requires Agree(p, q) && |block| == p.BlockSize()
    ensures Schedule(p, block, t) == Schedule(q, block, t)
  {
    if t > 0 {
      AgreeSchedule(p, q, block, t - 1);
    }
  }

  lemma {:induction false} AgreeRounds<W(!new)>(p: Kernel<W>, q: Kernel<W>, v: Vars<W>, w: seq<W>, t: nat)
    requires Agree(p, q) && p.Valid() && q.Valid() && t <= p.Rounds() && |w| == p.Rounds()
    ensures RoundsFrom(p, v, w, t) == RoundsFrom(q, v, w, t)
  {
    if t > 0 {
      AgreeRounds(p, q, v, w, t - 1);
    }
  }

  lemma AgreeCompress<W(!new)>(p: Kernel<W>, q: Kernel<W>, h: Vars<W>, block: seq<Byte>)
    requires Agree(p, q) && p.Valid() && q.Valid() && |block| == p.BlockSize()
    ensures Compress(p, h, block) == Compress(q, h, block)
  {
    hide Schedule, RoundsFrom;
    AgreeSchedule(p, q, block, p.Rounds());
    AgreeRounds(p, q, h, Schedule(p, block, p.Rounds()), p.Rounds());
  }

  lemma {:induction false} AgreeFold<W(!new)>(p: Kernel<W>, q: Kernel<W>, h: Vars<W>, data: seq<Byte>)
    requires Agree(p, q) && p.Valid() && q.Valid() && p.Rem(|data|) == 0
    ensures Fold(p, h, data) == Fold(q, h, data)
    decreases |data|
  {
    hide Compress;
    if data != [] {
      var n := p.BlockSize();
      AgreeCompress(p, q, h, data[..n]);
      AgreeFold(p, q, Compress(p, h, data[..n]), data[n..]);
    }
  }

  lemma {:induction false} AgreeOutput<W(!new)>(p: Kernel<W>, q: Kernel<W>, h: seq<W>, words: nat)
    requires Agree(p, q) && words <= |h|
    ensures Output(p, h, words) == Output(q, h, words)
  {
    if words > 0 {
      AgreeOutput(p, q, h, words - 1);
    }
  }

  /** Kernels that agree define the same digests. */
  lemma AgreeHash<W(!new)>(p: Kernel<W>, q: Kernel<W>, h0: Vars<W>, words: nat, m: seq<Byte>)
    requires Agree(p, q) && p.Valid() && q.Valid() && words <= 8
    ensures Hash(p, h0, words, m) == Hash(q, h0, words, m)
  {
    var padded := Padded(p, m);
    assert padded == Padded(q, m);
    AgreeFold(p, q, h0, padded);
    AgreeOutput(p, q, FromVars(Fold(p, h0, padded)), words);
  }
}
