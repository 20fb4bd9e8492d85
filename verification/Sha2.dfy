/** The streaming hash contexts of cocarrier/sha2.c. */
module Sha2 {
  import opened Basics
  import opened Sha2Spec

  // unsigned int arithmetic
  const UINT: nat := 0x1_0000_0000

  // ----- what the code computes, for messages of any length

  // The 32-bit bit count `(tot_len + len) << 3` for a message of n bytes.
  function BitCount(n: nat): nat { 8 * n % UINT }

  // The bytes that final appends: only the last four bytes of the length field are written.
  function CodePadding<W(!new)>(kn: Kernel<W>, n: nat): (p: seq<Byte>)
    ensures |p| == |Padding(kn, n)|
  {
    [0x80] + Zeros(PadZeros(kn, n) + kn.LengthField() - 4) + BigEndian(BitCount(n), 4)
  }

  // The digest of m as the code computes it.
  function CodeHash<W(!new)>(kn: Kernel<W>, h0: Vars<W>, words: nat, m: seq<Byte>): (s: seq<Byte>)
    requires kn.Valid() && words <= 8
    ensures |s| == words * kn.WordBytes()
  {
    Output(kn, FromVars(Fold(kn, h0, CodePadded(kn, m))), words)
  }

  function CodePadded<W(!new)>(kn: Kernel<W>, m: seq<Byte>): (s: seq<Byte>)
    ensures kn.Rem(|s|) == 0
  {
    PaddingFills(kn, |m|);
    m + CodePadding(kn, |m|)
  }

  // ----- big-endian numbers

  function Power256(n: nat): (p: nat)
    ensures p > 0
  {
    if n == 0 then 1 else 256 * Power256(n - 1)
  }

  // The number that big-endian bytes stand for.
  function Value(s: seq<Byte>): nat {
    if s == [] then 0 else 256 * Value(s[..|s| - 1]) + s[|s| - 1]
  }

  lemma {:induction false} ValueOfBigEndian(x: nat, n: nat)
    requires x < Power256(n)
    ensures Value(BigEndian(x, n)) == x
  {
    if n > 0 {
      var s := BigEndian(x, n);
      assert s[..n - 1] == BigEndian(x / 256, n - 1);
      ValueOfBigEndian(x / 256, n - 1);
    }
  }

  // Leading zero bytes do not change a small number.
  lemma {:induction false} BigEndianSmall(x: nat, z: nat, n: nat)
    requires x < Power256(n)
    ensures BigEndian(x, z + n) == Zeros(z) + BigEndian(x, n)
  {
    if n > 0 {
      BigEndianSmall(x / 256, z, n - 1);
    } else if z > 0 {
      BigEndianSmall(x, z - 1, n);
      assert BigEndian(0, z) == Zeros(z - 1) + [0];
    }
  }

  lemma Sizes()
    ensures Power256(4) == UINT
    ensures Power256(8) == UINT * UINT
    ensures Power256(16) == UINT * UINT * UINT * UINT
  {
    assert Power256(3) == 0x100_0000;
    assert Power256(6) == 0x1_0000_0000_0000;
    assert Power256(12) == 0x1_0000_0000_0000 * 0x1_0000_0000_0000;
    assert Power256(15) == 0x100_0000 * Power256(12);
  }

  // Both paddings are the same front followed by a big-endian number that fills the length field.
  lemma PaddingForms<W(!new)>(kn: Kernel<W>, n: nat)
    ensures CodePadding(kn, n) == [0x80] + Zeros(PadZeros(kn, n)) + BigEndian(BitCount(n), kn.LengthField())
  {
    var z, l := PadZeros(kn, n), kn.LengthField();
    Sizes();
    BigEndianSmall(BitCount(n), l - 4, 4);
    assert Zeros(z + l - 4) == Zeros(z) + Zeros(l - 4);
  }

  lemma SameTail(front: seq<Byte>, a: seq<Byte>, b: seq<Byte>)
    ensures front + a == front + b <==> a == b
  {
    assert (front + a)[|front|..] == a && (front + b)[|front|..] == b;
  }

  lemma BigEndianSame(x: nat, y: nat, l: nat)
    requires x < Power256(l) && y < Power256(l)
    ensures BigEndian(x, l) == BigEndian(y, l) <==> x == y
  {
    ValueOfBigEndian(x, l);
    ValueOfBigEndian(y, l);
  }

  lemma BitCountExact(n: nat)
    ensures BitCount(n) <= 8 * n && (BitCount(n) == 8 * n <==> n < 0x2000_0000)
  {
  }

  /** The code pads as the standard does exactly for messages below 2^29 bytes.  (The standard
      itself only covers bit counts that fit the length field.) */
  lemma PaddingExact<W(!new)>(kn: Kernel<W>, n: nat)
    requires 8 * n < Power256(kn.LengthField())
    ensures CodePadding(kn, n) == Padding(kn, n) <==> n < 0x2000_0000
  {
    hide BigEndian, CodePadding, BitCount, PadZeros, Power256;
    PaddingForms(kn, n);
    BitCountExact(n);
    var l := kn.LengthField();
    SameTail([0x80] + Zeros(PadZeros(kn, n)), BigEndian(BitCount(n), l), BigEndian(8 * n, l));
    BigEndianSame(BitCount(n), 8 * n, l);
  }

  /** Below that bound the code's digest is the digest of the standard. */
  lemma CodeHashIsHash<W(!new)>(kn: Kernel<W>, h0: Vars<W>, words: nat, m: seq<Byte>)
    requires kn.Valid() && words <= 8 && |m| < 0x2000_0000
    ensures CodeHash(kn, h0, words, m) == Hash(kn, h0, words, m)
  {
    Sizes();
    PaddingExact(kn, |m|);
  }

  // ----- the two forms of the round loop

  // Where the rotating-argument form keeps role i (0 for a, 7 for h) after j rounds.
  function Slot(i: nat, j: nat): (s: nat)
    requires i < 8
    ensures s < 8
  {
    if i >= j % 8 then i - j % 8 else i + 8 - j % 8
  }

  // The working variables that wv holds after j rounds of the rotating-argument form.
  function Roles<W>(wv: seq<W>, j: nat): Vars<W>
    requires |wv| == 8
  {
    Picked(wv, Slot(0, j), Slot(1, j), Slot(2, j), Slot(3, j), Slot(4, j), Slot(5, j), Slot(6, j), Slot(7, j))
  }

  function Picked<W>(wv: seq<W>, a: nat, b: nat, c: nat, d: nat, e: nat, f: nat, g: nat, h: nat): Vars<W>
    requires |wv| == 8 && a < 8 && b < 8 && c < 8 && d < 8 && e < 8 && f < 8 && g < 8 && h < 8
  {
    Vars(wv[a], wv[b], wv[c], wv[d], wv[e], wv[f], wv[g], wv[h])
  }

  // One SHA256_EXP or SHA512_EXP step with explicit argument positions.
  function ExpStep<W(!new)>(kn: Kernel<W>, wv: seq<W>, a: nat, b: nat, c: nat, d: nat, e: nat, f: nat, g: nat, h: nat,
                            kt: W, wt: W): (r: seq<W>)
    requires |wv| == 8 && a < 8 && b < 8 && c < 8 && d < 8 && e < 8 && f < 8 && g < 8 && h < 8
    ensures |r| == 8
  {
    var t1 := kn.add(kn.add(kn.add(kn.add(wv[h], kn.bigE(wv[e])), kn.ch(wv[e], wv[f], wv[g])), kt), wt);
    var t2 := kn.add(kn.bigA(wv[a]), kn.maj(wv[a], wv[b], wv[c]));
    wv[d := kn.add(wv[d], t1)][h := kn.add(t1, t2)]
  }

  lemma SlotsDiffer(j: nat)
    ensures forall i, k :: 0 <= i < k < 8 ==> Slot(i, j) != Slot(k, j)
    ensures Slot(0, j + 1) == Slot(7, j) && Slot(1, j + 1) == Slot(0, j)
    ensures Slot(2, j + 1) == Slot(1, j) && Slot(3, j + 1) == Slot(2, j)
    ensures Slot(4, j + 1) == Slot(3, j) && Slot(5, j + 1) == Slot(4, j)
    ensures Slot(6, j + 1) == Slot(5, j) && Slot(7, j + 1) == Slot(6, j)
  {
  }

  lemma ExpDistinct<W(!new)>(kn: Kernel<W>, wv: seq<W>, a: nat, b: nat, c: nat, d: nat, e: nat, f: nat, g: nat, h: nat,
                             kt: W, wt: W)
    requires |wv| == 8 && a < 8 && b < 8 && c < 8 && d < 8 && e < 8 && f < 8 && g < 8 && h < 8
    requires d != h && d !in {a, b, c, e, f, g} && h !in {a, b, c, e, f, g}
    ensures Round(kn, Picked(wv, a, b, c, d, e, f, g, h), kt, wt)
         == Picked(ExpStep(kn, wv, a, b, c, d, e, f, g, h, kt, wt), h, a, b, c, d, e, f, g)
  {
  }

  // Renaming the arguments does the work of shifting the registers.
  lemma ExpIsRound<W(!new)>(kn: Kernel<W>, wv: seq<W>, j: nat, kt: W, wt: W)
    requires |wv| == 8
    ensures Roles(ExpStep(kn, wv, Slot(0, j), Slot(1, j), Slot(2, j), Slot(3, j),
                          Slot(4, j), Slot(5, j), Slot(6, j), Slot(7, j), kt, wt), j + 1)
         == Round(kn, Roles(wv, j), kt, wt)
  {
    SlotsDiffer(j);
    ExpDistinct(kn, wv, Slot(0, j), Slot(1, j), Slot(2, j), Slot(3, j),
                Slot(4, j), Slot(5, j), Slot(6, j), Slot(7, j), kt, wt);
  }

  // The array of the rotating-argument form after t rounds.
  function Unrolled<W(!new)>(kn: Kernel<W>, wv: seq<W>, w: seq<W>, t: nat): (r: seq<W>)
    requires kn.Valid() && |wv| == 8 && |w| == kn.Rounds() && t <= kn.Rounds()
    ensures |r| == 8
  {
    if t == 0 then wv
    else
      var j := t - 1;
      ExpStep(kn, Unrolled(kn, wv, w, j), Slot(0, j), Slot(1, j), Slot(2, j), Slot(3, j),
              Slot(4, j), Slot(5, j), Slot(6, j), Slot(7, j), kn.k[j], w[j])
  }

  /** After any number of rounds, role i of the shifting form is wv[(i - j) mod 8] of the rotating form. */
  lemma {:induction false} UnrolledIsRolled<W(!new)>(kn: Kernel<W>, wv: seq<W>, w: seq<W>, t: nat)
    requires kn.Valid() && |wv| == 8 && |w| == kn.Rounds() && t <= kn.Rounds()
    ensures Roles(Unrolled(kn, wv, w, t), t) == RoundsFrom(kn, ToVars(wv), w, t)
  {
    if t > 0 {
      UnrolledIsRolled(kn, wv, w, t - 1);
      ExpIsRound(kn, Unrolled(kn, wv, w, t - 1), t - 1, kn.k[t - 1], w[t - 1]);
    }
  }

  // ----- the transform

  // The message schedule of one block (the PACK and SCR steps).
  method Expand<W(0,!new)>(kn: Kernel<W>, block: seq<Byte>) returns (w: array<W>)
    requires kn.Valid() && |block| == kn.BlockSize()
    ensures fresh(w) && w[..] == Schedule(kn, block, kn.Rounds())
  {
    w := new W[kn.Rounds()];
    var j := 0;
    while j < 16
      invariant j <= 16 && w[..j] == Schedule(kn, block, j)
    {
      w[j] := kn.pack(block[j * kn.WordBytes()..(j + 1) * kn.WordBytes()]);
      assert w[..j + 1] == w[..j] + [ScheduleWord(kn, block, w[..j], j)];
      j := j + 1;
    }
    while j < kn.Rounds()
      invariant 16 <= j <= kn.Rounds() && w[..j] == Schedule(kn, block, j)
    {
      w[j] := kn.add(kn.add(kn.add(kn.small1(w[j - 2]), w[j - 7]), kn.small0(w[j - 15])), w[j - 16]);
      assert w[..j + 1] == w[..j] + [ScheduleWord(kn, block, w[..j], j)];
      j := j + 1;
    }
    assert w[..] == w[..j];
  }

  // The round loop as compiled without UNROLL_LOOPS: the eight registers are shifted.
  method RunRolled<W(0,!new)>(kn: Kernel<W>, wv: array<W>, w: seq<W>)
    requires kn.Valid() && wv.Length == 8 && |w| == kn.Rounds()
    modifies wv
    ensures ToVars(wv[..]) == RoundsFrom(kn, old(ToVars(wv[..])), w, kn.Rounds())
  {
    ghost var start := ToVars(wv[..]);
    var j := 0;
    while j < kn.Rounds()
      invariant j <= kn.Rounds()
      invariant ToVars(wv[..]) == RoundsFrom(kn, start, w, j)
    {
      var t1 := kn.add(kn.add(kn.add(kn.add(wv[7], kn.bigE(wv[4])), kn.ch(wv[4], wv[5], wv[6])), kn.k[j]), w[j]);
      var t2 := kn.add(kn.bigA(wv[0]), kn.maj(wv[0], wv[1], wv[2]));
      wv[7] := wv[6];
      wv[6] := wv[5];
      wv[5] := wv[4];
      wv[4] := kn.add(wv[3], t1);
      wv[3] := wv[2];
      wv[2] := wv[1];
      wv[1] := wv[0];
      wv[0] := kn.add(t1, t2);
      j := j + 1;
    }
  }

  // One EXP macro call.
  method Exp<W(0,!new)>(kn: Kernel<W>, wv: array<W>, w: seq<W>, j: nat,
                        a: nat, b: nat, c: nat, d: nat, e: nat, f: nat, g: nat, h: nat, ghost start: seq<W>)
    requires kn.Valid() && wv.Length == 8 == |start| && |w| == kn.Rounds() && j < kn.Rounds()
    requires a == Slot(0, j) && b == Next(a) && c == Next(b) && d == Next(c)
    requires e == Next(d) && f == Next(e) && g == Next(f) && h == Next(g)
    requires wv[..] == Unrolled(kn, start, w, j)
    modifies wv
    ensures wv[..] == Unrolled(kn, start, w, j + 1)
  {
    SlotsFollow(j);
    var t1 := kn.add(kn.add(kn.add(kn.add(wv[h], kn.bigE(wv[e])), kn.ch(wv[e], wv[f], wv[g])), kn.k[j]), w[j]);
    var t2 := kn.add(kn.bigA(wv[a]), kn.maj(wv[a], wv[b], wv[c]));
    wv[d] := kn.add(wv[d], t1);
    wv[h] := kn.add(t1, t2);
    assert wv[..] == ExpStep(kn, old(wv[..]), a, b, c, d, e, f, g, h, kn.k[j], w[j]);
  }

  function Next(s: nat): nat { if s == 7 then 0 else s + 1 }

  lemma SlotsFollow(j: nat)
    ensures Slot(1, j) == Next(Slot(0, j)) && Slot(2, j) == Next(Slot(1, j)) && Slot(3, j) == Next(Slot(2, j))
    ensures Slot(4, j) == Next(Slot(3, j)) && Slot(5, j) == Next(Slot(4, j)) && Slot(6, j) == Next(Slot(5, j))
    ensures Slot(7, j) == Next(Slot(6, j))
  {
  }

  lemma SlotZero(j: nat)
    requires j % 8 == 0
    ensures Slot(0, j) == 0 && Slot(0, j + 1) == 7 && Slot(0, j + 2) == 6 && Slot(0, j + 3) == 5
    ensures Slot(0, j + 4) == 4 && Slot(0, j + 5) == 3 && Slot(0, j + 6) == 2 && Slot(0, j + 7) == 1
  {
  }

  // The round loop as compiled with UNROLL_LOOPS: the registers stay and the arguments rotate.
  method RunUnrolled<W(0,!new)>(kn: Kernel<W>, wv: array<W>, w: seq<W>)
    requires kn.Valid() && wv.Length == 8 && |w| == kn.Rounds()
    modifies wv
    ensures ToVars(wv[..]) == RoundsFrom(kn, old(ToVars(wv[..])), w, kn.Rounds())
  {
    hide Unrolled, RoundsFrom, Slot;
    ghost var start := wv[..];
    NoRounds(kn, start, w);
    var j := 0;
    while j < kn.Rounds()
      invariant j <= kn.Rounds() && j % 8 == 0
      invariant wv[..] == Unrolled(kn, start, w, j)
    {
      SlotZero(j);
      Exp(kn, wv, w, j,     0, 1, 2, 3, 4, 5, 6, 7, start);
      Exp(kn, wv, w, j + 1, 7, 0, 1, 2, 3, 4, 5, 6, start);
      Exp(kn, wv, w, j + 2, 6, 7, 0, 1, 2, 3, 4, 5, start);
      Exp(kn, wv, w, j + 3, 5, 6, 7, 0, 1, 2, 3, 4, start);
      Exp(kn, wv, w, j + 4, 4, 5, 6, 7, 0, 1, 2, 3, start);
      Exp(kn, wv, w, j + 5, 3, 4, 5, 6, 7, 0, 1, 2, start);
      Exp(kn, wv, w, j + 6, 2, 3, 4, 5, 6, 7, 0, 1, start);
      Exp(kn, wv, w, j + 7, 1, 2, 3, 4, 5, 6, 7, 0, start);
      j := j + 8;
    }
    AllRounds(kn, start, w);
  }

  lemma NoRounds<W(!new)>(kn: Kernel<W>, wv: seq<W>, w: seq<W>)
    requires kn.Valid() && |wv| == 8 && |w| == kn.Rounds()
    ensures Unrolled(kn, wv, w, 0) == wv
  {
  }

  lemma AllRounds<W(!new)>(kn: Kernel<W>, wv: seq<W>, w: seq<W>)
    requires kn.Valid() && |wv| == 8 && |w| == kn.Rounds()
    ensures ToVars(Unrolled(kn, wv, w, kn.Rounds())) == RoundsFrom(kn, ToVars(wv), w, kn.Rounds())
  {
    hide Unrolled, RoundsFrom;
    UnrolledIsRolled(kn, wv, w, kn.Rounds());
    SlotsFollow(kn.Rounds());
  }

  lemma FoldNone<W(!new)>(kn: Kernel<W>, h: Vars<W>)
    requires kn.Valid()
    ensures Fold(kn, h, []) == h
  {
  }

  // ----- the streaming invariant

  // Hash value h, pending bytes buf and length totLen stand for message m hashed from h0: the whole
  // blocks of m are folded into h and what is left of m is pending.
  ghost predicate Absorbed<W(!new)>(kn: Kernel<W>, h0: Vars<W>, m: seq<Byte>, h: Vars<W>, buf: seq<Byte>, totLen: nat)
    requires kn.Valid()
  {
    && |buf| < kn.BlockSize() && |buf| <= |m|
    && kn.Rem(|m| - |buf|) == 0
    && totLen == (|m| - |buf|) % UINT
    && m[|m| - |buf|..] == buf
    && h == Fold(kn, h0, m[..|m| - |buf|])
  }

  lemma AbsorbShort<W(!new)>(kn: Kernel<W>, h0: Vars<W>, m: seq<Byte>, h: Vars<W>, buf: seq<Byte>, totLen: nat,
                             message: seq<Byte>)
    requires kn.Valid() && Absorbed(kn, h0, m, h, buf, totLen) && |buf| + |message| < kn.BlockSize()
    ensures Absorbed(kn, h0, m + message, h, buf + message, totLen)
  {
    var front := |m| - |buf|;
    assert (m + message)[..front] == m[..front];
    assert (m + message)[front..] == buf + message;
  }

  lemma AbsorbLong<W(!new)>(kn: Kernel<W>, h0: Vars<W>, m: seq<Byte>, h: Vars<W>, buf: seq<Byte>, totLen: nat,
                            message: seq<Byte>, rem: nat, whole: nat)
    requires kn.Valid() && Absorbed(kn, h0, m, h, buf, totLen)
    requires rem == kn.BlockSize() - |buf| && rem + whole <= |message| < rem + whole + kn.BlockSize()
    requires kn.Rem(whole) == 0
    ensures kn.Rem(|buf + message[..rem]|) == 0
    ensures Absorbed(kn, h0, m + message, Fold(kn, Fold(kn, h, buf + message[..rem]), message[rem..rem + whole]),
                     message[rem + whole..], (totLen + whole + kn.BlockSize()) % UINT)
  {
    hide Fold;
    var front, blk, mid := m[..|m| - |buf|], buf + message[..rem], message[rem..rem + whole];
    FoldConcat(kn, h0, front, blk);
    FoldConcat(kn, h0, front + blk, mid);
    var done := |front| + |blk| + |mid|;
    CutMessage(m, message, |front|, rem, whole);
    ModUint(|front| / UINT, |front| % UINT + whole + kn.BlockSize());
  }

  lemma CutMessage(m: seq<Byte>, message: seq<Byte>, n: nat, rem: nat, whole: nat)
    requires n <= |m| && rem + whole <= |message|
    ensures (m + message)[..|m| + rem + whole] == m[..n] + (m[n..] + message[..rem]) + message[rem..rem + whole]
    ensures (m + message)[|m| + rem + whole..] == message[rem + whole..]
  {
  }

  lemma ModUint(q: nat, r: nat)
    ensures (q * UINT + r) % UINT == r % UINT
  {
  }

  // ----- the context

  /** sha256_ctx (also sha224_ctx) or sha512_ctx (also sha384_ctx). */
  class Context<W(0,!new)> {
    const kn: Kernel<W>
    var totLen: nat
    var len: nat
    const block: array<Byte>
    const h: array<W>
    ghost var start: Vars<W>         // the initial hash value
    ghost var absorbed: seq<Byte>    // the message so far

    ghost predicate Valid()
      reads this, block, h
    {
      && kn.Valid()
      && block.Length == 2 * kn.BlockSize()
      && h.Length == 8
      && (block as object) != h
      && totLen < UINT
      && len < kn.BlockSize()
    }

    // The context stands for the message absorbed since the last Init, hashed from that initial value.
    ghost predicate Live()
      reads this, block, h
    {
      Valid() && Absorbed(kn, start, absorbed, ToVars(h[..]), block[..len], totLen)
    }

    constructor (kernel: Kernel<W>)
      requires kernel.Valid()
      ensures Valid() && fresh(block) && fresh(h) && kn == kernel
    {
      kn := kernel;
      totLen, len := 0, 0;
      block := new Byte[2 * kernel.BlockSize()];
      h := new W[8];
    }

    // sha256_init, sha224_init, sha384_init and sha512_init: they differ in the table h0.
    method Init(h0: seq<W>)
      requires Valid() && |h0| == 8
      modifies this, h
      ensures Live() && start == ToVars(h0) && absorbed == []
    {
      var i := 0;
      while i < 8
        invariant i <= 8 && h[..i] == h0[..i]
      {
        h[i] := h0[i];
        i := i + 1;
      }
      len := 0;
      totLen := 0;
      start, absorbed := ToVars(h0), [];
    }

    // One pass of the block loop of sha256_transf or sha512_transf.
    method TransfBlock(subBlock: seq<Byte>, unroll: bool)
      requires Valid() && |subBlock| == kn.BlockSize()
      modifies h
      ensures ToVars(h[..]) == Compress(kn, old(ToVars(h[..])), subBlock)
    {
      hide Schedule, RoundsFrom, AddVars, Round;
      var wv := Rounds(subBlock, unroll);
      AddBack(wv);
    }

    method Rounds(subBlock: seq<Byte>, unroll: bool) returns (wv: array<W>)
      requires Valid() && |subBlock| == kn.BlockSize()
      ensures fresh(wv) && wv.Length == 8
      ensures ToVars(wv[..]) == RoundsFrom(kn, ToVars(h[..]), Schedule(kn, subBlock, kn.Rounds()), kn.Rounds())
    {
      hide Schedule, RoundsFrom, Round;
      var w := Expand(kn, subBlock);
      ghost var ws := w[..];
      wv := new W[8];
      var j := 0;
      while j < 8
        invariant j <= 8 && wv[..j] == h[..j]
        modifies wv
      {
        wv[j] := h[j];
        j := j + 1;
      }
      assert wv[..] == h[..] && w[..] == ws;
      if unroll {
        RunUnrolled(kn, wv, w[..]);
      } else {
        RunRolled(kn, wv, w[..]);
      }
    }

    method AddBack(wv: array<W>)
      requires Valid() && wv.Length == 8 && wv != h
      modifies h
      ensures ToVars(h[..]) == AddVars(kn, old(ToVars(h[..])), ToVars(wv[..]))
    {
      var j := 0;
      while j < 8
        invariant j <= 8
        invariant forall i :: 0 <= i < j ==> h[i] == kn.add(old(h[i]), wv[i])
        invariant forall i :: j <= i < 8 ==> h[i] == old(h[i])
      {
        h[j] := kn.add(h[j], wv[j]);
        j := j + 1;
      }
    }

    // sha256_transf or sha512_transf over the whole blocks of message.
    method Transf(message: seq<Byte>, unroll: bool)
      requires Valid() && kn.Rem(|message|) == 0
      modifies h
      ensures ToVars(h[..]) == Fold(kn, old(ToVars(h[..])), message)
    {
      hide Compress, Fold;
      var n := kn.BlockSize();
      var at := 0;
      ghost var start := ToVars(h[..]);
      while at < |message|
        invariant at <= |message| && kn.Rem(|message[at..]|) == 0
        invariant Fold(kn, ToVars(h[..]), message[at..]) == Fold(kn, start, message)
      {
        ghost var rest := message[at..];
        FoldStep(kn, ToVars(h[..]), rest);
        assert rest[..n] == message[at..at + n] && rest[n..] == message[at + n..];
        TransfBlock(message[at..at + n], unroll);
        at := at + n;
      }
      FoldNone(kn, ToVars(h[..]));
    }

    // memcpy into the block buffer.
    method Store(at: nat, bytes: seq<Byte>)
      requires at + |bytes| <= block.Length
      modifies block
      ensures block[..] == old(block[..at]) + bytes + old(block[at + |bytes|..])
    {
      forall i | 0 <= i < |bytes| {
        block[at + i] := bytes[i];
      }
    }

    // sha256_update and its three copies.  The code indexes the message with a signed int.
    method Update(message: seq<Byte>, unroll: bool)
      requires Live() && |message| < 0x8000_0000
      modifies this, block, h
      ensures Live() && start == old(start) && absorbed == old(absorbed) + message
    {
      hide Fold, Absorbed;
      var tmpLen := kn.BlockSize() - len;
      var remLen := if |message| < tmpLen then |message| else tmpLen;
      ghost var buf, hv, tot := block[..len], ToVars(h[..]), totLen;
      ghost var h0, m := start, absorbed;
      absorbed := m + message;
      Store(len, message[..remLen]);
      if len + |message| < kn.BlockSize() {
        AbsorbShort(kn, h0, m, hv, buf, tot, message);
        len := len + |message|;
        assert block[..len] == buf + message;
        return;
      }
      var newLen := |message| - remLen;
      var whole := newLen - kn.Rem(newLen);
      RemWhole(kn, newLen);
      AbsorbLong(kn, h0, m, hv, buf, tot, message, remLen, whole);
      assert block[..kn.BlockSize()] == buf + message[..remLen];
      HashBlocks(message, remLen, whole, unroll);
      len := kn.Rem(newLen);
      totLen := (totLen + whole + kn.BlockSize()) % UINT;
      assert block[..len] == message[remLen + whole..];
    }

    // The full buffer and the whole blocks of the message are hashed, and the bytes that are left over kept.
    method HashBlocks(message: seq<Byte>, rem: nat, whole: nat, unroll: bool)
      requires Valid() && kn.Rem(whole) == 0 && rem + whole <= |message| <= rem + whole + kn.BlockSize()
      modifies block, h
      ensures Valid() && block[..|message| - rem - whole] == message[rem + whole..]
      ensures ToVars(h[..]) == Fold(kn, Fold(kn, old(ToVars(h[..])), old(block[..kn.BlockSize()])),
                                    message[rem..rem + whole])
    {
      hide Fold;
      Transf(block[..kn.BlockSize()], unroll);
      Transf(message[rem..rem + whole], unroll);
      Store(0, message[rem + whole..]);
    }

    // sha256_final and its copies.  `words` is how many words of h the variant outputs.
    method Final(words: nat, unroll: bool) returns (digest: seq<Byte>)
      requires Live() && words <= 8
      modifies this, block, h
      ensures Valid() && digest == CodeHash(kn, old(start), words, old(absorbed))
    {
      hide Fold, Compress, CodePadding, Absorbed;
      var blockNb := 1 + if kn.BlockSize() - 1 - kn.LengthField() < kn.Rem(len) then 1 else 0;
      var lenB := (totLen + len) % UINT * 8 % UINT;
      var pmLen := blockNb * kn.BlockSize();
      FinalForm(kn, start, absorbed, ToVars(h[..]), block[..len], totLen, pmLen);
      Pad(pmLen, lenB);
      Transf(block[..pmLen], unroll);
      digest := Unload(words);
    }

    method Pad(pmLen: nat, lenB: nat)
      requires Valid() && lenB == BitCount(|absorbed|) && pmLen <= block.Length
      requires PadZeros(kn, |absorbed|) + 1 + kn.LengthField() == pmLen - len
      modifies block
      ensures block[..pmLen] == old(block[..len]) + CodePadding(kn, |absorbed|)
    {
      hide Fold, Compress, BigEndian;
      Store(len, Zeros(pmLen - len));
      block[len] := 0x80;
      ghost var z := PadZeros(kn, |absorbed|) + kn.LengthField() - 4;
      assert block[..pmLen - 4] == old(block[..len]) + [0x80] + Zeros(z);
      Store(pmLen - 4, BigEndian(lenB, 4));
    }

    method Unload(words: nat) returns (digest: seq<Byte>)
      requires Valid() && words <= 8
      ensures digest == Output(kn, FromVars(ToVars(h[..])), words)
    {
      digest := [];
      var i := 0;
      while i < words
        invariant i <= words && digest == Output(kn, h[..], i)
      {
        digest := digest + kn.unpack(h[i]);
        i := i + 1;
      }
      assert FromVars(ToVars(h[..])) == h[..];
    }
  }

  // pm_len: one block, or two when the padding does not fit behind the pending bytes.
  function FinalLength<W(!new)>(kn: Kernel<W>, pending: nat): nat {
    if kn.BlockSize() - 1 - kn.LengthField() < kn.Rem(pending) then 2 * kn.BlockSize() else kn.BlockSize()
  }

  // The lengths that final computes are those of the padding.
  lemma FinalLengths<W(!new)>(kn: Kernel<W>, n: nat, pending: nat, totLen: nat, pmLen: nat)
    requires pending < kn.BlockSize() && pending <= n && kn.Rem(n - pending) == 0 && totLen == (n - pending) % UINT
    requires pmLen == FinalLength(kn, pending)
    ensures (totLen + pending) % UINT * 8 % UINT == BitCount(n)
    ensures PadZeros(kn, n) + 1 + kn.LengthField() == pmLen - pending
    ensures kn.Rem(pmLen) == 0
  {
    hide BitCount, PadZeros, FinalLength;
    RemAdd(kn, n - pending, pending);
    FinalZeros(kn, n, pending);
    BitsOfRest(n, pending);
  }

  lemma FinalZeros<W(!new)>(kn: Kernel<W>, n: nat, pending: nat)
    requires pending < kn.BlockSize() && kn.Rem(n) == kn.Rem(pending)
    ensures PadZeros(kn, n) + 1 + kn.LengthField() == FinalLength(kn, pending) - pending
    ensures kn.Rem(FinalLength(kn, pending)) == 0
  {
  }

  lemma BitsOfRest(n: nat, pending: nat)
    requires pending <= n
    ensures ((n - pending) % UINT + pending) % UINT * 8 % UINT == BitCount(n)
  {
    var q, t := (n - pending) / UINT, (n - pending) % UINT;
    ModUint(q, t + pending);
    var x := t + pending;
    ModUint(x / UINT * 8, x % UINT * 8);
    ModUint(q * 8, 8 * x);
  }

  // The buffer that final compresses is the pending bytes and the code's padding.
  lemma FinalForm<W(!new)>(kn: Kernel<W>, h0: Vars<W>, m: seq<Byte>, h: Vars<W>, buf: seq<Byte>, totLen: nat,
                           pmLen: nat)
    requires kn.Valid() && Absorbed(kn, h0, m, h, buf, totLen)
    requires pmLen == FinalLength(kn, |buf|)
    ensures (totLen + |buf|) % UINT * 8 % UINT == BitCount(|m|)
    ensures PadZeros(kn, |m|) + 1 + kn.LengthField() == pmLen - |buf|
    ensures |buf + CodePadding(kn, |m|)| == pmLen && kn.Rem(pmLen) == 0
    ensures Fold(kn, h, buf + CodePadding(kn, |m|)) == Fold(kn, h0, CodePadded(kn, m))
  {
    hide Fold;
    FinalLengths(kn, |m|, |buf|, totLen, pmLen);
    FinalFold(kn, h0, m, |buf|);
  }

  lemma FinalFold<W(!new)>(kn: Kernel<W>, h0: Vars<W>, m: seq<Byte>, pending: nat)
    requires kn.Valid() && pending <= |m| && kn.Rem(|m| - pending) == 0
    ensures kn.Rem(|m[|m| - pending..] + CodePadding(kn, |m|)|) == 0
    ensures Fold(kn, Fold(kn, h0, m[..|m| - pending]), m[|m| - pending..] + CodePadding(kn, |m|))
         == Fold(kn, h0, CodePadded(kn, m))
  {
    hide Fold, CodePadding;
    var front, rest := m[..|m| - pending], m[|m| - pending..] + CodePadding(kn, |m|);
    assert CodePadded(kn, m) == front + rest;
    RemAdd(kn, |front|, |rest|);
    FoldConcat(kn, h0, front, rest);
  }

  lemma RemWhole<W(!new)>(kn: Kernel<W>, n: nat)
    ensures kn.Rem(n) <= n && kn.Rem(n - kn.Rem(n)) == 0
  {
    if kn.wide {
      Mod128(n / 128, 0);
    } else {
      Mod64(n / 64, 0);
    }
  }
}
