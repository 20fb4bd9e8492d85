/** The keyed hash of cocarrier/hmac_sha2.c. */
module Hmac {
  import opened Basics
  import opened ByteBits
  import opened Sha2Spec
  import opened Sha2
  import opened Sha2Words
  import opened Sha2Digests

  // ----- RFC 2104, section 2

  function XorByte(x: Byte, c: bv8): Byte { ((x as bv8) ^ c) as int }

  function XorAll(s: seq<Byte>, c: bv8): (r: seq<Byte>)
    ensures |r| == |s|
  {
    seq(|s|, i requires 0 <= i < |s| => XorByte(s[i], c))
  }

  // The key brought to block length: hashed if it is too long, then padded with zeros.
  function BlockKey(hash: seq<Byte> -> seq<Byte>, blockSize: nat, key: seq<Byte>): (k: seq<Byte>)
    requires |hash(key)| <= blockSize
    ensures |k| == blockSize
  {
    var used := if |key| > blockSize then hash(key) else key;
    used + Zeros(blockSize - |used|)
  }

  function Rfc2104(hash: seq<Byte> -> seq<Byte>, blockSize: nat, key: seq<Byte>, m: seq<Byte>): seq<Byte>
    requires |hash(key)| <= blockSize
  {
    var k := BlockKey(hash, blockSize, key);
    hash(XorAll(k, 0x5c) + hash(XorAll(k, 0x36) + m))
  }

  /** Each bit of the result is set where exactly one of the two bytes has it. */
  lemma XorByteBits(x: Byte, c: bv8, i: nat)
    ensures BitOf(XorByte(x, c), i) == (BitOf(x, i) + BitOf(c as int, i)) % 2
  {
    hide BitOf;
    ByteToBits(x);
    XorBits(x as bv8, c, i);
  }

  lemma ZeroXor()
    ensures XorByte(0, 0x36) == 0x36 && XorByte(0, 0x5c) == 0x5c
  {
  }

  // ----- the contexts

  // The digest that the code computes, as a function of the message alone.
  function Digest<W(!new)>(kn: Kernel<W>, h0: seq<W>, words: nat): seq<Byte> -> seq<Byte>
    requires kn.Valid() && |h0| == 8 && words <= 8
  {
    m => CodeHash(kn, ToVars(h0), words, m)
  }

  ghost function Parts<W(0,!new)>(c: Context<W>): set<object> { {c, c.block, c.h} }

  ghost predicate Apart<W(0,!new)>(a: Context<W>, b: Context<W>) {
    a != b && a.block != b.block && a.h != b.h && (a.block as object) != b.h && (a.h as object) != b.block
  }

  // memcpy of one hash context onto another.
  method CopyContext<W(0,!new)>(to: Context<W>, from: Context<W>)
    requires from.Live() && to.Valid() && to.kn == from.kn && Apart(to, from)
    modifies to, to.block, to.h
    ensures to.Live() && to.start == from.start && to.absorbed == from.absorbed
  {
    hide Absorbed;
    ghost var bytes, words := from.block[..from.len], from.h[..];
    assert Absorbed(from.kn, from.start, from.absorbed, ToVars(words), bytes, from.totLen);
    forall i | 0 <= i < to.block.Length {
      to.block[i] := from.block[i];
    }
    forall i | 0 <= i < 8 {
      to.h[i] := from.h[i];
    }
    to.len := from.len;
    to.totLen := from.totLen;
    to.start, to.absorbed := from.start, from.absorbed;
    assert to.block[..to.len] == bytes;
    assert to.h[..] == words;
  }

  // What final outputs, given the block-length key.
  function Mac<W(!new)>(kn: Kernel<W>, h0: seq<W>, words: nat, blockKey: seq<Byte>, m: seq<Byte>): (mac: seq<Byte>)
    requires kn.Valid() && |h0| == 8 && words <= 8
    ensures |mac| == words * kn.WordBytes()
  {
    var hash := Digest(kn, h0, words);
    hash(XorAll(blockKey, 0x5c) + hash(XorAll(blockKey, 0x36) + m))
  }

  lemma Filled(pad: seq<Byte>, k: seq<Byte>, c: bv8)
    requires |pad| == |k| && forall j :: 0 <= j < |pad| ==> pad[j] == XorByte(k[j], c)
    ensures pad == XorAll(k, c)
  {
    hide XorByte;
  }

  /** hmac_sha256_ctx and its three copies. */
  class HmacContext<W(0,!new)> {
    const kn: Kernel<W>
    const h0: seq<W>
    const words: nat
    const inside: Context<W>
    const outside: Context<W>
    const insideReinit: Context<W>
    const outsideReinit: Context<W>
    const blockIpad: array<Byte>
    const blockOpad: array<Byte>
    ghost var blockKey: seq<Byte>     // the key in use, at block length
    ghost var message: seq<Byte>      // the message since the last init or reinit

    ghost function Footprint(): set<object>
    {
      Parts(inside) + Parts(outside) + Parts(insideReinit) + Parts(outsideReinit) + {blockIpad, blockOpad}
    }

    ghost predicate Shape() {
      && kn.Valid() && |h0| == 8 && words <= 8
      && inside.kn == kn && outside.kn == kn && insideReinit.kn == kn && outsideReinit.kn == kn
      && Apart(inside, outside) && Apart(inside, insideReinit) && Apart(inside, outsideReinit)
      && Apart(outside, insideReinit) && Apart(outside, outsideReinit) && Apart(insideReinit, outsideReinit)
      && blockIpad != blockOpad
      && blockIpad !in Parts(inside) + Parts(outside) + Parts(insideReinit) + Parts(outsideReinit)
      && blockOpad !in Parts(inside) + Parts(outside) + Parts(insideReinit) + Parts(outsideReinit)
      && blockIpad.Length == kn.BlockSize() && blockOpad.Length == kn.BlockSize()
    }

    // The saved contexts hold the two pads of the key.
    ghost predicate Keyed()
      reads this, Footprint()
    {
      && Shape()
      && |blockKey| == kn.BlockSize()
      && inside.Valid() && outside.Valid()
      && insideReinit.Live() && insideReinit.start == ToVars(h0) && insideReinit.absorbed == XorAll(blockKey, 0x36)
      && outsideReinit.Live() && outsideReinit.start == ToVars(h0) && outsideReinit.absorbed == XorAll(blockKey, 0x5c)
    }

    // The working contexts hold the pads followed by the message so far.
    ghost predicate Running()
      reads this, Footprint()
    {
      && Keyed()
      && inside.Live() && inside.start == ToVars(h0) && inside.absorbed == XorAll(blockKey, 0x36) + message
      && outside.Live() && outside.start == ToVars(h0) && outside.absorbed == XorAll(blockKey, 0x5c)
    }

    // The caller provides the storage of the struct.
    constructor (initial: seq<W>, outWords: nat, a: Context<W>, b: Context<W>, c: Context<W>, d: Context<W>)
      requires a.Valid() && b.kn == c.kn == d.kn == a.kn && |initial| == 8 && outWords <= 8
      requires Apart(a, b) && Apart(a, c) && Apart(a, d) && Apart(b, c) && Apart(b, d) && Apart(c, d)
      ensures Shape() && fresh(blockIpad) && fresh(blockOpad)
      ensures kn == a.kn && h0 == initial && words == outWords
      ensures inside == a && outside == b && insideReinit == c && outsideReinit == d
    {
      kn, h0, words := a.kn, initial, outWords;
      inside, outside, insideReinit, outsideReinit := a, b, c, d;
      blockIpad := new Byte[a.kn.BlockSize()];
      blockOpad := new Byte[a.kn.BlockSize()];
    }

    // The key of hmac_sha256_init, hashed if it is too long.
    method UsableKey(key: seq<Byte>, unroll: bool) returns (keyUsed: seq<Byte>)
      requires Shape() && |key| < 0x8000_0000 && words * kn.WordBytes() <= kn.BlockSize()
      ensures |keyUsed| <= kn.BlockSize()
      ensures keyUsed + Zeros(kn.BlockSize() - |keyUsed|) == BlockKey(Digest(kn, h0, words), kn.BlockSize(), key)
    {
      hide CodeHash;
      keyUsed := key;
      if |key| > kn.BlockSize() {
        keyUsed := Stream(kn, h0, words, [key], unroll);
        assert [key][..0] == [] && Concat([key]) == key;
      }
    }

    method FillPads(keyUsed: seq<Byte>, ghost k: seq<Byte>)
      requires Shape() && |keyUsed| <= kn.BlockSize() && k == keyUsed + Zeros(kn.BlockSize() - |keyUsed|)
      modifies blockIpad, blockOpad
      ensures blockIpad[..] == XorAll(k, 0x36) && blockOpad[..] == XorAll(k, 0x5c)
    {
      hide XorByte, XorAll;
      var num, n := |keyUsed|, kn.BlockSize();
      forall i | num <= i < n {
        blockIpad[i] := 0x36;
      }
      forall i | num <= i < n {
        blockOpad[i] := 0x5c;
      }
      ZeroXor();
      assert forall j :: num <= j < n ==> k[j] == 0;
      assert forall j :: 0 <= j < num ==> k[j] == keyUsed[j];
      hide Zeros;
      var i := 0;
      while i < num
        invariant i <= num
        invariant forall j :: 0 <= j < i || num <= j < n ==> blockIpad[j] == XorByte(k[j], 0x36)
        invariant forall j :: 0 <= j < i || num <= j < n ==> blockOpad[j] == XorByte(k[j], 0x5c)
      {
        blockIpad[i] := XorByte(keyUsed[i], 0x36);
        blockOpad[i] := XorByte(keyUsed[i], 0x5c);
        i := i + 1;
      }
      Filled(blockIpad[..], k, 0x36);
      Filled(blockOpad[..], k, 0x5c);
    }

    // Start a hash context with one block.
    method Seed(ctx: Context<W>, pad: seq<Byte>, unroll: bool)
      requires |h0| == 8 && ctx.Valid() && |pad| == ctx.kn.BlockSize()
      modifies ctx, ctx.block, ctx.h
      ensures ctx.Live() && ctx.start == ToVars(h0) && ctx.absorbed == pad
    {
      hide Absorbed;
      ctx.Init(h0);
      ctx.Update(pad, unroll);
    }

    method Init(key: seq<Byte>, unroll: bool)
      requires Shape() && |key| < 0x8000_0000 && words * kn.WordBytes() <= kn.BlockSize()
      requires inside.Valid() && outside.Valid() && insideReinit.Valid() && outsideReinit.Valid()
      modifies this, Footprint()
      ensures Running() && message == []
      ensures blockKey == BlockKey(Digest(kn, h0, words), kn.BlockSize(), key)
    {
      hide Absorbed, BlockKey;
      var keyUsed := UsableKey(key, unroll);
      blockKey := keyUsed + Zeros(kn.BlockSize() - |keyUsed|);
      FillPads(keyUsed, blockKey);
      message := [];
      SeedBoth(unroll);
      SaveBoth();
    }

    method SeedBoth(unroll: bool)
      requires Shape() && |blockKey| == kn.BlockSize() && inside.Valid() && outside.Valid()
      requires blockIpad[..] == XorAll(blockKey, 0x36) && blockOpad[..] == XorAll(blockKey, 0x5c)
      modifies inside, inside.block, inside.h, outside, outside.block, outside.h
      ensures inside.Live() && inside.start == ToVars(h0) && inside.absorbed == XorAll(blockKey, 0x36)
      ensures outside.Live() && outside.start == ToVars(h0) && outside.absorbed == XorAll(blockKey, 0x5c)
    {
      hide Absorbed;
      Seed(inside, blockIpad[..], unroll);
      Seed(outside, blockOpad[..], unroll);
    }

    method SaveBoth()
      requires Shape() && |blockKey| == kn.BlockSize() && insideReinit.Valid() && outsideReinit.Valid() && message == []
      requires inside.Live() && inside.start == ToVars(h0) && inside.absorbed == XorAll(blockKey, 0x36)
      requires outside.Live() && outside.start == ToVars(h0) && outside.absorbed == XorAll(blockKey, 0x5c)
      modifies insideReinit, insideReinit.block, insideReinit.h, outsideReinit, outsideReinit.block, outsideReinit.h
      ensures Running()
    {
      hide Absorbed;
      CopyContext(insideReinit, inside);
      CopyContext(outsideReinit, outside);
    }

    method Reinit()
      requires Keyed()
      modifies this, inside, inside.block, inside.h, outside, outside.block, outside.h
      ensures Running() && message == [] && blockKey == old(blockKey)
    {
      hide Absorbed;
      message := [];
      CopyContext(inside, insideReinit);
      assert insideReinit.Live() && outsideReinit.Live() && outside.Valid();
      CopyContext(outside, outsideReinit);
      assert inside.Live() && insideReinit.Live() && outsideReinit.Live();
      assert XorAll(blockKey, 0x36) + [] == XorAll(blockKey, 0x36);
    }

    method Update(piece: seq<Byte>, unroll: bool)
      requires Running() && |piece| < 0x8000_0000
      modifies this, inside, inside.block, inside.h
      ensures Running() && message == old(message) + piece && blockKey == old(blockKey)
    {
      hide Absorbed, XorAll, ToVars;
      inside.Update(piece, unroll);
      assert XorAll(blockKey, 0x36) + message + piece == XorAll(blockKey, 0x36) + (message + piece);
      message := message + piece;
    }

    method Final(macSize: nat, unroll: bool) returns (mac: seq<Byte>)
      requires Running() && macSize <= words * kn.WordBytes()
      modifies inside, inside.block, inside.h, outside, outside.block, outside.h
      ensures Keyed()
      ensures mac == Mac(kn, h0, words, blockKey, message)[..macSize]
    {
      hide Absorbed, CodeHash;
      var digestInside := inside.Final(words, unroll);
      outside.Update(digestInside, unroll);
      var macTemp := outside.Final(words, unroll);
      mac := macTemp[..macSize];
    }
  }

  // ----- whole runs

  // update for each piece, then final.
  method MacPieces<W(0,!new)>(ctx: HmacContext<W>, pieces: seq<seq<Byte>>, macSize: nat, unroll: bool)
    returns (mac: seq<Byte>)
    requires ctx.Running() && ctx.message == [] && Pieces(pieces) && macSize <= ctx.words * ctx.kn.WordBytes()
    modifies ctx, ctx.Footprint()
    ensures ctx.Keyed() && ctx.blockKey == old(ctx.blockKey)
    ensures mac == Mac(ctx.kn, ctx.h0, ctx.words, ctx.blockKey, Concat(pieces))[..macSize]
  {
    hide Absorbed, Mac;
    var i := 0;
    while i < |pieces|
      invariant i <= |pieces| && ctx.Running() && ctx.blockKey == old(ctx.blockKey)
      invariant ctx.message == Concat(pieces[..i])
    {
      assert pieces[..i + 1][..i] == pieces[..i];
      ctx.Update(pieces[i], unroll);
      i := i + 1;
    }
    assert pieces[..i] == pieces;
    mac := ctx.Final(macSize, unroll);
  }

  /** init once, then any number of update/final/reinit cycles: every MAC is that of RFC 2104. */
  method MacEach<W(0,!new)>(ctx: HmacContext<W>, key: seq<Byte>, messages: seq<seq<seq<Byte>>>, macSize: nat,
                               unroll: bool)
    returns (macs: seq<seq<Byte>>)
    requires ctx.Shape() && |key| < 0x8000_0000 && macSize <= ctx.words * ctx.kn.WordBytes() <= ctx.kn.BlockSize()
    requires ctx.inside.Valid() && ctx.outside.Valid() && ctx.insideReinit.Valid() && ctx.outsideReinit.Valid()
    requires forall i :: 0 <= i < |messages| ==> Pieces(messages[i])
    modifies ctx, ctx.Footprint()
    ensures |macs| == |messages|
    ensures forall i :: 0 <= i < |messages| ==>
      macs[i] == Rfc2104(Digest(ctx.kn, ctx.h0, ctx.words), ctx.kn.BlockSize(), key, Concat(messages[i]))[..macSize]
  {
    hide Absorbed, Mac, BlockKey, XorAll;
    ghost var hash := Digest(ctx.kn, ctx.h0, ctx.words);
    ctx.Init(key, unroll);
    macs := [];
    var i := 0;
    while i < |messages|
      invariant i <= |messages| && |macs| == i && ctx.Running() && ctx.message == []
      invariant ctx.blockKey == BlockKey(hash, ctx.kn.BlockSize(), key)
      invariant forall j :: 0 <= j < i ==>
        macs[j] == Mac(ctx.kn, ctx.h0, ctx.words, ctx.blockKey, Concat(messages[j]))[..macSize]
    {
      var mac := MacPieces(ctx, messages[i], macSize, unroll);
      ctx.Reinit();
      macs := macs + [mac];
      i := i + 1;
    }
    forall j | 0 <= j < |messages|
      ensures Mac(ctx.kn, ctx.h0, ctx.words, ctx.blockKey, Concat(messages[j]))
           == Rfc2104(hash, ctx.kn.BlockSize(), key, Concat(messages[j]))
    {
      MacIsRfc2104(ctx.kn, ctx.h0, ctx.words, key, Concat(messages[j]));
    }
  }

  lemma MacIsRfc2104<W(!new)>(kn: Kernel<W>, h0: seq<W>, words: nat, key: seq<Byte>, m: seq<Byte>)
    requires kn.Valid() && |h0| == 8 && words <= 8 && words * kn.WordBytes() <= kn.BlockSize()
    ensures |Digest(kn, h0, words)(key)| <= kn.BlockSize()
    ensures Mac(kn, h0, words, BlockKey(Digest(kn, h0, words), kn.BlockSize(), key), m)
         == Rfc2104(Digest(kn, h0, words), kn.BlockSize(), key, m)
    ensures |Rfc2104(Digest(kn, h0, words), kn.BlockSize(), key, m)| == words * kn.WordBytes()
  {
  }

  // Two hash functions that agree below 2^29 bytes give the same MACs there.
  lemma Rfc2104Agree(f: seq<Byte> -> seq<Byte>, g: seq<Byte> -> seq<Byte>, blockSize: nat, key: seq<Byte>, m: seq<Byte>)
    requires |f(key)| <= blockSize && |g(key)| <= blockSize <= 128
    requires |key| < 0x2000_0000 && blockSize + |m| < 0x2000_0000
    requires forall x :: |x| < 0x2000_0000 ==> f(x) == g(x) && |f(x)| <= 64
    ensures Rfc2104(f, blockSize, key, m) == Rfc2104(g, blockSize, key, m)
  {
    hide XorAll, BlockKey;
    assert BlockKey(f, blockSize, key) == BlockKey(g, blockSize, key) by { BlockKeyAgree(f, g, blockSize, key); }
    var k := BlockKey(f, blockSize, key);
    NestedAgree(f, g, XorAll(k, 0x36) + m, XorAll(k, 0x5c));
  }

  lemma NestedAgree(f: seq<Byte> -> seq<Byte>, g: seq<Byte> -> seq<Byte>, inner: seq<Byte>, pad: seq<Byte>)
    requires |inner| < 0x2000_0000 && |pad| <= 128
    requires forall x :: |x| < 0x2000_0000 ==> f(x) == g(x) && |f(x)| <= 64
    ensures f(pad + f(inner)) == g(pad + g(inner))
  {
  }

  lemma BlockKeyAgree(f: seq<Byte> -> seq<Byte>, g: seq<Byte> -> seq<Byte>, blockSize: nat, key: seq<Byte>)
    requires |f(key)| <= blockSize && f(key) == g(key)
    ensures BlockKey(f, blockSize, key) == BlockKey(g, blockSize, key)
  {
  }

  /** The 32-bit variants are HMAC over the hash of FIPS 180-4. */
  lemma StandardMac32(h0: seq<bv32>, words: nat, key: seq<Byte>, m: seq<Byte>)
    requires |h0| == 8 && words <= 8 && |key| < 0x2000_0000 && 64 + |m| < 0x2000_0000
    ensures var hash := (x: seq<Byte>) => Hash(Fips256(), ToVars(h0), words, x);
            |hash(key)| <= 64 && Rfc2104(Digest(Code256(), h0, words), 64, key, m) == Rfc2104(hash, 64, key, m)
  {
    hide Rfc2104, CodeHash, Hash;
    var hash := (x: seq<Byte>) => Hash(Fips256(), ToVars(h0), words, x);
    var code := Digest(Code256(), h0, words);
    forall x: seq<Byte> | |x| < 0x2000_0000
      ensures code(x) == hash(x) && |code(x)| <= 64
    {
      Standard32(ToVars(h0), words, x);
    }
    Rfc2104Agree(code, hash, 64, key, m);
  }

  /** The 64-bit variants are HMAC over the hash of FIPS 180-4. */
  lemma StandardMac64(h0: seq<bv64>, words: nat, key: seq<Byte>, m: seq<Byte>)
    requires |h0| == 8 && words <= 8 && |key| < 0x2000_0000 && 128 + |m| < 0x2000_0000
    ensures var hash := (x: seq<Byte>) => Hash(Fips512(), ToVars(h0), words, x);
            |hash(key)| <= 128 && Rfc2104(Digest(Code512(), h0, words), 128, key, m) == Rfc2104(hash, 128, key, m)
  {
    hide Rfc2104, CodeHash, Hash;
    var hash := (x: seq<Byte>) => Hash(Fips512(), ToVars(h0), words, x);
    var code := Digest(Code512(), h0, words);
    forall x: seq<Byte> | |x| < 0x2000_0000
      ensures code(x) == hash(x) && |code(x)| <= 64
    {
      Standard64(ToVars(h0), words, x);
    }
    Rfc2104Agree(code, hash, 128, key, m);
  }
}
