/** The four digests of cocarrier/sha2.c: the streaming context with each variant's table, initial
    value and output length, against FIPS 180-4. */
module Sha2Digests {
  import opened Basics
  import opened Sha2Spec
  import opened Sha2
  import opened Sha2Words

  function Concat(pieces: seq<seq<Byte>>): seq<Byte> {
    if pieces == [] then [] else Concat(pieces[..|pieces| - 1]) + pieces[|pieces| - 1]
  }

  // A message cut into the arguments of update calls, each short enough for one call.
  ghost predicate Pieces(pieces: seq<seq<Byte>>) {
    forall i :: 0 <= i < |pieces| ==> |pieces[i]| < 0x8000_0000
  }

  /** init, any number of updates, final: the digest depends only on the concatenated message. */
  method Stream<W(0,!new)>(kn: Kernel<W>, h0: seq<W>, words: nat, pieces: seq<seq<Byte>>, unroll: bool)
    returns (digest: seq<Byte>)
    requires kn.Valid() && |h0| == 8 && words <= 8 && Pieces(pieces)
    ensures digest == CodeHash(kn, ToVars(h0), words, Concat(pieces))
  {
    hide Absorbed, CodeHash;
    var ctx := new Context<W>(kn);
    ctx.Init(h0);
    var i := 0;
    while i < |pieces|
      invariant i <= |pieces| && ctx.Live() && fresh(ctx) && fresh(ctx.block) && fresh(ctx.h)
      invariant ctx.kn == kn && ctx.start == ToVars(h0) && ctx.absorbed == Concat(pieces[..i])
    {
      assert pieces[..i + 1][..i] == pieces[..i];
      ctx.Update(pieces[i], unroll);
      i := i + 1;
    }
    assert pieces[..i] == pieces;
    digest := ctx.Final(words, unroll);
  }

  // ----- the standard

  function Initial32(t: nat --> Word32): (h0: seq<bv32>)
    requires forall i :: 0 <= i < 8 ==> t.requires(i)
    ensures |h0| == 8
  {
    Table32(8, t)
  }

  function Initial64(t: nat --> Word64): (h0: seq<bv64>)
    requires forall i :: 0 <= i < 8 ==> t.requires(i)
    ensures |h0| == 8
  {
    Table64(8, t)
  }

  /** For messages below 2^29 bytes the 32-bit code computes the function of FIPS 180-4. */
  lemma Standard32(h0: Vars<bv32>, words: nat, m: seq<Byte>)
    requires words <= 8 && |m| < 0x2000_0000
    ensures CodeHash(Code256(), h0, words, m) == Hash(Fips256(), h0, words, m)
  {
    hide CodeHash, Hash, Code256, Fips256, Agree;
    CodeHashIsHash(Code256(), h0, words, m);
    MacrosAgree256();
    AgreeHash(Code256(), Fips256(), h0, words, m);
  }

  /** For messages below 2^29 bytes the 64-bit code computes the function of FIPS 180-4. */
  lemma Standard64(h0: Vars<bv64>, words: nat, m: seq<Byte>)
    requires words <= 8 && |m| < 0x2000_0000
    ensures CodeHash(Code512(), h0, words, m) == Hash(Fips512(), h0, words, m)
  {
    hide CodeHash, Hash, Code512, Fips512, Agree;
    CodeHashIsHash(Code512(), h0, words, m);
    MacrosAgree512();
    AgreeHash(Code512(), Fips512(), h0, words, m);
  }

  method Sha224(pieces: seq<seq<Byte>>, unroll: bool) returns (digest: seq<Byte>)
    requires Pieces(pieces)
    ensures |digest| == 224 / 8
    ensures digest == CodeHash(Code256(), ToVars(Initial32(H224)), 7, Concat(pieces))
    ensures |Concat(pieces)| < 0x2000_0000 ==> digest == Hash(Fips256(), ToVars(Initial32(H224)), 7, Concat(pieces))
  {
    hide CodeHash, Hash, Initial32, H224;
    digest := Stream(Code256(), Initial32(H224), 7, pieces, unroll);
    if |Concat(pieces)| < 0x2000_0000 {
      Standard32(ToVars(Initial32(H224)), 7, Concat(pieces));
    }
  }

  method Sha256(pieces: seq<seq<Byte>>, unroll: bool) returns (digest: seq<Byte>)
    requires Pieces(pieces)
    ensures |digest| == 256 / 8
    ensures digest == CodeHash(Code256(), ToVars(Initial32(H256)), 8, Concat(pieces))
    ensures |Concat(pieces)| < 0x2000_0000 ==> digest == Hash(Fips256(), ToVars(Initial32(H256)), 8, Concat(pieces))
  {
    hide CodeHash, Hash, Initial32, H256;
    digest := Stream(Code256(), Initial32(H256), 8, pieces, unroll);
    if |Concat(pieces)| < 0x2000_0000 {
      Standard32(ToVars(Initial32(H256)), 8, Concat(pieces));
    }
  }

  method Sha384(pieces: seq<seq<Byte>>, unroll: bool) returns (digest: seq<Byte>)
    requires Pieces(pieces)
    ensures |digest| == 384 / 8
    ensures digest == CodeHash(Code512(), ToVars(Initial64(H384)), 6, Concat(pieces))
    ensures |Concat(pieces)| < 0x2000_0000 ==> digest == Hash(Fips512(), ToVars(Initial64(H384)), 6, Concat(pieces))
  {
    hide CodeHash, Hash, Initial64, H384;
    digest := Stream(Code512(), Initial64(H384), 6, pieces, unroll);
    if |Concat(pieces)| < 0x2000_0000 {
      Standard64(ToVars(Initial64(H384)), 6, Concat(pieces));
    }
  }

  method Sha512(pieces: seq<seq<Byte>>, unroll: bool) returns (digest: seq<Byte>)
    requires Pieces(pieces)
    ensures |digest| == 512 / 8
    ensures digest == CodeHash(Code512(), ToVars(Initial64(H512)), 8, Concat(pieces))
    ensures |Concat(pieces)| < 0x2000_0000 ==> digest == Hash(Fips512(), ToVars(Initial64(H512)), 8, Concat(pieces))
  {
    hide CodeHash, Hash, Initial64, H512;
    digest := Stream(Code512(), Initial64(H512), 8, pieces, unroll);
    if |Concat(pieces)| < 0x2000_0000 {
      Standard64(ToVars(Initial64(H512)), 8, Concat(pieces));
    }
  }
}
