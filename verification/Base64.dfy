/** base_64 of cocarrier/hmac_sha2.c against section 4 of RFC 4648.  Masks and shifts of single bytes
    are written as division and remainder. */
module Base64 {
  import opened Basics
  import opened CText

  const PAD: Byte := 61    // '=' as the byte that fills up the input

  // ----- the alphabet

  function Letter(i: int): char
    requires 0 <= i < 64
  {
    if i < 26 then 'A' + i as char
    else if i < 52 then 'a' + (i - 26) as char
    else if i < 62 then '0' + (i - 52) as char
    else if i == 62 then '+'
    else '/'
  }

  function Sextet(c: char): (r: Option<int>)
    ensures r.Some? ==> 0 <= r.value < 64
  {
    if 'A' <= c <= 'Z' then Some((c - 'A') as int)
    else if 'a' <= c <= 'z' then Some((c - 'a') as int + 26)
    else if '0' <= c <= '9' then Some((c - '0') as int + 52)
    else if c == '+' then Some(62)
    else if c == '/' then Some(63)
    else None
  }

  const ALPHABET := UPPER + LOWER + DIGITS + "+/"

  /** The letters are those of table 1 of the standard, in its order. */
  lemma LetterExact(i: int)
    requires 0 <= i < 64
    ensures |ALPHABET| == 64 && Letter(i) == ALPHABET[i]
  {
    assert |UPPER| == |LOWER| == 26 && |DIGITS| == 10;
    if i < 26 {
      Letters(i);
    } else if i < 52 {
      Letters(i - 26);
    } else if i < 62 {
      Figures(i - 52);
    } else {
      assert ALPHABET[i] == "+/"[i - 62];
    }
  }

  lemma SextetOfLetter(i: int)
    requires 0 <= i < 64
    ensures Sextet(Letter(i)) == Some(i) && Letter(i) != '='
  {
  }

  // ----- what the code writes

  function Quad(a: Byte, b: Byte, c: Byte): string {
    [Letter(a / 4), Letter(a % 4 * 16 + b / 16), Letter(b % 16 * 4 + c / 64), Letter(c % 64)]
  }

  // The loop over whole groups of three bytes.
  function Quads(p: seq<Byte>): (q: string)
    requires |p| % 3 == 0
    ensures |q| == |p| / 3 * 4
  {
    if p == [] then "" else Quad(p[0], p[1], p[2]) + Quads(p[3..])
  }

  function Missing(n: nat): nat { if n % 3 == 0 then 0 else 3 - n % 3 }

  // The input filled up with '=' bytes, encoded, and the letters of the filling overwritten by '='.
  function CodeText(s: seq<Byte>): (t: string)
    ensures |t| == (|s| + Missing(|s|)) / 3 * 4
  {
    var m := Missing(|s|);
    var q := Quads(s + seq(m, _ => PAD));
    q[..|q| - m] + seq(m, _ => '=')
  }

  // ----- RFC 4648, section 4

  // The encoding with zero bits in place of the missing input.
  function Canonical(s: seq<Byte>): string {
    if s == [] then ""
    else if |s| == 1 then [Letter(s[0] / 4), Letter(s[0] % 4 * 16), '=', '=']
    else if |s| == 2 then [Letter(s[0] / 4), Letter(s[0] % 4 * 16 + s[1] / 16), Letter(s[1] % 16 * 4), '=']
    else Quad(s[0], s[1], s[2]) + Canonical(s[3..])
  }

  // The bytes of one group of four letters; pad bits are ignored.
  function DecodeGroup(a: char, b: char, c: char, d: char): Option<seq<Byte>> {
    match (Sextet(a), Sextet(b), Sextet(c), Sextet(d))
    case (Some(w), Some(x), Some(y), Some(z)) => Some([w * 4 + x / 16, x % 16 * 16 + y / 4, y % 4 * 64 + z])
    case (Some(w), Some(x), Some(y), None) => if d == '=' then Some([w * 4 + x / 16, x % 16 * 16 + y / 4]) else None
    case (Some(w), Some(x), None, None) => if c == '=' && d == '=' then Some([w * 4 + x / 16]) else None
    case _ => None
  }

  function Decode(t: string): Option<seq<Byte>> {
    if t == "" then Some([])
    else if |t| < 4 then None
    else
      match (DecodeGroup(t[0], t[1], t[2], t[3]), Decode(t[4..]))
      case (Some(s), Some(rest)) => if |s| == 3 || rest == [] then Some(s + rest) else None
      case _ => None
  }

  // ----- facts

  lemma CodeTextStep(s: seq<Byte>)
    requires |s| >= 3
    ensures CodeText(s) == Quad(s[0], s[1], s[2]) + CodeText(s[3..])
  {
    var m := Missing(|s|);
    assert Missing(|s[3..]|) == m;
    var p := s + seq(m, _ => PAD);
    assert p[3..] == s[3..] + seq(m, _ => PAD);
  }

  // The last one or two bytes: the '=' filler leaves 3 in the pad bits of a single byte.
  lemma CodeTextEnd(s: seq<Byte>)
    requires 0 < |s| < 3
    ensures |s| == 1 ==> CodeText(s) == [Letter(s[0] / 4), Letter(s[0] % 4 * 16 + 3), '=', '=']
    ensures |s| == 2 ==>
              CodeText(s) == [Letter(s[0] / 4), Letter(s[0] % 4 * 16 + s[1] / 16), Letter(s[1] % 16 * 4), '=']
  {
    var p := s + seq(Missing(|s|), _ => PAD);
    assert p[3..] == [];
    assert Quads(p) == Quad(p[0], p[1], p[2]);
  }

  /** The output has four letters for every started group of three bytes. */
  lemma TextLength(s: seq<Byte>)
    ensures |CodeText(s)| == 4 * ((|s| + 2) / 3)
  {
    hide CodeText;
  }

  /** Decoding recovers every input. */
  lemma {:induction false} DecodeCodeText(s: seq<Byte>)
    ensures Decode(CodeText(s)) == Some(s)
  {
    hide CodeText, Quad, DecodeGroup;
    if s == [] {
      CodeTextEmpty();
    } else if |s| < 3 {
      DecodeEnd(s);
    } else {
      DecodeCodeText(s[3..]);
      CodeTextStep(s);
      var q := Quad(s[0], s[1], s[2]);
      QuadDecodes(s[0], s[1], s[2]);
      DecodeStep(q, CodeText(s[3..]), [s[0], s[1], s[2]], s[3..]);
      assert s == [s[0], s[1], s[2]] + s[3..];
    }
  }

  lemma CodeTextEmpty()
    ensures CodeText([]) == "" && Canonical([]) == ""
  {
  }

  lemma QuadDecodes(a: Byte, b: Byte, c: Byte)
    ensures |Quad(a, b, c)| == 4
    ensures DecodeGroup(Quad(a, b, c)[0], Quad(a, b, c)[1], Quad(a, b, c)[2], Quad(a, b, c)[3]) == Some([a, b, c])
  {
    hide Letter, Sextet, DecodeGroup;
    var w, x, y, z := a / 4, a % 4 * 16 + b / 16, b % 16 * 4 + c / 64, c % 64;
    SextetOfLetter(w);
    SextetOfLetter(x);
    SextetOfLetter(y);
    SextetOfLetter(z);
    GroupOf(Letter(w), Letter(x), Letter(y), Letter(z));
    Regroup(a, b, c);
  }

  lemma GroupOf(a: char, b: char, c: char, d: char)
    requires Sextet(a).Some? && Sextet(b).Some? && Sextet(c).Some? && Sextet(d).Some?
    ensures var w, x, y, z := Sextet(a).value, Sextet(b).value, Sextet(c).value, Sextet(d).value;
            DecodeGroup(a, b, c, d) == Some([w * 4 + x / 16, x % 16 * 16 + y / 4, y % 4 * 64 + z])
  {
    hide Sextet;
  }

  lemma Regroup(a: Byte, b: Byte, c: Byte)
    ensures a / 4 * 4 + (a % 4 * 16 + b / 16) / 16 == a
    ensures (a % 4 * 16 + b / 16) % 16 * 16 + (b % 16 * 4 + c / 64) / 4 == b
    ensures (b % 16 * 4 + c / 64) % 4 * 64 + c % 64 == c
  {
  }

  lemma DecodeStep(q: string, rest: string, s: seq<Byte>, r: seq<Byte>)
    requires |q| == 4 && DecodeGroup(q[0], q[1], q[2], q[3]) == Some(s) && Decode(rest) == Some(r)
    requires |s| == 3 || r == []
    ensures Decode(q + rest) == Some(s + r)
  {
    hide DecodeGroup;
    var t := q + rest;
    assert t[4..] == rest;
    assert t[0] == q[0] && t[1] == q[1] && t[2] == q[2] && t[3] == q[3];
  }

  lemma DecodeEnd(s: seq<Byte>)
    requires 0 < |s| < 3
    ensures Decode(CodeText(s)) == Some(s)
  {
    hide CodeText, DecodeGroup;
    CodeTextEnd(s);
    assert s == if |s| == 1 then [s[0]] else [s[0], s[1]];
    if |s| == 1 {
      OneDecodes(s[0]);
    } else {
      TwoDecode(s[0], s[1]);
    }
    DecodeStep(CodeText(s), "", s, []);
    assert CodeText(s) + "" == CodeText(s) && s + [] == s;
  }

  lemma OneDecodes(a: Byte)
    ensures DecodeGroup(Letter(a / 4), Letter(a % 4 * 16 + 3), '=', '=') == Some([a])
  {
    hide Letter;
    SextetOfLetter(a / 4);
    SextetOfLetter(a % 4 * 16 + 3);
  }

  lemma TwoDecode(a: Byte, b: Byte)
    ensures DecodeGroup(Letter(a / 4), Letter(a % 4 * 16 + b / 16), Letter(b % 16 * 4), '=') == Some([a, b])
  {
    hide Letter;
    SextetOfLetter(a / 4);
    SextetOfLetter(a % 4 * 16 + b / 16);
    SextetOfLetter(b % 16 * 4);
  }

  /** The output is the encoding of the standard exactly when the input does not end in a single
      byte; then the code leaves non-zero pad bits. */
  lemma {:induction false} CanonicalExact(s: seq<Byte>)
    ensures CodeText(s) == Canonical(s) <==> |s| % 3 != 1
  {
    hide CodeText, Letter, Sextet;
    if s == [] {
      CodeTextEmpty();
    } else if |s| < 3 {
      CodeTextEnd(s);
      SextetOfLetter(s[0] % 4 * 16 + 3);
      SextetOfLetter(s[0] % 4 * 16);
      if |s| == 1 {
        assert CodeText(s)[1] != Canonical(s)[1];
      }
    } else {
      CanonicalExact(s[3..]);
      CodeTextStep(s);
      var t, c := CodeText(s), Canonical(s);
      assert t[4..] == CodeText(s[3..]) && c[4..] == Canonical(s[3..]);
    }
  }

  // ----- the function

  // One pass of the loop.
  method WriteQuad(q: array<char>, o: nat, a: Byte, b: Byte, c: Byte)
    requires o + 4 <= q.Length
    modifies q
    ensures q[..o + 4] == old(q[..o]) + Quad(a, b, c)
  {
    hide Letter;
    q[o] := Letter(a / 4);
    q[o + 1] := Letter(a % 4 * 16 + b / 16);
    q[o + 2] := Letter(b % 16 * 4 + c / 64);
    q[o + 3] := Letter(c % 64);
  }

  lemma QuadsStep(p: seq<Byte>, i: nat)
    requires i < |p| && i % 3 == 0 && |p| % 3 == 0
    ensures i + 3 <= |p| && Quads(p[i..]) == Quad(p[i], p[i + 1], p[i + 2]) + Quads(p[i + 3..])
  {
    hide Quad;
    assert p[i..][3..] == p[i + 3..];
  }

  lemma NoQuads()
    ensures Quads([]) == ""
  {
  }

  method EncodeGroups(p: array<Byte>) returns (q: array<char>, o: nat)
    requires p.Length % 3 == 0
    ensures fresh(q) && o + 2 == q.Length && q[..o] == Quads(p[..])
  {
    hide Quad, Quads;
    q := new char[p.Length / 3 * 4 + 2];
    o := 0;
    var i := 0;
    ghost var bytes := p[..];
    assert bytes[0..] == bytes;
    NoQuads();
    while i < p.Length
      invariant i <= p.Length && i % 3 == 0 && o * 3 == i * 4 && p[..] == bytes
      invariant q[..o] + Quads(bytes[i..]) == Quads(bytes)
    {
      QuadsStep(bytes, i);
      WriteQuad(q, o, p[i], p[i + 1], p[i + 2]);
      i := i + 3;
      o := o + 4;
    }
  }

  method Encode(src: seq<Byte>) returns (text: Option<string>)
    ensures text == if src == [] then None else Some(CodeText(src))
  {
    hide Quads;
    if src == [] {
      return None;
    }
    var m := Missing(|src|);
    var p := new Byte[|src| + m](i => if 0 <= i < |src| then src[i] else PAD);
    assert p[..] == src + seq(m, _ => PAD);
    var q, o := EncodeGroups(p);
    ghost var full := q[..o];
    if m == 2 {
      q[o - 1] := '=';
      q[o - 2] := '=';
    }
    if m == 1 {
      q[o - 1] := '=';
    }
    assert q[..o] == full[..o - m] + seq(m, _ => '=');
    text := Some(q[..o]);
  }
}
