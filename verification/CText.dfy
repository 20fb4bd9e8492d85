/** The few C library and helper functions on text that several components rely on. */
module CText {

  // rest_valid_string
  predicate ValidString(s: string) { s != "" && s != "(null)" && s != "(none)" }

  predicate Digit(c: char) { '0' <= c <= '9' }

  function DigitValue(c: char): (v: nat)
    requires Digit(c)
    ensures v < 10
  {
    (c as int) - ('0' as int)
  }

  // The number its leading digits spell, after the number n.
  function DigitsFrom(s: string, n: nat): nat {
    if s == "" || !Digit(s[0]) then n else DigitsFrom(s[1..], n * 10 + DigitValue(s[0]))
  }

  predicate Space(c: char) { c == ' ' || '\t' <= c <= '\r' }

  // atoi, before the result is cut to an int
  function Atoi(s: string): int {
    if s == "" then 0
    else if Space(s[0]) then Atoi(s[1..])
    else if s[0] == '-' then 0 - DigitsFrom(s[1..], 0)
    else if s[0] == '+' then DigitsFrom(s[1..], 0)
    else DigitsFrom(s, 0)
  }

  // What stands behind the leading digits.
  function SkipDigits(s: string): (r: string)
    ensures |r| <= |s| && (r == "" || !Digit(r[0]))
  {
    if s != "" && Digit(s[0]) then SkipDigits(s[1..]) else s
  }

  // ----- numbers that were printed

  function Decimal(n: nat): (s: string)
    ensures s != ""
  {
    if n < 10 then [(n + '0' as int) as char] else Decimal(n / 10) + [(n % 10 + '0' as int) as char]
  }

  lemma {:induction false} DecimalRead(n: nat, rest: string)
    ensures Digit((Decimal(n) + rest)[0])
    ensures SkipDigits(Decimal(n) + rest) == SkipDigits(rest) && DigitsFrom(Decimal(n) + rest, 0) == DigitsFrom(rest, n)
    decreases n
  {
    var last := [(n % 10 + '0' as int) as char];
    assert (last + rest)[1..] == rest;
    if n >= 10 {
      assert Decimal(n) + rest == Decimal(n / 10) + (last + rest);
      DecimalRead(n / 10, last + rest);
    }
  }

  const SPACES := " \t\n\U{000B}\U{000C}\r"

  lemma {:induction false} SpacesPassed(lead: string, s: string)
    requires forall i | 0 <= i < |lead| :: lead[i] in SPACES
    ensures Atoi(lead + s) == Atoi(s)
    decreases |lead|
  {
    if lead == "" {
      assert lead + s == s;
    } else {
      assert lead[0] in SPACES && (lead + s)[1..] == lead[1..] + s;
      SpacesPassed(lead[1..], s);
    }
  }

  /** atoi reads back every printed number, behind spaces and a sign, up to the first character that is no
      digit. */
  lemma AtoiPrinted(lead: string, sign: string, n: nat, rest: string)
    requires forall i | 0 <= i < |lead| :: lead[i] in SPACES
    requires sign == "" || sign == "+" || sign == "-"
    requires rest == "" || rest[0] !in DIGITS
    ensures Atoi(lead + (sign + (Decimal(n) + rest))) == if sign == "-" then 0 - n else n
  {
    hide Decimal, Atoi, DigitsFrom;
    var t := Decimal(n) + rest;
    SpacesPassed(lead, sign + t);
    DecimalRead(n, rest);
    DigitsEnd(rest, n);
    Signed(sign, t);
  }

  lemma Signed(sign: string, t: string)
    requires sign == "" || sign == "+" || sign == "-"
    requires t != "" && Digit(t[0])
    ensures Atoi(sign + t) == if sign == "-" then 0 - DigitsFrom(t, 0) else DigitsFrom(t, 0)
  {
    hide DigitsFrom;
    if sign == "" {
      assert sign + t == t;
    } else {
      assert (sign + t)[1..] == t;
    }
  }

  lemma DigitsEnd(rest: string, n: nat)
    requires rest == "" || rest[0] !in DIGITS
    ensures DigitsFrom(rest, n) == n
  {
  }

  /** What begins with anything else is 0. */
  lemma AtoiOther(s: string)
    requires s != "" && s[0] !in SPACES && s[0] !in "+-" + DIGITS
    ensures Atoi(s) == 0
  {
    DigitsEnd(s, 0);
  }

  // ----- ints

  const TWO31: int := 0x8000_0000
  const TWO32: int := 0x1_0000_0000

  // A 32-bit int that wraps around.
  function Int32(x: int): (r: int)
    ensures -TWO31 <= r < TWO31 && (x - r) % TWO32 == 0
    ensures -TWO31 <= x < TWO31 ==> r == x
  {
    (x + TWO31) % TWO32 - TWO31
  }

  // Numbers apart by whole turns are the same int.
  lemma Int32Same(x: int, y: int)
    requires (y - x) % TWO32 == 0
    ensures Int32(x) == Int32(y)
  {
  }

  function Lower(c: char): char {
    if 'A' <= c <= 'Z' then ((c as int) + 32) as char else c
  }

  const UPPER := "ABCDEFGHIJKLMNOPQRSTUVWXYZ"
  const LOWER := "abcdefghijklmnopqrstuvwxyz"
  const DIGITS := "0123456789"

  lemma Letters(i: nat)
    requires i < 26
    ensures UPPER[i] as int == 'A' as int + i && LOWER[i] as int == 'a' as int + i
  {
  }

  lemma Figures(i: nat)
    requires i < 10
    ensures DIGITS[i] as int == '0' as int + i
  {
  }

  lemma AlphabetExact(c: char)
    ensures c in LOWER <==> 'a' <= c <= 'z'
    ensures c in UPPER <==> 'A' <= c <= 'Z'
    ensures c in DIGITS <==> '0' <= c <= '9'
  {
    InLower(c);
    InUpper(c);
    InDigits(c);
  }

  lemma InLower(c: char)
    ensures c in LOWER <==> 'a' <= c <= 'z'
  {
    if 'a' <= c <= 'z' { Letters(c as int - 'a' as int); }
  }

  lemma InUpper(c: char)
    ensures c in UPPER <==> 'A' <= c <= 'Z'
  {
    if 'A' <= c <= 'Z' { Letters(c as int - 'A' as int); }
  }

  lemma InDigits(c: char)
    ensures c in DIGITS <==> '0' <= c <= '9'
  {
    if '0' <= c <= '9' { Figures(c as int - '0' as int); }
  }

  /** A capital letter becomes its small one, and everything else stays. */
  lemma LowerExact(c: char)
    ensures forall i | 0 <= i < 26 :: Lower(UPPER[i]) == LOWER[i]
    ensures c !in UPPER ==> Lower(c) == c
  {
    forall i | 0 <= i < 26
      ensures Lower(UPPER[i]) == LOWER[i]
    {
      Letters(i);
    }
    if 'A' <= c <= 'Z' {
      Letters(c as int - 'A' as int);
    }
  }

  // strcasecmp finding no difference
  predicate SameIgnoringCase(s: string, t: string) {
    |s| == |t| && forall i :: 0 <= i < |s| ==> Lower(s[i]) == Lower(t[i])
  }

  function Lowered(s: string): string {
    if s == "" then "" else [Lower(s[0])] + Lowered(s[1..])
  }

  /** The strings are the same when all is in small letters. */
  lemma {:induction false} SameExact(s: string, t: string)
    ensures SameIgnoringCase(s, t) <==> Lowered(s) == Lowered(t)
  {
    hide Lower;
    if s != "" && t != "" {
      SameExact(s[1..], t[1..]);
      assert Lowered(s)[1..] == Lowered(s[1..]) && Lowered(t)[1..] == Lowered(t[1..]);
      SameStep(s, t);
    }
  }

  lemma SameStep(s: string, t: string)
    requires s != "" && t != ""
    ensures SameIgnoringCase(s, t) <==> Lower(s[0]) == Lower(t[0]) && SameIgnoringCase(s[1..], t[1..])
  {
    hide Lower;
    assert forall i :: 0 < i < |s| ==> s[i] == s[1..][i - 1];
    assert forall i :: 0 < i < |t| ==> t[i] == t[1..][i - 1];
  }
}
