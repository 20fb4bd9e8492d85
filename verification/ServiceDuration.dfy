/** service_duration of broker/brokerservice.c: a duration such as "2d 3h+10m" in seconds. */
module ServiceDuration {
  import opened Basics
  import opened CText

  // ----- the pieces of a duration

  predicate Lead(c: char) { c == ' ' || c == '+' }

  function SkipLead(s: string): (r: string)
    ensures |r| <= |s| && (r == "" || !Lead(r[0]))
  {
    if s != "" && Lead(s[0]) then SkipLead(s[1..]) else s
  }

  // Seconds in a unit, 0 when the letter is none.
  function Unit(c: char): nat {
    if c == 'd' || c == 'D' then 86400
    else if c == 'h' || c == 'H' then 3600
    else if c == 'm' || c == 'M' then 60
    else if c == 's' || c == 'S' then 1
    else 0
  }

  // Is there a unit behind the digits?
  predicate HasUnit(t: string) { SkipDigits(t) != "" && Unit(SkipDigits(t)[0]) > 0 }

  // The seconds, on unbounded integers; what follows the first piece that is not understood is ignored.
  function Total(s: string): int
    decreases |s|
  {
    var t := SkipLead(s);
    if !HasUnit(t) then 0
    else Atoi(t) * Unit(SkipDigits(t)[0]) + Total(SkipDigits(t)[1..])
  }

  // Every piece is understood.
  predicate Consumed(s: string)
    decreases |s|
  {
    var t := SkipLead(s);
    t == "" || (HasUnit(t) && Consumed(SkipDigits(t)[1..]))
  }

  function Duration(s: string): int { Int32(Total(s)) }

  lemma TotalTurn(s: string, t: string)
    requires t == SkipLead(s)
    ensures !HasUnit(t) ==> Total(s) == 0
    ensures HasUnit(t) ==> Total(s) == Atoi(t) * Unit(SkipDigits(t)[0]) + Total(SkipDigits(t)[1..])
  {
    hide HasUnit, SkipLead, Unit, Atoi;
  }

  // One step of the sum on ints that wrap around.
  lemma Wrapped(result: int, value: int, unit: nat, more: int)
    ensures Int32(Int32(result + Int32(Int32(value) * unit)) + more) == Int32(result + value * unit + more)
  {
    var product := Int32(value) * unit;
    Multiple(value - Int32(value), unit);
    assert value * unit - product == (value - Int32(value)) * unit;
    Int32Same(product, value * unit);
    Int32Same(result + Int32(product), result + value * unit);
    Int32Same(Int32(result + Int32(product)) + more, result + value * unit + more);
  }

  lemma Multiple(x: int, unit: nat)
    requires x % TWO32 == 0
    ensures (x * unit) % TWO32 == 0
  {
    var q := x / TWO32;
    assert x * unit == q * unit * TWO32;
    ModMultiple(q * unit);
  }

  lemma ModMultiple(q: int)
    ensures (q * TWO32) % TWO32 == 0
  {
  }

  // The two scanning loops inside service_duration.
  method PassLead(s: string) returns (r: string)
    ensures r == SkipLead(s)
  {
    r := s;
    while r != "" && Lead(r[0])
      invariant SkipLead(r) == SkipLead(s)
      decreases |r|
    {
      r := r[1..];
    }
  }

  method PassDigits(s: string) returns (r: string)
    ensures r == SkipDigits(s)
  {
    r := s;
    while r != "" && Digit(r[0])
      invariant SkipDigits(r) == SkipDigits(s)
      decreases |r|
    {
      r := r[1..];
    }
  }

  /** service_duration: the seconds in the pieces up to the first one that is not understood, as a
      32-bit int. */
  method Evaluate(text: Option<string>) returns (result: int)
    ensures result == if text.Some? then Duration(text.value) else 0
  {
    hide Total, HasUnit, Int32, Atoi, Unit, SkipLead, SkipDigits;
    result := 0;
    if text.None? { return; }
    var s := text.value;
    while s != ""
      invariant Int32(result + Total(s)) == Duration(text.value)
      invariant -TWO31 <= result < TWO31
      decreases |s|
    {
      var t := PassLead(s);
      TotalTurn(s, t);
      NoUnit();
      if t == "" { break; }
      var value := Int32(Atoi(t));
      var u := PassDigits(t);
      UnitBehind(t, u);
      if u == "" || Unit(u[0]) == 0 { break; }
      Wrapped(result, Atoi(t), Unit(u[0]), Total(u[1..]));
      result := Int32(result + Int32(value * Unit(u[0])));
      s := u[1..];
    }
    assert s == "" ==> Total(s) == 0 by {
      TotalTurn("", SkipLead(""));
      NoUnit();
    }
  }

  lemma NoUnit()
    ensures !HasUnit("")
  {
  }

  lemma UnitBehind(t: string, s: string)
    requires s == SkipDigits(t)
    ensures HasUnit(t) <==> s != "" && Unit(s[0]) > 0
  {
  }

  // ----- durations one after the other

  lemma {:induction false} LeadAppend(s: string, b: string)
    ensures SkipLead(s + b) == if SkipLead(s) == "" then SkipLead(b) else SkipLead(s) + b
    decreases |s|
  {
    if s == "" {
      assert s + b == b;
    } else {
      assert (s + b)[1..] == s[1..] + b;
      if Lead(s[0]) {
        LeadAppend(s[1..], b);
      }
    }
  }

  lemma {:induction false} DigitsAppend(t: string, b: string, n: nat)
    requires SkipDigits(t) != ""
    ensures SkipDigits(t + b) == SkipDigits(t) + b && DigitsFrom(t + b, n) == DigitsFrom(t, n)
    decreases |t|
  {
    assert (t + b)[1..] == t[1..] + b;
    if Digit(t[0]) {
      DigitsAppend(t[1..], b, n * 10 + DigitValue(t[0]));
    }
  }

  // The value in front of a unit does not depend on what follows the unit.
  lemma PieceAppend(t: string, b: string)
    requires HasUnit(t)
    ensures HasUnit(t + b) && Atoi(t + b) == Atoi(t) && SkipDigits(t + b) == SkipDigits(t) + b
    ensures Unit(SkipDigits(t + b)[0]) == Unit(SkipDigits(t)[0]) && SkipDigits(t + b)[1..] == SkipDigits(t)[1..] + b
  {
    DigitsAppend(t, b, 0);
  }

  /** A duration whose pieces are all understood adds to what follows it. */
  lemma {:induction false} TotalAppend(a: string, b: string)
    requires Consumed(a)
    ensures Total(a + b) == Total(a) + Total(b)
    ensures Consumed(a + b) == Consumed(b)
    decreases |a|
  {
    hide Atoi, Unit, HasUnit, SkipDigits, SkipLead;
    var t := SkipLead(a);
    LeadAppend(a, b);
    NoUnit();
    if t != "" {
      PieceAppend(t, b);
      TotalAppend(SkipDigits(t)[1..], b);
    }
  }

  // After a piece that is not understood, nothing counts, not even " 1s".
  lemma {:induction false} TotalStuck(a: string)
    requires !Consumed(a)
    ensures Total(a + " 1s") == Total(a)
    decreases |a|
  {
    hide Atoi, Unit, HasUnit, SkipDigits, SkipLead;
    var t := SkipLead(a);
    LeadAppend(a, " 1s");
    if HasUnit(t) {
      PieceAppend(t, " 1s");
      TotalStuck(SkipDigits(t)[1..]);
    } else {
      StuckPiece(t);
    }
  }

  lemma StuckPiece(t: string)
    requires t != "" && !HasUnit(t)
    ensures !HasUnit(t + " 1s")
  {
    if SkipDigits(t) == "" {
      OnlyDigits(t);
    } else {
      DigitsAppend(t, " 1s", 0);
    }
  }

  lemma {:induction false} OnlyDigits(t: string)
    requires SkipDigits(t) == ""
    ensures SkipDigits(t + " 1s") == " 1s"
    decreases |t|
  {
    if t == "" {
      assert t + " 1s" == " 1s";
    } else {
      assert (t + " 1s")[1..] == t[1..] + " 1s";
      OnlyDigits(t[1..]);
    }
  }

  lemma OneSecond()
    ensures Total(" 1s") == 1
  {
    assert SkipLead(" 1s") == "1s" by { assert " 1s"[1..] == "1s"; }
    assert SkipDigits("1s") == "s" by { assert "1s"[1..] == "s"; }
    assert DigitsFrom("1s", 0) == 1 by { assert DigitsFrom("1s"[1..], 1) == 1; }
    assert "s"[1..] == "";
    assert Total("") == 0;
  }

  /** Putting durations one after the other adds them, as ints, exactly when every piece of the first is
      understood. */
  lemma AdditiveExact(a: string)
    ensures (forall b :: Duration(a + b) == Int32(Duration(a) + Duration(b))) <==> Consumed(a)
  {
    hide Total, Consumed, Int32;
    if Consumed(a) {
      forall b: string
        ensures Duration(a + b) == Int32(Duration(a) + Duration(b))
      {
        TotalAppend(a, b);
        Int32Same(Duration(a) + Duration(b), Total(a) + Total(b));
      }
    } else {
      TotalStuck(a);
      OneSecond();
      NotOneMore(Total(a));
      assert Duration(" 1s") == Int32(1) && Duration(a + " 1s") == Int32(Total(a));
      assert Duration(a + " 1s") != Int32(Duration(a) + Duration(" 1s"));
    }
  }

  lemma NotOneMore(x: int)
    ensures Int32(x) != Int32(Int32(x) + Int32(1))
  {
  }

  // ----- durations that were printed

  /** One printed piece: blanks and signs, a number, a unit letter. */
  datatype Item = Item(lead: string, value: nat, unit: char)

  predicate ValidItem(i: Item) { (forall k | 0 <= k < |i.lead| :: Lead(i.lead[k])) && Unit(i.unit) > 0 }

  function Written(items: seq<Item>): string {
    if items == [] then "" else items[0].lead + Decimal(items[0].value) + [items[0].unit] + Written(items[1..])
  }

  function Sum(items: seq<Item>): nat {
    if items == [] then 0 else items[0].value * Unit(items[0].unit) + Sum(items[1..])
  }

  lemma {:induction false} AllLead(lead: string)
    requires forall k | 0 <= k < |lead| :: Lead(lead[k])
    ensures SkipLead(lead) == ""
    decreases |lead|
  {
    if lead != "" {
      AllLead(lead[1..]);
    }
  }

  lemma ItemRead(i: Item, rest: string)
    requires ValidItem(i)
    ensures var t := Decimal(i.value) + ([i.unit] + rest);
            HasUnit(t) && Atoi(t) == i.value && SkipDigits(t) == [i.unit] + rest && SkipLead(i.lead + t) == t
  {
    var u := [i.unit] + rest;
    var t := Decimal(i.value) + u;
    DecimalRead(i.value, u);
    assert !Digit(u[0]) && SkipDigits(u) == u;
    AllLead(i.lead);
    LeadAppend(i.lead, t);
  }

  /** Written pieces are all understood and add up. */
  lemma {:induction false} WrittenTotal(items: seq<Item>)
    requires forall k | 0 <= k < |items| :: ValidItem(items[k])
    ensures Consumed(Written(items)) && Total(Written(items)) == Sum(items)
    decreases |items|
  {
    hide Atoi, Unit, HasUnit, SkipDigits, SkipLead, Decimal, ValidItem;
    NoUnit();
    if items == [] {
      NothingLead();
    } else {
      var i, rest := items[0], Written(items[1..]);
      var u := [i.unit] + rest;
      var t := Decimal(i.value) + u;
      ItemRead(i, rest);
      assert Written(items) == i.lead + t;
      assert u[1..] == rest && u[0] == i.unit;
      WrittenTotal(items[1..]);
    }
  }

  lemma NothingLead()
    ensures SkipLead("") == ""
  {
  }

  /** Only blanks, plus signs and unit letters may stand before a duration without changing it. */
  lemma LeadExact(c: char)
    ensures (forall s :: Total([c] + s) == Total(s)) <==> c in " +dDhHmMsS"
  {
    hide Total;
    if c in " +dDhHmMsS" {
      forall s: string
        ensures Total([c] + s) == Total(s)
      {
        LeadPassed(c, s);
      }
    } else {
      LeadStops(c);
      OneSecond();
    }
  }

  lemma LeadPassed(c: char, s: string)
    requires c in " +dDhHmMsS"
    ensures Total([c] + s) == Total(s)
  {
    var t := [c] + s;
    assert t[0] == c && t[1..] == s;
    if c == ' ' || c == '+' {
      TotalTurn(t, SkipLead(s));
      TotalTurn(s, SkipLead(s));
    } else {
      assert SkipLead(t) == t && SkipDigits(t) == t;
      LetterIsZero(t);
    }
  }

  lemma LetterIsZero(t: string)
    requires t != "" && t[0] in "dDhHmMsS"
    ensures Atoi(t) == 0 && Unit(t[0]) > 0
  {
    AtoiOther(t);
  }

  lemma LeadStops(c: char)
    requires c !in " +dDhHmMsS"
    ensures Total([c] + " 1s") == 0
  {
    var t := [c] + " 1s";
    assert t[0] == c && t[1..] == " 1s" && SkipLead(t) == t;
    assert !HasUnit(t) by {
      if Digit(c) {
        assert SkipDigits(t) == " 1s";
      }
    }
  }

  /** The units in seconds, in either case. */
  lemma UnitExact(c: char)
    ensures Unit(c) == (if c in "dD" then 24 * 60 * 60 else if c in "hH" then 60 * 60 else if c in "mM" then 60
                        else if c in "sS" then 1 else 0)
  {
  }

  // A number of seconds as days, hours, minutes and seconds.
  function Parts(n: nat): seq<Item> {
    [Item("", n / 86400, 'd'), Item(" ", n % 86400 / 3600, 'h'), Item(" ", n % 3600 / 60, 'm'), Item(" ", n % 60, 's')]
  }

  lemma SumFour(a: Item, b: Item, c: Item, d: Item)
    ensures Sum([a, b, c, d]) ==
            a.value * Unit(a.unit) + b.value * Unit(b.unit) + c.value * Unit(c.unit) + d.value * Unit(d.unit)
  {
    hide Unit;
    assert [a, b, c, d][1..] == [b, c, d] && [b, c, d][1..] == [c, d] && [c, d][1..] == [d] && [d][1..] == [];
    assert Sum([d]) == d.value * Unit(d.unit) && Sum([c, d]) == c.value * Unit(c.unit) + Sum([d]);
  }

  lemma Hours(q: nat, r: nat)
    requires r < 3600
    ensures (q * 3600 + r) % 3600 == r
  {
  }

  lemma Minutes(q: nat, r: nat)
    requires r < 60
    ensures (q * 60 + r) % 60 == r
  {
  }

  lemma Seconds(n: nat)
    ensures n / 86400 * 86400 + n % 86400 / 3600 * 3600 + n % 3600 / 60 * 60 + n % 60 == n
  {
    var days, day := n / 86400, n % 86400;
    Hours(days * 24 + day / 3600, day % 3600);
    assert n % 3600 == day % 3600;
    var hours, hour := n / 3600, n % 3600;
    Minutes(hours * 60 + hour / 60, hour % 60);
  }

  /** Reading back a printed number of seconds gives the number, for every non-negative int. */
  lemma PrintedRead(n: nat)
    requires n < TWO31
    ensures Duration(Written(Parts(n))) == n
  {
    hide Total, Written, Sum;
    var p := Parts(n);
    WrittenTotal(p);
    SumFour(p[0], p[1], p[2], p[3]);
    Seconds(n);
    assert p == [p[0], p[1], p[2], p[3]];
  }
}
