/** os_parse_metadata of cocarrier/osclient.c, which cuts one key and one value at a time out of a text
    by writing terminators into it, and the loop of os_create_metadata_request around it. */
module Metadata {
  import opened Basics
  import opened CText

  predicate Blank(c: char) { c == ' ' || c == '\r' || c == '\n' || c == '\t' }

  predicate KeyChar(c: char) {
    'a' <= c <= 'z' || 'A' <= c <= 'Z' || '0' <= c <= '9' || c == '-' || c == '_'
  }

  predicate Separator(c: char) { c == ',' || c == ';' || c == '\n' || c == '\r' }

  // ----- what one call reads from a text

  datatype Item = Item(key: string, value: string)
  datatype Cut = Cut(item: Item, rest: string)

  function SkipBlanks(t: string): (r: string)
    ensures |r| <= |t| && (r == "" || !Blank(r[0]))
  {
    if t != "" && Blank(t[0]) then SkipBlanks(t[1..]) else t
  }

  function KeyLength(t: string): (n: nat)
    ensures n <= |t|
  {
    if t != "" && KeyChar(t[0]) then 1 + KeyLength(t[1..]) else 0
  }

  // Behind the first equals sign, if there is one.
  function PastEquals(t: string): (r: Option<string>)
    ensures r.Some? ==> |r.value| < |t|
  {
    if t == "" then None else if t[0] == '=' then Some(t[1..]) else PastEquals(t[1..])
  }

  function SeparatorAt(t: string): (n: nat)
    ensures n <= |t| && (n < |t| ==> Separator(t[n]))
  {
    if t == "" || Separator(t[0]) then 0 else 1 + SeparatorAt(t[1..])
  }

  // The value runs to the first separator behind its leading blanks, which it keeps.
  function ValueLength(v: string): (n: nat)
    ensures n <= |v|
  {
    var w := SkipBlanks(v);
    |v| - |w| + SeparatorAt(w)
  }

  function CutValue(key: string, v: string): (r: Cut)
    ensures |r.rest| <= |v|
  {
    var n := ValueLength(v);
    Cut(Item(key, v[..n]), if n < |v| then v[n + 1..] else "")
  }

  // Without an equals sign right behind the key, something must follow the next one.
  function DropToEquals(u: string): (r: Option<string>)
    ensures r.Some? ==> |r.value| < |u|
  {
    match PastEquals(u)
    case None => None
    case Some(v) => if v == "" then None else Some(v)
  }

  // A key and the text behind its equals sign; whatever else stands between them is dropped.
  function CutKey(text: string): (r: Option<Cut>)
    ensures r.Some? ==> |r.value.rest| < |text|
  {
    var t := SkipBlanks(text);
    if t == "" then None
    else
      var key, u := t[..KeyLength(t)], t[KeyLength(t)..];
      if u == "" then None
      else if u[0] == '=' then Some(Cut(Item(key, ""), u[1..]))
      else
        match DropToEquals(u[1..])
        case None => None
        case Some(v) => Some(Cut(Item(key, ""), v))
  }

  function Parse(text: string): (r: Option<Cut>)
    ensures r.Some? ==> |r.value.rest| < |text|
  {
    match CutKey(text)
    case None => None
    case Some(c) => Some(CutValue(c.item.key, c.rest))
  }

  // What the calling loop reads.
  function All(text: string): seq<Item>
    decreases |text|
  {
    match Parse(text)
    case None => []
    case Some(c) => [c.item] + All(c.rest)
  }

  // ----- the same in memory

  // The C string at p.
  function CString(m: seq<char>, p: nat): string
    requires p <= |m|
    decreases |m| - p
  {
    if p == |m| || m[p] == NUL then "" else [m[p]] + CString(m, p + 1)
  }

  lemma {:induction false} CStringIs(m: seq<char>, p: nat, q: nat)
    requires p <= q < |m| && m[q] == NUL && NUL !in m[p..q]
    ensures CString(m, p) == m[p..q]
    decreases q - p
  {
    if p < q {
      assert m[p..q] == [m[p]] + m[p + 1..q];
      CStringIs(m, p + 1, q);
    }
  }

  // A text that ends at end, where two terminators follow.
  ghost predicate Text(m: seq<char>, p: nat, end: nat) {
    p <= end && |m| == end + 2 && m[end] == NUL && m[end + 1] == NUL && NUL !in m[p..end]
  }

  lemma TextFrom(m: seq<char>, p: nat, q: nat, end: nat)
    requires Text(m, p, end) && p <= q <= end
    ensures Text(m, q, end)
    ensures q < end ==> m[q] != NUL && m[q..end] != "" && m[q..end][0] == m[q] && m[q..end][1..] == m[q + 1..end]
    ensures q == end ==> m[q..end] == ""
  {
    assert m[q..end] == m[p..end][q - p..];
  }

  // A terminator written before a text leaves it as it is.
  lemma TextWritten(m: seq<char>, p: nat, at: nat, end: nat)
    requires Text(m, p, end) && at < p
    ensures Text(m[at := NUL], p, end) && m[at := NUL][p..] == m[p..] && m[at := NUL][p..end] == m[p..end]
  {
  }

  // The scanning loops: each leaves the position of what it looked for.
  method PassBlanks(a: array<char>, p: nat, ghost end: nat) returns (q: nat)
    requires Text(a[..], p, end)
    ensures p <= q <= end && a[q..end] == SkipBlanks(a[p..end])
  {
    q := p;
    TextFrom(a[..], p, p, end);
    while Blank(a[q])
      invariant p <= q <= end && SkipBlanks(a[q..end]) == SkipBlanks(a[p..end])
      decreases end - q
    {
      TextFrom(a[..], p, q, end);
      q := q + 1;
    }
    TextFrom(a[..], p, q, end);
  }

  method PassKey(a: array<char>, p: nat, ghost end: nat) returns (q: nat)
    requires Text(a[..], p, end)
    ensures p <= q <= end && q - p == KeyLength(a[p..end])
  {
    q := p;
    while KeyChar(a[q])
      invariant p <= q <= end && q - p + KeyLength(a[q..end]) == KeyLength(a[p..end])
      decreases end - q
    {
      TextFrom(a[..], p, q, end);
      q := q + 1;
    }
    TextFrom(a[..], p, q, end);
  }

  method PassToSeparator(a: array<char>, p: nat, ghost end: nat) returns (q: nat)
    requires Text(a[..], p, end)
    ensures p <= q <= end && q - p == SeparatorAt(a[p..end])
  {
    q := p;
    while a[q] != NUL && !Separator(a[q])
      invariant p <= q <= end && q - p + SeparatorAt(a[q..end]) == SeparatorAt(a[p..end])
      decreases end - q
    {
      TextFrom(a[..], p, q, end);
      q := q + 1;
    }
    TextFrom(a[..], p, q, end);
  }

  // The loop that drops what stands between a key and its equals sign.
  method PassToEquals(a: array<char>, p: nat, ghost end: nat) returns (q: nat)
    requires Text(a[..], p, end)
    ensures p <= q <= end
    ensures q == end <==> PastEquals(a[p..end]).None?
    ensures q < end ==> a[q] == '=' && PastEquals(a[p..end]) == Some(a[q + 1..end])
  {
    q := p;
    while a[q] != NUL && a[q] != '='
      invariant p <= q <= end && PastEquals(a[q..end]) == PastEquals(a[p..end])
      decreases end - q
    {
      TextFrom(a[..], p, q, end);
      q := q + 1;
    }
    TextFrom(a[..], p, q, end);
  }

  // What CutKey makes of a text whose key stands from k to q.
  lemma KeySplit(m: seq<char>, r: nat, k: nat, q: nat, end: nat)
    requires Text(m, r, end) && r <= k <= q <= end
    requires SkipBlanks(m[r..end]) == m[k..end] && KeyLength(m[k..end]) == q - k
    ensures q == end ==> CutKey(m[r..end]).None?
    ensures q < end && m[q] == '=' ==> CutKey(m[r..end]) == Some(Cut(Item(m[k..q], ""), m[q + 1..end]))
    ensures q < end && m[q] != '=' ==>
              CutKey(m[r..end]) == if DropToEquals(m[q + 1..end]).None? then None
                                   else Some(Cut(Item(m[k..q], ""), DropToEquals(m[q + 1..end]).value))
  {
    hide SkipBlanks, KeyLength, DropToEquals, CutKey;
    TextFrom(m, r, q, end);
    KeySlices(m, k, q, end);
    KeyCut(m[r..end], m[k..q], m[q..end]);
  }

  lemma KeySlices(m: seq<char>, k: nat, q: nat, end: nat)
    requires k <= q <= end <= |m|
    ensures m[k..q] + m[q..end] == m[k..end] && m[k..end][..q - k] == m[k..q]
  {
  }

  lemma KeyCut(text: string, key: string, u: string)
    requires SkipBlanks(text) == key + u && KeyLength(key + u) == |key|
    ensures u == "" ==> CutKey(text).None?
    ensures u != "" && u[0] == '=' ==> CutKey(text) == Some(Cut(Item(key, ""), u[1..]))
    ensures u != "" && u[0] != '=' ==>
              CutKey(text) == if DropToEquals(u[1..]).None? then None
                              else Some(Cut(Item(key, ""), DropToEquals(u[1..]).value))
  {
    hide SkipBlanks, KeyLength, DropToEquals;
    assert (key + u)[..|key|] == key && (key + u)[|key|..] == u;
  }

  // The case of a key that no equals sign follows directly; at end + 1 nothing is left.
  method FindEquals(a: array<char>, p: nat, ghost end: nat) returns (found: bool, v: nat)
    requires p <= end + 1 && a.Length == end + 2 && a[end + 1] == NUL && (p <= end ==> Text(a[..], p, end))
    modifies a
    ensures p <= v <= a.Length && a[..p] == old(a[..p]) && a[v..] == old(a[v..])
    ensures found == (p <= end && DropToEquals(old(a[p..end])).Some?)
    ensures found ==> Text(a[..], v, end) && a[v..end] == DropToEquals(old(a[p..end])).value
  {
    hide PastEquals;
    found, v := false, a.Length;
    if a[p] == NUL { NoEquals(a[..], p, end); return; }
    var e := PassToEquals(a, p, end);
    TextFrom(a[..], p, e, end);
    if a[e] == NUL { return; }
    TextFrom(a[..], p, e + 1, end);
    TextWritten(a[..], e + 1, e, end);
    ghost var m := a[..];
    a[e] := NUL;
    assert a[..] == m[e := NUL];
    if a[e + 1] != NUL { found, v := true, e + 1; }
  }

  lemma NoEquals(m: seq<char>, p: nat, end: nat)
    requires p <= end ==> Text(m, p, end) && m[p] == NUL
    ensures p <= end ==> DropToEquals(m[p..end]).None?
  {
    if p <= end {
      TextFrom(m, p, p, end);
    }
  }

  // The first half of os_parse_metadata: the key.
  method TakeKey(a: array<char>, r: nat, ghost end: nat) returns (found: bool, k: nat, p: nat)
    requires Text(a[..], r, end)
    modifies a
    ensures a[..r] == old(a[..r]) && r <= k && r <= p <= a.Length && a[p..] == old(a[p..])
    ensures found == CutKey(old(a[r..end])).Some?
    ensures found ==> Text(a[..], p, end) && r < p && a[p..end] == CutKey(old(a[r..end])).value.rest
    ensures found ==> Standing(a[..], k, CutKey(old(a[r..end])).value.item.key, p)
  {
    hide CutKey, KeyLength, DropToEquals, SkipBlanks, Standing;
    ghost var m := a[..];
    k := PassBlanks(a, r, end);
    found, p := false, a.Length;
    TextFrom(m, r, k, end);
    var q := PassKey(a, k, end);
    KeySplit(m, r, k, q, end);
    if a[k] == NUL { return; }
    found, p := CloseKey(a, r, q, end);
    if found {
      KeyStands(m, r, a[..], k, q, end, p);
    }
  }

  // The terminator behind the key at q, and the way to what follows the equals sign.
  method CloseKey(a: array<char>, r: nat, q: nat, ghost end: nat) returns (found: bool, p: nat)
    requires Text(a[..], r, end) && r <= q <= end
    modifies a
    ensures q < p <= a.Length && a[..q] == old(a[..q]) && a[q] == NUL && a[p..] == old(a[p..])
    ensures found == (q < end && (old(a[q]) == '=' || DropToEquals(old(a[q + 1..end])).Some?))
    ensures found ==> Text(a[..], p, end)
    ensures found && old(a[q]) == '=' ==> a[p..end] == old(a[q + 1..end])
    ensures found && old(a[q]) != '=' ==> a[p..end] == DropToEquals(old(a[q + 1..end])).value
  {
    hide DropToEquals, Text;
    ghost var m := a[..];
    TextFrom(m, r, q, end);
    var c := a[q];
    a[q] := NUL;
    assert a[..] == m[q := NUL];
    if q < end {
      TextFrom(m, r, q + 1, end);
      TextWritten(m, q + 1, q, end);
    }
    found, p := true, q + 1;
    if c != '=' {
      found, p := FindEquals(a, p, end);
    }
  }

  lemma KeyStands(m: seq<char>, r: nat, w: seq<char>, k: nat, q: nat, end: nat, p: nat)
    requires Text(m, r, end) && r <= k <= q <= end && |w| == |m| && w[..q] == m[..q] && w[q] == NUL && q < p <= |w|
    ensures Standing(w, k, m[k..q], p)
  {
    assert w[k..q] == m[k..q] by { assert w[..q][k..] == w[k..q] && m[..q][k..] == m[k..q]; }
    TextFrom(m, r, k, end);
    KeySlices(m, k, q, end);
  }

  // The string stands at k, before p.
  ghost predicate Standing(m: seq<char>, k: nat, text: string, p: nat) {
    k + |text| < p <= |m| && m[k..k + |text|] == text && m[k + |text|] == NUL && NUL !in text
  }

  lemma StandingRead(m: seq<char>, k: nat, text: string, p: nat)
    requires Standing(m, k, text, p)
    ensures CString(m, k) == text
  {
    CStringIs(m, k, k + |text|);
  }

  lemma StandingKept(m: seq<char>, w: seq<char>, k: nat, text: string, p: nat)
    requires Standing(m, k, text, p) && |w| == |m| && w[..p] == m[..p]
    ensures CString(w, k) == text && k < p
  {
    hide CString;
    assert w[k..k + |text|] == m[k..k + |text|] by {
      assert w[..p][k..k + |text|] == w[k..k + |text|] && m[..p][k..k + |text|] == m[k..k + |text|];
    }
    assert w[k + |text|] == w[..p][k + |text|] == m[k + |text|];
    StandingRead(w, k, text, p);
  }

  // The second half of os_parse_metadata: the value.
  method TakeValue(a: array<char>, p: nat, ghost end: nat) returns (next: nat)
    requires Text(a[..], p, end)
    modifies a
    ensures p <= next <= end && a[..p] == old(a[..p]) && a[next..] == old(a[next..]) && Text(a[..], next, end)
    ensures var c := CutValue("", old(a[p..end])); CString(a[..], p) == c.item.value && a[next..end] == c.rest
  {
    hide SkipBlanks, SeparatorAt;
    ghost var m := a[..];
    var q := PassBlanks(a, p, end);
    TextFrom(m, p, q, end);
    if a[q] != NUL {
      q := PassToSeparator(a, q, end);
    }
    TextFrom(m, p, q, end);
    assert q - p == ValueLength(m[p..end]);
    assert m[p..end][..q - p] == m[p..q];
    next := q;
    if a[q] != NUL {
      TextFrom(m, q, q + 1, end);
      TextWritten(m, q + 1, q, end);
      a[q] := NUL;
      assert a[..] == m[q := NUL];
      next := q + 1;
      assert m[p..end][q - p + 1..] == m[next..end];
    }
    assert a[p..q] == m[p..q];
    CStringIs(a[..], p, q);
  }

  /** os_parse_metadata, on a text from r on that two terminators follow.  When there is a further item,
      its key and value stand in memory as C strings and the text behind it is as it was. */
  method ParseOne(a: array<char>, r: nat) returns (found: bool, kptr: nat, dptr: nat, next: nat)
    requires a.Length >= 2 && Text(a[..], r, a.Length - 2)
    modifies a
    ensures a[..r] == old(a[..r]) && r <= next <= a.Length && a[next..] == old(a[next..])
    ensures found == Parse(old(a[r..a.Length - 2])).Some?
    ensures found ==> r < next && Text(a[..], next, a.Length - 2)
    ensures found ==>
              var c := Parse(old(a[r..a.Length - 2])).value;
              kptr < next && dptr <= next && CString(a[..], kptr) == c.item.key && CString(a[..], dptr) == c.item.value
              && a[next..a.Length - 2] == c.rest
  {
    hide CutKey, ValueLength, CString, Standing;
    ghost var end := a.Length - 2;
    found, kptr, dptr := TakeKey(a, r, end);
    next := dptr;
    if found {
      ghost var m, key := a[..], CutKey(old(a[r..end])).value.item.key;
      next := TakeValue(a, dptr, end);
      StandingKept(m, a[..], kptr, key, dptr);
    }
  }

  /** The loop of os_create_metadata_request, on a copy of the text. */
  method ParseAll(personality: Option<string>) returns (items: seq<Item>)
    requires personality.Some? ==> NUL !in personality.value
    ensures items == if personality.Some? then All(personality.value) else []
  {
    hide Parse, CString;
    items := [];
    if personality.None? { return; }
    var text := personality.value;
    var n := |text|;
    var a := new char[n + 2](i => if 0 <= i < n then text[i] else NUL);
    assert a[..n] == text && a[0..n] == text;
    var sptr, more := 0, true;
    while more
      invariant sptr <= n && a.Length == n + 2 && (more ==> Text(a[..], sptr, n))
      invariant items + (if more then All(a[sptr..n]) else []) == All(text)
      decreases more, n - sptr
    {
      ghost var left := a[sptr..n];
      var found, kptr, dptr, next := ParseOne(a, sptr);
      AllTurn(left);
      if found {
        items := items + [Item(ReadString(a, kptr), ReadString(a, dptr))];
        sptr := next;
      } else {
        more := false;
      }
    }
  }

  function ReadString(a: array<char>, p: nat): string
    requires p <= a.Length
    reads a
  {
    CString(a[..], p)
  }

  lemma AllTurn(text: string)
    ensures All(text) == if Parse(text).None? then [] else [Parse(text).value.item] + All(Parse(text).value.rest)
  {
    hide Parse;
  }

  // ----- which characters are special

  /** Before a key only blanks, line ends and tabs are passed over. */
  lemma BlankExact(c: char)
    ensures (forall t :: Parse([c] + t) == Parse(t)) <==> c in " \r\n\t"
  {
    hide Parse;
    if c in " \r\n\t" {
      forall t: string
        ensures Parse([c] + t) == Parse(t)
      {
        BlankPassed(c, t);
      }
    } else {
      OtherKept(c);
    }
  }

  lemma BlankPassed(c: char, t: string)
    requires c in " \r\n\t"
    ensures Parse([c] + t) == Parse(t)
  {
    assert ([c] + t)[1..] == t;
    assert SkipBlanks([c] + t) == SkipBlanks(t);
  }

  lemma OtherKept(c: char)
    requires c !in " \r\n\t"
    ensures Parse([c] + "k=v") != Parse("k=v")
  {
    hide CutKey, Parse;
    var t := [c] + "k=v";
    assert t[1..] == "k=v";
    KeyKept(t);
    KeyKept("k=v");
    assert SkipBlanks(t) == t;
    FirstKey("k=v");
    assert "k=v"[..1] == "k" && KeyLength("=v") == 0 && "k=v"[1..] == "=v" && KeyLength("k=v") == 1;
    assert CutKey("k=v").value.item.key == "k";
    if KeyChar(c) {
      FirstKey(t);
      assert KeyLength(t) == 2 && |t[..2]| == 2;
    } else {
      NoKey(t);
    }
  }

  // A key that an equals sign follows.
  lemma FirstKey(t: string)
    requires SkipBlanks(t) == t != "" && KeyLength(t) < |t|
    ensures CutKey(t).Some? ==> CutKey(t).value.item.key == t[..KeyLength(t)]
    ensures t[KeyLength(t)] == '=' ==> CutKey(t).Some?
  {
    hide SkipBlanks, DropToEquals;
  }

  /** A key goes on over letters, digits, hyphens and underscores. */
  lemma KeyCharExact(c: char)
    ensures (Parse([c] + "=v") == Some(Cut(Item([c], "v"), ""))) <==>
            c in LOWER || c in UPPER || c in DIGITS || c in "-_"
  {
    hide Parse;
    AlphabetExact(c);
    OneKey(c);
  }

  lemma OneKey(c: char)
    ensures (Parse([c] + "=v") == Some(Cut(Item([c], "v"), ""))) <==> KeyChar(c)
  {
    hide CutValue, DropToEquals;
    var t := [c] + "=v";
    assert t[1..] == "=v" && "=v"[1..] == "v";
    assert KeyLength("=v") == 0 && SkipBlanks("=v") == "=v";
    if KeyChar(c) {
      assert SkipBlanks(t) == t && KeyLength(t) == 1 && t[..1] == [c];
      assert CutKey(t) == Some(Cut(Item([c], ""), "v"));
      OneValue([c]);
    } else {
      NoKey(t);
      assert CutKey(t).Some? ==> CutKey(t).value.item.key == "";
      assert Parse(t).Some? ==> Parse(t).value.item.key == "" by { KeyKept(t); }
    }
  }

  // Without a key character behind the blanks the key is empty.
  lemma NoKey(t: string)
    requires SkipBlanks(t) == "" || !KeyChar(SkipBlanks(t)[0])
    ensures CutKey(t).Some? ==> CutKey(t).value.item.key == ""
  {
    hide SkipBlanks, DropToEquals;
  }

  lemma KeyKept(t: string)
    ensures Parse(t).Some? <==> CutKey(t).Some?
    ensures Parse(t).Some? ==> Parse(t).value.item.key == CutKey(t).value.item.key
  {
    hide CutKey, ValueLength;
  }

  lemma OneValue(key: string)
    ensures CutValue(key, "v") == Cut(Item(key, "v"), "")
  {
    assert SkipBlanks("v") == "v" && "v"[1..] == "" && SeparatorAt("") == 0;
    assert SeparatorAt("v") == 1 && "v"[..1] == "v";
  }

  /** A value ends at a comma, a semicolon or a line end. */
  lemma SeparatorExact(c: char)
    ensures (Parse("k=v" + [c] + "w") == Some(Cut(Item("k", "v"), "w"))) <==> c in ",;\n\r"
  {
    hide CutValue;
    var t, v := "k=v" + [c] + "w", "v" + [c] + "w";
    assert t[1..] == "=" + v && t[1..][1..] == v && t[..1] == "k";
    assert KeyLength(t[1..]) == 0 && KeyLength(t) == 1;
    assert CutKey(t) == Some(Cut(Item("k", ""), v));
    SeparatorEnds(c, v);
  }

  lemma SeparatorEnds(c: char, v: string)
    requires v == "v" + [c] + "w"
    ensures CutValue("k", v) == Cut(Item("k", "v"), "w") <==> c in ",;\n\r"
  {
    assert v[0] == 'v' && SkipBlanks(v) == v && v[1..] == [c] + "w" && v[1..][1..] == "w";
    assert SeparatorAt(v) == 1 + SeparatorAt([c] + "w");
    if c in ",;\n\r" {
      assert SeparatorAt([c] + "w") == 0 && v[..1] == "v" && v[2..] == "w";
    } else {
      assert SeparatorAt([c] + "w") > 0;
    }
  }

  // ----- lists that were written item by item

  datatype Entry = Entry(lead: string, item: Item, separator: char)

  predicate ValidEntry(e: Entry) {
    && (forall i | 0 <= i < |e.lead| :: Blank(e.lead[i]))
    && (forall i | 0 <= i < |e.item.key| :: KeyChar(e.item.key[i]))
    && (forall i | 0 <= i < |e.item.value| :: !Separator(e.item.value[i]))
    && Separator(e.separator)
  }

  function EntryText(e: Entry): string { e.lead + e.item.key + "=" + e.item.value }

  // The separator behind the last entry may be left out.
  function Joined(entries: seq<Entry>, closed: bool): string {
    if entries == [] then ""
    else if |entries| == 1 && !closed then EntryText(entries[0])
    else EntryText(entries[0]) + [entries[0].separator] + Joined(entries[1..], closed)
  }

  function Items(entries: seq<Entry>): (r: seq<Item>)
    ensures |r| == |entries|
  {
    if entries == [] then [] else [entries[0].item] + Items(entries[1..])
  }

  predicate AllBlank(s: string) { forall i | 0 <= i < |s| :: Blank(s[i]) }

  // A blank value swallows a line break behind it.
  predicate Kept(e: Entry) { AllBlank(e.item.value) ==> !Blank(e.separator) }

  lemma {:induction false} SkipAll(lead: string, t: string)
    requires AllBlank(lead)
    ensures SkipBlanks(lead + t) == SkipBlanks(t)
    decreases |lead|
  {
    if lead == "" {
      assert lead + t == t;
    } else {
      assert (lead + t)[1..] == lead[1..] + t;
      SkipAll(lead[1..], t);
    }
  }

  lemma {:induction false} KeyBefore(key: string, t: string)
    requires forall i | 0 <= i < |key| :: KeyChar(key[i])
    requires t != "" && !KeyChar(t[0])
    ensures KeyLength(key + t) == |key|
    decreases |key|
  {
    if key == "" {
      assert key + t == t;
    } else {
      assert (key + t)[1..] == key[1..] + t;
      KeyBefore(key[1..], t);
    }
  }

  // The key of an entry is cut off, whatever follows it.
  lemma EntryKey(e: Entry, t: string)
    requires ValidEntry(e)
    ensures CutKey(EntryText(e) + t) == Some(Cut(Item(e.item.key, ""), e.item.value + t))
  {
    hide SkipBlanks, KeyLength, DropToEquals, CutKey;
    var v := e.item.value + t;
    var u := "=" + v;
    var text := e.item.key + u;
    assert EntryText(e) + t == e.lead + text;
    SkipAll(e.lead, text);
    KeyFirst(e.item.key, u);
    KeyBefore(e.item.key, u);
    KeyCut(EntryText(e) + t, e.item.key, u);
    assert u[1..] == v;
  }

  lemma KeyFirst(key: string, u: string)
    requires u != "" && u[0] == '=' && forall i | 0 <= i < |key| :: KeyChar(key[i])
    ensures SkipBlanks(key + u) == key + u
  {
    assert (key + u)[0] == if key == "" then u[0] else key[0];
  }

  lemma {:induction false} SeparatorAfter(w: string, c: char, t: string)
    requires Separator(c) && forall i | 0 <= i < |w| :: !Separator(w[i])
    ensures SeparatorAt(w + [c] + t) == |w| && SeparatorAt(w) == |w|
    decreases |w|
  {
    var all := w + [c] + t;
    if w != "" {
      assert all[1..] == w[1..] + [c] + t;
      SeparatorAfter(w[1..], c, t);
    }
  }

  // A value with something in it, or a separator that is no blank: the value ends where it should.
  lemma {:induction false} ValueEnds(value: string, c: char, t: string)
    requires Separator(c) && (forall i | 0 <= i < |value| :: !Separator(value[i]))
    requires AllBlank(value) ==> !Blank(c)
    ensures ValueLength(value + [c] + t) == |value|
    decreases |value|
  {
    var v := value + [c] + t;
    if value != "" && Blank(value[0]) {
      assert v[1..] == value[1..] + [c] + t;
      if AllBlank(value[1..]) {
        assert AllBlank(value);
      }
      ValueEnds(value[1..], c, t);
    } else {
      assert v[0] == if value == "" then c else value[0];
      SeparatorAfter(value, c, t);
    }
  }

  lemma {:induction false} ValueAlone(value: string)
    requires forall i | 0 <= i < |value| :: !Separator(value[i])
    ensures ValueLength(value) == |value|
    decreases |value|
  {
    if value != "" && Blank(value[0]) {
      ValueAlone(value[1..]);
    } else {
      SeparatorAfter(value, ',', "");
    }
  }

  lemma EntryKept(e: Entry, t: string)
    requires ValidEntry(e) && Kept(e)
    ensures Parse(EntryText(e) + [e.separator] + t) == Some(Cut(e.item, t))
  {
    hide CutKey, ValueLength, EntryText;
    var c := [e.separator] + t;
    assert EntryText(e) + [e.separator] + t == EntryText(e) + c;
    EntryKey(e, c);
    ValueEnds(e.item.value, e.separator, t);
    var v := e.item.value + c;
    assert v == e.item.value + [e.separator] + t;
    assert v[..|e.item.value|] == e.item.value && v[|e.item.value| + 1..] == t;
  }

  lemma EntryAlone(e: Entry)
    requires ValidEntry(e)
    ensures Parse(EntryText(e)) == Some(Cut(e.item, ""))
  {
    hide CutKey, ValueLength, EntryText;
    EntryKey(e, "");
    assert EntryText(e) + "" == EntryText(e) && e.item.value + "" == e.item.value;
    ValueAlone(e.item.value);
    assert e.item.value[..|e.item.value|] == e.item.value;
  }

  // Otherwise the value comes out too long.
  lemma EntryLost(e: Entry, t: string)
    requires ValidEntry(e) && !Kept(e)
    ensures Parse(EntryText(e) + [e.separator] + t).Some?
    ensures |Parse(EntryText(e) + [e.separator] + t).value.item.value| > |e.item.value|
  {
    hide CutKey, SkipBlanks, EntryText, SeparatorAt;
    var c := [e.separator] + t;
    assert EntryText(e) + [e.separator] + t == EntryText(e) + c;
    EntryKey(e, c);
    SkipAll(e.item.value + [e.separator], t);
    var v := e.item.value + c;
    assert v == e.item.value + [e.separator] + t;
  }

  lemma {:induction false} NothingToRead()
    ensures All("") == []
  {
  }

  /** Reading a written list gives its items in order exactly when no blank value stands before a line
      break. */
  lemma {:induction false} ListReadBack(entries: seq<Entry>, closed: bool)
    requires forall i | 0 <= i < |entries| :: ValidEntry(entries[i])
    ensures All(Joined(entries, closed)) == Items(entries) <==>
            forall i | 0 <= i < |entries| && (closed || i < |entries| - 1) :: Kept(entries[i])
    decreases |entries|
  {
    hide Parse, All, EntryText, Kept, ValidEntry;
    NothingToRead();
    if entries != [] {
      var e, rest := entries[0], Joined(entries[1..], closed);
      AllTurn(Joined(entries, closed));
      if |entries| == 1 && !closed {
        EntryAlone(e);
        assert Items(entries) == [e.item] + Items([]);
      } else {
        ListReadBack(entries[1..], closed);
        if Kept(e) {
          EntryKept(e, rest);
          Peel(e.item, All(rest), Items(entries[1..]));
          assert forall i | 0 <= i < |entries| - 1 :: entries[1..][i] == entries[i + 1];
          assert forall i | 1 <= i < |entries| :: entries[i] == entries[1..][i - 1];
        } else {
          EntryLost(e, rest);
          var read := All(Joined(entries, closed));
          assert read[0].value != e.item.value && Items(entries)[0] == e.item;
        }
      }
    }
  }

  lemma Peel(x: Item, a: seq<Item>, b: seq<Item>)
    ensures [x] + a == [x] + b <==> a == b
  {
    assert ([x] + a)[1..] == a && ([x] + b)[1..] == b;
  }
}
