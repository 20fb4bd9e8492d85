/** What the parser of cocarrier/json.c reads, without its own notion of blanks and tokens: every way of
    quoting, escaping and spacing a document. */
module JsonLayout {
  import opened Basics
  import opened JsonText

  const BLANKS := " \n\r\t"
  const MARKS := "{}[]:,"

  ghost predicate Blanks(s: string) { forall i | 0 <= i < |s| :: s[i] in BLANKS }

  // ----- blanks

  // The reading functions do not see a blank in front.
  ghost predicate Unseen(c: char) {
    && (forall s :: GetToken([c] + s) == GetToken(s))
    && (forall s :: GetPunctuation([c] + s) == GetPunctuation(s))
  }

  lemma BlankUnseen(c: char, s: string)
    requires c in BLANKS
    ensures GetToken([c] + s) == GetToken(s) && GetPunctuation([c] + s) == GetPunctuation(s)
  {
    hide TokenFrom;
    assert ([c] + s)[1..] == s;
  }

  /** Blanks, line ends and tabs are passed over, and nothing else is. */
  lemma BlankExact(c: char)
    ensures Unseen(c) <==> c in BLANKS
  {
    hide GetToken, GetPunctuation;
    if c in BLANKS {
      forall s: string
        ensures GetToken([c] + s) == GetToken(s) && GetPunctuation([c] + s) == GetPunctuation(s)
      {
        BlankUnseen(c, s);
      }
    } else {
      var s := if c == NUL then "a" else "";
      OthersSeen(c, s);
      assert GetToken([c] + s) != GetToken(s);
    }
  }

  lemma OthersSeen(c: char, s: string)
    requires c !in BLANKS && s == if c == NUL then "a" else ""
    ensures GetToken([c] + s) != GetToken(s)
  {
    hide GetToken;
    if c == NUL {
      NoToken([c] + s);
      SomeToken(s);
    } else {
      SomeToken([c] + s);
      NoToken(s);
    }
  }

  lemma NoToken(t: string)
    requires t == "" || t[0] == NUL
    ensures GetToken(t).0.None?
  {
  }

  lemma SomeToken(t: string)
    requires t != "" && t[0] != NUL && t[0] !in BLANKS
    ensures GetToken(t).0.Some?
  {
    hide TokenFrom;
  }

  lemma {:induction false} BlanksUnseen(b: string, s: string)
    requires Blanks(b)
    ensures GetToken(b + s) == GetToken(s) && GetPunctuation(b + s) == GetPunctuation(s)
    decreases |b|
  {
    hide GetToken, GetPunctuation;
    if b == "" {
      assert b + s == s;
    } else {
      assert b + s == [b[0]] + (b[1..] + s);
      BlankUnseen(b[0], b[1..] + s);
      BlanksUnseen(b[1..], s);
    }
  }

  /** So the parser reads the same behind any number of them. */
  lemma BlanksInFront(b: string, name: Option<string>, kids: seq<Tree>, filename: string, s: string)
    requires Blanks(b)
    ensures GetValue(name, b + s) == GetValue(name, s) && GetElement(b + s) == GetElement(s)
    ensures GetComplex(name, kids, b + s) == GetComplex(name, kids, s)
    ensures GetMatrix(name, kids, b + s) == GetMatrix(name, kids, s)
    ensures ParseFile(filename, b + s) == ParseFile(filename, s)
  {
    hide GetToken, GetPunctuation, GetMatrix, GetComplex, GetValue, GetElement, ParseFile;
    BlanksUnseen(b, s);
    ValueUnseen(None, b + s, s);
    ValueUnseen(name, b + s, s);
    ElementUnseen(b + s, s);
    LoopsUnseen(name, kids, b + s, s);
    FileUnseen(filename, b + s, s);
  }

  lemma FileUnseen(filename: string, s: string, t: string)
    requires GetPunctuation(s) == GetPunctuation(t)
    ensures ParseFile(filename, s) == ParseFile(filename, t)
  {
    hide GetPunctuation, GetMatrix, GetComplex;
  }

  lemma ValueUnseen(name: Option<string>, s: string, t: string)
    requires GetToken(s) == GetToken(t) && GetPunctuation(s) == GetPunctuation(t)
    ensures GetValue(name, s) == GetValue(name, t)
  {
    hide GetToken, GetPunctuation, GetComplex, GetMatrix;
    var (c, u) := GetPunctuation(s);
    ValueTurn(name, s, c, u);
    ValueTurn(name, t, c, u);
  }

  lemma ElementUnseen(s: string, t: string)
    requires GetToken(s) == GetToken(t)
    ensures GetElement(s) == GetElement(t)
  {
    hide GetToken, GetPunctuation, GetValue;
  }

  lemma LoopsUnseen(name: Option<string>, kids: seq<Tree>, s: string, t: string)
    requires GetElement(s) == GetElement(t) && GetValue(None, s) == GetValue(None, t)
    ensures GetComplex(name, kids, s) == GetComplex(name, kids, t)
    ensures GetMatrix(name, kids, s) == GetMatrix(name, kids, t)
  {
    hide GetElement, GetValue, GetPunctuation;
  }

  // ----- tokens

  /** One character of a token: as it is, or behind a backslash. */
  datatype Sign = Bare(c: char) | Escaped(c: char)

  function Spelt(s: Sign): string { if s.Bare? then [s.c] else ['\\', s.c] }

  function SpeltAll(signs: seq<Sign>): string {
    if signs == [] then "" else Spelt(signs[0]) + SpeltAll(signs[1..])
  }

  // The characters that the signs stand for.
  function Text(signs: seq<Sign>): (s: string)
    ensures |s| == |signs|
  {
    seq(|signs|, i requires 0 <= i < |signs| => signs[i].c)
  }

  // Between quotation marks only the mark itself and the backslash are special, outside also blanks,
  // punctuation and both marks.
  predicate Inside(s: Sign, mark: char) { s.c != NUL && (s.Bare? ==> s.c != mark && s.c != '\\') }

  predicate Outside(s: Sign) { s.c != NUL && (s.Bare? ==> s.c !in BLANKS && s.c !in MARKS && s.c !in "\"'\\") }

  /** A stretch of a token: a sign, or signs between two equal marks. */
  datatype Stretch = Open(sign: Sign) | Marked(mark: char, signs: seq<Sign>)

  predicate ValidStretch(s: Stretch) {
    if s.Open? then Outside(s.sign)
    else s.mark in "\"'" && forall i | 0 <= i < |s.signs| :: Inside(s.signs[i], s.mark)
  }

  function Stretched(s: Stretch): string {
    if s.Open? then Spelt(s.sign) else [s.mark] + SpeltAll(s.signs) + [s.mark]
  }

  function Meant(s: Stretch): string { if s.Open? then [s.sign.c] else Text(s.signs) }

  function Written(token: seq<Stretch>): string {
    if token == [] then "" else Stretched(token[0]) + Written(token[1..])
  }

  function Meaning(token: seq<Stretch>): string {
    if token == [] then "" else Meant(token[0]) + Meaning(token[1..])
  }

  ghost predicate ValidToken(token: seq<Stretch>) {
    token != [] && |Meaning(token)| < 16000 && forall i | 0 <= i < |token| :: ValidStretch(token[i])
  }

  // What may follow a token, and what is then left: a blank is gone, punctuation stays.
  predicate Ended(rest: string) { rest == "" || rest[0] in BLANKS || rest[0] in MARKS }

  function Left(rest: string): string { if rest != "" && rest[0] in BLANKS then rest[1..] else rest }

  // ----- how they are read

  lemma EscapeRead(c: char, quote: char, rest: string, acc: string)
    requires quote != '\\' && c != NUL && |acc| < 16000
    ensures TokenFrom(['\\', c] + rest, quote, acc) == TokenFrom(rest, quote, acc + [c])
  {
    var t := ['\\', c] + rest;
    assert t[0] == '\\' && t[1..] == [c] + rest && t[1..][0] == c && t[1..][1..] == rest;
  }

  lemma SignInside(s: Sign, mark: char, rest: string, acc: string)
    requires mark in "\"'" && Inside(s, mark) && |acc| < 16000
    ensures TokenFrom(Spelt(s) + rest, mark, acc) == TokenFrom(rest, mark, acc + [s.c])
  {
    var t := Spelt(s) + rest;
    if s.Bare? {
      assert t[0] == s.c && t[1..] == rest;
    } else {
      EscapeRead(s.c, mark, rest, acc);
    }
  }

  lemma SignOutside(s: Sign, rest: string, acc: string)
    requires Outside(s) && |acc| < 16000
    ensures TokenFrom(Spelt(s) + rest, NUL, acc) == TokenFrom(rest, NUL, acc + [s.c])
  {
    var t := Spelt(s) + rest;
    if s.Bare? {
      assert t[0] == s.c && t[1..] == rest;
    } else {
      EscapeRead(s.c, NUL, rest, acc);
    }
  }

  lemma {:induction false} SignsInside(signs: seq<Sign>, mark: char, rest: string, acc: string)
    requires mark in "\"'" && |acc| + |signs| < 16000
    requires forall i | 0 <= i < |signs| :: Inside(signs[i], mark)
    ensures TokenFrom(SpeltAll(signs) + rest, mark, acc) == TokenFrom(rest, mark, acc + Text(signs))
    decreases |signs|
  {
    hide TokenFrom, Spelt;
    if signs == [] {
      assert SpeltAll(signs) + rest == rest && acc + Text(signs) == acc;
    } else {
      var more := SpeltAll(signs[1..]) + rest;
      assert SpeltAll(signs) + rest == Spelt(signs[0]) + more;
      SignInside(signs[0], mark, more, acc);
      SignsInside(signs[1..], mark, rest, acc + [signs[0].c]);
      assert acc + [signs[0].c] + Text(signs[1..]) == acc + Text(signs);
    }
  }

  lemma MarkOpens(mark: char, rest: string, acc: string)
    requires mark in "\"'" && |acc| < 16000
    ensures TokenFrom([mark] + rest, NUL, acc) == TokenFrom(rest, mark, acc)
    ensures TokenFrom([mark] + rest, mark, acc) == TokenFrom(rest, NUL, acc)
  {
    assert ([mark] + rest)[1..] == rest;
  }

  lemma StretchRead(s: Stretch, rest: string, acc: string)
    requires ValidStretch(s) && |acc| + |Meant(s)| < 16000
    ensures TokenFrom(Stretched(s) + rest, NUL, acc) == TokenFrom(rest, NUL, acc + Meant(s))
  {
    hide TokenFrom, SpeltAll, Spelt;
    if s.Open? {
      SignOutside(s.sign, rest, acc);
    } else {
      var close := [s.mark] + rest;
      assert Stretched(s) + rest == [s.mark] + (SpeltAll(s.signs) + close);
      MarkOpens(s.mark, SpeltAll(s.signs) + close, acc);
      SignsInside(s.signs, s.mark, close, acc);
      MarkOpens(s.mark, rest, acc + Text(s.signs));
    }
  }

  lemma TokenEnds(rest: string, acc: string)
    requires Ended(rest) && |acc| < 16000
    ensures TokenFrom(rest, NUL, acc) == (acc, Left(rest))
  {
  }

  lemma {:induction false} TokenWritten(token: seq<Stretch>, rest: string, acc: string)
    requires |acc| + |Meaning(token)| < 16000 && Ended(rest)
    requires forall i | 0 <= i < |token| :: ValidStretch(token[i])
    ensures TokenFrom(Written(token) + rest, NUL, acc) == (acc + Meaning(token), Left(rest))
    decreases |token|
  {
    hide TokenFrom, Stretched, Meant, ValidStretch, Left, Ended;
    if token == [] {
      assert Written(token) + rest == rest && acc + Meaning(token) == acc;
      TokenEnds(rest, acc);
    } else {
      var more := Written(token[1..]) + rest;
      assert Written(token) + rest == Stretched(token[0]) + more;
      StretchRead(token[0], more, acc);
      TokenWritten(token[1..], rest, acc + Meant(token[0]));
      assert acc + Meant(token[0]) + Meaning(token[1..]) == acc + Meaning(token);
    }
  }

  lemma TokenBegins(token: seq<Stretch>, rest: string)
    requires ValidToken(token)
    ensures var t := Written(token) + rest;
            t != "" && t[0] != NUL && t[0] !in BLANKS && t[0] !in MARKS
  {
    assert ValidStretch(token[0]);
    var s := Stretched(token[0]);
    assert s != "" && (Written(token) + rest)[0] == s[0];
  }

  lemma TokenAlone(t: string)
    requires t != "" && t[0] != NUL && t[0] !in BLANKS && t[0] !in MARKS
    ensures GetToken(t) == (Some(TokenFrom(t, NUL, "").0), TokenFrom(t, NUL, "").1)
    ensures GetPunctuation(t) == (NUL, t)
  {
    hide TokenFrom;
  }

  /** However a token is quoted and escaped, the parser reads what it means and leaves what follows. */
  lemma TokenRead(b: string, token: seq<Stretch>, rest: string)
    requires Blanks(b) && ValidToken(token) && Ended(rest)
    ensures GetToken(b + (Written(token) + rest)) == (Some(Meaning(token)), Left(rest))
    ensures GetPunctuation(b + (Written(token) + rest)) == (NUL, Written(token) + rest)
  {
    hide GetToken, GetPunctuation, TokenFrom, ValidStretch, Written, Meaning;
    BlanksUnseen(b, Written(token) + rest);
    TokenBegins(token, rest);
    TokenAlone(Written(token) + rest);
    TokenWritten(token, rest, "");
    assert "" + Meaning(token) == Meaning(token);
  }

  // Every character behind a backslash.
  function Shielded(s: string): seq<Sign> { seq(|s|, i requires 0 <= i < |s| => Escaped(s[i])) }

  /** So every text without NUL that fits the buffer can be written, although the printer does not
      escape. */
  lemma EveryText(s: string, mark: char, rest: string)
    requires NUL !in s && |s| < 16000 && mark in "\"'" && Ended(rest)
    ensures GetToken([mark] + SpeltAll(Shielded(s)) + [mark] + rest) == (Some(s), Left(rest))
  {
    hide GetToken, TokenFrom, SpeltAll, Left;
    var one := Marked(mark, Shielded(s));
    assert Text(Shielded(s)) == s;
    assert [one][1..] == [] && Written([]) == "" && Meaning([]) == "";
    assert Written([one]) == Stretched(one) && Meaning([one]) == s;
    assert forall i | 0 <= i < |s| :: s[i] in s;
    assert ValidStretch(one);
    TokenRead("", [one], rest);
    assert "" + (Written([one]) + rest) == [mark] + SpeltAll(Shielded(s)) + [mark] + rest;
  }

  lemma {:induction false} BareRead(s: string, rest: string, acc: string)
    requires |acc| + |s| <= 16000 && forall i | 0 <= i < |s| :: Outside(Bare(s[i]))
    ensures TokenFrom(s + rest, NUL, acc) == TokenFrom(rest, NUL, acc + s)
    decreases |s|
  {
    hide TokenFrom, Outside;
    if s == "" {
      assert s + rest == rest && acc + s == acc;
    } else {
      assert s + rest == Spelt(Bare(s[0])) + (s[1..] + rest);
      SignOutside(Bare(s[0]), s[1..] + rest, acc);
      BareRead(s[1..], rest, acc + [s[0]]);
      assert acc + [s[0]] + s[1..] == acc + s;
    }
  }

  /** A token is cut after 16000 characters, whatever follows. */
  lemma TokenCut(s: string, rest: string)
    requires |s| == 16000 && forall i | 0 <= i < |s| :: Outside(Bare(s[i]))
    ensures GetToken(s + rest) == (Some(s), rest)
  {
    BareRead(s, rest, "");
    assert Outside(Bare(s[0])) && (s + rest)[0] == s[0];
    TokenAlone(s + rest);
    assert "" + s == s;
    assert TokenFrom(rest, NUL, s) == (s, rest);
  }

  // ----- documents

  /** A document as it may be written: blanks wherever they may stand, tokens in any spelling. */
  datatype Doc =
    | Scalar(lead: string, token: seq<Stretch>)
    | Object(lead: string, members: seq<Member>, end: string)
    | Array(lead: string, items: seq<Item>, end: string)

  datatype Member = Member(lead: string, name: seq<Stretch>, colon: string, value: Doc, tail: string)

  datatype Item = Item(value: Doc, tail: string)

  ghost predicate ValidDoc(d: Doc) {
    && Blanks(d.lead)
    && (d.Scalar? ==> ValidToken(d.token))
    && (d.Object? ==> Blanks(d.end) && forall i | 0 <= i < |d.members| :: ValidMember(d.members[i]))
    && (d.Array? ==> Blanks(d.end) && forall i | 0 <= i < |d.items| :: ValidItem(d.items[i]))
  }

  ghost predicate ValidMember(m: Member) {
    Blanks(m.lead) && ValidToken(m.name) && Blanks(m.colon) && ValidDoc(m.value) && Blanks(m.tail)
  }

  ghost predicate ValidItem(i: Item) { ValidDoc(i.value) && Blanks(i.tail) }

  function DocText(d: Doc): string {
    match d
    case Scalar(lead, token) => lead + Written(token)
    case Object(lead, members, end) => lead + "{" + MembersText(members, end) + "}"
    case Array(lead, items, end) => lead + "[" + ItemsText(items, end) + "]"
  }

  function MembersText(ms: seq<Member>, end: string): string {
    if ms == [] then end
    else MemberText(ms[0]) + if |ms| == 1 then "" else "," + MembersText(ms[1..], end)
  }

  function MemberText(m: Member): string {
    m.lead + Written(m.name) + m.colon + ":" + DocText(m.value) + m.tail
  }

  function ItemsText(items: seq<Item>, end: string): string {
    if items == [] then end
    else DocText(items[0].value) + items[0].tail + if |items| == 1 then "" else "," + ItemsText(items[1..], end)
  }

  // The tree it stands for.  Between empty brackets the parser finds one node without value and children.
  function DocTree(name: Option<string>, d: Doc): Tree
    decreases d
  {
    match d
    case Scalar(_, token) => Tree(name, Some(Meaning(token)), [])
    case Object(_, members, _) =>
      Tree(name, None, if members == [] then [Tree(Some(""), None, [])] else MemberTrees(members))
    case Array(_, items, _) => Tree(name, None, if items == [] then [Tree(None, None, [])] else ItemTrees(items))
  }

  function MemberTrees(ms: seq<Member>): seq<Tree>
    decreases ms
  {
    if ms == [] then [] else [DocTree(Some(Meaning(ms[0].name)), ms[0].value)] + MemberTrees(ms[1..])
  }

  function ItemTrees(items: seq<Item>): seq<Tree>
    decreases items
  {
    if items == [] then [] else [DocTree(None, items[0].value)] + ItemTrees(items[1..])
  }

  // ----- how they are read

  predicate Marks(rest: string) { rest != "" && rest[0] in MARKS }

  // The tree was read, and the next punctuation is the mark in front of rest.
  predicate Reads(p: Parsed, t: Tree, rest: string)
    requires Marks(rest)
  {
    p.Read? && p.tree == t && GetPunctuation(p.rest) == (rest[0], rest[1..])
  }

  lemma MarkTaken(b: string, rest: string)
    requires Blanks(b) && Marks(rest)
    ensures GetPunctuation(b + rest) == (rest[0], rest[1..])
  {
    hide GetPunctuation, GetToken;
    BlanksUnseen(b, rest);
    MarkFirst(rest);
  }

  lemma MarkFirst(rest: string)
    requires Marks(rest)
    ensures GetPunctuation(rest) == (rest[0], rest[1..])
  {
    MarkIsPunctuation(rest[0]);
  }

  lemma MarkIsPunctuation(c: char)
    ensures c in MARKS <==> Punctuation(c)
    ensures Punctuation(c) ==> !White(c)
  {
  }

  lemma LeftTaken(b: string, rest: string)
    requires Blanks(b) && Marks(rest)
    ensures Ended(b + rest) && GetPunctuation(Left(b + rest)) == (rest[0], rest[1..])
  {
    hide GetPunctuation;
    if b == "" {
      assert b + rest == rest;
      MarkFirst(rest);
    } else {
      assert (b + rest)[1..] == b[1..] + rest;
      MarkTaken(b[1..], rest);
    }
  }

  lemma {:induction false} DocRead(name: Option<string>, d: Doc, tail: string, rest: string)
    requires ValidDoc(d) && Blanks(tail) && Marks(rest)
    ensures Reads(GetValue(name, DocText(d) + (tail + rest)), DocTree(name, d), rest)
    decreases d, 1
  {
    hide GetValue, GetMatrix, GetComplex, GetPunctuation, GetToken, Written, Meaning, Left, DocTree;
    var after := tail + rest;
    MarkTaken(tail, rest);
    if d.Scalar? {
      ScalarRead(name, d, tail, rest);
    } else {
      var c, inner := if d.Object? then '{' else '[', Inner(d) + after;
      hide Inner;
      assert DocText(d) + after == d.lead + ([c] + inner) by { OpenText(d, after); }
      MarkTaken(d.lead, [c] + inner);
      assert ([c] + inner)[1..] == inner;
      ValueTurn(name, d.lead + ([c] + inner), c, inner);
      InnerRead(name, d, after);
    }
  }

  // What stands behind the opening bracket.
  function Inner(d: Doc): string
    requires !d.Scalar?
  {
    if d.Object? then MembersText(d.members, d.end) + "}" else ItemsText(d.items, d.end) + "]"
  }

  lemma OpenText(d: Doc, after: string)
    requires !d.Scalar?
    ensures DocText(d) + after == d.lead + ([if d.Object? then '{' else '['] + (Inner(d) + after))
  {
    hide MembersText, ItemsText;
  }

  lemma {:induction false} InnerRead(name: Option<string>, d: Doc, after: string)
    requires ValidDoc(d) && !d.Scalar?
    ensures d.Object? ==> GetComplex(name, [], Inner(d) + after) == Read(DocTree(name, d), after)
    ensures d.Array? ==> GetMatrix(name, [], Inner(d) + after) == Read(DocTree(name, d), after)
    decreases d, 0
  {
    hide GetMatrix, GetComplex, ItemsText, MembersText, ItemTrees, MemberTrees;
    if d.Object? {
      assert Inner(d) + after == MembersText(d.members, d.end) + ("}" + after);
      if d.members == [] {
        NothingWritten(d.end);
        NoMembers(name, d.end, after);
      } else {
        MembersRead(name, [], d.members, d.end, after);
        assert [] + MemberTrees(d.members) == MemberTrees(d.members);
      }
    } else {
      assert Inner(d) + after == ItemsText(d.items, d.end) + ("]" + after);
      if d.items == [] {
        NothingWritten(d.end);
        NoItems(name, d.end, after);
      } else {
        ItemsRead(name, [], d.items, d.end, after);
        assert [] + ItemTrees(d.items) == ItemTrees(d.items);
      }
    }
  }

  lemma ScalarRead(name: Option<string>, d: Doc, tail: string, rest: string)
    requires d.Scalar? && ValidDoc(d) && Blanks(tail) && Marks(rest)
    ensures Reads(GetValue(name, DocText(d) + (tail + rest)), DocTree(name, d), rest)
  {
    hide GetValue, GetPunctuation, GetToken, Written, Meaning, Left, ValidToken;
    var after := tail + rest;
    var text := Written(d.token) + after;
    assert DocText(d) + after == d.lead + text;
    LeftTaken(tail, rest);
    TokenRead(d.lead, d.token, after);
    TokenRead("", d.token, after);
    assert "" + text == text;
    ValueTurn(name, d.lead + text, NUL, text);
  }

  lemma NothingWritten(end: string)
    ensures MembersText([], end) == end == ItemsText([], end)
  {
  }

  lemma NoMembers(name: Option<string>, end: string, after: string)
    requires Blanks(end)
    ensures GetComplex(name, [], end + ("}" + after)) == Read(Tree(name, None, [Tree(Some(""), None, [])]), after)
  {
    hide GetPunctuation, GetElement, GetToken, GetComplex;
    var s, kid := "}" + after, Tree(Some(""), None, []);
    assert s[1..] == after && ['}'] + after == s;
    BlanksUnseen(end, s);
    MarkFirst(s);
    EmptyToken(s);
    NameOnly(end + s, s, after);
    ComplexTurn(name, [], end + s, kid, s, '}', after);
    assert [] + [kid] == [kid];
  }

  lemma EmptyToken(s: string)
    requires Marks(s)
    ensures GetToken(s) == (Some(""), s)
  {
    hide TokenFrom;
    TokenEnds(s, "");
    assert RemoveWhite(s) == (true, s);
  }

  lemma NameOnly(s: string, t: string, after: string)
    requires GetToken(s) == (Some(""), t) && GetPunctuation(t) == ('}', after)
    ensures GetElement(s) == Read(Tree(Some(""), None, []), ['}'] + after)
  {
    hide GetToken, GetPunctuation;
  }

  lemma NoItems(name: Option<string>, end: string, after: string)
    requires Blanks(end)
    ensures GetMatrix(name, [], end + ("]" + after)) == Read(Tree(name, None, [Tree(None, None, [])]), after)
  {
    hide GetPunctuation, GetValue, GetMatrix;
    var s, kid := "]" + after, Tree(None, None, []);
    assert s[1..] == after && [']'] + after == s;
    MarkTaken(end, s);
    MarkFirst(s);
    ValueTurn(None, end + s, ']', after);
    MatrixTurn(name, [], end + s, kid, s, ']', after);
    assert [] + [kid] == [kid];
  }

  lemma {:induction false} MembersRead(name: Option<string>, kids: seq<Tree>, ms: seq<Member>, end: string,
                                       after: string)
    requires ms != [] && forall i | 0 <= i < |ms| :: ValidMember(ms[i])
    ensures GetComplex(name, kids, MembersText(ms, end) + ("}" + after)) ==
            Read(Tree(name, None, kids + MemberTrees(ms)), after)
    decreases ms
  {
    hide GetComplex, GetElement, GetPunctuation, MemberText, DocTree, Meaning, ValidMember;
    var kid := DocTree(Some(Meaning(ms[0].name)), ms[0].value);
    assert ValidMember(ms[0]);
    var more := AfterMember(ms, end, after);
    var s := MemberText(ms[0]) + more;
    assert MembersText(ms, end) + ("}" + after) == s;
    hide MembersText;
    MemberRead(ms[0], more);
    ComplexTurn(name, kids, s, kid, GetElement(s).rest, more[0], more[1..]);
    if |ms| > 1 {
      MembersRead(name, kids + [kid], ms[1..], end, after);
      assert more[1..] == MembersText(ms[1..], end) + ("}" + after);
      assert kids + [kid] + MemberTrees(ms[1..]) == kids + MemberTrees(ms);
    } else {
      assert more[1..] == after && ms[1..] == [] && MemberTrees([]) == [];
      assert kids + MemberTrees(ms) == kids + [kid];
    }
  }

  function AfterMember(ms: seq<Member>, end: string, after: string): (r: string)
    requires ms != []
    ensures Marks(r)
  {
    if |ms| == 1 then "}" + after else "," + (MembersText(ms[1..], end) + ("}" + after))
  }

  lemma {:induction false} MemberRead(m: Member, rest: string)
    requires ValidMember(m) && Marks(rest)
    ensures Reads(GetElement(MemberText(m) + rest), DocTree(Some(Meaning(m.name)), m.value), rest)
    decreases m
  {
    hide GetElement, GetValue, GetPunctuation, GetToken, Written, Meaning, Left, DocText, DocTree, MemberText;
    hide ValidDoc, ValidToken;
    var inner := DocText(m.value) + (m.tail + rest);
    var colon := m.colon + (":" + inner);
    MemberTextIs(m, rest);
    assert (":" + inner)[1..] == inner;
    LeftTaken(m.colon, ":" + inner);
    TokenRead(m.lead, m.name, colon);
    ColonTurn(MemberText(m) + rest, Meaning(m.name), Left(colon), inner);
    DocRead(Some(Meaning(m.name)), m.value, m.tail, rest);
  }

  lemma MemberTextIs(m: Member, rest: string)
    ensures MemberText(m) + rest ==
            m.lead + (Written(m.name) + (m.colon + (":" + (DocText(m.value) + (m.tail + rest)))))
  {
    hide Written, DocText;
  }

  lemma ColonTurn(s: string, name: string, t: string, u: string)
    requires GetToken(s) == (Some(name), t) && GetPunctuation(t) == (':', u)
    ensures GetElement(s) == GetValue(Some(name), u)
  {
    hide GetToken, GetPunctuation, GetValue;
  }

  lemma {:induction false} ItemsRead(name: Option<string>, kids: seq<Tree>, items: seq<Item>, end: string,
                                     after: string)
    requires items != [] && forall i | 0 <= i < |items| :: ValidItem(items[i])
    ensures GetMatrix(name, kids, ItemsText(items, end) + ("]" + after)) ==
            Read(Tree(name, None, kids + ItemTrees(items)), after)
    decreases items
  {
    hide GetMatrix, GetValue, GetPunctuation, DocText, DocTree, ValidDoc;
    var d, tail := items[0].value, items[0].tail;
    var kid := DocTree(None, d);
    assert ValidItem(items[0]);
    var more := AfterItem(items, end, after);
    var s := DocText(d) + (tail + more);
    assert ItemsText(items, end) + ("]" + after) == s;
    hide ItemsText;
    DocRead(None, d, tail, more);
    MatrixTurn(name, kids, s, kid, GetValue(None, s).rest, more[0], more[1..]);
    if |items| > 1 {
      ItemsRead(name, kids + [kid], items[1..], end, after);
      assert more[1..] == ItemsText(items[1..], end) + ("]" + after);
      assert kids + [kid] + ItemTrees(items[1..]) == kids + ItemTrees(items);
    } else {
      assert more[1..] == after && items[1..] == [] && ItemTrees([]) == [];
      assert kids + ItemTrees(items) == kids + [kid];
    }
  }

  function AfterItem(items: seq<Item>, end: string, after: string): (r: string)
    requires items != []
    ensures Marks(r)
  {
    if |items| == 1 then "]" + after else "," + (ItemsText(items[1..], end) + ("]" + after))
  }

  /** A file that holds an object or an array in any layout reads as its tree, and what follows stays. */
  lemma FileRead(filename: string, d: Doc, rest: string)
    requires ValidDoc(d) && !d.Scalar?
    ensures ParseFile(filename, DocText(d) + rest) == Read(DocTree(Some(filename), d), rest)
  {
    hide GetMatrix, GetComplex, GetPunctuation, Inner, DocTree;
    var c, inner := if d.Object? then '{' else '[', Inner(d) + rest;
    OpenText(d, rest);
    MarkTaken(d.lead, [c] + inner);
    assert ([c] + inner)[1..] == inner;
    InnerRead(Some(filename), d, rest);
  }
}
