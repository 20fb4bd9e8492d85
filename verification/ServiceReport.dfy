/** The report that broker/brokerservice.c writes while it walks the contracts of a service, as the
    JSON parser reads it back. */
module ServiceReport {
  import opened Basics
  import opened JsonText
  import opened JsonPrint

  datatype Attribute = Attribute(name: string, value: string)
  datatype Visit = Visit(target: string, attributes: seq<Attribute>)

  // ----- the text

  function AttributeText(a: Attribute): string {
    Quoted(a.name) + ": " + Quoted(a.value)
  }

  // Texts, each but the first behind a comma and a line break.
  function Separated(texts: seq<string>): string {
    if texts == [] then ""
    else if |texts| == 1 then texts[0]
    else Separated(texts[..|texts| - 1]) + ",\n" + texts[|texts| - 1]
  }

  function AttributeTexts(attributes: seq<Attribute>): seq<string> {
    seq(|attributes|, i requires 0 <= i < |attributes| => AttributeText(attributes[i]))
  }

  function VisitText(v: Visit): string {
    "{ contract: " + Quoted(v.target) + ", attributs: { " + Separated(AttributeTexts(v.attributes)) + " } }"
  }

  function VisitTexts(visits: seq<Visit>): seq<string> {
    seq(|visits|, i requires 0 <= i < |visits| => VisitText(visits[i]))
  }

  function ReportText(id: string, visits: seq<Visit>): string {
    "{ service: " + Quoted(id) + ", contracts: [\n" + Separated(VisitTexts(visits)) + " ] }\n"
  }

  // ----- the tree

  function Member(name: string, value: string): Tree { Tree(Some(name), Some(value), []) }

  // An empty list is read as one nameless attribute.
  function AttributeTrees(attributes: seq<Attribute>): seq<Tree> {
    if attributes == [] then [Tree(Some(""), None, [])]
    else Members(attributes)
  }

  function Members(attributes: seq<Attribute>): (r: seq<Tree>)
    ensures |r| == |attributes|
  {
    seq(|attributes|, i requires 0 <= i < |attributes| => Member(attributes[i].name, attributes[i].value))
  }

  function VisitTree(v: Visit): Tree {
    Tree(None, None, [Member("contract", v.target), Tree(Some("attributs"), None, AttributeTrees(v.attributes))])
  }

  // An empty list is read as one empty contract.
  function VisitTrees(visits: seq<Visit>): seq<Tree> {
    if visits == [] then [Tree(None, None, [])]
    else seq(|visits|, i requires 0 <= i < |visits| => VisitTree(visits[i]))
  }

  function ReportTree(filename: string, id: string, visits: seq<Visit>): Tree {
    Tree(Some(filename), None, [Member("service", id), Tree(Some("contracts"), None, VisitTrees(visits))])
  }

  predicate PlainVisit(v: Visit) {
    Plain(v.target) && forall i :: 0 <= i < |v.attributes| ==>
      Plain(v.attributes[i].name) && Plain(v.attributes[i].value)
  }

  // ----- reading pieces of it

  lemma Blank(c: char, s: string)
    requires c == ' ' || c == '\n'
    ensures RemoveWhite([c] + s) == RemoveWhite(s) && GetToken([c] + s) == GetToken(s)
    ensures GetPunctuation([c] + s) == GetPunctuation(s)
  {
    assert ([c] + s)[1..] == s;
  }

  lemma BlankValue(name: Option<string>, c: char, s: string)
    requires c == ' ' || c == '\n'
    ensures GetValue(name, [c] + s) == GetValue(name, s)
  {
    Blank(c, s);
    var (p, t) := GetPunctuation(s);
    ValueTurn(name, s, p, t);
    ValueTurn(name, [c] + s, p, t);
  }

  predicate Bare(w: string) {
    |w| < LIMIT && forall i :: 0 <= i < |w| ==> 'a' <= w[i] <= 'z'
  }

  // One ordinary character of a token outside quotes.
  lemma TokenLetter(c: char, t: string, acc: string)
    requires 'a' <= c <= 'z' && |acc| < LIMIT
    ensures TokenFrom([c] + t, NUL, acc) == TokenFrom(t, NUL, acc + [c])
  {
    assert ([c] + t)[1..] == t;
  }

  lemma TokenStops(rest: string, acc: string)
    requires Stops(rest)
    ensures TokenFrom(rest, NUL, acc) == (acc, rest)
  {
  }

  lemma {:induction false} BareBody(w: string, rest: string, acc: string)
    requires Bare(w) && |acc| + |w| < LIMIT && Stops(rest)
    ensures TokenFrom(w + rest, NUL, acc) == (acc + w, rest)
    decreases |w|
  {
    hide TokenFrom;
    if w == "" {
      assert w + rest == rest && acc + w == acc;
      TokenStops(rest, acc);
    } else {
      assert w + rest == [w[0]] + (w[1..] + rest);
      TokenLetter(w[0], w[1..] + rest, acc);
      BareBody(w[1..], rest, acc + [w[0]]);
      assert acc + [w[0]] + w[1..] == acc + w;
    }
  }

  // A bare word before punctuation.
  lemma ReadBare(w: string, rest: string)
    requires Bare(w) && w != "" && Stops(rest)
    ensures GetToken(w + rest) == (Some(w), rest)
  {
    BareBody(w, rest, "");
    assert "" + w == w;
    assert (w + rest)[0] == w[0];
  }

  lemma NameThenValue(s: string, name: string, t: string, u: string)
    requires GetToken(s) == (Some(name), t) && GetPunctuation(t) == (':', u)
    ensures GetElement(s) == GetValue(Some(name), u)
  {
    hide GetToken, GetPunctuation, GetValue;
  }

  // A quoted string as a value.
  lemma ValueQuoted(name: Option<string>, s: string, rest: string)
    requires Plain(s) && Ends(rest)
    ensures GetValue(name, " " + Quoted(s) + rest) == Read(Tree(name, Some(s), []), After(rest))
  {
    hide GetToken, GetPunctuation, GetComplex, GetMatrix, Quoted;
    TokenQuoted(s, rest);
    var text := Quoted(s) + rest;
    assert " " + Quoted(s) + rest == [' '] + text;
    BlankValue(name, ' ', text);
    ValueTurn(name, text, NUL, text);
  }

  // name: and what follows.
  lemma BareName(name: string, tail: string)
    requires Bare(name) && name != ""
    ensures GetElement(" " + name + ":" + tail) == GetValue(Some(name), tail)
  {
    hide GetToken, GetPunctuation, GetValue;
    var text := name + (":" + tail);
    assert " " + name + ":" + tail == [' '] + text;
    assert ":" + tail == [':'] + tail;
    ReadBare(name, ":" + tail);
    Blank(' ', text);
    Punct(':', tail);
    NameThenValue([' '] + text, name, ":" + tail, tail);
  }

  // name: "value", with the name bare or quoted.
  lemma BareMember(name: string, value: string, rest: string)
    requires Bare(name) && name != "" && Plain(value) && Ends(rest)
    ensures GetElement(" " + name + ": " + Quoted(value) + rest) == Read(Member(name, value), After(rest))
  {
    hide GetElement, GetValue, Quoted;
    BareValue(name, value, rest);
    ValueQuoted(Some(name), value, rest);
  }

  lemma BareValue(name: string, value: string, rest: string)
    requires Bare(name) && name != ""
    ensures GetElement(" " + name + ": " + Quoted(value) + rest) == GetValue(Some(name), " " + Quoted(value) + rest)
  {
    hide GetElement, GetValue, Quoted;
    var tail := " " + Quoted(value) + rest;
    assert " " + name + ": " + Quoted(value) + rest == " " + name + ":" + tail;
    BareName(name, tail);
  }

  lemma AttributeElement(a: Attribute, c: char, rest: string)
    requires (c == ' ' || c == '\n') && Plain(a.name) && Plain(a.value) && Ends(rest)
    ensures GetElement([c] + AttributeText(a) + rest) == Read(Member(a.name, a.value), After(rest))
  {
    hide GetElement, GetValue, Quoted, AttributeText;
    AttributeValue(a, c, rest);
    ValueQuoted(Some(a.name), a.value, rest);
  }

  lemma AttributeValue(a: Attribute, c: char, rest: string)
    requires (c == ' ' || c == '\n') && Plain(a.name)
    ensures GetElement([c] + AttributeText(a) + rest) == GetValue(Some(a.name), " " + Quoted(a.value) + rest)
  {
    hide GetToken, GetPunctuation, GetValue, Quoted;
    var tail := " " + Quoted(a.value) + rest;
    var text := Quoted(a.name) + (":" + tail);
    assert [c] + AttributeText(a) + rest == [c] + text;
    assert ":" + tail == [':'] + tail;
    TokenQuoted(a.name, ":" + tail);
    Blank(c, text);
    Punct(':', tail);
    NameThenValue([c] + text, a.name, ":" + tail, tail);
  }

  lemma {:induction false} SeparatedFront(texts: seq<string>)
    requires |texts| > 1
    ensures Separated(texts) == texts[0] + ",\n" + Separated(texts[1..])
  {
    var n := |texts| - 1;
    assert texts[1..][..n - 1] == texts[1..n] == texts[..n][1..];
    if n == 1 {
      assert texts[..n] == [texts[0]] && texts[1..] == [texts[1]];
    } else {
      SeparatedFront(texts[..n]);
      var front, mid, last := texts[0] + ",\n", Separated(texts[..n][1..]), ",\n" + texts[n];
      assert Separated(texts) == front + mid + ",\n" + texts[n] == front + (mid + ",\n" + texts[n]);
    }
  }

  lemma AttributesFront(attributes: seq<Attribute>)
    requires attributes != []
    ensures Separated(AttributeTexts(attributes)) ==
            if |attributes| == 1 then AttributeText(attributes[0])
            else AttributeText(attributes[0]) + ",\n" + Separated(AttributeTexts(attributes[1..]))
  {
    hide AttributeText;
    var texts := AttributeTexts(attributes);
    assert texts[1..] == AttributeTexts(attributes[1..]);
    if |attributes| > 1 {
      SeparatedFront(texts);
    }
  }

  lemma VisitsFront(visits: seq<Visit>)
    requires visits != []
    ensures Separated(VisitTexts(visits)) ==
            if |visits| == 1 then VisitText(visits[0])
            else VisitText(visits[0]) + ",\n" + Separated(VisitTexts(visits[1..]))
  {
    hide VisitText;
    var texts := VisitTexts(visits);
    assert texts[1..] == VisitTexts(visits[1..]);
    if |visits| > 1 {
      SeparatedFront(texts);
    }
  }

  // ----- the layout, with the pieces cut out

  lemma CutFirst(c: char, a: string, more: string, close: string)
    ensures [c] + (a + ",\n" + more) + close == [c] + a + ("," + ("\n" + more + close))
  {
  }

  lemma Nest<T>(x: seq<T>, y: seq<T>, z: seq<T>)
    ensures x + y + z == x + (y + z)
  {
  }

  lemma VisitShape(open: string, key: string, target: string, sep: string, key2: string, blank: string, list: string,
                   close: string, rest: string)
    ensures "\n" + (open + key + target + (sep + key2 + blank) + list + (close + close)) + rest ==
            "\n" + (open + (key + target + (sep + (key2 + (blank + list + close + (close + rest))))))
  {
    var head := open + key + target + (sep + key2 + blank) + list;
    Nest("\n", head + (close + close), rest);
    Nest(head, close + close, rest);
    Nest(close, close, rest);
    var r1 := close + (close + rest);
    Nest(open + key + target + (sep + key2 + blank), list, r1);
    Nest(open + key + target, sep + key2 + blank, list + r1);
    Nest(sep + key2, blank, list + r1);
    var r2 := blank + (list + r1);
    Nest(sep, key2, r2);
    Nest(open + key, target, sep + (key2 + r2));
    Nest(open, key, target + (sep + (key2 + r2)));
    Nest(key, target, sep + (key2 + r2));
    Nest(blank + list, close, close + rest);
    Nest(blank, list, r1);
  }

  lemma CutVisit(target: string, list: string, rest: string)
    ensures "\n" + ("{ contract: " + target + ", attributs: { " + list + " } }") + rest ==
            ['\n'] + (['{'] + (" " + "contract" + ": " + target +
                              ("," + (" " + "attributs" + ": " + ['{'] + (" " + list + " }" + (" }" + rest))))))
  {
    assert "{ contract: " == ['{'] + (" " + "contract" + ": ");
    assert ", attributs: { " == "," + (" " + "attributs" + ": " + ['{']) + " ";
    assert " } }" == " }" + " }";
    assert ['\n'] == "\n";
    VisitShape(['{'], " " + "contract" + ": ", target, ",", " " + "attributs" + ": " + ['{'], " ", list, " }", rest);
  }

  lemma CutReport(id: string, list: string)
    ensures "{ service: " + id + ", contracts: [\n" + list + " ] }\n" ==
            ['{'] + (" " + "service" + ": " + id +
                     ("," + (" " + "contracts" + ": " + ['['] + ("\n" + list + " ]" + " }\n"))))
  {
    var inner := "\n" + list + " ]" + " }\n";
    assert inner == "\n" + list + " ] }\n";
    var second := " " + "contracts" + ": " + ['['] + inner;
    assert second == " contracts: [\n" + list + " ] }\n";
    assert "," + second == ", contracts: [\n" + list + " ] }\n";
  }

  lemma OpenReport(filename: string, inner: string)
    ensures ParseFile(filename, ['{'] + inner) == GetComplex(Some(filename), [], inner)
  {
    hide GetComplex, GetMatrix, GetPunctuation;
    Punct('{', inner);
  }

  // A closing bracket behind a blank.
  lemma BlankClose(c: char, rest: string)
    requires Punctuation(c)
    ensures GetPunctuation(" " + [c] + rest) == (c, rest)
  {
    assert " " + [c] + rest == [' '] + ([c] + rest);
    Blank(' ', [c] + rest);
    Punct(c, rest);
  }

  // ----- reading the lists

  lemma {:induction false} ReadAttributes(name: Option<string>, done: seq<Tree>, attributes: seq<Attribute>, c: char,
                                          rest: string)
    requires attributes != [] && (c == ' ' || c == '\n')
    requires forall i :: 0 <= i < |attributes| ==> Plain(attributes[i].name) && Plain(attributes[i].value)
    ensures GetComplex(name, done, [c] + Separated(AttributeTexts(attributes)) + (" }" + rest)) ==
            Read(Tree(name, None, done + AttributeTrees(attributes)), rest)
    decreases |attributes|
  {
    hide GetElement, GetComplex, GetPunctuation, AttributeText, Plain, Separated, AttributeTexts, AttributeTrees;
    var first, close := attributes[0], " }" + rest;
    var text, kid := [c] + Separated(AttributeTexts(attributes)) + close, Member(first.name, first.value);
    AttributesFront(attributes);
    if |attributes| == 1 {
      assert close == " " + ['}'] + rest;
      CloseAfter('}', rest);
      AttributeElement(first, c, close);
      ComplexTurn(name, done, text, kid, After(close), '}', rest);
      OneAttributeTree(attributes);
    } else {
      var list := Separated(AttributeTexts(attributes[1..]));
      var more := "\n" + list + close;
      CutFirst(c, AttributeText(first), list, close);
      AttributeElement(first, c, "," + more);
      CommaAfter(more);
      ComplexTurn(name, done, text, kid, "," + more, ',', more);
      ReadAttributes(name, done + [kid], attributes[1..], '\n', rest);
      MoreAttributeTrees(done, attributes);
    }
  }

  lemma OneAttributeTree(attributes: seq<Attribute>)
    requires |attributes| == 1
    ensures AttributeTrees(attributes) == [Member(attributes[0].name, attributes[0].value)]
  {
  }

  lemma MoreAttributeTrees(done: seq<Tree>, attributes: seq<Attribute>)
    requires |attributes| > 1
    ensures done + AttributeTrees(attributes) ==
            done + [Member(attributes[0].name, attributes[0].value)] + AttributeTrees(attributes[1..])
  {
  }

  lemma CommaAfter(more: string)
    ensures Ends("," + more) && After("," + more) == "," + more && GetPunctuation("," + more) == (',', more)
  {
    assert "," + more == [','] + more;
    Punct(',', more);
  }

  lemma CloseAfter(c: char, rest: string)
    requires Punctuation(c)
    ensures Ends(" " + [c] + rest) && After(" " + [c] + rest) == [c] + rest && GetPunctuation([c] + rest) == (c, rest)
  {
    assert (" " + [c] + rest)[1..] == [c] + rest;
    Punct(c, rest);
  }

  // The phantom attribute of an empty list.
  lemma ReadNoAttributes(name: Option<string>, rest: string)
    ensures GetComplex(name, [], "  }" + rest) == Read(Tree(name, None, AttributeTrees([])), rest)
  {
    hide GetComplex, GetElement, GetToken, GetPunctuation;
    var close := ['}'] + rest;
    var text := [' '] + ([' '] + close);
    TwoBlanks(rest);
    Blank(' ', [' '] + close);
    Blank(' ', close);
    Punct('}', rest);
    NoToken(rest);
    NothingThenBrace(text, close, rest);
    ComplexTurn(name, [], text, Tree(Some(""), None, []), close, '}', rest);
  }

  lemma TwoBlanks(rest: string)
    ensures "  }" + rest == [' '] + ([' '] + (['}'] + rest))
  {
  }

  // A token that ends before it starts.
  lemma NoToken(rest: string)
    ensures GetToken(['}'] + rest) == (Some(""), ['}'] + rest)
  {
    hide TokenFrom;
    var s := ['}'] + rest;
    assert RemoveWhite(s) == (true, s);
    TokenStops(s, "");
  }

  lemma NothingThenBrace(s: string, t: string, u: string)
    requires GetToken(s) == (Some(""), t) && GetPunctuation(t) == ('}', u) && t == ['}'] + u
    ensures GetElement(s) == Read(Tree(Some(""), None, []), t)
  {
    hide GetToken, GetPunctuation, GetValue;
  }

  lemma ReadAttributeList(name: Option<string>, v: Visit, rest: string)
    requires PlainVisit(v)
    ensures GetComplex(name, [], " " + Separated(AttributeTexts(v.attributes)) + " }" + rest) ==
            Read(Tree(name, None, AttributeTrees(v.attributes)), rest)
  {
    hide GetComplex, AttributeText, Plain;
    var list := Separated(AttributeTexts(v.attributes));
    assert " " + list + " }" + rest == [' '] + list + (" }" + rest);
    if v.attributes == [] {
      assert list == "" && " " + list + " }" + rest == "  }" + rest;
      ReadNoAttributes(name, rest);
    } else {
      ReadAttributes(name, [], v.attributes, ' ', rest);
      assert [] + AttributeTrees(v.attributes) == AttributeTrees(v.attributes);
    }
  }

  // name: { or name: [ and what follows.
  lemma OpenMember(name: string, open: char, inner: string)
    requires Bare(name) && name != "" && (open == '{' || open == '[')
    ensures GetElement(" " + name + ": " + [open] + inner) ==
            if open == '{' then GetComplex(Some(name), [], inner) else GetMatrix(Some(name), [], inner)
  {
    hide GetElement, GetValue, GetComplex, GetMatrix;
    var tail := [' '] + ([open] + inner);
    assert " " + name + ": " + [open] + inner == " " + name + ":" + tail;
    BareName(name, tail);
    BlankValue(Some(name), ' ', [open] + inner);
    Punct(open, inner);
    ValueTurn(Some(name), [open] + inner, open, inner);
  }

  lemma ReadVisit(v: Visit, rest: string)
    requires PlainVisit(v)
    ensures GetValue(None, "\n" + VisitText(v) + rest) == Read(VisitTree(v), rest)
  {
    hide GetElement, GetValue, GetComplex, GetPunctuation, Quoted, Separated, AttributeTexts, AttributeTrees, Plain;
    var list := Separated(AttributeTexts(v.attributes));
    var inner := " " + list + " }" + (" }" + rest);
    var second := " " + "attributs" + ": " + ['{'] + inner;
    var first := " " + "contract" + ": " + Quoted(v.target) + ("," + second);
    CutVisit(Quoted(v.target), list, rest);
    OpenObject(first);
    CommaAfter(second);
    BareMember("contract", v.target, "," + second);
    ComplexTurn(None, [], first, Member("contract", v.target), "," + second, ',', second);
    ReadSecond(v, rest);
    Pair(None, Member("contract", v.target), second, Tree(Some("attributs"), None, AttributeTrees(v.attributes)),
         " }" + rest, rest);
  }

  // The second member of a contract, and the bracket behind it.
  lemma ReadSecond(v: Visit, rest: string)
    requires PlainVisit(v)
    ensures var inner := " " + Separated(AttributeTexts(v.attributes)) + " }" + (" }" + rest);
            GetElement(" " + "attributs" + ": " + ['{'] + inner) ==
            Read(Tree(Some("attributs"), None, AttributeTrees(v.attributes)), " }" + rest)
    ensures GetPunctuation(" }" + rest) == ('}', rest)
  {
    hide GetElement, GetComplex, GetPunctuation, Separated, AttributeTexts, AttributeTrees, PlainVisit;
    OpenMember("attributs", '{', " " + Separated(AttributeTexts(v.attributes)) + " }" + (" }" + rest));
    ReadAttributeList(Some("attributs"), v, " }" + rest);
    assert " }" + rest == " " + ['}'] + rest;
    BlankClose('}', rest);
  }

  lemma OpenObject(inner: string)
    ensures GetValue(None, ['\n'] + (['{'] + inner)) == GetComplex(None, [], inner)
  {
    hide GetValue, GetComplex;
    BlankValue(None, '\n', ['{'] + inner);
    Punct('{', inner);
    ValueTurn(None, ['{'] + inner, '{', inner);
  }

  lemma {:induction false} ReadVisits(name: Option<string>, done: seq<Tree>, visits: seq<Visit>, rest: string)
    requires visits != [] && forall i :: 0 <= i < |visits| ==> PlainVisit(visits[i])
    ensures GetMatrix(name, done, "\n" + Separated(VisitTexts(visits)) + (" ]" + rest)) ==
            Read(Tree(name, None, done + VisitTrees(visits)), rest)
    decreases |visits|
  {
    hide GetValue, GetMatrix, GetPunctuation, VisitText, VisitTree, PlainVisit, Separated, VisitTexts, VisitTrees;
    var first, close := visits[0], " ]" + rest;
    var text, kid := "\n" + Separated(VisitTexts(visits)) + close, VisitTree(first);
    VisitsFront(visits);
    if |visits| == 1 {
      assert close == " " + [']'] + rest;
      ReadVisit(first, close);
      BlankClose(']', rest);
      MatrixTurn(name, done, text, kid, close, ']', rest);
      OneVisitTree(visits);
    } else {
      var list := Separated(VisitTexts(visits[1..]));
      var more := "\n" + list + close;
      CutFirst('\n', VisitText(first), list, close);
      ReadVisit(first, "," + more);
      CommaAfter(more);
      MatrixTurn(name, done, text, kid, "," + more, ',', more);
      ReadVisits(name, done + [kid], visits[1..], rest);
      MoreVisitTrees(done, visits);
    }
  }

  lemma OneVisitTree(visits: seq<Visit>)
    requires |visits| == 1
    ensures VisitTrees(visits) == [VisitTree(visits[0])]
  {
  }

  lemma MoreVisitTrees(done: seq<Tree>, visits: seq<Visit>)
    requires |visits| > 1
    ensures done + VisitTrees(visits) == done + [VisitTree(visits[0])] + VisitTrees(visits[1..])
  {
    hide VisitTree;
  }

  // The phantom contract of an empty list.
  lemma ReadNoVisits(name: Option<string>, rest: string)
    ensures GetMatrix(name, [], "\n ]" + rest) == Read(Tree(name, None, VisitTrees([])), rest)
  {
    hide GetValue, GetMatrix, GetPunctuation;
    var close := [']'] + rest;
    var text := ['\n'] + ([' '] + close);
    assert "\n ]" + rest == text;
    Blank('\n', [' '] + close);
    Blank(' ', close);
    Punct(']', rest);
    ValueTurn(None, text, ']', rest);
    MatrixTurn(name, [], text, Tree(None, None, []), close, ']', rest);
  }

  /** Reading a report gives the service and exactly the visited contracts in order, each with its
      attributes in order.  Where a list is empty the parser puts one empty node in its place. */
  lemma ReportRoundTrip(filename: string, id: string, visits: seq<Visit>)
    requires Plain(id) && forall i :: 0 <= i < |visits| ==> PlainVisit(visits[i])
    ensures ParseFile(filename, ReportText(id, visits)) == Read(ReportTree(filename, id, visits), "\n")
  {
    hide ParseFile, GetElement, GetComplex, GetMatrix, GetPunctuation, Quoted, Separated, VisitTexts, VisitTrees;
    hide Plain, PlainVisit;
    var list := Separated(VisitTexts(visits));
    var second := " " + "contracts" + ": " + ['['] + ("\n" + list + " ]" + " }\n");
    var first := " " + "service" + ": " + Quoted(id) + ("," + second);
    CutReport(Quoted(id), list);
    OpenReport(filename, first);
    ReportMembers(Some(filename), id, visits, second, first);
  }

  // The two members of the report.
  lemma ReportMembers(root: Option<string>, id: string, visits: seq<Visit>, second: string, first: string)
    requires Plain(id) && forall i :: 0 <= i < |visits| ==> PlainVisit(visits[i])
    requires second == " " + "contracts" + ": " + ['['] + ("\n" + Separated(VisitTexts(visits)) + " ]" + " }\n")
    requires first == " " + "service" + ": " + Quoted(id) + ("," + second)
    ensures GetComplex(root, [], first) ==
            Read(Tree(root, None, [Member("service", id), Tree(Some("contracts"), None, VisitTrees(visits))]), "\n")
  {
    hide GetElement, GetComplex, GetPunctuation, Quoted, Separated, VisitTexts, VisitTrees, Plain, PlainVisit;
    var close := " }\n";
    CommaAfter(second);
    BareMember("service", id, "," + second);
    ComplexTurn(root, [], first, Member("service", id), "," + second, ',', second);
    ContractsMember(visits, close);
    assert close == " " + ['}'] + "\n";
    BlankClose('}', "\n");
    Pair(root, Member("service", id), second, Tree(Some("contracts"), None, VisitTrees(visits)), close, "\n");
  }

  // The second and last member of an object.
  lemma Pair(name: Option<string>, a: Tree, s: string, b: Tree, t: string, rest: string)
    requires GetElement(s) == Read(b, t) && GetPunctuation(t) == ('}', rest)
    ensures GetComplex(name, [] + [a], s) == Read(Tree(name, None, [a, b]), rest)
  {
    hide GetElement, GetComplex, GetPunctuation;
    ComplexTurn(name, [a], s, b, t, '}', rest);
    assert [] + [a] == [a] && [a] + [b] == [a, b];
  }

  lemma ContractsMember(visits: seq<Visit>, rest: string)
    requires forall i :: 0 <= i < |visits| ==> PlainVisit(visits[i])
    ensures GetElement(" " + "contracts" + ": " + ['['] + ("\n" + Separated(VisitTexts(visits)) + " ]" + rest)) ==
            Read(Tree(Some("contracts"), None, VisitTrees(visits)), rest)
  {
    hide GetElement, GetComplex, GetMatrix, Separated, VisitTexts, VisitTrees, PlainVisit;
    OpenMember("contracts", '[', "\n" + Separated(VisitTexts(visits)) + " ]" + rest);
    ReadContracts(Some("contracts"), visits, rest);
  }

  lemma ReadContracts(name: Option<string>, visits: seq<Visit>, rest: string)
    requires forall i :: 0 <= i < |visits| ==> PlainVisit(visits[i])
    ensures GetMatrix(name, [], "\n" + Separated(VisitTexts(visits)) + " ]" + rest) ==
            Read(Tree(name, None, VisitTrees(visits)), rest)
  {
    hide GetMatrix, VisitText, PlainVisit, VisitTree;
    var list := Separated(VisitTexts(visits));
    assert "\n" + list + " ]" + rest == "\n" + list + (" ]" + rest);
    if visits == [] {
      assert list == "" && "\n" + list + " ]" + rest == "\n ]" + rest;
      ReadNoVisits(name, rest);
    } else {
      ReadVisits(name, [], visits, rest);
      assert [] + VisitTrees(visits) == VisitTrees(visits);
    }
  }
}
