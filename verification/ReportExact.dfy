/** Which reports of broker/brokerservice.c read back as exactly what was visited. */
module ReportExact {
  import opened Basics
  import opened JsonText
  import opened JsonPrint
  import opened JsonTally
  import opened JsonExact
  import opened ServiceReport

  // The contracts of a report tree, with nothing in place of empty lists.
  function Wanted(visits: seq<Visit>): (r: seq<Tree>)
    ensures |r| == |visits|
  {
    seq(|visits|, i requires 0 <= i < |visits| => WantedVisit(visits[i]))
  }

  function WantedVisit(v: Visit): Tree {
    Tree(None, None, [Member("contract", v.target), WantedAttributes(v)])
  }

  function WantedAttributes(v: Visit): Tree { Tree(Some("attributs"), None, Members(v.attributes)) }

  function WantedReport(filename: string, id: string, visits: seq<Visit>): Tree {
    Tree(Some(filename), None, [Member("service", id), WantedContracts(visits)])
  }

  function WantedContracts(visits: seq<Visit>): Tree { Tree(Some("contracts"), None, Wanted(visits)) }

  // A contract with attributes and plain strings.
  predicate Good(v: Visit) { PlainVisit(v) && v.attributes != [] }

  predicate CleanAttribute(a: Attribute) { CleanText(a.name) && CleanText(a.value) }

  predicate CleanVisit(v: Visit) {
    CleanText(v.target) && forall i :: 0 <= i < |v.attributes| ==> CleanAttribute(v.attributes[i])
  }

  // ----- what reads back is clean

  lemma {:induction false} AttributeCounts(c: char, attributes: seq<Attribute>)
    requires c == '\\' || c == '\''
    ensures Count(c, Separated(AttributeTexts(attributes))) == CountTrees(c, Members(attributes))
    decreases |attributes|
  {
    hide Count, CountTree, AttributeText, Separated, AttributeTexts, Members;
    NoCounts(c);
    if attributes == [] {
      NoAttributes();
    } else {
      var first, rest := AttributeText(attributes[0]), Separated(AttributeTexts(attributes[1..]));
      AttributesFront(attributes);
      MembersFront(attributes);
      AttributeCounts(c, attributes[1..]);
      OneAttribute(c, attributes[0]);
      if |attributes| == 1 {
        assert attributes[1..] == [];
        NoAttributes();
      } else {
        Enclosed(c, first, ",\n", rest);
      }
    }
  }

  lemma NoAttributes()
    ensures Separated(AttributeTexts([])) == "" && Members([]) == []
  {
  }

  lemma MembersFront(attributes: seq<Attribute>)
    requires attributes != []
    ensures Members(attributes) == [Member(attributes[0].name, attributes[0].value)] + Members(attributes[1..])
  {
  }

  // The characters that the report adds.
  lemma NoCounts(c: char)
    requires c == '\\' || c == '\''
    ensures Count(c, "") == 0 && Count(c, ",\n") == 0 && Count(c, ": ") == 0 && Count(c, "\n") == 0
    ensures CountTrees(c, []) == 0
  {
    hide Count;
    CountNone(c, "");
    CountNone(c, ",\n");
    CountNone(c, ": ");
    CountNone(c, "\n");
  }

  lemma NoVisitCounts(c: char)
    requires c == '\\' || c == '\''
    ensures Count(c, "{ contract: ") == 0 && Count(c, ", attributs: { ") == 0 && Count(c, " } }") == 0
  {
    hide Count;
    CountNone(c, "{ contract: ");
    CountNone(c, ", attributs: { ");
    CountNone(c, " } }");
  }

  lemma NoReportCounts(c: char)
    requires c == '\\' || c == '\''
    ensures Count(c, "{ service: ") == 0 && Count(c, ", contracts: [\n") == 0 && Count(c, " ] }\n") == 0
  {
    hide Count;
    CountNone(c, "{ service: ");
    CountNone(c, ", contracts: [\n");
    CountNone(c, " ] }\n");
  }

  lemma MemberCounts(c: char, name: string, value: string)
    ensures CountTree(c, Member(name, value)) == Count(c, name) + Count(c, value)
  {
    hide Count, CountTree;
    CountParts(c, Member(name, value));
    assert CountTrees(c, []) == 0;
  }

  lemma OneAttribute(c: char, a: Attribute)
    requires c == '\\' || c == '\''
    ensures Count(c, AttributeText(a)) == CountTree(c, Member(a.name, a.value))
  {
    hide Count, CountTree, Quoted;
    NoCounts(c);
    MemberCounts(c, a.name, a.value);
    QuotedCounts(c, a.name);
    QuotedCounts(c, a.value);
    Enclosed(c, Quoted(a.name), ": ", Quoted(a.value));
  }

  lemma VisitCounts(c: char, v: Visit)
    requires c == '\\' || c == '\''
    ensures Count(c, VisitText(v)) <= CountTree(c, WantedVisit(v))
  {
    hide Count, CountTree, Quoted, Separated, AttributeTexts, Members, CountTrees;
    NoVisitCounts(c);
    var list := Separated(AttributeTexts(v.attributes));
    AttributeCounts(c, v.attributes);
    QuotedCounts(c, v.target);
    MemberCounts(c, "contract", v.target);
    Five(c, "{ contract: ", Quoted(v.target), ", attributs: { ", list, " } }");
    PairCounts(c, None, Member("contract", v.target), WantedAttributes(v));
    ListCounts(c, "attributs", Members(v.attributes));
  }

  lemma Five(c: char, p: string, q: string, r: string, s: string, t: string)
    ensures Count(c, p + q + r + s + t) == Count(c, p) + Count(c, q) + Count(c, r) + Count(c, s) + Count(c, t)
  {
    hide Count;
    CountAppend(c, p + q + r + s, t);
    CountAppend(c, p + q + r, s);
    Enclosed(c, p, q, r);
  }

  lemma PairCounts(c: char, name: Option<string>, x: Tree, y: Tree)
    ensures CountBody(c, Tree(name, None, [x, y])) == CountTree(c, x) + CountTree(c, y)
    ensures CountTree(c, Tree(None, None, [x, y])) == CountTree(c, x) + CountTree(c, y)
  {
    hide CountTree;
    assert [x, y][1..] == [y] && [y][1..] == [];
    assert CountTrees(c, [y]) == CountTree(c, y);
    CountParts(c, Tree(None, None, [x, y]));
  }

  lemma ListCounts(c: char, name: string, kids: seq<Tree>)
    ensures CountTree(c, Tree(Some(name), None, kids)) == Count(c, name) + CountTrees(c, kids)
  {
    hide Count, CountTrees;
    CountParts(c, Tree(Some(name), None, kids));
  }

  lemma WantedFront(visits: seq<Visit>)
    requires visits != []
    ensures Wanted(visits) == [WantedVisit(visits[0])] + Wanted(visits[1..])
  {
  }

  lemma NoVisits()
    ensures Separated(VisitTexts([])) == "" && Wanted([]) == []
  {
  }

  lemma {:induction false} VisitsCounts(c: char, visits: seq<Visit>)
    requires c == '\\' || c == '\''
    ensures Count(c, Separated(VisitTexts(visits))) <= CountTrees(c, Wanted(visits))
    decreases |visits|
  {
    hide Count, CountTree, VisitText, Separated, VisitTexts, Wanted, WantedVisit;
    NoCounts(c);
    if visits == [] {
      NoVisits();
    } else {
      VisitsFront(visits);
      WantedFront(visits);
      VisitsCounts(c, visits[1..]);
      VisitCounts(c, visits[0]);
      if |visits| == 1 {
        assert visits[1..] == [];
        NoVisits();
      } else {
        Enclosed(c, VisitText(visits[0]), ",\n", Separated(VisitTexts(visits[1..])));
      }
    }
  }

  lemma ReportCounts(c: char, filename: string, id: string, visits: seq<Visit>)
    requires c == '\\' || c == '\''
    ensures Count(c, ReportText(id, visits)) <= CountBody(c, WantedReport(filename, id, visits))
  {
    hide Count, CountTree, CountTrees, CountBody, Quoted, Separated, VisitTexts, Wanted;
    NoReportCounts(c);
    VisitsCounts(c, visits);
    QuotedCounts(c, id);
    MemberCounts(c, "service", id);
    Five(c, "{ service: ", Quoted(id), ", contracts: [\n", Separated(VisitTexts(visits)), " ] }\n");
    PairCounts(c, Some(filename), Member("service", id), WantedContracts(visits));
    ListCounts(c, "contracts", Wanted(visits));
  }

  lemma BodyIsClean(s: string, rest: string, t: Tree)
    requires BodyBalanced(s, rest, t) && Count('\'', rest) == 0
    requires Count('\\', s) <= CountBody('\\', t) && Count('\'', s) <= CountBody('\'', t)
    ensures CountBody('\\', t) == 0 && CountBody('"', t) == 0 && CountBody(NUL, t) == 0
  {
    hide Count, CountBody;
  }

  lemma CleanUnnamed(t: Tree)
    requires CountBody('\\', t) == 0 && CountBody('"', t) == 0 && CountBody(NUL, t) == 0
    ensures Clean(t.(name := None))
  {
    hide Count, CountTrees;
  }

  lemma CleanMember(name: string, value: string)
    requires Clean(Member(name, value))
    ensures CleanText(name) && CleanText(value)
  {
    hide Clean;
    CleanParts(Member(name, value));
  }

  lemma CleanWantedVisit(v: Visit)
    requires Clean(WantedVisit(v))
    ensures CleanVisit(v)
  {
    hide Clean, CleanText;
    var t := WantedVisit(v);
    CleanParts(t);
    assert t.kids[0] == Member("contract", v.target) && t.kids[1] == WantedAttributes(v);
    CleanMember("contract", v.target);
    CleanParts(t.kids[1]);
    forall i | 0 <= i < |v.attributes|
      ensures CleanAttribute(v.attributes[i])
    {
      assert t.kids[1].kids[i] == Member(v.attributes[i].name, v.attributes[i].value);
      CleanMember(v.attributes[i].name, v.attributes[i].value);
    }
  }

  // A report that reads back whole has clean strings.
  lemma ReadIsClean(filename: string, id: string, visits: seq<Visit>)
    requires ParseFile(filename, ReportText(id, visits)) == Read(WantedReport(filename, id, visits), "\n")
    ensures CleanText(id) && forall i :: 0 <= i < |visits| ==> CleanVisit(visits[i])
  {
    hide ParseFile, GetValue, ReportText, BodyBalanced, Clean, CleanText, CleanVisit, WantedVisit, Count;
    var text, t := ReportText(id, visits), WantedReport(filename, id, visits);
    FileIsValue(text, filename);
    ValueBalanced(Some(filename), text);
    ReportCounts('\\', filename, id, visits);
    ReportCounts('\'', filename, id, visits);
    NoCounts('\'');
    BodyIsClean(text, "\n", t);
    CleanUnnamed(t);
    CleanParts(t.(name := None));
    assert t.kids[0] == Member("service", id) && t.kids[1] == WantedContracts(visits);
    CleanMember("service", id);
    CleanParts(t.kids[1]);
    forall i | 0 <= i < |visits|
      ensures CleanVisit(visits[i])
    {
      assert t.kids[1].kids[i] == WantedVisit(visits[i]);
      CleanWantedVisit(visits[i]);
    }
  }

  // ----- strings that are too long

  // A quoted value that is too long is cut, or leaves its closing quote behind.
  lemma LongValue(name: Option<string>, s: string, rest: string)
    requires CleanText(s) && !Plain(s)
    ensures var p := GetValue(name, " " + Quoted(s) + rest);
            p.Read? && p.tree == Tree(name, Some(s), []) ==> Stuck(p.rest)
  {
    hide GetValue, GetToken, GetComplex, GetMatrix, GetPunctuation, Quoted, Stuck;
    var text := Quoted(s) + rest;
    assert " " + Quoted(s) + rest == [' '] + text;
    BlankValue(name, ' ', text);
    LongToken(s, rest);
    ValueTurn(name, text, NUL, text);
    if |s| == LIMIT {
      assert s[..LIMIT] == s && s[LIMIT..] + "\"" + rest == "\"" + rest;
      QuoteSticks(rest);
    }
  }

  lemma LongMember(name: string, value: string, rest: string)
    requires Bare(name) && name != "" && CleanText(value) && !Plain(value)
    ensures var p := GetElement(" " + name + ": " + Quoted(value) + rest);
            p.Read? && p.tree == Member(name, value) ==> Stuck(p.rest)
  {
    hide GetElement, GetValue, Quoted, Stuck, CleanText, Plain;
    BareValue(name, value, rest);
    LongValue(Some(name), value, rest);
  }

  lemma LongAttribute(a: Attribute, c: char, rest: string)
    requires (c == ' ' || c == '\n') && CleanAttribute(a) && !(Plain(a.name) && Plain(a.value))
    ensures var p := GetElement([c] + AttributeText(a) + rest);
            p.Read? && p.tree == Member(a.name, a.value) ==> Stuck(p.rest)
  {
    hide GetElement, GetValue, GetToken, Quoted, Stuck, Plain, AttributeText;
    if Plain(a.name) {
      AttributeValue(a, c, rest);
      LongValue(Some(a.name), a.value, rest);
    } else {
      LongName(a, c, rest);
    }
  }

  lemma LongName(a: Attribute, c: char, rest: string)
    requires (c == ' ' || c == '\n') && CleanText(a.name) && !Plain(a.name)
    ensures var p := GetElement([c] + AttributeText(a) + rest); p.Read? ==> p.tree.name != Some(a.name)
  {
    hide GetToken, GetValue, GetPunctuation, Quoted;
    var tail := ": " + Quoted(a.value) + rest;
    var text := Quoted(a.name) + tail;
    assert [c] + AttributeText(a) + rest == [c] + text;
    Blank(c, text);
    LongToken(a.name, tail);
    ElementName([c] + text);
    if |a.name| == LIMIT {
      assert a.name[..LIMIT] == a.name && a.name[LIMIT..] + "\"" + tail == "\"" + tail;
      QuoteSticks(tail);
    }
  }

  // ----- lists with something that does not survive

  lemma {:induction false} AttributesBack(name: Option<string>, done: seq<Tree>, attributes: seq<Attribute>, c: char,
                                          rest: string)
    requires attributes != [] && (c == ' ' || c == '\n')
    requires forall i :: 0 <= i < |attributes| ==> CleanAttribute(attributes[i])
    requires exists i :: 0 <= i < |attributes| && !(Plain(attributes[i].name) && Plain(attributes[i].value))
    ensures var p := GetComplex(name, done, [c] + Separated(AttributeTexts(attributes)) + (" }" + rest));
            p.Read? ==> p.tree.kids != done + Members(attributes)
    decreases |attributes|
  {
    hide GetElement, GetComplex, GetPunctuation, AttributeText, CleanAttribute, Plain;
    hide Separated, AttributeTexts, Members, Stuck;
    var first, close := attributes[0], " }" + rest;
    var text := [c] + Separated(AttributeTexts(attributes)) + close;
    AttributesFront(attributes);
    MembersFront(attributes);
    if !(Plain(first.name) && Plain(first.value)) {
      var list := Separated(AttributeTexts(attributes[1..]));
      var tail := if |attributes| == 1 then close else "," + ("\n" + list + close);
      CutFirst(c, AttributeText(first), list, close);
      LongAttribute(first, c, tail);
      assert text == [c] + AttributeText(first) + tail;
      ComplexFirst(name, done, Members(attributes), text);
    } else {
      var list := Separated(AttributeTexts(attributes[1..]));
      var more := "\n" + list + close;
      CutFirst(c, AttributeText(first), list, close);
      CommaAfter(more);
      AttributeElement(first, c, "," + more);
      ComplexTurn(name, done, text, Member(first.name, first.value), "," + more, ',', more);
      AttributesBack(name, done + [Member(first.name, first.value)], attributes[1..], '\n', rest);
      Nest(done, [Member(first.name, first.value)], Members(attributes[1..]));
    }
  }

  // A list in brackets is never read as empty.
  lemma ComplexNonEmpty(name: Option<string>, text: string)
    ensures var p := GetComplex(name, [], text); p.Read? ==> p.tree.kids != []
  {
    hide GetElement, GetPunctuation, BodyBalanced, TreeBalanced;
    LoopFails(name, [], text);
    var e := GetElement(text);
    if e.Read? {
      var (c, u) := GetPunctuation(e.rest);
      ComplexTurn(name, [], text, e.tree, e.rest, c, u);
      ComplexBalanced(name, [] + [e.tree], u);
    }
  }

  lemma AttributeListBack(v: Visit, rest: string)
    requires CleanVisit(v) && Plain(v.target) && !Good(v)
    ensures var p := GetComplex(Some("attributs"), [], " " + Separated(AttributeTexts(v.attributes)) + " }" + rest);
            p.Read? ==> p.tree != WantedAttributes(v)
  {
    hide GetComplex, AttributeText, AttributeTexts, Separated, Members, Plain, CleanAttribute;
    var list := Separated(AttributeTexts(v.attributes));
    assert " " + list + " }" + rest == [' '] + list + (" }" + rest);
    if v.attributes == [] {
      NoAttributes();
      ComplexNonEmpty(Some("attributs"), " " + list + " }" + rest);
    } else {
      AttributesBack(Some("attributs"), [], v.attributes, ' ', rest);
      assert [] + Members(v.attributes) == Members(v.attributes);
    }
  }

  lemma VisitBack(v: Visit, rest: string)
    requires CleanVisit(v) && !Good(v)
    ensures var p := GetValue(None, "\n" + VisitText(v) + rest); p.Read? ==> p.tree != WantedVisit(v)
  {
    hide GetElement, GetValue, GetComplex, GetPunctuation, Quoted, Separated, AttributeTexts;
    hide Plain, Stuck, CleanVisit, Good;
    var list := Separated(AttributeTexts(v.attributes));
    var inner := " " + list + " }" + (" }" + rest);
    var second := " " + "attributs" + ": " + ['{'] + inner;
    var first := " " + "contract" + ": " + Quoted(v.target) + ("," + second);
    var contract, attributs := Member("contract", v.target), WantedAttributes(v);
    CutVisit(Quoted(v.target), list, rest);
    OpenObject(first);
    assert CleanText(v.target) by { CleanTarget(v); }
    assert [] + [contract, attributs] == [contract, attributs];
    ComplexFirst(None, [], [contract, attributs], first);
    if !Plain(v.target) {
      LongMember("contract", v.target, "," + second);
    } else {
      CommaAfter(second);
      BareMember("contract", v.target, "," + second);
      ComplexTurn(None, [], first, contract, "," + second, ',', second);
      assert [] + [contract] == [contract] && [contract] + [attributs] == [contract, attributs];
      ComplexFirst(None, [contract], [attributs], second);
      OpenMember("attributs", '{', inner);
      AttributeListBack(v, " }" + rest);
    }
  }

  lemma CleanTarget(v: Visit)
    requires CleanVisit(v)
    ensures CleanText(v.target)
  {
  }

  lemma GoodTree(v: Visit)
    requires Good(v)
    ensures PlainVisit(v) && VisitTree(v) == WantedVisit(v)
  {
  }

  lemma {:induction false} VisitsBack(name: Option<string>, done: seq<Tree>, visits: seq<Visit>, rest: string)
    requires visits != [] && forall i :: 0 <= i < |visits| ==> CleanVisit(visits[i])
    requires exists i :: 0 <= i < |visits| && !Good(visits[i])
    ensures var p := GetMatrix(name, done, "\n" + Separated(VisitTexts(visits)) + (" ]" + rest));
            p.Read? ==> p.tree.kids != done + Wanted(visits)
    decreases |visits|
  {
    hide GetValue, GetMatrix, GetPunctuation, VisitText, VisitTree, WantedVisit, CleanVisit, Good;
    hide Separated, VisitTexts, Wanted, Stuck;
    var first, close := visits[0], " ]" + rest;
    var text, list := "\n" + Separated(VisitTexts(visits)) + close, Separated(VisitTexts(visits[1..]));
    VisitsFront(visits);
    WantedFront(visits);
    CutFirst('\n', VisitText(first), list, close);
    if !Good(first) {
      var tail := if |visits| == 1 then close else "," + ("\n" + list + close);
      assert text == "\n" + VisitText(first) + tail;
      VisitBack(first, tail);
      MatrixFirst(name, done, Wanted(visits), text);
    } else {
      var more := "\n" + list + close;
      GoodTree(first);
      ReadVisit(first, "," + more);
      CommaAfter(more);
      MatrixTurn(name, done, text, WantedVisit(first), "," + more, ',', more);
      VisitsBack(name, done + [WantedVisit(first)], visits[1..], rest);
      Nest(done, [WantedVisit(first)], Wanted(visits[1..]));
    }
  }

  lemma ContractsBack(visits: seq<Visit>, rest: string)
    requires forall i :: 0 <= i < |visits| ==> CleanVisit(visits[i])
    requires visits == [] || exists i :: 0 <= i < |visits| && !Good(visits[i])
    ensures var p := GetMatrix(Some("contracts"), [], "\n" + Separated(VisitTexts(visits)) + " ]" + rest);
            p.Read? ==> p.tree != WantedContracts(visits)
  {
    hide GetMatrix, VisitText, CleanVisit, Good, WantedVisit;
    var list := Separated(VisitTexts(visits));
    assert "\n" + list + " ]" + rest == "\n" + list + (" ]" + rest);
    if visits == [] {
      NoVisits();
      assert "\n" + list + " ]" + rest == "\n ]" + rest;
      ReadNoVisits(Some("contracts"), rest);
    } else {
      VisitsBack(Some("contracts"), [], visits, rest);
      assert [] + Wanted(visits) == Wanted(visits);
    }
  }

  predicate GoodReport(id: string, visits: seq<Visit>) {
    Plain(id) && visits != [] && forall i :: 0 <= i < |visits| ==> Good(visits[i])
  }

  lemma ReportBack(filename: string, id: string, visits: seq<Visit>)
    requires CleanText(id) && (forall i :: 0 <= i < |visits| ==> CleanVisit(visits[i])) && !GoodReport(id, visits)
    ensures var p := ParseFile(filename, ReportText(id, visits));
            p.Read? ==> p.tree != WantedReport(filename, id, visits)
  {
    hide ParseFile, GetElement, GetComplex, GetMatrix, GetPunctuation, Quoted, Separated, VisitTexts, Wanted;
    hide Plain, CleanText, CleanVisit, Good, Stuck;
    var list, close, root := Separated(VisitTexts(visits)), " }\n", Some(filename);
    var inner := "\n" + list + " ]" + close;
    var second := " " + "contracts" + ": " + ['['] + inner;
    var first := " " + "service" + ": " + Quoted(id) + ("," + second);
    var service, contracts := Member("service", id), WantedContracts(visits);
    CutReport(Quoted(id), list);
    OpenReport(filename, first);
    assert [] + [service, contracts] == [service, contracts];
    ComplexFirst(root, [], [service, contracts], first);
    if !Plain(id) {
      LongMember("service", id, "," + second);
    } else {
      CommaAfter(second);
      BareMember("service", id, "," + second);
      ComplexTurn(root, [], first, service, "," + second, ',', second);
      assert [] + [service] == [service] && [service] + [contracts] == [service, contracts];
      ComplexFirst(root, [service], [contracts], second);
      OpenMember("contracts", '[', inner);
      ContractsBack(visits, close);
    }
  }

  // ----- main result

  /** The report reads back as the service and exactly what was visited, whatever the strings, exactly when
      there is a contract, every contract has an attribute and all strings are plain. */
  lemma FaithfulExact(filename: string, id: string, visits: seq<Visit>)
    ensures ParseFile(filename, ReportText(id, visits)) == Read(WantedReport(filename, id, visits), "\n") <==>
            GoodReport(id, visits)
  {
    hide ParseFile, ReportText, WantedReport, Plain, CleanText, CleanVisit, Good;
    if GoodReport(id, visits) {
      GoodReads(filename, id, visits);
    } else if ParseFile(filename, ReportText(id, visits)) == Read(WantedReport(filename, id, visits), "\n") {
      ReadIsClean(filename, id, visits);
      ReportBack(filename, id, visits);
    }
  }

  lemma GoodReads(filename: string, id: string, visits: seq<Visit>)
    requires GoodReport(id, visits)
    ensures ParseFile(filename, ReportText(id, visits)) == Read(WantedReport(filename, id, visits), "\n")
  {
    hide ParseFile, ReportText, Plain, Good, WantedVisit, VisitTree;
    forall i | 0 <= i < |visits|
      ensures PlainVisit(visits[i]) && VisitTree(visits[i]) == WantedVisit(visits[i])
    {
      GoodTree(visits[i]);
    }
    ReportRoundTrip(filename, id, visits);
    assert VisitTrees(visits) == Wanted(visits);
  }
}
