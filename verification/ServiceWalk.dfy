/** The walks of broker/brokerservice.c along the link table: service_action forwards,
    reverse_service_action backwards. */
module ServiceWalk {
  import opened Basics
  import opened CText
  import opened JsonText
  import opened JsonPrint
  import opened ServiceReport

  /** A link from a service to one of its contracts; a link node may be empty. */
  datatype Link = Link(source: Option<string>, target: Option<string>)

  /** What a contract answers when it is asked for its attributes before and after the action. */
  datatype Reply = Reply(before: Option<seq<Attribute>>, after: Option<seq<Attribute>>)

  /** The answers met by one walk, by position in the link table. */
  type World = nat -> Reply

  datatype Contract = Contract(target: string, reply: Reply)

  /** A call of cords_invoke_action. */
  datatype Issue = Issue(target: string, action: string)

  // ----- which links belong to a service

  // occi_category_id: what follows the last slash.
  function CategoryId(s: string): (r: string)
    ensures '/' !in r && |r| <= |s| && s[|s| - |r|..] == r
    ensures if '/' in s then |r| < |s| && s[|s| - |r| - 1] == '/' else r == s
  {
    if '/' !in s then s else CategoryId(s[1..])
  }

  predicate Mine(link: Option<Link>, id: string) {
    link.Some? && link.value.source.Some? && link.value.target.Some? && CategoryId(link.value.source.value) == id
  }

  /** A link belongs to the service when its source is the identifier, or ends with it behind a slash. */
  lemma MineExact(source: string, target: string, id: string)
    ensures Mine(Some(Link(Some(source), Some(target))), id) <==>
            '/' !in id && (source == id || (|id| < |source| && source[|source| - |id| - 1..] == "/" + id))
  {
    hide CategoryId;
    var r := CategoryId(source);
    if '/' in source {
      assert source[|source| - |r| - 1..] == "/" + r;
    }
    if '/' !in id && |id| < |source| && source[|source| - |id| - 1..] == "/" + id {
      var k := |source| - |id| - 1;
      assert source[k] == source[k..][0] == '/';
      SameTail(source, r, id);
    }
  }

  lemma SameTail(source: string, r: string, id: string)
    requires '/' !in r && |r| < |source| && source[|source| - |r| - 1] == '/' && source[|source| - |r|..] == r
    requires '/' !in id && |id| < |source| && source[|source| - |id| - 1..] == "/" + id
    ensures r == id
  {
    var k := |source| - |id| - 1;
    assert source[k..][0] == '/' && source[k..][1..] == id == source[k + 1..];
    NoSlash(source, r);
    NoSlash(source, id);
  }

  lemma NoSlash(source: string, r: string)
    requires '/' !in r && |r| <= |source| && source[|source| - |r|..] == r
    ensures forall p | |source| - |r| <= p < |source| :: source[p] != '/'
  {
    forall p | |source| - |r| <= p < |source|
      ensures source[p] != '/'
    {
      assert source[p] == r[p - (|source| - |r|)];
    }
  }

  // The contracts of the service from position i of the table on.
  function Linked(links: seq<Option<Link>>, id: string, world: World, i: nat): seq<Contract>
    requires i <= |links|
    decreases |links| - i
  {
    if i == |links| then []
    else if Mine(links[i], id) then [Contract(links[i].value.target.value, world(i))] + Linked(links, id, world, i + 1)
    else Linked(links, id, world, i + 1)
  }

  // ----- what a walk does

  // The flag that keeps a contract out of a forward walk is the lowest bit of its flags.
  predicate Inhibited(attributes: seq<Attribute>) {
    if attributes == [] then false
    else if attributes[0].name == "occi.contract.flags" then Int32(Atoi(attributes[0].value)) % 2 == 1
    else Inhibited(attributes[1..])
  }

  lemma {:induction false} FlagFound(attributes: seq<Attribute>, i: nat)
    requires i <= |attributes| && forall j | 0 <= j < i :: attributes[j].name != "occi.contract.flags"
    ensures Inhibited(attributes) <==> Inhibited(attributes[i..])
  {
    if i > 0 {
      FlagFound(attributes[1..], i - 1);
      assert attributes[1..][i - 1..] == attributes[i..];
    }
  }

  /** The first attribute of that name decides: an odd number inhibits, whatever its sign and size, and an
      even one does not. */
  lemma InhibitedExact(attributes: seq<Attribute>, i: nat, lead: string, sign: string, n: nat, rest: string)
    requires i < |attributes| && attributes[i].name == "occi.contract.flags"
    requires forall j | 0 <= j < i :: attributes[j].name != "occi.contract.flags"
    requires attributes[i].value == lead + (sign + (Decimal(n) + rest))
    requires forall k | 0 <= k < |lead| :: lead[k] in SPACES
    requires sign == "" || sign == "+" || sign == "-"
    requires rest == "" || rest[0] !in DIGITS
    ensures Inhibited(attributes) <==> n % 2 == 1
  {
    hide Atoi, Decimal, Inhibited, Int32;
    FlagFound(attributes, i);
    FlagFirst(attributes[i..]);
    AtoiPrinted(lead, sign, n, rest);
    SameParity(Atoi(attributes[i].value));
  }

  lemma FlagFirst(attributes: seq<Attribute>)
    requires attributes != [] && attributes[0].name == "occi.contract.flags"
    ensures Inhibited(attributes) <==> Int32(Atoi(attributes[0].value)) % 2 == 1
  {
    hide Atoi, Int32;
  }

  lemma SameParity(x: int)
    ensures Int32(x) % 2 == x % 2
  {
  }

  /** Without it, or with a value that is no number, nothing is inhibited. */
  lemma NotInhibited(attributes: seq<Attribute>, i: nat)
    requires i <= |attributes| && forall j | 0 <= j < i :: attributes[j].name != "occi.contract.flags"
    requires i < |attributes| ==> attributes[i].name == "occi.contract.flags"
    requires i < |attributes| && attributes[i].value != "" ==>
               attributes[i].value[0] !in SPACES && attributes[i].value[0] !in "+-" + DIGITS
    ensures !Inhibited(attributes)
  {
    hide Atoi, Inhibited;
    FlagFound(attributes, i);
    if i < |attributes| {
      var value := attributes[i].value;
      FlagFirst(attributes[i..]);
      if value == "" { NothingIsZero(); } else { AtoiOther(value); }
      SameParity(0);
    } else {
      NoFlags();
    }
  }

  lemma NothingIsZero()
    ensures Atoi("") == 0
  {
  }

  lemma NoFlags()
    ensures !Inhibited([])
  {
  }

  function Answer(answer: Option<seq<Attribute>>): seq<Attribute> { if answer.Some? then answer.value else [] }

  // A forward walk passes over contracts that do not answer, and only reports inhibited ones.
  function IssuedTo(c: Contract, action: string): seq<Issue> {
    if c.reply.before.Some? && !Inhibited(c.reply.before.value) then [Issue(c.target, action)] else []
  }

  function VisitTo(c: Contract): seq<Visit> {
    if c.reply.before.None? then []
    else if Inhibited(c.reply.before.value) then [Visit(c.target, c.reply.before.value)]
    else [Visit(c.target, Answer(c.reply.after))]
  }

  function Issued(contracts: seq<Contract>, action: string): seq<Issue> {
    if contracts == [] then [] else IssuedTo(contracts[0], action) + Issued(contracts[1..], action)
  }

  function Visited(contracts: seq<Contract>): seq<Visit> {
    if contracts == [] then [] else VisitTo(contracts[0]) + Visited(contracts[1..])
  }

  // A backward walk treats every contract alike, the last one first.
  function IssuedBack(contracts: seq<Contract>, action: string): (r: seq<Issue>)
    ensures |r| == |contracts|
    ensures forall k :: 0 <= k < |r| ==> r[k] == Issue(contracts[|contracts| - 1 - k].target, action)
  {
    seq(|contracts|, k requires 0 <= k < |contracts| => Issue(contracts[|contracts| - 1 - k].target, action))
  }

  function VisitedBack(contracts: seq<Contract>): (r: seq<Visit>)
    ensures |r| == |contracts|
  {
    seq(|contracts|, k requires 0 <= k < |contracts| =>
      Visit(contracts[|contracts| - 1 - k].target, Answer(contracts[|contracts| - 1 - k].reply.after)))
  }

  lemma BackMore(c: Contract, contracts: seq<Contract>, action: string)
    ensures IssuedBack([c] + contracts, action) == IssuedBack(contracts, action) + [Issue(c.target, action)]
    ensures VisitedBack([c] + contracts) == VisitedBack(contracts) + [Visit(c.target, Answer(c.reply.after))]
  {
  }

  lemma ForwardMore(c: Contract, contracts: seq<Contract>, action: string)
    ensures Issued([c] + contracts, action) == IssuedTo(c, action) + Issued(contracts, action)
    ensures Visited([c] + contracts) == VisitTo(c) + Visited(contracts)
  {
    assert ([c] + contracts)[1..] == contracts;
  }

  // ----- the text of a report as it grows

  function Opening(id: string): string { "{ service: " + Quoted(id) + ", contracts: [\n" }

  function Behind(comma: bool): string { if comma then ",\n" else "" }

  lemma SeparatedMore(texts: seq<string>, text: string)
    ensures Separated(texts + [text]) == Separated(texts) + Behind(texts != []) + text
  {
    assert (texts + [text])[..|texts|] == texts;
    if texts == [] {
      assert texts + [text] == [text];
    }
  }

  lemma AttributesMore(attributes: seq<Attribute>, i: nat)
    requires i < |attributes|
    ensures Separated(AttributeTexts(attributes[..i + 1])) ==
            Separated(AttributeTexts(attributes[..i])) + Behind(i > 0) + AttributeText(attributes[i])
  {
    hide AttributeText, Separated;
    assert AttributeTexts(attributes[..i + 1]) == AttributeTexts(attributes[..i]) + [AttributeText(attributes[i])];
    SeparatedMore(AttributeTexts(attributes[..i]), AttributeText(attributes[i]));
  }

  lemma VisitsMore(done: seq<Visit>, v: Visit)
    ensures Separated(VisitTexts(done + [v])) == Separated(VisitTexts(done)) + Behind(done != []) + VisitText(v)
  {
    hide VisitText, Separated;
    assert VisitTexts(done + [v]) == VisitTexts(done) + [VisitText(v)];
    SeparatedMore(VisitTexts(done), VisitText(v));
  }

  lemma DoneMore(id: string, done: seq<Visit>, c: Contract)
    ensures |VisitTo(c)| <= 1
    ensures Opening(id) + Separated(VisitTexts(done + VisitTo(c))) ==
            if VisitTo(c) == [] then Opening(id) + Separated(VisitTexts(done))
            else Opening(id) + Separated(VisitTexts(done)) + Behind(done != []) + VisitText(VisitTo(c)[0])
  {
    hide Separated, VisitText, Inhibited, Opening;
    if c.reply.before.None? {
      assert done + [] == done;
    } else {
      VisitsMore(done, VisitTo(c)[0]);
    }
  }

  lemma ReportCloses(id: string, visits: seq<Visit>)
    ensures Opening(id) + Separated(VisitTexts(visits)) + " ] }\n" == ReportText(id, visits)
  {
  }

  lemma NoAttributes()
    ensures Separated(AttributeTexts([])) == ""
  {
  }

  lemma VisitCloses(target: string, attributes: seq<Attribute>)
    ensures "{ contract: " + Quoted(target) + ", attributs: { " + Separated(AttributeTexts(attributes)) + " } }" ==
            VisitText(Visit(target, attributes))
  {
  }

  lemma Nested(start: string, head: string, list: string, close: string)
    ensures start + head + list + close == start + (head + list + close)
  {
  }

  datatype State = Idle | Running | Suspended

  /** struct cords_service, with what its walks send out: the actions issued and the report file. */
  class Service {
    const id: string
    var state: State
    var when: int
    var contracts: nat
    var issued: seq<Issue>
    var report: string

    constructor (id: string)
      ensures this.id == id && state == Idle && issued == []
    {
      this.id := id;
      state, when, contracts, issued, report := Idle, 0, 0, [], "";
    }

    method WriteAttributes(attributes: seq<Attribute>)
      modifies this`report
      ensures report == old(report) + Separated(AttributeTexts(attributes))
    {
      hide Separated, AttributeText, AttributeTexts;
      var items := 0;
      ghost var done := "";
      assert done == Separated(AttributeTexts(attributes[..0])) by { NoAttributes(); }
      for i := 0 to |attributes|
        invariant items == i && done == Separated(AttributeTexts(attributes[..i]))
        invariant report == old(report) + done
      {
        AttributesMore(attributes, i);
        if items > 0 { report := report + ",\n"; }
        items := items + 1;
        report := report + AttributeText(attributes[i]);
        done := done + Behind(i > 0) + AttributeText(attributes[i]);
      }
      assert attributes[..|attributes|] == attributes;
    }

    // One contract of a report; an answer that did not come leaves its attributes empty.
    method WriteContract(target: string, answer: Option<seq<Attribute>>)
      modifies this`contracts, this`report
      ensures contracts == old(contracts) + 1
      ensures report == old(report) + Behind(old(contracts) > 0) + VisitText(Visit(target, Answer(answer)))
    {
      hide Separated, AttributeTexts, VisitText, Quoted;
      if contracts > 0 { report := report + ",\n"; }
      contracts := contracts + 1;
      ghost var start := report;
      assert start == old(report) + Behind(old(contracts) > 0);
      var head := "{ contract: " + Quoted(target) + ", attributs: { ";
      report := report + head;
      ghost var list := Separated(AttributeTexts(Answer(answer)));
      if answer.Some? {
        WriteAttributes(answer.value);
      } else {
        NoAttributes();
      }
      assert report == start + head + list;
      report := report + " } }";
      VisitCloses(target, Answer(answer));
      Nested(start, head, list, " } }");
    }

    // One linked contract of a forward walk.
    method Act(c: Contract, action: string)
      modifies this`contracts, this`issued, this`report
      ensures issued == old(issued) + IssuedTo(c, action)
      ensures contracts == old(contracts) + |VisitTo(c)|
      ensures VisitTo(c) == [] ==> report == old(report)
      ensures VisitTo(c) != [] ==> report == old(report) + Behind(old(contracts) > 0) + VisitText(VisitTo(c)[0])
    {
      hide Inhibited, VisitText;
      var answer := c.reply.before;
      if answer.None? { return; }
      if !Inhibited(answer.value) {
        issued := issued + [Issue(c.target, action)];
        answer := c.reply.after;
      }
      WriteContract(c.target, answer);
    }

    /** service_action.  Without a report file nothing happens; otherwise the action goes in table order
        to every linked contract that answers and does not inhibit it, and the report tells of every one
        that answered. */
    method ServiceAction(links: seq<Option<Link>>, world: World, opens: bool, action: string)
      modifies this`contracts, this`issued, this`report
      ensures !opens ==> contracts == old(contracts) && issued == old(issued) && report == old(report)
      ensures opens ==> issued == old(issued) + Issued(Linked(links, id, world, 0), action)
      ensures opens ==> report == ReportText(id, Visited(Linked(links, id, world, 0)))
      ensures opens ==> contracts == |Visited(Linked(links, id, world, 0))|
    {
      hide ReportText, VisitText, Separated, VisitTexts, Issued, IssuedTo, Visited, VisitTo, Mine, Opening, Along;
      if !opens { return; }
      report := Opening(id);
      contracts := 0;
      ghost var done: seq<Visit>, sent: seq<Issue> := [], [];
      assert report == Opening(id) + Separated(VisitTexts(done)) by { NothingYet(id); }
      AlongBegins(links, id, world, action);
      for i := 0 to |links|
        invariant contracts == |done| && report == Opening(id) + Separated(VisitTexts(done))
        invariant issued == old(issued) + sent
        invariant Along(done, sent, links, id, world, i, action)
      {
        AlongTurn(done, sent, links, id, world, i, action);
        if !Mine(links[i], id) { continue; }
        var c := Contract(Target(links[i], id), world(i));
        DoneMore(id, done, c);
        Act(c, action);
        done := done + VisitTo(c);
        sent := sent + IssuedTo(c, action);
      }
      AlongEnds(done, sent, links, id, world, action);
      ReportCloses(id, done);
      report := report + " ] }\n";
    }

    /** reverse_service_action.  Without a report file nothing happens; otherwise the action goes to every
        linked contract, in the opposite of table order, whatever it answers. */
    method ReverseServiceAction(links: seq<Option<Link>>, world: World, opens: bool, action: string)
      modifies this`contracts, this`issued, this`report
      ensures !opens ==> contracts == old(contracts) && issued == old(issued) && report == old(report)
      ensures opens ==> issued == old(issued) + IssuedBack(Linked(links, id, world, 0), action)
      ensures opens ==> report == ReportText(id, VisitedBack(Linked(links, id, world, 0)))
      ensures opens ==> contracts == |Linked(links, id, world, 0)|
    {
      hide ReportText, VisitText, Separated, VisitTexts, IssuedBack, VisitedBack, Mine, Opening, Linked;
      if !opens { return; }
      report := Opening(id);
      contracts := 0;
      LinkedEnds(links, id, world);
      ghost var done: seq<Visit> := [];
      assert report == Opening(id) + Separated(VisitTexts([])) by { NothingYet(id); }
      var i := |links|;
      while i > 0
        invariant 0 <= i <= |links|
        invariant done == VisitedBack(Linked(links, id, world, i))
        invariant contracts == |done| && report == Opening(id) + Separated(VisitTexts(done))
        invariant issued == old(issued) + IssuedBack(Linked(links, id, world, i), action)
      {
        i := i - 1;
        LinkedPast(links, id, world, i);
        if !Mine(links[i], id) { continue; }
        var target := Target(links[i], id);
        ghost var rest := Linked(links, id, world, i + 1);
        LinkedMore(links, id, world, i);
        BackMore(Contract(target, world(i)), rest, action);
        issued := issued + [Issue(target, action)];
        VisitsMore(done, Visit(target, Answer(world(i).after)));
        WriteContract(target, world(i).after);
        done := done + [Visit(target, Answer(world(i).after))];
      }
      ReportCloses(id, done);
      report := report + " ] }\n";
    }
  }

  function Target(link: Option<Link>, id: string): string
    requires Mine(link, id)
  {
    link.value.target.value
  }

  lemma LinkedMore(links: seq<Option<Link>>, id: string, world: World, i: nat)
    requires i < |links| && Mine(links[i], id)
    ensures Linked(links, id, world, i) == [Contract(Target(links[i], id), world(i))] + Linked(links, id, world, i + 1)
  {
  }

  lemma NothingYet(id: string)
    ensures Opening(id) == Opening(id) + Separated(VisitTexts([]))
  {
  }

  lemma LinkedPast(links: seq<Option<Link>>, id: string, world: World, i: nat)
    requires i < |links|
    ensures !Mine(links[i], id) ==> Linked(links, id, world, i) == Linked(links, id, world, i + 1)
  {
  }

  lemma LinkedEnds(links: seq<Option<Link>>, id: string, world: World)
    ensures Linked(links, id, world, |links|) == []
    ensures VisitedBack([]) == [] && forall action :: IssuedBack([], action) == []
  {
  }

  // What the report of a forward walk says of the contract behind link p.
  function Told(links: seq<Option<Link>>, id: string, world: World, p: nat): Option<Visit>
    requires p < |links|
  {
    if !Mine(links[p], id) || world(p).before.None? then None
    else
      var before := world(p).before.value;
      var told := if Inhibited(before) then before else if world(p).after.Some? then world(p).after.value else [];
      Some(Visit(links[p].value.target.value, told))
  }

  /** A forward walk reports every linked contract that answered, as it was before when the action was
      inhibited and as it is afterwards otherwise, and nothing else. */
  lemma {:induction false} VisitedExact(links: seq<Option<Link>>, id: string, world: World, i: nat, v: Visit)
    requires i <= |links|
    ensures v in Visited(Linked(links, id, world, i)) <==>
            exists p | i <= p < |links| :: Told(links, id, world, p) == Some(v)
    decreases |links| - i
  {
    hide Inhibited, Mine, Told, Visited;
    if i == |links| {
      NoVisits();
    } else {
      VisitedExact(links, id, world, i + 1, v);
      var rest := Visited(Linked(links, id, world, i + 1));
      ToldOrNot(links, id, world, i);
      if Mine(links[i], id) {
        var c := Contract(Target(links[i], id), world(i));
        LinkedMore(links, id, world, i);
        ForwardMore(c, Linked(links, id, world, i + 1), "");
        assert v in VisitTo(c) + rest <==> v in VisitTo(c) || v in rest;
      } else {
        LinkedPast(links, id, world, i);
      }
    }
  }

  lemma NoVisits()
    ensures Visited([]) == []
  {
  }

  lemma ToldOrNot(links: seq<Option<Link>>, id: string, world: World, i: nat)
    requires i < |links|
    ensures !Mine(links[i], id) ==> Told(links, id, world, i) == None
    ensures Mine(links[i], id) ==>
              var visits, told := VisitTo(Contract(Target(links[i], id), world(i))), Told(links, id, world, i);
              visits == if told.Some? then [told.value] else []
  {
    hide Inhibited;
  }

  // How far a forward walk got: what it did, and what is left of it from position i on.
  ghost predicate Along(done: seq<Visit>, sent: seq<Issue>, links: seq<Option<Link>>, id: string, world: World, i: nat,
                        action: string)
    requires i <= |links|
  {
    && done + Visited(Linked(links, id, world, i)) == Visited(Linked(links, id, world, 0))
    && sent + Issued(Linked(links, id, world, i), action) == Issued(Linked(links, id, world, 0), action)
  }

  lemma AlongBegins(links: seq<Option<Link>>, id: string, world: World, action: string)
    ensures Along([], [], links, id, world, 0, action)
  {
    hide Visited, Issued, Linked;
  }

  lemma AlongEnds(done: seq<Visit>, sent: seq<Issue>, links: seq<Option<Link>>, id: string, world: World,
                  action: string)
    requires Along(done, sent, links, id, world, |links|, action)
    ensures done == Visited(Linked(links, id, world, 0)) && sent == Issued(Linked(links, id, world, 0), action)
  {
    assert Visited(Linked(links, id, world, |links|)) == [] && Issued(Linked(links, id, world, |links|), action) == [];
    assert done + [] == done && sent + [] == sent;
  }

  lemma AlongTurn(done: seq<Visit>, sent: seq<Issue>, links: seq<Option<Link>>, id: string, world: World, i: nat,
                  action: string)
    requires i < |links| && Along(done, sent, links, id, world, i, action)
    ensures !Mine(links[i], id) ==> Along(done, sent, links, id, world, i + 1, action)
    ensures Mine(links[i], id) ==>
              var c := Contract(Target(links[i], id), world(i));
              Along(done + VisitTo(c), sent + IssuedTo(c, action), links, id, world, i + 1, action)
  {
    hide Visited, VisitTo, Issued, IssuedTo, Mine, Target;
    if Mine(links[i], id) {
      var c := Contract(Target(links[i], id), world(i));
      LinkedMore(links, id, world, i);
      var rest := Linked(links, id, world, i + 1);
      ForwardMore(c, rest, action);
      Nest(done, VisitTo(c), Visited(rest));
      Nest(sent, IssuedTo(c, action), Issued(rest, action));
    }
  }
}
