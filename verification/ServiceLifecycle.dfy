/** The service requests of broker/brokerservice.c, and what holds over every sequence of them. */
module ServiceLifecycle {
  import opened Basics
  import opened CText
  import opened JsonText
  import opened ServiceReport
  import opened ServiceWalk

  datatype Request = Start | Suspend | Restart | Save | Snapshot | Stop

  /** What the outside does during one request: answers and report file of its first and second walk,
      and the time. */
  datatype Env = Env(first: World, opens: bool, second: World, opensAgain: bool, now: int)

  datatype Turn = Turn(request: Request, env: Env)

  /** What does not change: the link table, the service and the period it may be started in. */
  datatype Setting = Setting(links: seq<Option<Link>>, id: string, initiation: string, expiration: string) {
    function Contracts(world: World): seq<Contract> { Linked(links, id, world, 0) }
  }

  datatype View = View(state: State, when: int, contracts: nat, issued: seq<Issue>, report: string)

  function Look(s: Service): View
    reads s
  {
    View(s.state, s.when, s.contracts, s.issued, s.report)
  }

  // service_period: 1 before the period, 2 after it.
  function Period(initiation: string, expiration: string, now: int): nat {
    if ValidString(initiation) && !SameIgnoringCase(initiation, "any") && !SameIgnoringCase(initiation, "now")
       && Int32(Atoi(initiation)) > now then 1
    else if ValidString(expiration) && !SameIgnoringCase(expiration, "never") && Int32(Atoi(expiration)) < now then 2
    else 0
  }

  /** Between numbers the period begins at the first and ends at the second. */
  lemma PeriodOfNumbers(a: nat, b: nat, now: int)
    requires a < TWO31 && b < TWO31
    ensures Period(Decimal(a), Decimal(b), now) == if a > now then 1 else if b < now then 2 else 0
  {
    hide Atoi, Decimal;
    NumberIs(a);
    NumberIs(b);
  }

  lemma NumberIs(n: nat)
    ensures Atoi(Decimal(n)) == n && ValidString(Decimal(n)) && !SameIgnoringCase(Decimal(n), "any")
    ensures !SameIgnoringCase(Decimal(n), "now") && !SameIgnoringCase(Decimal(n), "never")
  {
    hide Decimal, Atoi;
    AtoiPrinted("", "", n, "");
    DecimalRead(n, "");
    var s := Decimal(n);
    assert s + "" == s && "" + ("" + s) == s;
    assert Digit(s[0]) && Lower(s[0]) == s[0];
  }

  /** Without a beginning it has begun, and without an end it does not end. */
  lemma PeriodOpen(initiation: string, expiration: string, now: int)
    ensures initiation in ["", "(null)", "(none)", "any", "Any", "ANY", "now", "Now", "NOW"] ==>
              Period(initiation, expiration, now) != 1
    ensures expiration in ["", "(null)", "(none)", "never", "Never", "NEVER"] ==>
              Period(initiation, expiration, now) != 2
  {
    hide Atoi;
  }

  // ----- the transition table

  predicate Accepts(request: Request, state: State, period: nat) {
    match request
    case Start => state == Idle && period == 0
    case Suspend => state == Running
    case Restart => true
    case _ => state != Idle
  }

  function Next(request: Request, state: State): State {
    match request
    case Start => Running
    case Restart => Running
    case Suspend => Suspended
    case Stop => Idle
    case _ => state
  }

  function Code(request: Request, state: State, period: nat): nat {
    if request == Start && state == Idle && period == 1 then 409
    else if request == Start && state == Idle && period == 2 then 410
    else 200
  }

  // The action of a request that walks forwards only.
  function Verb(request: Request): string
    requires request != Restart && request != Stop
  {
    match request
    case Start => "start"
    case Suspend => "suspend"
    case Save => "save"
    case Snapshot => "snapshot"
  }

  function Onward(v: View, g: Setting, world: World, opens: bool, action: string): View {
    if !opens then v
    else
      var visits := Visited(g.Contracts(world));
      v.(contracts := |visits|, issued := v.issued + Issued(g.Contracts(world), action),
         report := ReportText(g.id, visits))
  }

  function Back(v: View, g: Setting, world: World, opens: bool): View {
    if !opens then v
    else
      var visits := VisitedBack(g.Contracts(world));
      v.(contracts := |visits|, issued := v.issued + IssuedBack(g.Contracts(world), "stop"),
         report := ReportText(g.id, visits))
  }

  function Walked(v: View, g: Setting, request: Request, env: Env): View {
    if request == Stop then Back(v, g, env.first, env.opens)
    else if request == Restart then Onward(Back(v, g, env.first, env.opens), g, env.second, env.opensAgain, "start")
    else Onward(v, g, env.first, env.opens, Verb(request))
  }

  function Served(v: View, g: Setting, request: Request, env: Env): View {
    if Accepts(request, v.state, Period(g.initiation, g.expiration, env.now))
    then Walked(v, g, request, env).(when := env.now, state := Next(request, v.state))
    else v
  }

  // ----- the requests

  // The end of every request that acted.
  method Settle(s: Service, now: int, state: State)
    modifies s`when, s`state
    ensures s.when == now && s.state == state
  {
    s.when := now;
    s.state := state;
  }

  method StartService(s: Service?, g: Setting, env: Env) returns (code: nat)
    requires s != null ==> s.id == g.id
    modifies if s == null then {} else {s}
    ensures s == null ==> code == 404
    ensures s != null ==> code == Code(Start, old(s.state), Period(g.initiation, g.expiration, env.now))
    ensures s != null ==> Look(s) == Served(old(Look(s)), g, Start, env)
  {
    hide Period, Visited, Issued, Linked, ReportText;
    if s == null { return 404; }
    if s.state == Idle {
      var period := Period(g.initiation, g.expiration, env.now);
      if period == 1 { return 409; }
      if period == 2 { return 410; }
      PeriodCodes(g.initiation, g.expiration, env.now);
      s.ServiceAction(g.links, env.first, env.opens, "start");
      Settle(s, env.now, Running);
    }
    return 200;
  }

  method SuspendService(s: Service?, g: Setting, env: Env) returns (code: nat)
    requires s != null ==> s.id == g.id
    modifies if s == null then {} else {s}
    ensures code == if s == null then 404 else 200
    ensures s != null ==> Look(s) == Served(old(Look(s)), g, Suspend, env)
  {
    hide Period, Visited, Issued, Linked, ReportText;
    if s == null { return 404; }
    if s.state == Running {
      s.ServiceAction(g.links, env.first, env.opens, "suspend");
      Settle(s, env.now, Suspended);
    }
    return 200;
  }

  method RestartService(s: Service?, g: Setting, env: Env) returns (code: nat)
    requires s != null ==> s.id == g.id
    modifies if s == null then {} else {s}
    ensures code == if s == null then 404 else 200
    ensures s != null ==> Look(s) == Served(old(Look(s)), g, Restart, env)
  {
    hide Period, Visited, VisitedBack, Issued, IssuedBack, Linked, ReportText;
    if s == null { return 404; }
    s.ReverseServiceAction(g.links, env.first, env.opens, "stop");
    assert Look(s) == Back(old(Look(s)), g, env.first, env.opens);
    s.ServiceAction(g.links, env.second, env.opensAgain, "start");
    Settle(s, env.now, Running);
    return 200;
  }

  // save_service and snapshot_service
  method CopyService(s: Service?, g: Setting, request: Request, env: Env) returns (code: nat)
    requires request == Save || request == Snapshot
    requires s != null ==> s.id == g.id
    modifies if s == null then {} else {s}
    ensures code == if s == null then 404 else 200
    ensures s != null ==> Look(s) == Served(old(Look(s)), g, request, env)
  {
    hide Period, Visited, Issued, Linked, ReportText;
    if s == null { return 404; }
    if s.state != Idle {
      s.ServiceAction(g.links, env.first, env.opens, if request == Save then "save" else "snapshot");
      Settle(s, env.now, s.state);
    }
    return 200;
  }

  method StopService(s: Service?, g: Setting, env: Env) returns (code: nat)
    requires s != null ==> s.id == g.id
    modifies if s == null then {} else {s}
    ensures code == if s == null then 404 else 200
    ensures s != null ==> Look(s) == Served(old(Look(s)), g, Stop, env)
  {
    hide Period, VisitedBack, IssuedBack, Linked, ReportText;
    if s == null { return 404; }
    if s.state != Idle {
      s.ReverseServiceAction(g.links, env.first, env.opens, "stop");
      Settle(s, env.now, Idle);
    }
    return 200;
  }

  lemma PeriodCodes(initiation: string, expiration: string, now: int)
    ensures Period(initiation, expiration, now) <= 2
  {
  }

  // ----- runs

  const FRESH := View(Idle, 0, 0, [], "")

  // A service that was just created, after the turns.
  function Run(g: Setting, turns: seq<Turn>): View {
    if turns == [] then FRESH
    else
      var last := turns[|turns| - 1];
      Served(Run(g, turns[..|turns| - 1]), g, last.request, last.env)
  }

  /** Over every run the counter of the service is the number of contracts in its report. */
  lemma {:induction false} ReportAgrees(g: Setting, turns: seq<Turn>) returns (visits: seq<Visit>)
    ensures Run(g, turns).contracts == |visits|
    ensures Run(g, turns).report == ReportText(g.id, visits) || (visits == [] && Run(g, turns).report == "")
    decreases |turns|
  {
    hide ReportText, Period, Visited, VisitedBack, Issued, IssuedBack, Linked;
    visits := [];
    if turns != [] {
      var n := |turns| - 1;
      visits := ReportAgrees(g, turns[..n]);
      var v, turn := Run(g, turns[..n]), turns[n];
      var env := turn.env;
      if Accepts(turn.request, v.state, Period(g.initiation, g.expiration, env.now)) {
        if turn.request == Stop || turn.request == Restart {
          if env.opens { visits := VisitedBack(g.Contracts(env.first)); }
          if turn.request == Restart && env.opensAgain { visits := Visited(g.Contracts(env.second)); }
        } else if env.opens {
          visits := Visited(g.Contracts(env.first));
        }
      }
    }
  }
}
