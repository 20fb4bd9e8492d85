/** What holds of the actions issued over every sequence of service requests, and when. */
module ServiceRuns {
  import opened Basics
  import opened ServiceReport
  import opened ServiceWalk
  import opened ServiceLifecycle

  // ----- the log of issued actions

  // A stop of the target stands between positions i and j.
  ghost predicate StoppedIn(log: seq<Issue>, target: string, i: int, j: int) {
    exists k :: i < k < j && 0 <= k < |log| && log[k] == Issue(target, "stop")
  }

  // Every start of the target was followed by a stop.
  ghost predicate Stopped(log: seq<Issue>, target: string) {
    forall i | 0 <= i < |log| && log[i] == Issue(target, "start") :: StoppedIn(log, target, i, |log|)
  }

  ghost predicate AllStopped(log: seq<Issue>, g: Setting) {
    forall p | 0 <= p < |g.links| && Mine(g.links[p], g.id) :: Stopped(log, Target(g.links[p], g.id))
  }

  // No contract is started twice without a stop between.
  ghost predicate OneStart(log: seq<Issue>) {
    forall i, j | 0 <= i < j < |log| && log[i] == log[j] && log[i].action == "start" ::
      StoppedIn(log, log[i].target, i, j)
  }

  // ----- the guards

  // A forward walk issues its action to the contract behind this link.
  predicate Reaches(g: Setting, world: World, p: nat) {
    && p < |g.links| && Mine(g.links[p], g.id)
    && world(p).before.Some? && !Inhibited(world(p).before.value)
  }

  predicate ReachesTarget(g: Setting, world: World, i: nat, target: string) {
    exists p | i <= p < |g.links| :: Reaches(g, world, p) && Target(g.links[p], g.id) == target
  }

  // No contract is reached twice by one forward walk.
  predicate ReachesOnce(g: Setting, world: World, i: nat) {
    forall p, q | i <= p < q < |g.links| && Reaches(g, world, p) && Reaches(g, world, q) ::
      Target(g.links[p], g.id) != Target(g.links[q], g.id)
  }

  predicate Accepted(g: Setting, state: State, turn: Turn) {
    Accepts(turn.request, state, Period(g.initiation, g.expiration, turn.env.now))
  }

  // The state after the turns, from what was requested and when.
  function Phase(g: Setting, turns: seq<Turn>): State {
    if turns == [] then Idle
    else
      var n := |turns| - 1;
      var state := Phase(g, turns[..n]);
      if Accepted(g, state, turns[n]) then Next(turns[n].request, state) else state
  }

  // Was the target started by a walk, without a walk that could stop it since?
  predicate Pending(g: Setting, turns: seq<Turn>, target: string) {
    if turns == [] then false
    else
      var n := |turns| - 1;
      var turn, pending := turns[n], Pending(g, turns[..n], target);
      if !Accepted(g, Phase(g, turns[..n]), turn) then pending else PendingAfter(g, pending, turn, target)
  }

  // The same after one accepted turn.
  predicate PendingAfter(g: Setting, pending: bool, turn: Turn, target: string) {
    var env := turn.env;
    match turn.request
    case Start => pending || (env.opens && ReachesTarget(g, env.first, 0, target))
    case Stop => pending && !env.opens
    case Restart => (pending && !env.opens) || (env.opensAgain && ReachesTarget(g, env.second, 0, target))
    case _ => pending
  }

  // No start walk of the run reaches a contract that is pending, or one contract twice.
  predicate Careful(g: Setting, turns: seq<Turn>) {
    turns == [] ||
    (var n := |turns| - 1;
     && Careful(g, turns[..n])
     && (Accepted(g, Phase(g, turns[..n]), turns[n]) ==> CarefulTurn(g, turns[..n], turns[n])))
  }

  predicate CarefulTurn(g: Setting, before: seq<Turn>, turn: Turn) {
    var env := turn.env;
    match turn.request
    case Start =>
      env.opens ==> ReachesOnce(g, env.first, 0) && ReachesStopped(g, env.first, before, false)
    case Restart =>
      env.opensAgain ==> ReachesOnce(g, env.second, 0) && ReachesStopped(g, env.second, before, env.opens)
    case _ => true
  }

  // Nothing that is reached is pending, unless a stop walk has just gone out.
  predicate ReachesStopped(g: Setting, world: World, before: seq<Turn>, stopped: bool) {
    forall p | 0 <= p < |g.links| && Reaches(g, world, p) :: stopped || !Pending(g, before, Target(g.links[p], g.id))
  }

  // The links of the service lead to different contracts.
  predicate DistinctTargets(g: Setting) {
    forall i, j | 0 <= i < j < |g.links| && Mine(g.links[i], g.id) && Mine(g.links[j], g.id) ::
      Target(g.links[i], g.id) != Target(g.links[j], g.id)
  }

  predicate Unlinked(g: Setting) { forall i | 0 <= i < |g.links| :: !Mine(g.links[i], g.id) }

  // Every backward walk could write its report.
  predicate StopsReported(turns: seq<Turn>) {
    forall i | 0 <= i < |turns| && (turns[i].request == Stop || turns[i].request == Restart) :: turns[i].env.opens
  }

  // ----- what a walk adds to the log

  function Forwards(g: Setting, world: World, action: string): seq<Issue> { Issued(g.Contracts(world), action) }

  function Backs(g: Setting, world: World): seq<Issue> { IssuedBack(g.Contracts(world), "stop") }

  ghost predicate AllAction(block: seq<Issue>, action: string) { forall x | x in block :: x.action == action }

  ghost predicate Distinct(block: seq<Issue>) { forall i, j | 0 <= i < j < |block| :: block[i] != block[j] }

  // A forward walk issues its action to exactly what it reaches.
  lemma {:induction false} ForwardsIn(g: Setting, world: World, action: string, i: nat, x: Issue)
    requires i <= |g.links|
    ensures x in Issued(Linked(g.links, g.id, world, i), action) <==>
            x.action == action && ReachesTarget(g, world, i, x.target)
    decreases |g.links| - i
  {
    hide Inhibited, Mine, Issued;
    if i == |g.links| {
      assert Issued([], action) == [] by { NothingIssued(action); }
    } else {
      ForwardsIn(g, world, action, i + 1, x);
      ReachesFrom(g, world, i, x.target);
      if Mine(g.links[i], g.id) {
        LinkedMore(g.links, g.id, world, i);
        ForwardMore(Contract(Target(g.links[i], g.id), world(i)), Linked(g.links, g.id, world, i + 1), action);
      }
    }
  }

  lemma NothingIssued(action: string)
    ensures Issued([], action) == []
  {
  }

  lemma ReachesFrom(g: Setting, world: World, i: nat, target: string)
    requires i < |g.links|
    ensures ReachesTarget(g, world, i, target) <==>
            (Reaches(g, world, i) && Target(g.links[i], g.id) == target) || ReachesTarget(g, world, i + 1, target)
  {
    hide Reaches, Target;
  }

  lemma {:induction false} ForwardsOnce(g: Setting, world: World, action: string, i: nat)
    requires i <= |g.links|
    ensures Distinct(Issued(Linked(g.links, g.id, world, i), action)) <==> ReachesOnce(g, world, i)
    decreases |g.links| - i
  {
    hide Inhibited, Mine, Issued, Reaches, ReachesTarget;
    if i == |g.links| {
      assert Issued([], action) == [] by { NothingIssued(action); }
    } else {
      ForwardsOnce(g, world, action, i + 1);
      var rest := Issued(Linked(g.links, g.id, world, i + 1), action);
      OnceFrom(g, world, i);
      if Mine(g.links[i], g.id) {
        var c := Contract(Target(g.links[i], g.id), world(i));
        LinkedMore(g.links, g.id, world, i);
        ForwardMore(c, Linked(g.links, g.id, world, i + 1), action);
        ForwardsIn(g, world, action, i + 1, Issue(c.target, action));
        ReachedIssue(g, world, i, action);
        DistinctMore(IssuedTo(c, action), rest);
      } else {
        NotReached(g, world, i);
      }
    }
  }

  lemma ReachedIssue(g: Setting, world: World, i: nat, action: string)
    requires i < |g.links| && Mine(g.links[i], g.id)
    ensures var c := Contract(Target(g.links[i], g.id), world(i));
            IssuedTo(c, action) == if Reaches(g, world, i) then [Issue(c.target, action)] else []
  {
  }

  lemma NotReached(g: Setting, world: World, i: nat)
    requires i < |g.links| && !Mine(g.links[i], g.id)
    ensures !Reaches(g, world, i)
  {
  }

  lemma DistinctMore(first: seq<Issue>, rest: seq<Issue>)
    requires |first| <= 1
    ensures Distinct(first + rest) <==> Distinct(rest) && (first != [] ==> first[0] !in rest)
  {
    var all := first + rest;
    if first == [] {
      assert all == rest;
    } else {
      assert all[1..] == rest;
      if Distinct(all) {
        assert forall i | 0 <= i < |rest| :: rest[i] == all[i + 1];
      }
    }
  }

  lemma OnceFrom(g: Setting, world: World, i: nat)
    requires i < |g.links|
    ensures ReachesOnce(g, world, i) <==>
            ReachesOnce(g, world, i + 1) &&
            (Reaches(g, world, i) ==> !ReachesTarget(g, world, i + 1, Target(g.links[i], g.id)))
  {
    hide Target;
  }

  lemma ForwardsAction(g: Setting, world: World, action: string)
    ensures AllAction(Forwards(g, world, action), action)
  {
    hide ReachesTarget, Linked, Issued;
    forall x | x in Forwards(g, world, action)
      ensures x.action == action
    {
      ForwardsIn(g, world, action, 0, x);
    }
  }

  // A backward walk goes to every contract.
  lemma {:induction false} LinkedHas(g: Setting, world: World, i: nat, p: nat) returns (n: nat)
    requires i <= p < |g.links| && Mine(g.links[p], g.id)
    ensures n < |Linked(g.links, g.id, world, i)|
    ensures Linked(g.links, g.id, world, i)[n].target == Target(g.links[p], g.id)
    decreases |g.links| - i
  {
    hide Mine, Target;
    if Mine(g.links[i], g.id) {
      LinkedMore(g.links, g.id, world, i);
    }
    if i == p {
      n := 0;
    } else {
      n := LinkedHas(g, world, i + 1, p);
      if Mine(g.links[i], g.id) {
        n := n + 1;
      }
    }
  }

  lemma BacksIn(g: Setting, world: World, p: nat)
    requires p < |g.links| && Mine(g.links[p], g.id)
    ensures Issue(Target(g.links[p], g.id), "stop") in Backs(g, world)
  {
    hide Linked, Mine, Target;
    var n := LinkedHas(g, world, 0, p);
    var contracts := g.Contracts(world);
    assert Backs(g, world)[|contracts| - 1 - n] == Issue(contracts[n].target, "stop");
  }

  // ----- what that does to the log

  lemma StoppedPrefix(log: seq<Issue>, block: seq<Issue>, target: string, i: int, j: int)
    requires j <= |log|
    ensures StoppedIn(log + block, target, i, j) <==> StoppedIn(log, target, i, j)
  {
    assert forall k | 0 <= k < |log| :: (log + block)[k] == log[k];
  }

  // Without stops in it, a block only matters by its starts.
  lemma StoppedUnless(log: seq<Issue>, block: seq<Issue>, action: string, target: string)
    requires AllAction(block, action) && action != "stop"
    ensures Stopped(log + block, target) <==> Stopped(log, target) && Issue(target, "start") !in block
  {
    var all := log + block;
    assert forall k | |log| <= k < |all| :: all[k] in block;
    forall i | 0 <= i < |log|
      ensures StoppedIn(all, target, i, |all|) <==> StoppedIn(log, target, i, |log|)
    {
      StoppedPrefix(log, block, target, i, |log|);
    }
    if Issue(target, "start") in block {
      var k :| 0 <= k < |block| && block[k] == Issue(target, "start");
      assert all[|log| + k] == block[k];
    }
    if Stopped(all, target) {
      forall i | 0 <= i < |log| && log[i] == Issue(target, "start")
        ensures StoppedIn(log, target, i, |log|)
      {
        assert all[i] == log[i];
      }
    }
  }

  lemma StoppedBy(log: seq<Issue>, block: seq<Issue>, target: string)
    requires AllAction(block, "stop") && Issue(target, "stop") in block
    ensures Stopped(log + block, target)
  {
    var all := log + block;
    var k :| 0 <= k < |block| && block[k] == Issue(target, "stop");
    assert all[|log| + k] == block[k];
    forall i | 0 <= i < |all| && all[i] == Issue(target, "start")
      ensures StoppedIn(all, target, i, |all|)
    {
      assert i < |log|;
    }
  }

  lemma OneStartUnless(log: seq<Issue>, block: seq<Issue>, action: string)
    requires AllAction(block, action) && action != "start"
    ensures OneStart(log + block) <==> OneStart(log)
  {
    var all := log + block;
    assert forall k | |log| <= k < |all| :: all[k] in block;
    forall i, j | 0 <= i < j < |log|
      ensures StoppedIn(all, log[i].target, i, j) <==> StoppedIn(log, log[i].target, i, j)
    {
      StoppedPrefix(log, block, log[i].target, i, j);
    }
    assert forall i | 0 <= i < |log| :: all[i] == log[i];
  }

  lemma OneStartMore(log: seq<Issue>, block: seq<Issue>)
    requires AllAction(block, "start")
    ensures OneStart(log + block) <==>
            OneStart(log) && (forall x | x in block :: Stopped(log, x.target)) && Distinct(block)
  {
    if OneStart(log + block) {
      OneStartOnly(log, block);
    }
    if OneStart(log) && (forall x | x in block :: Stopped(log, x.target)) && Distinct(block) {
      OneStartIf(log, block);
    }
  }

  lemma OneStartOnly(log: seq<Issue>, block: seq<Issue>)
    requires AllAction(block, "start") && OneStart(log + block)
    ensures OneStart(log) && (forall x | x in block :: Stopped(log, x.target)) && Distinct(block)
  {
    var all := log + block;
    assert forall k | |log| <= k < |all| :: all[k] in block;
    forall i, j | 0 <= i < j < |log| && log[i] == log[j] && log[i].action == "start"
      ensures StoppedIn(log, log[i].target, i, j)
    {
      assert all[i] == log[i] && all[j] == log[j];
      StoppedPrefix(log, block, log[i].target, i, j);
    }
    forall k, i | 0 <= k < |block| && 0 <= i < |log| && log[i] == Issue(block[k].target, "start")
      ensures StoppedIn(log, block[k].target, i, |log|)
    {
      assert block[k] in block && all[i] == log[i] && all[|log| + k] == block[k];
      assert StoppedIn(all, block[k].target, i, |log| + k);
    }
    forall i, j | 0 <= i < j < |block|
      ensures block[i] != block[j]
    {
      assert block[i] in block && all[|log| + i] == block[i] && all[|log| + j] == block[j];
      assert !StoppedIn(all, block[i].target, |log| + i, |log| + j);
    }
  }

  lemma OneStartIf(log: seq<Issue>, block: seq<Issue>)
    requires OneStart(log) && (forall x | x in block :: Stopped(log, x.target)) && Distinct(block)
    ensures OneStart(log + block)
  {
    var all := log + block;
    forall i, j | 0 <= i < j < |all| && all[i] == all[j] && all[i].action == "start"
      ensures StoppedIn(all, all[i].target, i, j)
    {
      var target := all[i].target;
      if j < |log| {
        StoppedPrefix(log, block, target, i, j);
      } else {
        assert all[j] == block[j - |log|] && all[j] in block;
        assert i < |log|;
        assert StoppedIn(log, target, i, |log|);
        StoppedPrefix(log, block, target, i, |log|);
      }
    }
  }

  // ----- one turn

  // What a turn appends to the log.
  lemma TurnIssues(v: View, g: Setting, turn: Turn)
    ensures var env := turn.env;
            var stops := if env.opens then Backs(g, env.first) else [];
            Served(v, g, turn.request, env).issued ==
            if !Accepted(g, v.state, turn) then v.issued
            else if turn.request == Stop then v.issued + stops
            else if turn.request == Restart then
              v.issued + stops + (if env.opensAgain then Forwards(g, env.second, "start") else [])
            else v.issued + (if env.opens then Forwards(g, env.first, Verb(turn.request)) else [])
  {
    hide Linked, Issued, IssuedBack, Visited, VisitedBack, ReportText, Period;
  }

  lemma {:induction false} PhaseIsState(g: Setting, turns: seq<Turn>)
    ensures Run(g, turns).state == Phase(g, turns)
    decreases |turns|
  {
    hide Linked, Issued, IssuedBack, Visited, VisitedBack, ReportText, Period;
    if turns != [] {
      PhaseIsState(g, turns[..|turns| - 1]);
    }
  }

  lemma NoneAdded(log: seq<Issue>)
    ensures log + [] == log
  {
  }

  lemma StoppedStops(log: seq<Issue>, g: Setting, world: World, opens: bool, p: nat)
    requires p < |g.links| && Mine(g.links[p], g.id)
    ensures Stopped(log + (if opens then Backs(g, world) else []), Target(g.links[p], g.id)) <==>
            Stopped(log, Target(g.links[p], g.id)) || opens
  {
    hide Stopped, Mine, Target, Linked;
    NoneAdded(log);
    if opens {
      BacksIn(g, world, p);
      StoppedBy(log, Backs(g, world), Target(g.links[p], g.id));
    }
  }

  lemma StoppedForwards(log: seq<Issue>, g: Setting, world: World, opens: bool, action: string, target: string)
    requires action != "stop"
    ensures Stopped(log + (if opens then Forwards(g, world, action) else []), target) <==>
            Stopped(log, target) && !(opens && action == "start" && ReachesTarget(g, world, 0, target))
  {
    hide Stopped, Linked, Issued, ReachesTarget;
    NoneAdded(log);
    if opens {
      ForwardsAction(g, world, action);
      StoppedUnless(log, Forwards(g, world, action), action, target);
      ForwardsIn(g, world, action, 0, Issue(target, "start"));
    }
  }

  lemma OneStartStops(log: seq<Issue>, g: Setting, world: World, opens: bool)
    ensures OneStart(log + (if opens then Backs(g, world) else [])) <==> OneStart(log)
  {
    hide OneStart, Linked;
    NoneAdded(log);
    if opens {
      OneStartUnless(log, Backs(g, world), "stop");
    }
  }

  lemma OneStartForwards(log: seq<Issue>, g: Setting, world: World, opens: bool, action: string)
    requires action != "start"
    ensures OneStart(log + (if opens then Forwards(g, world, action) else [])) <==> OneStart(log)
  {
    hide OneStart, Linked, Issued;
    NoneAdded(log);
    if opens {
      ForwardsAction(g, world, action);
      OneStartUnless(log, Forwards(g, world, action), action);
    }
  }

  // What is reached was stopped.
  ghost predicate ReachesQuiet(g: Setting, world: World, log: seq<Issue>) {
    forall p | 0 <= p < |g.links| && Reaches(g, world, p) :: Stopped(log, Target(g.links[p], g.id))
  }

  lemma OneStartStarts(log: seq<Issue>, g: Setting, world: World, opens: bool)
    ensures OneStart(log + (if opens then Forwards(g, world, "start") else [])) <==>
            OneStart(log) && (opens ==> ReachesOnce(g, world, 0) && ReachesQuiet(g, world, log))
  {
    hide OneStart, Stopped, Linked, Issued, ReachesOnce, Reaches;
    NoneAdded(log);
    if opens {
      var block := Forwards(g, world, "start");
      ForwardsAction(g, world, "start");
      ForwardsOnce(g, world, "start", 0);
      OneStartMore(log, block);
      QuietBlock(g, world, log);
    }
  }

  lemma QuietBlock(g: Setting, world: World, log: seq<Issue>)
    ensures (forall x | x in Forwards(g, world, "start") :: Stopped(log, x.target)) <==> ReachesQuiet(g, world, log)
  {
    hide Stopped, Linked, Issued, Mine, Inhibited, Target;
    var block := Forwards(g, world, "start");
    if forall x | x in block :: Stopped(log, x.target) {
      forall p | 0 <= p < |g.links| && Reaches(g, world, p)
        ensures Stopped(log, Target(g.links[p], g.id))
      {
        ForwardsIn(g, world, "start", 0, Issue(Target(g.links[p], g.id), "start"));
        assert Issue(Target(g.links[p], g.id), "start") in block;
      }
    }
    if ReachesQuiet(g, world, log) {
      forall x | x in block
        ensures Stopped(log, x.target)
      {
        ForwardsIn(g, world, "start", 0, x);
        var p :| 0 <= p < |g.links| && Reaches(g, world, p) && Target(g.links[p], g.id) == x.target;
      }
    }
  }

  // ----- main results

  /** After any run a linked contract has been stopped since its last start exactly when it is not pending. */
  lemma {:induction false} PendingExact(g: Setting, turns: seq<Turn>, p: nat)
    requires p < |g.links| && Mine(g.links[p], g.id)
    ensures Stopped(Run(g, turns).issued, Target(g.links[p], g.id)) <==> !Pending(g, turns, Target(g.links[p], g.id))
    decreases |turns|
  {
    hide Stopped, Mine, Target, Accepted, Served, Forwards, Backs, ReachesTarget;
    var target := Target(g.links[p], g.id);
    if turns == [] {
      assert Stopped([], target) by { NothingYet(g); }
    } else {
      var n := |turns| - 1;
      var before, turn := turns[..n], turns[n];
      var v, env := Run(g, before), turn.env;
      PendingExact(g, before, p);
      PhaseIsState(g, before);
      TurnIssues(v, g, turn);
      if turn.request == Stop {
        StoppedStops(v.issued, g, env.first, env.opens, p);
      } else if turn.request == Restart {
        var stopped := v.issued + if env.opens then Backs(g, env.first) else [];
        StoppedStops(v.issued, g, env.first, env.opens, p);
        StoppedForwards(stopped, g, env.second, env.opensAgain, "start", target);
      } else {
        StoppedForwards(v.issued, g, env.first, env.opens, Verb(turn.request), target);
      }
    }
  }

  lemma NothingYet(g: Setting)
    ensures OneStart([]) && forall target :: Stopped([], target)
  {
  }

  /** So every linked contract is stopped exactly when none is pending. */
  lemma AllStoppedExact(g: Setting, turns: seq<Turn>)
    ensures AllStopped(Run(g, turns).issued, g) <==>
            forall p | 0 <= p < |g.links| && Mine(g.links[p], g.id) :: !Pending(g, turns, Target(g.links[p], g.id))
  {
    hide Stopped, Run, Pending, Mine, Target;
    forall p | 0 <= p < |g.links| && Mine(g.links[p], g.id)
      ensures Stopped(Run(g, turns).issued, Target(g.links[p], g.id)) <==>
              !Pending(g, turns, Target(g.links[p], g.id))
    {
      PendingExact(g, turns, p);
    }
  }

  // What was reached was stopped exactly when nothing that is reached was pending.
  lemma QuietExact(g: Setting, world: World, before: seq<Turn>, first: World, opens: bool)
    ensures ReachesQuiet(g, world, Run(g, before).issued + if opens then Backs(g, first) else []) <==>
            ReachesStopped(g, world, before, opens)
  {
    hide Stopped, Mine, Target, Run, Pending, Backs;
    var log := Run(g, before).issued;
    forall p | 0 <= p < |g.links| && Reaches(g, world, p)
      ensures Stopped(log + (if opens then Backs(g, first) else []), Target(g.links[p], g.id)) <==>
              opens || !Pending(g, before, Target(g.links[p], g.id))
    {
      PendingExact(g, before, p);
      StoppedStops(log, g, first, opens, p);
    }
  }

  /** After any run no contract was started twice without a stop between exactly when the run was careful. */
  lemma {:induction false} CarefulExact(g: Setting, turns: seq<Turn>)
    ensures OneStart(Run(g, turns).issued) <==> Careful(g, turns)
    decreases |turns|
  {
    hide OneStart, Accepted, Served, Forwards, Backs, ReachesOnce, ReachesQuiet, ReachesStopped;
    if turns == [] {
      NothingYet(g);
    } else {
      var n := |turns| - 1;
      var before, turn := turns[..n], turns[n];
      var v, env := Run(g, before), turn.env;
      CarefulExact(g, before);
      PhaseIsState(g, before);
      TurnIssues(v, g, turn);
      if turn.request == Stop {
        OneStartStops(v.issued, g, env.first, env.opens);
      } else if turn.request == Restart {
        OneStartStops(v.issued, g, env.first, env.opens);
        OneStartStarts(v.issued + (if env.opens then Backs(g, env.first) else []), g, env.second, env.opensAgain);
        QuietExact(g, env.second, before, env.first, env.opens);
      } else if turn.request == Start {
        OneStartStarts(v.issued, g, env.first, env.opens);
        QuietExact(g, env.first, before, env.first, false);
        NoneAdded(v.issued);
      } else {
        OneStartForwards(v.issued, g, env.first, env.opens, Verb(turn.request));
      }
    }
  }

  // ----- runs whose stops were all reported

  lemma {:induction false} ReportedQuiet(g: Setting, turns: seq<Turn>, target: string)
    requires StopsReported(turns)
    ensures Phase(g, turns) == Idle ==> !Pending(g, turns, target)
    decreases |turns|
  {
    hide Period, ReachesTarget;
    if turns != [] {
      ReportedQuiet(g, turns[..|turns| - 1], target);
    }
  }

  /** Whenever the service is idle, every contract that was started has been stopped since, provided
      every backward walk could write its report. */
  lemma IdleIsStopped(g: Setting, turns: seq<Turn>)
    requires StopsReported(turns)
    ensures Run(g, turns).state == Idle ==> AllStopped(Run(g, turns).issued, g)
  {
    hide Stopped, Run, Pending, StopsReported, Mine, Target;
    PhaseIsState(g, turns);
    AllStoppedExact(g, turns);
    forall target
      ensures Phase(g, turns) == Idle ==> !Pending(g, turns, target)
    {
      ReportedQuiet(g, turns, target);
    }
  }

  lemma {:induction false} ReportedCareful(g: Setting, turns: seq<Turn>)
    requires StopsReported(turns) && DistinctTargets(g)
    ensures Careful(g, turns)
    decreases |turns|
  {
    hide Period, Pending, Inhibited, Mine, Target;
    if turns != [] {
      var n := |turns| - 1;
      ReportedCareful(g, turns[..n]);
      forall p | 0 <= p < |g.links| && Mine(g.links[p], g.id) && Phase(g, turns[..n]) == Idle
        ensures !Pending(g, turns[..n], Target(g.links[p], g.id))
      {
        ReportedQuiet(g, turns[..n], Target(g.links[p], g.id));
      }
    }
  }

  /** Over such a run no contract is started twice without a stop between, when none is linked twice. */
  lemma StartsOnce(g: Setting, turns: seq<Turn>)
    requires StopsReported(turns) && DistinctTargets(g)
    ensures OneStart(Run(g, turns).issued)
  {
    ReportedCareful(g, turns);
    CarefulExact(g, turns);
  }

  // ----- over all runs

  // Every contract answers and none inhibits the action.
  function Willing(): World { _ => Reply(Some([]), None) }

  // A restart whose backward walk could, or could not, write its report.
  function Restarted(opens: bool): Turn { Turn(Restart, Env(Willing(), opens, Willing(), true, 0)) }

  // A stop whose report could not be written.
  function StoppedUnreported(): Turn { Turn(Stop, Env(Willing(), false, Willing(), false, 0)) }

  lemma WillingReaches(g: Setting, p: nat)
    requires p < |g.links|
    ensures Reaches(g, Willing(), p) <==> Mine(g.links[p], g.id)
  {
    hide Mine;
  }

  lemma RestartedPends(g: Setting, p: nat)
    requires p < |g.links| && Mine(g.links[p], g.id)
    ensures Pending(g, [Restarted(true)], Target(g.links[p], g.id)) && Phase(g, [Restarted(true)]) == Running
  {
    hide Mine, Target, Period;
    WillingReaches(g, p);
    assert [Restarted(true)][..0] == [];
  }

  /** A service can be idle with its contracts running: a stop that cannot write its report stops nothing. */
  lemma IdleAndPending(g: Setting, p: nat)
    requires p < |g.links| && Mine(g.links[p], g.id)
    ensures Run(g, [Restarted(true), StoppedUnreported()]).state == Idle
    ensures !Stopped(Run(g, [Restarted(true), StoppedUnreported()]).issued, Target(g.links[p], g.id))
  {
    hide Run, Stopped, Mine, Target, Period, ReachesTarget;
    var turns := [Restarted(true), StoppedUnreported()];
    assert turns[..1] == [Restarted(true)];
    RestartedPends(g, p);
    PhaseIsState(g, turns);
    PendingExact(g, turns, p);
  }

  /** Idle always means stopped exactly when the service has no contracts. */
  lemma IdleIsStoppedExact(g: Setting)
    ensures (forall turns :: Run(g, turns).state == Idle ==> AllStopped(Run(g, turns).issued, g)) <==> Unlinked(g)
  {
    hide Run, Stopped, Mine, Target;
    if !Unlinked(g) {
      var p :| 0 <= p < |g.links| && Mine(g.links[p], g.id);
      IdleAndPending(g, p);
      var v := Run(g, [Restarted(true), StoppedUnreported()]);
      assert v.state == Idle && !AllStopped(v.issued, g);
    }
  }

  lemma OneReported()
    ensures StopsReported([Restarted(true)])
  {
  }

  /** With reports that open, no contract is ever started twice without a stop exactly when no contract
      is linked twice. */
  lemma StartsOnceExact(g: Setting)
    ensures (forall turns | StopsReported(turns) :: OneStart(Run(g, turns).issued)) <==> DistinctTargets(g)
  {
    hide Run, OneStart, StopsReported, Careful;
    if DistinctTargets(g) {
      forall turns | StopsReported(turns)
        ensures OneStart(Run(g, turns).issued)
      {
        StartsOnce(g, turns);
      }
    } else {
      OneReported();
      CarefulExact(g, [Restarted(true)]);
      NotOnce(g);
    }
  }

  lemma NotOnce(g: Setting)
    requires !DistinctTargets(g)
    ensures !Careful(g, [Restarted(true)])
  {
    hide Mine, Target, Period, Pending;
    var i, j :| 0 <= i < j < |g.links| && Mine(g.links[i], g.id) && Mine(g.links[j], g.id)
                && Target(g.links[i], g.id) == Target(g.links[j], g.id);
    WillingReaches(g, i);
    WillingReaches(g, j);
    assert [Restarted(true)][..0] == [];
  }

  /** Without that, a stop whose report cannot be written leaves contracts running, and every run is safe
      only for a service without contracts. */
  lemma ReportsMatter(g: Setting)
    ensures (forall turns :: OneStart(Run(g, turns).issued)) <==> Unlinked(g)
  {
    hide Run, OneStart, Careful, Mine;
    if Unlinked(g) {
      forall turns: seq<Turn>
        ensures OneStart(Run(g, turns).issued)
      {
        CarefulExact(g, turns);
        UnlinkedCareful(g, turns);
      }
    } else {
      var p :| 0 <= p < |g.links| && Mine(g.links[p], g.id);
      var turns := [Restarted(true), Restarted(false)];
      CarefulExact(g, turns);
      NotCareful(g, p);
    }
  }

  lemma NotCareful(g: Setting, p: nat)
    requires p < |g.links| && Mine(g.links[p], g.id)
    ensures !Careful(g, [Restarted(true), Restarted(false)])
  {
    hide Mine, Target, Period, Pending;
    RestartedPends(g, p);
    WillingReaches(g, p);
    assert [Restarted(true), Restarted(false)][..1] == [Restarted(true)];
  }

  lemma {:induction false} UnlinkedCareful(g: Setting, turns: seq<Turn>)
    requires Unlinked(g)
    ensures Careful(g, turns)
    decreases |turns|
  {
    hide Period, Pending, Mine, Target;
    if turns != [] {
      UnlinkedCareful(g, turns[..|turns| - 1]);
    }
  }
}
