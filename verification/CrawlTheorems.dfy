/**
 What every schedule of the crawl guarantees: quiescence when the join loop
 leaves, the same result for every schedule, termination, and no deadlock.
 */
module CrawlTheorems {
  import opened Options
  import opened Crawl

  // ---- Invariants over whole runs ---------------------------------------------

  ghost predicate Inv(net: Network, root: Fqdn, s: State) {
    && Accounted(s) && JoinedFinished(s) && Claims(s) && Outcomes(net, s) && Frontier(net, root, s)
    && (s.sup.Exited? ==> s.handles == [])
  }

  lemma InitInv(net: Network, root: Fqdn)
    ensures Inv(net, root, Init(root))
  {
    assert forall a: Actor :: IsCalling(Init(root), a) ==> a == None;
  }

  lemma StepInv(net: Network, root: Fqdn, s: State, step: Step)
    requires Inv(net, root, s) && Enabled(net, s, step)
    ensures Inv(net, root, Do(net, s, step))
  {
    AccountedStep(net, s, step);
    JoinedFinishedStep(net, s, step);
    ClaimsStep(net, s, step);
    OutcomesStep(net, s, step);
    FrontierStep(net, root, s, step);
    if s.sup.Exited? {
      ExitedStuck(net, root, s, step);
    }
  }

  lemma ExitedStuck(net: Network, root: Fqdn, s: State, step: Step)
    requires Inv(net, root, s) && s.sup.Exited?
    ensures !Enabled(net, s, step)
  {
    forall t: nat | t < |s.workers| ensures s.workers[t].pc.Finished? {
      AllJoined(net, root, s, t);
    }
  }

  // A worker whose handle is not joined is held by an older, unfinished worker;
  // following the spawn tree downwards ends at the supervisor, which holds nothing.
  lemma {:induction false} AllJoined(net: Network, root: Fqdn, s: State, t: Tid)
    requires Inv(net, root, s) && t < |s.workers|
    requires s.handles == [] && (s.sup.Draining? || s.sup.Exited?)
    ensures t in s.joined && s.workers[t].pc.Finished?
    decreases t
  {
    if t !in s.joined {
      assert Holding(s, s.workers[t].parent, t);
      var p := s.workers[t].parent.value;
      AllJoined(net, root, s, p);
    }
  }

  lemma {:induction false} RunInv(net: Network, root: Fqdn, s: State, steps: seq<Step>)
    requires Inv(net, root, s) && IsRun(net, s, steps)
    ensures Inv(net, root, End(net, s, steps))
    decreases |steps|
  {
    if steps != [] {
      StepInv(net, root, s, steps[0]);
      RunInv(net, root, Do(net, s, steps[0]), steps[1..]);
    }
  }

  lemma {:induction false} RunWithin(net: Network, root: Fqdn, S: set<Fqdn>, s: State, steps: seq<Step>)
    requires Inv(net, root, s) && Closed(net, S) && Within(S, s) && IsRun(net, s, steps)
    ensures Within(S, End(net, s, steps))
    decreases |steps|
  {
    if steps != [] {
      StepInv(net, root, s, steps[0]);
      WithinStep(net, S, s, steps[0]);
      RunWithin(net, root, S, Do(net, s, steps[0]), steps[1..]);
    }
  }

  // ---- Quiescence ---------------------------------------------------------------

  ghost predicate Quiescent(net: Network, s: State) {
    && (forall t: nat :: t < |s.workers| ==> s.workers[t].pc.Finished? && multiset(s.joined)[t] == 1)
    && (forall t: Tid :: t in s.joined ==> t < |s.workers|)
    && s.handles == []
    && (forall a: Actor :: !IsCalling(s, a))
    && (forall step :: !Enabled(net, s, step))
  }

  lemma ExitedIsQuiescent(net: Network, root: Fqdn, s: State)
    requires Inv(net, root, s) && s.sup.Exited?
    ensures Quiescent(net, s)
  {
    forall t: nat | t < |s.workers|
      ensures s.workers[t].pc.Finished? && multiset(s.joined)[t] == 1
    {
      AllJoined(net, root, s, t);
      assert t in Pushed(s) && Pushed(s)[t] == 1;
    }
    forall step ensures !Enabled(net, s, step) {
      ExitedStuck(net, root, s, step);
    }
  }

  // When the supervisor has left the loop, nothing runs and nothing can start:
  // every spawned worker has finished and been joined exactly once, no handle
  // is left, no actor is about to spawn or push, and no step is enabled.
  lemma Quiescence(net: Network, root: Fqdn, steps: seq<Step>)
    requires IsRun(net, Init(root), steps) && End(net, Init(root), steps).sup.Exited?
    ensures Quiescent(net, End(net, Init(root), steps))
  {
    InitInv(net, root);
    RunInv(net, root, Init(root), steps);
    ExitedIsQuiescent(net, root, End(net, Init(root), steps));
  }

  // ---- The result -----------------------------------------------------------------

  // The devices a crawl must visit: the least set that holds the root and, with
  // every answering device, its resolved and non-ignored neighbours.
  ghost predicate IsReachSet(net: Network, root: Fqdn, S: set<Fqdn>) {
    && root in S && Closed(net, S)
    && forall T: set<Fqdn> :: root in T && Closed(net, T) ==> S <= T
  }

  lemma CrawlResult(net: Network, root: Fqdn, steps: seq<Step>)
    requires IsRun(net, Init(root), steps) && End(net, Init(root), steps).sup.Exited?
    ensures var s := End(net, Init(root), steps);
      && IsReachSet(net, root, s.inFlight)
      && s.detected == (set f | f in s.inFlight && f in net.reports)
      && s.failures == s.inFlight - s.detected
      && (forall f :: f in s.inFlight <==> Spawned(s, f))
      && (forall t: nat, u: nat :: t < u < |s.workers| ==> s.workers[t].fqdn != s.workers[u].fqdn)
  {
    var s := End(net, Init(root), steps);
    InitInv(net, root);
    RunInv(net, root, Init(root), steps);
    Quiescence(net, root, steps);
    StaysInside(net, root, steps);
    hide IsRun, End;
    ResultSets(net, root, s);
    hide *;
    hide Inv, Quiescent, Spawned, Closed;
  }

  lemma StaysInside(net: Network, root: Fqdn, steps: seq<Step>)
    requires IsRun(net, Init(root), steps) && Inv(net, root, Init(root))
    ensures forall T: set<Fqdn> :: root in T && Closed(net, T) ==> End(net, Init(root), steps).inFlight <= T
  {
    hide Inv, IsRun, End, Closed;
    forall T: set<Fqdn> | root in T && Closed(net, T) ensures End(net, Init(root), steps).inFlight <= T {
      RunWithin(net, root, T, Init(root), steps);
    }
  }

  lemma ResultSets(net: Network, root: Fqdn, s: State)
    requires Inv(net, root, s) && s.sup.Exited? && Quiescent(net, s)
    ensures root in s.inFlight && Closed(net, s.inFlight)
    ensures s.detected == (set f | f in s.inFlight && f in net.reports)
    ensures s.failures == s.inFlight - s.detected
    ensures forall f :: f in s.inFlight <==> Spawned(s, f)
    ensures forall t: nat, u: nat :: t < u < |s.workers| ==> s.workers[t].fqdn != s.workers[u].fqdn
  {
    hide Enabled;
    forall f | f in s.inFlight ensures f in (if f in net.reports then s.detected else s.failures) {
      assert Spawned(s, f);
    }
    forall f, g | f in s.inFlight && IsNeighbour(net, f, g) ensures g in s.inFlight {
      var t: nat :| t < |s.workers| && s.workers[t].fqdn == f;
      assert s.workers[t].pc.Finished?;
    }
  }

  // Every schedule ends with the same sets.
  lemma Confluence(net: Network, root: Fqdn, left: seq<Step>, right: seq<Step>)
    requires IsRun(net, Init(root), left) && End(net, Init(root), left).sup.Exited?
    requires IsRun(net, Init(root), right) && End(net, Init(root), right).sup.Exited?
    ensures var l, r := End(net, Init(root), left), End(net, Init(root), right);
      l.inFlight == r.inFlight && l.detected == r.detected && l.failures == r.failures
  {
    CrawlResult(net, root, left);
    CrawlResult(net, root, right);
  }

  lemma SingleDeviceStaysAtRoot(net: Network, root: Fqdn, steps: seq<Step>)
    requires net.singleDevice && IsRun(net, Init(root), steps)
    ensures var s := End(net, Init(root), steps);
      s.inFlight <= {root} && (s.sup.Exited? ==> s.inFlight == {root} && |s.workers| == 1)
  {
    var s := End(net, Init(root), steps);
    InitInv(net, root);
    RunWithin(net, root, {root}, Init(root), steps);
    if s.sup.Exited? {
      CrawlResult(net, root, steps);
      assert |s.workers| > 1 ==> s.workers[0].fqdn != s.workers[1].fqdn;
      assert Spawned(s, root);
      forall t: nat | t < |s.workers| ensures s.workers[t].fqdn == root {
        assert Spawned(s, s.workers[t].fqdn);
      }
    }
  }

  // ---- Termination ------------------------------------------------------------------

  function Universe(net: Network, root: Fqdn): set<Fqdn> {
    {root} + net.resolve.Values
  }

  // The steps a worker can still take, given that lists name at most n devices.
  function CallWeight(n: nat, call: Call): nat {
    match call
    case Idle => 0
    case ToPush(_) => 4
    case ToSpawn(_) => 3 * n + 7
  }

  function StarterWeight(n: nat, starter: Starter): nat {
    3 * |starter.todo| + CallWeight(n, starter.call)
  }

  function WorkerWeight(n: nat, worker: Worker): nat {
    match worker.pc
    case Collecting => 3 * n + 2
    case Calling(starter) => StarterWeight(n, starter) + 1
    case Finished => 0
  }

  function WorkersWeight(n: nat, workers: seq<Worker>): nat {
    if workers == [] then 0
    else WorkersWeight(n, workers[..|workers| - 1]) + WorkerWeight(n, workers[|workers| - 1])
  }

  function SupervisorWeight(n: nat, sup: Supervisor): nat {
    match sup
    case Launching(starter) => StarterWeight(n, starter) + 2
    case Joining(pending) => |pending| + 2
    case Draining => 1
    case Exited => 0
  }

  ghost function Fuel(net: Network, root: Fqdn, s: State): nat {
    var n := |Universe(net, root)|;
    ClaimWeight(n, |Universe(net, root) - s.inFlight|) +
    WorkersWeight(n, s.workers) + 3 * |s.handles| + SupervisorWeight(n, s.sup)
  }

  // What `unclaimed` devices may still cost once they are claimed.
  function ClaimWeight(n: nat, unclaimed: nat): nat {
    if unclaimed == 0 then 0 else 3 * n + 8 + ClaimWeight(n, unclaimed - 1)
  }

  lemma {:induction false} ClaimWeightProduct(n: nat, unclaimed: nat)
    ensures ClaimWeight(n, unclaimed) == (3 * n + 8) * unclaimed
  {
    if unclaimed != 0 {
      ClaimWeightProduct(n, unclaimed - 1);
    }
  }

  lemma {:induction false} WorkersWeightUpdate(n: nat, workers: seq<Worker>, t: nat, w: Worker)
    requires t < |workers|
    ensures WorkersWeight(n, workers[t := w]) + WorkerWeight(n, workers[t]) ==
            WorkersWeight(n, workers) + WorkerWeight(n, w)
  {
    var last := |workers| - 1;
    if t == last {
      assert workers[t := w][..last] == workers[..last];
    } else {
      assert workers[t := w][..last] == workers[..last][t := w];
      WorkersWeightUpdate(n, workers[..last], t, w);
    }
  }

  lemma {:induction false} DistinctBounded(todo: seq<Fqdn>, S: set<Fqdn>)
    requires Distinct(todo) && forall g :: g in todo ==> g in S
    ensures |todo| <= |S|
  {
    if todo != [] {
      var rest := todo[..|todo| - 1];
      assert todo == rest + [todo[|todo| - 1]];
      DistinctBounded(rest, S - {todo[|todo| - 1]});
    }
  }

  lemma UniverseClosed(net: Network, root: Fqdn)
    ensures Closed(net, Universe(net, root))
  {
  }

  lemma FuelStep(net: Network, root: Fqdn, s: State, step: Step)
    requires Inv(net, root, s) && Within(Universe(net, root), s) && Enabled(net, s, step)
    ensures Fuel(net, root, Do(net, s, step)) < Fuel(net, root, s)
  {
    hide Fuel, Do;
    match step
    case Check(a) => FuelCheck(net, root, s, a);
    case Spawn(a) => FuelSpawn(net, root, s, a);
    case Push(a) => FuelPush(net, root, s, a);
    case Collect(_, _) => FuelWorker(net, root, s, step);
    case Fail(_) => FuelWorker(net, root, s, step);
    case Return(_) => FuelWorker(net, root, s, step);
    case _ => FuelSupervisor(net, root, s, step);
  }

  lemma FuelPush(net: Network, root: Fqdn, s: State, a: Actor)
    requires Enabled(net, s, Push(a))
    ensures Fuel(net, root, Do(net, s, Push(a))) < Fuel(net, root, s)
  {
    hide WorkersWeight, SupervisorWeight, ClaimWeight, Universe;
    CallerWeight(|Universe(net, root)|, s, a, StarterOf(s, a).(call := Idle));
  }

  lemma FuelSupervisor(net: Network, root: Fqdn, s: State, step: Step)
    requires Enabled(net, s, step) && (step.Drain? || step.Join? || step.Rescan?)
    ensures Fuel(net, root, Do(net, s, step)) < Fuel(net, root, s)
  {
    hide WorkersWeight, ClaimWeight, Universe;
  }

  lemma FuelWorker(net: Network, root: Fqdn, s: State, step: Step)
    requires Enabled(net, s, step) && (step.Collect? || step.Fail? || step.Return?)
    ensures Fuel(net, root, Do(net, s, step)) < Fuel(net, root, s)
  {
    var n := |Universe(net, root)|;
    match step
    case Collect(t, todo) =>
      DistinctBounded(todo, Universe(net, root));
      WorkersWeightUpdate(n, s.workers, t, s.workers[t].(pc := Calling(Starter(todo, Idle))));
    case Fail(t) =>
      WorkersWeightUpdate(n, s.workers, t, s.workers[t].(pc := Calling(Starter([], Idle))));
    case Return(a) =>
      if a.Some? {
        WorkersWeightUpdate(n, s.workers, a.value, s.workers[a.value].(pc := Finished));
      }
  }

  lemma FuelSpawn(net: Network, root: Fqdn, s: State, a: Actor)
    requires Enabled(net, s, Spawn(a))
    ensures Fuel(net, root, Do(net, s, Spawn(a))) < Fuel(net, root, s)
  {
    var starter := StarterOf(s, a).(call := ToPush(|s.workers|));
    CallerWeight(|Universe(net, root)|, s, a, starter);
    var ws := WithStarter(s, a, starter).workers;
    var w := Worker(StarterOf(s, a).call.target, a, Collecting);
    assert (ws + [w])[..|ws|] == ws;
  }

  lemma CallerWeight(n: nat, s: State, a: Actor, starter: Starter)
    requires IsCalling(s, a)
    ensures var s' := WithStarter(s, a, starter);
      WorkersWeight(n, s'.workers) + SupervisorWeight(n, s'.sup) + StarterWeight(n, StarterOf(s, a)) ==
      WorkersWeight(n, s.workers) + SupervisorWeight(n, s.sup) + StarterWeight(n, starter)
  {
    if a.Some? {
      WorkersWeightUpdate(n, s.workers, a.value, s.workers[a.value].(pc := Calling(starter)));
    }
  }

  lemma FuelCheck(net: Network, root: Fqdn, s: State, a: Actor)
    requires Within(Universe(net, root), s) && Outcomes(net, s) && Enabled(net, s, Check(a))
    ensures Fuel(net, root, Do(net, s, Check(a))) < Fuel(net, root, s)
  {
    hide WorkersWeight, SupervisorWeight, ClaimWeight;
    var n := |Universe(net, root)|;
    var starter := StarterOf(s, a);
    var f := starter.todo[0];
    if f in s.inFlight || f in s.detected {
      CallerWeight(n, s, a, Starter(starter.todo[1..], Idle));
    } else {
      FuelClaim(net, root, s, a);
    }
  }

  lemma FuelClaim(net: Network, root: Fqdn, s: State, a: Actor)
    requires Within(Universe(net, root), s) && Enabled(net, s, Check(a))
    requires StarterOf(s, a).todo[0] !in s.inFlight && StarterOf(s, a).todo[0] !in s.detected
    ensures Fuel(net, root, Do(net, s, Check(a))) < Fuel(net, root, s)
  {
    var U := Universe(net, root);
    var starter := StarterOf(s, a);
    var f := starter.todo[0];
    ClaimWeightDrop(U, s.inFlight, f);
    hide WorkersWeight, SupervisorWeight, ClaimWeight, Within, Universe;
    CallerWeight(|U|, s, a, Starter(starter.todo[1..], ToSpawn(f)));
  }

  lemma ClaimWeightDrop(U: set<Fqdn>, inFlight: set<Fqdn>, f: Fqdn)
    requires f in U && f !in inFlight
    ensures ClaimWeight(|U|, |U - inFlight|) == 3 * |U| + 8 + ClaimWeight(|U|, |U - (inFlight + {f})|)
  {
    OneFewer(U, inFlight, f);
    assert ClaimWeight(|U|, |U - inFlight|) == 3 * |U| + 8 + ClaimWeight(|U|, |U - inFlight| - 1);
  }

  lemma OneFewer<T>(U: set<T>, S: set<T>, x: T)
    requires x in U && x !in S
    ensures |U - (S + {x})| == |U - S| - 1
  {
    assert U - (S + {x}) == (U - S) - {x};
  }

  lemma {:induction false} FuelRun(net: Network, root: Fqdn, s: State, steps: seq<Step>)
    requires Inv(net, root, s) && Within(Universe(net, root), s) && IsRun(net, s, steps)
    ensures |steps| + Fuel(net, root, End(net, s, steps)) <= Fuel(net, root, s)
    decreases |steps|
  {
    if steps != [] {
      FuelStep(net, root, s, steps[0]);
      StepInv(net, root, s, steps[0]);
      UniverseClosed(net, root);
      WithinStep(net, Universe(net, root), s, steps[0]);
      FuelRun(net, root, Do(net, s, steps[0]), steps[1..]);
    }
  }

  // No schedule is longer than this, however the threads interleave.
  lemma Termination(net: Network, root: Fqdn, steps: seq<Step>)
    requires IsRun(net, Init(root), steps)
    ensures var n := |Universe(net, root)|; |steps| <= (3 * n + 8) * n + 5
  {
    hide *;
    InitInv(net, root);
    InitFuel(net, root);
    ClaimWeightProduct(|Universe(net, root)|, |Universe(net, root)|);
    FuelRun(net, root, Init(root), steps);
  }

  lemma InitFuel(net: Network, root: Fqdn)
    ensures var n := |Universe(net, root)|; Fuel(net, root, Init(root)) == ClaimWeight(n, n) + 5
    ensures Within(Universe(net, root), Init(root))
  {
    hide ClaimWeight;
    assert Universe(net, root) - Init(root).inFlight == Universe(net, root);
    assert forall a: Actor :: IsCalling(Init(root), a) ==> a == None;
  }

  // ---- No deadlock ----------------------------------------------------------------

  lemma {:induction false} Enumerate(S: set<Fqdn>) returns (list: seq<Fqdn>)
    ensures Distinct(list) && forall g :: g in list <==> g in S
  {
    list := [];
    if S != {} {
      var g :| g in S;
      var rest := Enumerate(S - {g});
      list := rest + [g];
    }
  }

  lemma WorkerCanStep(net: Network, s: State, t: Tid) returns (step: Step)
    requires t < |s.workers| && !s.workers[t].pc.Finished?
    ensures Enabled(net, s, step)
  {
    match s.workers[t].pc
    case Collecting =>
      var f := s.workers[t].fqdn;
      if f in net.reports {
        var todo := Enumerate(set g | g in net.resolve.Values && IsNeighbour(net, f, g));
        step := Collect(t, todo);
      } else {
        step := Fail(t);
      }
    case Calling(starter) =>
      step := CallerCanStep(net, s, Some(t));
  }

  lemma CallerCanStep(net: Network, s: State, a: Actor) returns (step: Step)
    requires IsCalling(s, a)
    ensures Enabled(net, s, step)
  {
    match StarterOf(s, a).call
    case ToSpawn(_) => step := Spawn(a);
    case ToPush(_) => step := Push(a);
    case Idle => step := if StarterOf(s, a).todo == [] then Return(a) else Check(a);
  }

  // Until the supervisor has left the loop some actor can move: a join waits
  // only for a worker that can still run.
  lemma Progress(net: Network, root: Fqdn, steps: seq<Step>) returns (step: Step)
    requires IsRun(net, Init(root), steps) && !End(net, Init(root), steps).sup.Exited?
    ensures Enabled(net, End(net, Init(root), steps), step)
  {
    var s := End(net, Init(root), steps);
    InitInv(net, root);
    RunInv(net, root, Init(root), steps);
    match s.sup
    case Launching(starter) => step := CallerCanStep(net, s, None);
    case Draining => step := Drain;
    case Joining(pending) =>
      if pending == [] {
        step := Rescan;
      } else {
        var t := pending[0];
        assert t in Pushed(s);
        if s.workers[t].pc.Finished? {
          step := Join;
        } else {
          step := WorkerCanStep(net, s, t);
        }
      }
  }
}
