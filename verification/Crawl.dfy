/**
 The discovery crawl (nexus/src/collectors/discovery.rs): one thread per device,
 a mutex around the crawl sets, and a supervisor that drains and joins handles
 until it finds none.

 The crawl is an interleaved step system. Every step is one critical section or
 one thread operation of the source; between two steps any other actor may run.
 An actor is the supervisor (`None`) or a worker (`Some(tid)`).
 */
module Crawl {
  import opened Options

  type Fqdn = string
  type Tid = nat
  type Actor = Option<Tid>

  // ---- What a run sees of the outside world ---------------------------------

  // `reports` holds the devices whose collection succeeds, with the neighbour
  // names they announce; `resolve` is name resolution, fixed during a run.
  datatype Network = Network(
    reports: map<Fqdn, seq<string>>,
    resolve: map<string, Fqdn>,
    ignore: set<Fqdn>,
    singleDevice: bool)

  ghost predicate IsNeighbour(net: Network, f: Fqdn, g: Fqdn) {
    && !net.singleDevice
    && f in net.reports
    && g !in net.ignore
    && exists name :: name in net.reports[f] && name in net.resolve && net.resolve[name] == g
  }

  ghost predicate Distinct<T>(s: seq<T>) {
    forall i, j :: 0 <= i < j < |s| ==> s[i] != s[j]
  }

  // The lists a worker may end up with: hash-map iteration fixes no order.
  ghost predicate IsNeighbourList(net: Network, f: Fqdn, todo: seq<Fqdn>) {
    && Distinct(todo)
    && forall g :: g in todo <==> IsNeighbour(net, f, g)
  }

  // The gathering loop of a worker, for the names of an answering device in
  // the order in which its interfaces are visited.
  method GatherNeighbours(net: Network, f: Fqdn, names: seq<string>) returns (todo: seq<Fqdn>)
    requires f in net.reports
    requires forall name :: name in names <==> name in net.reports[f]
    ensures IsNeighbourList(net, f, todo)
  {
    todo := [];
    if !net.singleDevice {
      for i := 0 to |names|
        invariant Distinct(todo)
        invariant forall g :: g in todo <==>
          g !in net.ignore && exists k :: 0 <= k < i && names[k] in net.resolve && net.resolve[names[k]] == g
      {
        if names[i] in net.resolve {
          var g := net.resolve[names[i]];
          if g !in todo && g !in net.ignore {
            todo := todo + [g];
          }
        }
      }
      forall g | g in todo ensures IsNeighbour(net, f, g) {
        var k :| 0 <= k < |names| && names[k] in net.resolve && net.resolve[names[k]] == g;
        assert names[k] in net.reports[f];
      }
      forall g | IsNeighbour(net, f, g) ensures g in todo {
        var name :| name in net.reports[f] && name in net.resolve && net.resolve[name] == g;
        var k :| 0 <= k < |names| && names[k] == name;
      }
    }
  }

  // ---- State ----------------------------------------------------------------

  // Where a caller of start_device_discovery stands: after claiming a device
  // it still has to spawn the worker, and after spawning it to push the handle.
  datatype Call = Idle | ToSpawn(target: Fqdn) | ToPush(child: Tid)
  datatype Starter = Starter(todo: seq<Fqdn>, call: Call)
  datatype Pc = Collecting | Calling(starter: Starter) | Finished
  datatype Worker = Worker(fqdn: Fqdn, parent: Actor, pc: Pc)
  datatype Supervisor = Launching(starter: Starter) | Draining | Joining(pending: seq<Tid>) | Exited

  // `joined` and `Worker.parent` are history: no step reads them.
  datatype State = State(
    inFlight: set<Fqdn>,
    detected: set<Fqdn>,
    failures: set<Fqdn>,
    handles: seq<Tid>,
    workers: seq<Worker>,
    joined: seq<Tid>,
    sup: Supervisor)

  function Init(root: Fqdn): State {
    State({}, {}, {}, [], [], [], Launching(Starter([root], Idle)))
  }

  predicate IsCalling(s: State, a: Actor) {
    match a
    case None => s.sup.Launching?
    case Some(t) => t < |s.workers| && s.workers[t].pc.Calling?
  }

  function StarterOf(s: State, a: Actor): Starter
    requires IsCalling(s, a)
  {
    match a
    case None => s.sup.starter
    case Some(t) => s.workers[t].pc.starter
  }

  function WithStarter(s: State, a: Actor, starter: Starter): State
    requires IsCalling(s, a)
  {
    match a
    case None => s.(sup := Launching(starter))
    case Some(t) => WithPc(s, t, Calling(starter))
  }

  function WithPc(s: State, t: Tid, pc: Pc): State
    requires t < |s.workers|
  {
    s.(workers := s.workers[t := s.workers[t].(pc := pc)])
  }

  function Pending(s: State): seq<Tid> {
    if s.sup.Joining? then s.sup.pending else []
  }

  // ---- Steps ----------------------------------------------------------------

  datatype Step =
    | Collect(t: Tid, todo: seq<Fqdn>) // collection succeeded: record the device, keep its neighbours
    | Fail(t: Tid)                     // collection failed: record the failure
    | Check(a: Actor)                  // check-and-insert of the next device, under the state lock
    | Spawn(a: Actor)
    | Push(a: Actor)                   // push the new handle, under the handles lock
    | Return(a: Actor)                 // nothing left to start
    | Drain                            // take all handles, or leave the loop when there are none
    | Join                             // join the next drained handle; blocks until it has finished
    | Rescan                           // all drained handles joined

  ghost predicate Enabled(net: Network, s: State, step: Step) {
    match step
    case Collect(t, todo) =>
      && t < |s.workers| && s.workers[t].pc.Collecting?
      && s.workers[t].fqdn in net.reports && IsNeighbourList(net, s.workers[t].fqdn, todo)
    case Fail(t) => t < |s.workers| && s.workers[t].pc.Collecting? && s.workers[t].fqdn !in net.reports
    case Check(a) => IsCalling(s, a) && StarterOf(s, a).call.Idle? && StarterOf(s, a).todo != []
    case Spawn(a) => IsCalling(s, a) && StarterOf(s, a).call.ToSpawn?
    case Push(a) => IsCalling(s, a) && StarterOf(s, a).call.ToPush?
    case Return(a) => IsCalling(s, a) && StarterOf(s, a) == Starter([], Idle)
    case Drain => s.sup.Draining?
    case Join =>
      && s.sup.Joining? && s.sup.pending != []
      && s.sup.pending[0] < |s.workers| && s.workers[s.sup.pending[0]].pc.Finished?
    case Rescan => s.sup == Joining([])
  }

  ghost function Do(net: Network, s: State, step: Step): State
    requires Enabled(net, s, step)
  {
    match step
    case Collect(t, todo) =>
      WithPc(s.(detected := s.detected + {s.workers[t].fqdn}), t, Calling(Starter(todo, Idle)))
    case Fail(t) =>
      WithPc(s.(failures := s.failures + {s.workers[t].fqdn}), t, Calling(Starter([], Idle)))
    case Check(a) =>
      var starter := StarterOf(s, a);
      var f := starter.todo[0];
      if f in s.inFlight || f in s.detected then
        WithStarter(s, a, Starter(starter.todo[1..], Idle))
      else
        WithStarter(s.(inFlight := s.inFlight + {f}), a, Starter(starter.todo[1..], ToSpawn(f)))
    case Spawn(a) =>
      var starter := StarterOf(s, a);
      var s' := WithStarter(s, a, starter.(call := ToPush(|s.workers|)));
      s'.(workers := s'.workers + [Worker(starter.call.target, a, Collecting)])
    case Push(a) =>
      var starter := StarterOf(s, a);
      WithStarter(s.(handles := s.handles + [starter.call.child]), a, starter.(call := Idle))
    case Return(a) =>
      (match a
       case None => s.(sup := Draining)
       case Some(t) => WithPc(s, t, Finished))
    case Drain =>
      if s.handles == [] then s.(sup := Exited) else s.(sup := Joining(s.handles), handles := [])
    case Join =>
      s.(sup := Joining(s.sup.pending[1..]), joined := s.joined + [s.sup.pending[0]])
    case Rescan => s.(sup := Draining)
  }

  // A run is the sequence of its steps, each enabled when it is taken.
  ghost predicate IsRun(net: Network, s: State, steps: seq<Step>)
    decreases |steps|
  {
    steps == [] || (Enabled(net, s, steps[0]) && IsRun(net, Do(net, s, steps[0]), steps[1..]))
  }

  ghost function End(net: Network, s: State, steps: seq<Step>): State
    requires IsRun(net, s, steps)
    decreases |steps|
  {
    if steps == [] then s else End(net, Do(net, s, steps[0]), steps[1..])
  }

  // ---- Invariant 1: every handle is accounted for, once ----------------------

  predicate Holding(s: State, a: Actor, t: Tid) {
    IsCalling(s, a) && StarterOf(s, a).call == ToPush(t)
  }

  // The handles that have been pushed: still listed, drained, or joined.
  ghost function Pushed(s: State): multiset<Tid> {
    multiset(s.handles) + multiset(Pending(s)) + multiset(s.joined)
  }

  // A worker's handle has been pushed, once, or is still in the hands of the
  // parent that spawned it. Parents are older than their children, so the spawn
  // tree is well founded.
  ghost predicate Accounted(s: State) {
    && (forall t: nat :: t < |s.workers| ==>
          && (s.workers[t].parent.Some? ==> s.workers[t].parent.value < t)
          && (t in Pushed(s) || Holding(s, s.workers[t].parent, t)))
    && (forall t: Tid :: t in Pushed(s) ==> t < |s.workers| && Pushed(s)[t] == 1)
    && (forall a: Actor, t: Tid :: Holding(s, a, t) ==>
          t < |s.workers| && s.workers[t].parent == a && t !in Pushed(s))
  }

  ghost predicate JoinedFinished(s: State) {
    forall t: Tid :: t in s.joined ==> t < |s.workers| && s.workers[t].pc.Finished?
  }

  lemma PushedStep(net: Network, s: State, step: Step)
    requires Enabled(net, s, step) && !step.Push?
    ensures Pushed(Do(net, s, step)) == Pushed(s)
  {
    hide WithStarter, WithPc, StarterOf, IsCalling, IsNeighbourList;
    if step.Join? {
      HeadJoined(s.handles, s.sup.pending, s.joined);
    } else if !step.Drain? {
      SameLists(net, s, step);
    }
  }

  lemma HeadJoined(handles: seq<Tid>, pending: seq<Tid>, joined: seq<Tid>)
    requires pending != []
    ensures multiset(handles) + multiset(pending[1..]) + multiset(joined + [pending[0]]) ==
            multiset(handles) + multiset(pending) + multiset(joined)
  {
    assert pending == [pending[0]] + pending[1..];
  }

  lemma SameLists(net: Network, s: State, step: Step)
    requires Enabled(net, s, step) && !step.Push? && !step.Join? && !step.Drain?
    ensures var s' := Do(net, s, step);
      s'.handles == s.handles && Pending(s') == Pending(s) && s'.joined == s.joined
  {
    hide IsNeighbourList;
  }

  lemma PushedPush(net: Network, s: State, a: Actor)
    requires Enabled(net, s, Push(a))
    ensures Pushed(Do(net, s, Push(a))) == Pushed(s) + multiset{StarterOf(s, a).call.child}
  {
    var s' := Do(net, s, Push(a));
    assert multiset(s'.handles) == multiset(s.handles) + multiset{StarterOf(s, a).call.child};
    assert Pending(s') == Pending(s) && s'.joined == s.joined;
  }

  // Only spawning and pushing move a handle between hands.
  lemma HoldingStep(net: Network, s: State, step: Step)
    requires Enabled(net, s, step) && !step.Spawn? && !step.Push?
    ensures var s' := Do(net, s, step);
      && |s'.workers| == |s.workers|
      && (forall t: nat :: t < |s.workers| ==>
            s'.workers[t].parent == s.workers[t].parent && s'.workers[t].fqdn == s.workers[t].fqdn)
      && (forall a: Actor, t: Tid :: Holding(s', a, t) <==> Holding(s, a, t))
  {
  }

  lemma AccountedStep(net: Network, s: State, step: Step)
    requires Accounted(s) && Enabled(net, s, step)
    ensures Accounted(Do(net, s, step))
  {
    match step
    case Spawn(a) => AccountedSpawn(net, s, a);
    case Push(a) => AccountedPush(net, s, a);
    case _ =>
      PushedStep(net, s, step);
      HoldingStep(net, s, step);
      AccountedSame(s, Do(net, s, step));
  }

  lemma AccountedSame(s: State, s': State)
    requires Accounted(s)
    requires |s'.workers| == |s.workers| && Pushed(s') == Pushed(s)
    requires forall t: nat :: t < |s.workers| ==> s'.workers[t].parent == s.workers[t].parent
    requires forall a: Actor, t: Tid :: Holding(s', a, t) <==> Holding(s, a, t)
    ensures Accounted(s')
  {
  }

  lemma SpawnEffect(net: Network, s: State, a: Actor)
    requires Enabled(net, s, Spawn(a))
    ensures var s' := Do(net, s, Spawn(a));
      && |s'.workers| == |s.workers| + 1
      && (forall t: nat :: t < |s.workers| ==>
            s'.workers[t].parent == s.workers[t].parent && s'.workers[t].fqdn == s.workers[t].fqdn)
      && s'.workers[|s.workers|] == Worker(StarterOf(s, a).call.target, a, Collecting)
      && (forall b: Actor :: IsCalling(s', b) <==> IsCalling(s, b))
      && (forall b: Actor :: b != a && IsCalling(s, b) ==> StarterOf(s', b) == StarterOf(s, b))
      && StarterOf(s', a).call == ToPush(|s.workers|)
  {
  }

  lemma AccountedSpawn(net: Network, s: State, a: Actor)
    requires Accounted(s) && Enabled(net, s, Spawn(a))
    ensures Accounted(Do(net, s, Spawn(a)))
  {
    var s' := Do(net, s, Spawn(a));
    PushedStep(net, s, Spawn(a));
    SpawnEffect(net, s, a);
    AccountedGrown(s, s', a);
  }

  lemma AccountedGrown(s: State, s': State, a: Actor)
    requires Accounted(s)
    requires |s'.workers| == |s.workers| + 1 && Pushed(s') == Pushed(s)
    requires forall t: nat :: t < |s.workers| ==> s'.workers[t].parent == s.workers[t].parent
    requires s'.workers[|s.workers|].parent == a && (a.Some? ==> a.value < |s.workers|)
    requires forall b: Actor, t: Tid :: Holding(s', b, t) <==> Holding(s, b, t) || (b == a && t == |s.workers|)
    ensures Accounted(s')
  {
  }

  lemma AccountedPush(net: Network, s: State, a: Actor)
    requires Accounted(s) && Enabled(net, s, Push(a))
    ensures Accounted(Do(net, s, Push(a)))
  {
    var s' := Do(net, s, Push(a));
    var child := StarterOf(s, a).call.child;
    assert Holding(s, a, child);
    assert forall b: Actor, t: Tid :: Holding(s', b, t) <==> b != a && Holding(s, b, t);
    assert forall t: nat :: t < |s.workers| ==> s'.workers[t].parent == s.workers[t].parent;
    PushedPush(net, s, a);
    AccountedMoved(s, s', a, child);
  }

  lemma AccountedMoved(s: State, s': State, a: Actor, child: Tid)
    requires Accounted(s) && Holding(s, a, child)
    requires |s'.workers| == |s.workers| && Pushed(s') == Pushed(s) + multiset{child}
    requires forall t: nat :: t < |s.workers| ==> s'.workers[t].parent == s.workers[t].parent
    requires forall b: Actor, t: Tid :: Holding(s', b, t) <==> b != a && Holding(s, b, t)
    ensures Accounted(s')
  {
    assert forall t: Tid :: Pushed(s')[t] == Pushed(s)[t] + (if t == child then 1 else 0);
  }

  lemma JoinedFinishedStep(net: Network, s: State, step: Step)
    requires JoinedFinished(s) && Enabled(net, s, step)
    ensures JoinedFinished(Do(net, s, step))
  {
  }

  // ---- Invariant 2: a device is claimed once and spawned once ----------------

  predicate Claiming(s: State, a: Actor, f: Fqdn) {
    IsCalling(s, a) && StarterOf(s, a).call == ToSpawn(f)
  }

  ghost predicate Spawned(s: State, f: Fqdn) {
    exists t: nat :: t < |s.workers| && s.workers[t].fqdn == f
  }

  ghost predicate Claims(s: State) {
    && (forall t: nat, u: nat :: t < u < |s.workers| ==> s.workers[t].fqdn != s.workers[u].fqdn)
    && (forall t: nat :: t < |s.workers| ==> s.workers[t].fqdn in s.inFlight)
    && (forall a: Actor, f: Fqdn :: Claiming(s, a, f) ==> f in s.inFlight && !Spawned(s, f))
    && (forall a: Actor, b: Actor, f: Fqdn :: Claiming(s, a, f) && Claiming(s, b, f) ==> a == b)
    && (forall f :: f in s.inFlight ==> Spawned(s, f) || exists a: Actor :: Claiming(s, a, f))
  }

  lemma ClaimsStep(net: Network, s: State, step: Step)
    requires Claims(s) && Enabled(net, s, step)
    ensures Claims(Do(net, s, step))
  {
    match step
    case Spawn(a) => ClaimsSpawn(net, s, a);
    case Check(a) => ClaimsCheck(net, s, a);
    case _ =>
      ClaimingStep(net, s, step);
      ClaimsSame(s, Do(net, s, step));
  }

  lemma ClaimingStep(net: Network, s: State, step: Step)
    requires Enabled(net, s, step) && !step.Spawn? && !step.Check?
    ensures var s' := Do(net, s, step);
      && s'.inFlight == s.inFlight && |s'.workers| == |s.workers|
      && (forall t: nat :: t < |s.workers| ==> s'.workers[t].fqdn == s.workers[t].fqdn)
      && (forall b: Actor, g: Fqdn :: Claiming(s', b, g) <==> Claiming(s, b, g))
  {
  }

  lemma ClaimsSame(s: State, s': State)
    requires Claims(s)
    requires s'.inFlight == s.inFlight && |s'.workers| == |s.workers|
    requires forall t: nat :: t < |s.workers| ==> s'.workers[t].fqdn == s.workers[t].fqdn
    requires forall b: Actor, g: Fqdn :: Claiming(s', b, g) <==> Claiming(s, b, g)
    ensures Claims(s')
  {
    assert forall g: Fqdn :: Spawned(s', g) <==> Spawned(s, g);
  }

  lemma ClaimsSpawn(net: Network, s: State, a: Actor)
    requires Claims(s) && Enabled(net, s, Spawn(a))
    ensures Claims(Do(net, s, Spawn(a)))
  {
    var s' := Do(net, s, Spawn(a));
    var f := StarterOf(s, a).call.target;
    assert Claiming(s, a, f);
    assert forall t: nat :: t < |s.workers| ==> s'.workers[t].fqdn == s.workers[t].fqdn;
    assert s'.workers[|s.workers|].fqdn == f;
    assert forall b: Actor, g: Fqdn :: Claiming(s', b, g) <==> b != a && Claiming(s, b, g);
    forall g: Fqdn ensures Spawned(s', g) <==> Spawned(s, g) || g == f {
      if Spawned(s, g) {
        var t: nat :| t < |s.workers| && s.workers[t].fqdn == g;
        assert s'.workers[t].fqdn == g;
      }
    }
  }

  lemma ClaimsCheck(net: Network, s: State, a: Actor)
    requires Claims(s) && Enabled(net, s, Check(a))
    ensures Claims(Do(net, s, Check(a)))
  {
    var s' := Do(net, s, Check(a));
    var f := StarterOf(s, a).todo[0];
    assert forall t: nat :: t < |s.workers| ==> s'.workers[t].fqdn == s.workers[t].fqdn;
    assert forall g: Fqdn :: Spawned(s', g) <==> Spawned(s, g);
    assert forall g: Fqdn :: !Claiming(s, a, g);
    if f in s.inFlight || f in s.detected {
      assert forall b: Actor, g: Fqdn :: Claiming(s', b, g) <==> Claiming(s, b, g);
    } else {
      assert forall b: Actor, g: Fqdn :: Claiming(s', b, g) <==> Claiming(s, b, g) || (b == a && g == f);
      assert Claiming(s', a, f);
      forall g | g in s'.inFlight ensures Spawned(s', g) || exists b: Actor :: Claiming(s', b, g) {
        if g != f && !Spawned(s, g) {
          var b: Actor :| Claiming(s, b, g);
          assert Claiming(s', b, g);
        }
      }
    }
  }

  // ---- Invariant 3: outcomes --------------------------------------------------

  // A device is recorded as its own worker's answer says, once that worker has left
  // collecting and not before.
  ghost predicate Outcomes(net: Network, s: State) {
    && (forall f :: f in s.detected ==> f in s.inFlight && f in net.reports)
    && (forall f :: f in s.failures ==> f in s.inFlight && f !in net.reports)
    && (forall t: nat :: t < |s.workers| && !s.workers[t].pc.Collecting? ==>
          s.workers[t].fqdn in (if s.workers[t].fqdn in net.reports then s.detected else s.failures))
    && (forall t: nat :: t < |s.workers| && s.workers[t].pc.Collecting? ==>
          s.workers[t].fqdn !in s.detected && s.workers[t].fqdn !in s.failures)
    && (forall f :: f in s.detected || f in s.failures ==> Spawned(s, f))
  }

  lemma OutcomesStep(net: Network, s: State, step: Step)
    requires Outcomes(net, s) && Claims(s) && Enabled(net, s, step)
    ensures Outcomes(net, Do(net, s, step))
  {
    match step
    case Spawn(a) => OutcomesSpawn(net, s, a);
    case _ =>
      SpawnedStep(net, s, step);
      OutcomesSame(net, s, step);
  }

  lemma SpawnedStep(net: Network, s: State, step: Step)
    requires Enabled(net, s, step) && !step.Spawn?
    ensures var s' := Do(net, s, step);
      && |s'.workers| == |s.workers|
      && (forall t: nat :: t < |s.workers| ==> s'.workers[t].fqdn == s.workers[t].fqdn)
      && forall f :: Spawned(s, f) <==> Spawned(s', f)
  {
    var s' := Do(net, s, step);
    forall t: nat | t < |s.workers| ensures s'.workers[t].fqdn == s.workers[t].fqdn {
    }
    hide Do, Enabled;
  }

  // The worker whose answer a step records.
  function Recorder(step: Step): Option<Tid> {
    match step
    case Collect(t, todo) => Some(t)
    case Fail(t) => Some(t)
    case _ => None
  }

  lemma RecordsStep(net: Network, s: State, step: Step)
    requires Enabled(net, s, step) && !step.Spawn?
    ensures var s', r := Do(net, s, step), Recorder(step);
      && |s'.workers| == |s.workers| && s.inFlight <= s'.inFlight
      && (forall t: nat :: t < |s.workers| ==>
            (s'.workers[t].pc.Collecting? <==> s.workers[t].pc.Collecting? && r != Some(t)))
      && (r.None? ==> s'.detected == s.detected && s'.failures == s.failures)
      && (r.Some? ==>
            && r.value < |s.workers| && s.workers[r.value].pc.Collecting?
            && var f := s.workers[r.value].fqdn;
               if f in net.reports then s'.detected == s.detected + {f} && s'.failures == s.failures
               else s'.failures == s.failures + {f} && s'.detected == s.detected)
  {
    hide IsNeighbourList;
  }

  // Different workers have different devices, so what one records is not what
  // another still collects.
  lemma OutcomesSame(net: Network, s: State, step: Step)
    requires Outcomes(net, s) && Enabled(net, s, step) && !step.Spawn?
    requires forall t: nat, u: nat :: t < u < |s.workers| ==> s.workers[t].fqdn != s.workers[u].fqdn
    requires forall t: nat :: t < |s.workers| ==> s.workers[t].fqdn in s.inFlight
    requires forall t: nat :: t < |s.workers| ==> t < |Do(net, s, step).workers| && Do(net, s, step).workers[t].fqdn == s.workers[t].fqdn
    requires forall f :: Spawned(s, f) <==> Spawned(Do(net, s, step), f)
    ensures Outcomes(net, Do(net, s, step))
  {
    RecordsStep(net, s, step);
    hide Do, Enabled;
    if Recorder(step).Some? {
      assert Spawned(s, s.workers[Recorder(step).value].fqdn);
    }
    hide Spawned;
  }

  // A device about to get its worker has not been recorded.
  lemma OutcomesSpawn(net: Network, s: State, a: Actor)
    requires Outcomes(net, s) && Claims(s) && Enabled(net, s, Spawn(a))
    ensures Outcomes(net, Do(net, s, Spawn(a)))
  {
    var s' := Do(net, s, Spawn(a));
    var f := StarterOf(s, a).call.target;
    assert Claiming(s, a, f);
    assert !Spawned(s, f);
    hide Claims, Claiming;
    SpawnEffect(net, s, a);
    hide IsCalling, StarterOf;
    assert s'.detected == s.detected && s'.failures == s.failures && s'.inFlight == s.inFlight;
    assert forall t: nat :: t < |s.workers| ==> s'.workers[t].pc.Collecting? == s.workers[t].pc.Collecting?;
    forall g | Spawned(s, g) ensures Spawned(s', g) {
      var t: nat :| t < |s.workers| && s.workers[t].fqdn == g;
      assert s'.workers[t].fqdn == g;
    }
    hide Spawned, Do;
  }

  // ---- Invariant 4: the frontier ----------------------------------------------

  // Every neighbour of a collected device is in flight or still on the worker's list.
  ghost predicate Frontier(net: Network, root: Fqdn, s: State) {
    && (root in s.inFlight || (s.sup.Launching? && root in s.sup.starter.todo))
    && (forall t: nat, g: Fqdn :: t < |s.workers| && !s.workers[t].pc.Collecting? && IsNeighbour(net, s.workers[t].fqdn, g) ==>
          g in s.inFlight || (s.workers[t].pc.Calling? && g in s.workers[t].pc.starter.todo))
  }

  lemma FrontierStep(net: Network, root: Fqdn, s: State, step: Step)
    requires Frontier(net, root, s) && Outcomes(net, s) && Enabled(net, s, step)
    ensures Frontier(net, root, Do(net, s, step))
  {
    var s' := Do(net, s, step);
    if step.Check? {
      var todo := StarterOf(s, step.a).todo;
      assert todo == [todo[0]] + todo[1..];
      assert todo[0] in s'.inFlight;
    }
  }

  // ---- Invariant 5: the crawl stays inside every closed set --------------------

  ghost predicate Closed(net: Network, S: set<Fqdn>) {
    forall f, g :: f in S && IsNeighbour(net, f, g) ==> g in S
  }

  ghost predicate Within(S: set<Fqdn>, s: State) {
    && s.inFlight <= S
    && (forall a: Actor :: IsCalling(s, a) ==> forall g :: g in StarterOf(s, a).todo ==> g in S)
  }

  lemma WithinStep(net: Network, S: set<Fqdn>, s: State, step: Step)
    requires Closed(net, S) && Within(S, s) && Claims(s) && Enabled(net, s, step)
    ensures Within(S, Do(net, s, step))
  {
    var s' := Do(net, s, step);
    forall a: Actor | IsCalling(s', a)
      ensures forall g :: g in StarterOf(s', a).todo ==> g in S
    {
      match step
      case Collect(t, todo) => assert a == Some(t) || (IsCalling(s, a) && StarterOf(s', a) == StarterOf(s, a));
      case Fail(t) => assert a == Some(t) || (IsCalling(s, a) && StarterOf(s', a) == StarterOf(s, a));
      case _ => assert IsCalling(s, a) && forall g :: g in StarterOf(s', a).todo ==> g in StarterOf(s, a).todo;
    }
  }
}
