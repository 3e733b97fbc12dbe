/**
 The poller's supervisor (nexus/src/collectors/poller.rs): one thread per
 monitored device, stopped threads waiting to be reaped, and the loop that
 reloads the device set, pauses and shuts down.
 */
module PollerThreads {
  import opened Options
  import opened Sorting

  // Threads are numbered in the order in which they are spawned.
  type Tid = nat

  // `spawned` (the device of each thread) and `joined` are history. A thread in
  // `stopped` has had its running flag cleared.
  datatype State = State(
    workers: map<string, Tid>,
    reap: seq<Tid>,
    stopped: set<Tid>,
    joined: seq<Tid>,
    spawned: seq<string>)

  const NO_THREADS := State(map[], [], {}, [], [])

  predicate Works(s: State, t: Tid) {
    t < |s.spawned| && s.spawned[t] in s.workers && s.workers[s.spawned[t]] == t
  }

  // How often a thread occurs among the workers, the reap list and the joined.
  ghost function Places(s: State, t: Tid): nat {
    (if Works(s, t) then 1 else 0) + multiset(s.reap)[t] + multiset(s.joined)[t]
  }

  // Every spawned thread is in exactly one place; it works for its own device
  // and has been told to stop exactly when it is no worker. The workers of the
  // devices in `leaving` have been told already.
  ghost predicate Placed(s: State, leaving: set<string>) {
    && (forall t: Tid :: Places(s, t) == if t < |s.spawned| then 1 else 0)
    && (forall f :: f in s.workers ==> s.workers[f] < |s.spawned| && s.spawned[s.workers[f]] == f)
    && (forall t: Tid :: t in s.stopped ==> t < |s.spawned|)
    && (forall t: Tid :: t < |s.spawned| ==> (t !in s.stopped <==> Works(s, t) && s.spawned[t] !in leaving))
  }

  ghost predicate Inv(s: State) {
    Placed(s, {})
  }

  // Two threads of one device that have not been told to stop are the same.
  lemma OneActiveThread(s: State, t: Tid, u: Tid)
    requires Inv(s) && t < |s.spawned| && u < |s.spawned| && s.spawned[t] == s.spawned[u]
    requires t !in s.stopped && u !in s.stopped
    ensures t == u
  {
    assert Works(s, t) && Works(s, u);
  }

  // With no worker and nothing to reap, every spawned thread was joined exactly once.
  lemma EmptyMeansAllJoined(s: State)
    requires Inv(s) && s.workers == map[] && s.reap == []
    ensures forall t: Tid :: multiset(s.joined)[t] == if t < |s.spawned| then 1 else 0
    ensures |s.joined| == |s.spawned|
    ensures forall t: Tid :: t < |s.spawned| ==> t in s.stopped
  {
    forall t: Tid ensures multiset(s.joined)[t] == if t < |s.spawned| then 1 else 0 {
      assert Places(s, t) == multiset(s.joined)[t];
    }
    CountOnce(s.joined, |s.spawned|);
  }

  ghost function Below(n: nat): (r: set<Tid>)
    ensures |r| == n && forall t: Tid :: t in r <==> t < n
  {
    if n == 0 then {} else Below(n - 1) + {n - 1}
  }

  lemma CountOnce(list: seq<Tid>, n: nat)
    requires forall t: Tid :: multiset(list)[t] == if t < n then 1 else 0
    ensures |list| == n
  {
    assert multiset(list) == multiset(Below(n));
    assert |list| == |multiset(list)|;
  }

  // ---- What each step does to the state -----------------------------------------------

  function Spawn(s: State, f: string): State {
    s.(workers := s.workers[f := |s.spawned|], spawned := s.spawned + [f])
  }

  lemma SpawnPlaced(s: State, f: string)
    requires Inv(s) && f !in s.workers
    ensures Inv(Spawn(s, f))
  {
    var s' := Spawn(s, f);
    forall t: Tid ensures Works(s', t) <==> Works(s, t) || t == |s.spawned| {
    }
    forall t: Tid ensures Places(s', t) == if t < |s'.spawned| then 1 else 0 {
      assert Places(s, t) == if t < |s.spawned| then 1 else 0;
    }
  }

  function Tell(s: State, f: string): State
    requires f in s.workers
  {
    s.(stopped := s.stopped + {s.workers[f]})
  }

  lemma TellPlaced(s: State, f: string, leaving: set<string>)
    requires Placed(s, leaving) && f in s.workers
    ensures Placed(Tell(s, f), leaving + {f})
  {
    var s' := Tell(s, f);
    assert forall t: Tid :: Works(s', t) == Works(s, t) && Places(s', t) == Places(s, t);
  }

  function Retire(s: State, f: string): State
    requires f in s.workers
  {
    s.(workers := s.workers - {f}, reap := s.reap + [s.workers[f]])
  }

  lemma RetirePlaced(s: State, f: string, leaving: set<string>)
    requires Placed(s, leaving) && f in s.workers && f in leaving
    ensures Placed(Retire(s, f), leaving - {f})
  {
    var s' := Retire(s, f);
    forall t: Tid ensures Works(s', t) <==> Works(s, t) && t != s.workers[f] {
    }
    forall t: Tid ensures Places(s', t) == Places(s, t) {
      assert multiset(s'.reap) == multiset(s.reap) + multiset{s.workers[f]};
    }
  }

  function JoinWorker(s: State, f: string): State
    requires f in s.workers
  {
    s.(workers := s.workers - {f}, joined := s.joined + [s.workers[f]])
  }

  lemma JoinWorkerPlaced(s: State, f: string, leaving: set<string>)
    requires Placed(s, leaving) && f in s.workers && f in leaving
    ensures Placed(JoinWorker(s, f), leaving - {f})
  {
    var s' := JoinWorker(s, f);
    forall t: Tid ensures Works(s', t) <==> Works(s, t) && t != s.workers[f] {
    }
    forall t: Tid ensures Places(s', t) == Places(s, t) {
      assert multiset(s'.joined) == multiset(s.joined) + multiset{s.workers[f]};
    }
  }

  // The last element takes the place of the removed one.
  function SwapRemove(list: seq<Tid>, k: nat): seq<Tid>
    requires k < |list|
  {
    list[k := list[|list| - 1]][..|list| - 1]
  }

  lemma SwapRemoveLoses(list: seq<Tid>, k: nat)
    requires k < |list|
    ensures multiset(SwapRemove(list, k)) + multiset{list[k]} == multiset(list)
    ensures |SwapRemove(list, k)| == |list| - 1
  {
    var last := |list| - 1;
    assert list == list[..last] + [list[last]];
    if k < last {
      assert SwapRemove(list, k) == list[..last][k := list[last]];
    } else {
      assert SwapRemove(list, k) == list[..last];
    }
  }

  function Reaped(s: State, k: nat): State
    requires k < |s.reap|
  {
    s.(reap := SwapRemove(s.reap, k), joined := s.joined + [s.reap[k]])
  }

  lemma ReapedPlaced(s: State, k: nat)
    requires Inv(s) && k < |s.reap|
    ensures Inv(Reaped(s, k))
  {
    var s' := Reaped(s, k);
    SwapRemoveLoses(s.reap, k);
    assert multiset(s'.joined) == multiset(s.joined) + multiset{s.reap[k]};
    assert forall t: Tid :: Works(s', t) == Works(s, t) && Places(s', t) == Places(s, t);
  }

  // ---- The supervisor --------------------------------------------------------------------

  // When finish signals become visible: the threads whose signal has arrived by
  // the n-th time that the supervisor looks. A signal that has arrived stays.
  type Arrivals = nat -> set<Tid>

  ghost predicate Lasting(arrived: Arrivals) {
    forall m: nat, n: nat :: m <= n ==> arrived(m) <= arrived(n)
  }

  // A hash map is visited in some order.
  ghost predicate Visits(visit: seq<string>, keys: set<string>) {
    (forall f :: f in visit <==> f in keys) && forall i, j :: 0 <= i < j < |visit| ==> visit[i] != visit[j]
  }

  function Prefix(visit: seq<string>, n: nat): set<string>
    requires n <= |visit|
  {
    set i | 0 <= i < n :: visit[i]
  }

  // One thread spawned for each new device, all others left alone.
  ghost predicate Staffed(s: State, s': State, devices: set<string>) {
    && s'.workers.Keys == s.workers.Keys + devices
    && (forall f :: f in s.workers ==> s'.workers[f] == s.workers[f])
    && s.spawned <= s'.spawned
    && s'.reap == s.reap && s'.stopped == s.stopped && s'.joined == s.joined
  }

  // The next key of a visit is one of the map, and new.
  lemma PrefixVisits(visit: seq<string>, keys: set<string>)
    requires Visits(visit, keys)
    ensures forall i :: 0 <= i < |visit| ==> visit[i] in keys && visit[i] !in Prefix(visit, i)
    ensures Prefix(visit, |visit|) == keys
  {
  }

  lemma VisitsGrow(visit: seq<string>, keys: set<string>, f: string)
    requires Visits(visit, keys) && f !in keys
    ensures Visits(visit + [f], keys + {f})
  {
  }

  function ThreadsOf(workers: map<string, Tid>, devices: set<string>): set<Tid> {
    set f | f in devices && f in workers :: workers[f]
  }

  // Whatever the order of the map.
  method IterationOrder(keys: set<string>) returns (visit: seq<string>)
    ensures Visits(visit, keys)
  {
    var rest := keys;
    visit := [];
    while rest != {}
      invariant rest <= keys && Visits(visit, keys - rest)
    {
      ghost var some := Member(rest);
      var f :| f in rest;
      assert keys - (rest - {f}) == (keys - rest) + {f};
      rest := rest - {f};
      visit := visit + [f];
    }
    assert keys - rest == keys;
  }

  // Threads moved from the reap list to the joined, in whatever order.
  ghost predicate Joined(s: State, s': State) {
    && s'.workers == s.workers && s'.stopped == s.stopped && s'.spawned == s.spawned
    && s.joined <= s'.joined
    && multiset(s'.reap) + multiset(s'.joined) == multiset(s.reap) + multiset(s.joined)
  }

  // A reload keeps the threads of devices that stay, starts new ones for devices
  // that come, and stops exactly those of devices that go.
  ghost predicate Reloaded(s: State, s': State, devices: set<string>) {
    && s'.workers.Keys == devices
    && (forall f :: f in devices && f in s.workers ==> s'.workers[f] == s.workers[f])
    && s'.stopped == s.stopped + ThreadsOf(s.workers, s.workers.Keys - devices)
    && s.spawned <= s'.spawned && s'.joined == s.joined
  }

  lemma ReloadedFrom(s: State, staffed: State, s': State, devices: set<string>)
    requires Staffed(s, staffed, devices) && s'.workers == staffed.workers - (staffed.workers.Keys - devices)
    requires s'.stopped == staffed.stopped + ThreadsOf(staffed.workers, staffed.workers.Keys - devices)
    requires s'.spawned == staffed.spawned && s'.joined == staffed.joined
    ensures Reloaded(s, s', devices)
  {
    assert staffed.workers.Keys - devices == s.workers.Keys - devices;
    assert ThreadsOf(staffed.workers, s.workers.Keys - devices) == ThreadsOf(s.workers, s.workers.Keys - devices);
  }

  function JoinFirst(s: State): State
    requires s.reap != []
  {
    s.(reap := s.reap[1..], joined := s.joined + [s.reap[0]], stopped := s.stopped + {s.reap[0]})
  }

  lemma JoinFirstPlaced(s: State)
    requires Inv(s) && s.reap != []
    ensures Inv(JoinFirst(s)) && JoinFirst(s).stopped == s.stopped
  {
    var s' := JoinFirst(s);
    var t := s.reap[0];
    assert s.reap == [t] + s.reap[1..];
    assert multiset(s.reap) == multiset{t} + multiset(s.reap[1..]);
    assert multiset(s'.joined) == multiset(s.joined) + multiset{t};
    assert Places(s, t) <= 1;
    assert !Works(s, t);
    assert forall u: Tid :: Works(s', u) == Works(s, u) && Places(s', u) == Places(s, u);
  }

  // ---- Passes of the loop ------------------------------------------------------------------

  // The tick counter and the pause mark of the loop.
  datatype Clock = Clock(ticks: nat, wasPaused: bool)

  function ClockAfter(period: nat, start: Clock, inputs: seq<(bool, set<string>)>, n: nat): Clock
    requires period > 0 && n <= |inputs|
  {
    if n == 0 then start
    else
      var before := ClockAfter(period, start, inputs, n - 1);
      if inputs[n - 1].0 then Clock(((if before.wasPaused then 0 else before.ticks) + 1) % period, false)
      else Clock(before.ticks, true)
  }

  function PassAt(period: nat, start: Clock, inputs: seq<(bool, set<string>)>, n: nat): Pass
    requires period > 0 && n < |inputs|
  {
    var clock := ClockAfter(period, start, inputs, n);
    Pass(inputs[n].0, clock.wasPaused || clock.ticks == 0, inputs[n].1)
  }

  // Which finish signals had arrived when a pass began to reap, and when it was done.
  datatype Signals = Signals(before: set<Tid>, after: set<Tid>)

  // What one pass may do; the device set counts only when it reloads. An enabled pass
  // leaves no thread to reap whose signal had arrived, and joins no other.
  ghost predicate Ticked(s: State, s': State, enabled: bool, reload: bool, devices: set<string>, signals: Signals) {
    && (enabled ==> forall t :: t in s'.reap ==> t !in signals.before)
    && (enabled ==> forall k :: |s.joined| <= k < |s'.joined| ==> s'.joined[k] in signals.after)
    && s.spawned <= s'.spawned && s.joined <= s'.joined && s.stopped <= s'.stopped
    && (!enabled ==> s'.workers == map[] && s'.reap == [] && s'.spawned == s.spawned)
    && (enabled && reload ==>
          && s'.workers.Keys == devices
          && (forall f :: f in devices && f in s.workers ==> s'.workers[f] == s.workers[f])
          && s'.stopped == s.stopped + ThreadsOf(s.workers, s.workers.Keys - devices))
    && (enabled && !reload ==> s'.workers == s.workers && s'.spawned == s.spawned && s'.stopped == s.stopped)
  }

  datatype Pass = Pass(enabled: bool, reload: bool, devices: set<string>)

  ghost predicate IsHistory(states: seq<State>, passes: seq<Pass>, signals: seq<Signals>) {
    && |states| == |passes| + 1 && |signals| == |passes|
    && (forall i :: 0 <= i < |states| ==> Inv(states[i]))
    && forall i :: 0 <= i < |passes| ==>
         Ticked(states[i], states[i + 1], passes[i].enabled, passes[i].reload, passes[i].devices, signals[i])
  }

  // The signals of the passes, when the supervisor had looked `looks[i]` times before
  // pass i.
  ghost predicate Observed(arrived: Arrivals, looks: seq<nat>, signals: seq<Signals>) {
    && |looks| == |signals| + 1
    && forall i :: 0 <= i < |signals| ==>
         looks[i] <= looks[i + 1] && signals[i] == Signals(arrived(looks[i]), arrived(looks[i + 1]))
  }

  // An enabled pass looks at least once at every thread that it leaves to reap.
  ghost predicate Watchful(states: seq<State>, passes: seq<Pass>, looks: seq<nat>) {
    && |states| == |looks| == |passes| + 1
    && forall i :: 0 <= i < |passes| && passes[i].enabled ==> looks[i + 1] >= looks[i] + |states[i + 1].reap|
  }

  lemma WatchfulGrows(states: seq<State>, passes: seq<Pass>, looks: seq<nat>, pass: Pass, next: State, look: nat)
    requires Watchful(states, passes, looks) && (pass.enabled ==> look >= looks[|passes|] + |next.reap|)
    ensures Watchful(states + [next], passes + [pass], looks + [look])
  {
  }

  lemma ObservedGrows(arrived: Arrivals, seen: seq<nat>, signals: seq<Signals>, looks: nat)
    requires Observed(arrived, seen, signals) && |seen| == |signals| + 1 && seen[|signals|] <= looks
    ensures Observed(arrived, seen + [looks], signals + [Signals(arrived(seen[|signals|]), arrived(looks))])
  {
  }

  // While polling goes on the set of devices is reloaded once every period, and the
  // first pass after a pause reloads it too.
  lemma {:induction false} ReloadsOncePerPeriod(period: nat, inputs: seq<(bool, set<string>)>, n: nat)
    requires period > 0 && n < |inputs| && forall i :: 0 <= i <= n ==> inputs[i].0
    ensures PassAt(period, Clock(0, false), inputs, n) == Pass(true, n % period == 0, inputs[n].1)
    ensures ClockAfter(period, Clock(0, false), inputs, n) == Clock(n % period, false)
  {
    if n > 0 {
      ReloadsOncePerPeriod(period, inputs, n - 1);
      NextRemainder(n - 1, period);
    } else {
      assert 0 % period == 0;
    }
  }

  lemma NextRemainder(n: nat, period: nat)
    requires period > 0
    ensures (n % period + 1) % period == (n + 1) % period
  {
    var q, r := n / period, n % period;
    assert n == q * period + r;
    if r + 1 < period {
      Remainder(n + 1, q, r + 1, period);
      Remainder(r + 1, 0, r + 1, period);
    } else {
      assert n + 1 == (q + 1) * period;
      Remainder(n + 1, q + 1, 0, period);
      Remainder(period, 1, 0, period);
    }
  }

  lemma Remainder(n: nat, q: nat, r: nat, period: nat)
    requires period > 0 && r < period && n == q * period + r
    ensures n % period == r
  {
    var k, m := n / period, n % period;
    Division(n, period);
    Difference(k, q, period);
    SmallMultiple(k - q, period);
  }

  lemma Division(n: nat, period: nat)
    requires period > 0
    ensures n == (n / period) * period + n % period
  {
  }

  lemma Difference(k: int, q: int, period: int)
    ensures (k - q) * period == k * period - q * period
  {
  }

  lemma SmallMultiple(d: int, period: nat)
    requires 0 - period < d * period < period
    ensures d == 0
  {
  }

  lemma ReloadsAfterPause(period: nat, start: Clock, inputs: seq<(bool, set<string>)>, n: nat)
    requires period > 0 && 0 < n < |inputs| && !inputs[n - 1].0
    ensures PassAt(period, start, inputs, n) == Pass(inputs[n].0, true, inputs[n].1)
  {
  }

  lemma HistoryGrows(states: seq<State>, passes: seq<Pass>, signals: seq<Signals>, pass: Pass, signal: Signals, next: State)
    requires IsHistory(states, passes, signals) && Inv(next)
    requires Ticked(states[|passes|], next, pass.enabled, pass.reload, pass.devices, signal)
    ensures IsHistory(states + [next], passes + [pass], signals + [signal])
  {
    hide Ticked, Inv;
  }

  class Supervisor {
    var workers: map<string, Tid>
    var reap: seq<Tid>
    var stopped: set<Tid>
    var joined: seq<Tid>
    var spawned: seq<string>
    var ticks: nat
    var wasPaused: bool
    var looks: nat
    const reloadTicks: nat
    const arrived: Arrivals

    ghost function View(): State
      reads this
    {
      State(workers, reap, stopped, joined, spawned)
    }

    ghost predicate Valid()
      reads this
    {
      Inv(View()) && reloadTicks > 0 && ticks < reloadTicks && Lasting(arrived)
    }

    constructor (reloadTicks: nat, arrived: Arrivals)
      requires reloadTicks > 0 && Lasting(arrived)
      ensures Valid() && View() == NO_THREADS
    {
      workers, reap, stopped, joined, spawned := map[], [], {}, [], [];
      ticks, wasPaused, looks := 0, false, 0;
      this.reloadTicks, this.arrived := reloadTicks, arrived;
    }

    method CheckIfWorkerNeeded(devices: set<string>)
      requires Inv(View())
      modifies this`workers, this`spawned
      ensures Inv(View()) && Staffed(old(View()), View(), devices)
    {
      hide Inv;
      var visit := IterationOrder(devices);
      for i := 0 to |visit|
        invariant Inv(View()) && Staffed(old(View()), View(), Prefix(visit, i))
      {
        var f := visit[i];
        assert Prefix(visit, i + 1) == Prefix(visit, i) + {f};
        if f !in workers {
          SpawnPlaced(View(), f);
          workers := workers[f := |spawned|];
          spawned := spawned + [f];
        }
      }
      assert Prefix(visit, |visit|) == devices;
    }

    // Tells the workers of devices that are no longer monitored to stop.
    method CheckExpiredWorkers(devices: set<string>) returns (expired: seq<string>)
      requires Inv(View())
      modifies this`stopped
      ensures Visits(expired, workers.Keys - devices) && Placed(View(), workers.Keys - devices)
      ensures stopped == old(stopped) + ThreadsOf(workers, workers.Keys - devices)
    {
      hide Placed;
      expired := [];
      var visit := IterationOrder(workers.Keys);
      assert Prefix(visit, 0) - devices == {} && Visits([], {});
      PrefixVisits(visit, workers.Keys);
      hide Visits;
      for i := 0 to |visit|
        invariant Visits(expired, Prefix(visit, i) - devices) && Placed(View(), Prefix(visit, i) - devices)
        invariant stopped == old(stopped) + ThreadsOf(workers, Prefix(visit, i) - devices)
      {
        var f := visit[i];
        assert Prefix(visit, i + 1) == Prefix(visit, i) + {f};
        if f !in devices {
          ghost var told := Prefix(visit, i) - devices;
          TellPlaced(View(), f, told);
          assert Prefix(visit, i + 1) - devices == told + {f};
          assert ThreadsOf(workers, told + {f}) == ThreadsOf(workers, told) + {workers[f]};
          VisitsGrow(expired, told, f);
          stopped := stopped + {workers[f]};
          expired := expired + [f];
        } else {
          assert Prefix(visit, i + 1) - devices == Prefix(visit, i) - devices;
        }
      }
    }

    method PrepareExpiredForReap(expired: seq<string>, ghost gone: set<string>)
      requires Visits(expired, gone) && gone <= workers.Keys && Placed(View(), gone)
      modifies this`workers, this`reap
      ensures Inv(View()) && workers == old(workers) - gone
    {
      hide Placed;
      assert gone - Prefix(expired, 0) == gone;
      for i := 0 to |expired|
        invariant workers == old(workers) - Prefix(expired, i)
        invariant Placed(View(), gone - Prefix(expired, i))
      {
        var f := expired[i];
        assert Prefix(expired, i + 1) == Prefix(expired, i) + {f};
        if f in workers {
          RetirePlaced(View(), f, gone - Prefix(expired, i));
          assert (gone - Prefix(expired, i)) - {f} == gone - Prefix(expired, i + 1);
          reap := reap + [workers[f]];
          workers := workers - {f};
        }
      }
      assert Prefix(expired, |expired|) == gone && gone - gone == {};
    }

    // After a reload the devices with a worker are exactly the monitored ones.
    method Reload(devices: set<string>)
      requires Inv(View())
      modifies this`workers, this`spawned, this`stopped, this`reap
      ensures Inv(View()) && Reloaded(old(View()), View(), devices)
    {
      hide Placed;
      CheckIfWorkerNeeded(devices);
      ghost var staffed := View();
      var expired := CheckExpiredWorkers(devices);
      PrepareExpiredForReap(expired, workers.Keys - devices);
      ReloadedFrom(old(View()), staffed, View(), devices);
    }

    // Joins, and forgets, the threads whose finish signal has arrived: all that
    // had arrived before the call, and none that has not arrived by its end.
    method ReapFinishedThreads()
      requires Inv(View()) && Lasting(arrived)
      modifies this`reap, this`joined, this`looks
      ensures Inv(View()) && Joined(old(View()), View())
      ensures looks >= old(looks) + |reap|
      ensures forall t :: t in reap ==> t !in arrived(old(looks))
      ensures forall k :: |old(joined)| <= k < |joined| ==> joined[k] in arrived(looks)
    {
      hide Inv, SwapRemove;
      var again := true;
      while again
        invariant Inv(View()) && Joined(old(View()), View())
        invariant looks >= old(looks) && (!again ==> looks >= old(looks) + |reap|)
        invariant forall k :: |old(joined)| <= k < |joined| ==> joined[k] in arrived(looks)
        invariant !again ==> forall t :: t in reap ==> t !in arrived(old(looks))
        decreases |reap|, again
      {
        var k := FindFinished();
        if k < |reap| {
          ReapedPlaced(View(), k);
          SwapRemoveLoses(reap, k);
          joined := joined + [reap[k]];
          reap := SwapRemove(reap, k);
        } else {
          again := false;
        }
      }
    }

    // One scan of the reap list, up to the first thread whose signal has arrived.
    method FindFinished() returns (k: nat)
      requires Lasting(arrived)
      modifies this`looks
      ensures k <= |reap| && looks == old(looks) + if k < |reap| then k + 1 else k
      ensures k < |reap| ==> reap[k] in arrived(looks)
      ensures forall i :: 0 <= i < k ==> reap[i] !in arrived(old(looks))
    {
      k := 0;
      while k < |reap|
        invariant looks == old(looks) + k && k <= |reap|
        invariant forall i :: 0 <= i < k ==> reap[i] !in arrived(old(looks))
      {
        looks := looks + 1;
        if reap[k] in arrived(looks) {
          return;
        }
        k := k + 1;
      }
    }

    // Pausing and shutting down: tell every worker to stop and join every thread.
    method StopAll()
      requires Inv(View())
      modifies this`workers, this`reap, this`stopped, this`joined
      ensures Inv(View()) && workers == map[] && reap == []
      ensures old(joined) <= joined && old(stopped) <= stopped
    {
      TellAll();
      JoinWorkers();
      while reap != []
        invariant Inv(View()) && workers == map[] && old(joined) <= joined && old(stopped) <= stopped
      {
        JoinFirstPlaced(View());
        stopped := stopped + {reap[0]};
        joined := joined + [reap[0]];
        reap := reap[1..];
      }
    }

    method TellAll()
      requires Inv(View())
      modifies this`stopped
      ensures Placed(View(), workers.Keys) && old(stopped) <= stopped
    {
      hide Placed;
      var visit := IterationOrder(workers.Keys);
      assert Prefix(visit, 0) == {};
      for i := 0 to |visit|
        invariant Placed(View(), Prefix(visit, i)) && old(stopped) <= stopped
      {
        assert Prefix(visit, i + 1) == Prefix(visit, i) + {visit[i]};
        TellPlaced(View(), visit[i], Prefix(visit, i));
        stopped := stopped + {workers[visit[i]]};
      }
      assert Prefix(visit, |visit|) == workers.Keys;
    }

    method JoinWorkers()
      requires Placed(View(), workers.Keys)
      modifies this`workers, this`joined
      ensures Inv(View()) && workers == map[] && old(joined) <= joined
    {
      hide Placed;
      var visit := IterationOrder(workers.Keys);
      for i := 0 to |visit|
        invariant Placed(View(), workers.Keys) && old(joined) <= joined
        invariant workers == old(workers) - Prefix(visit, i)
      {
        var f := visit[i];
        assert Prefix(visit, i + 1) == Prefix(visit, i) + {f};
        JoinWorkerPlaced(View(), f, workers.Keys);
        joined := joined + [workers[f]];
        workers := workers - {f};
      }
      assert Prefix(visit, |visit|) == old(workers).Keys;
      assert workers == map[] && workers.Keys == {};
    }

    // One pass of the run loop.
    method Tick(enabled: bool, devices: set<string>)
      requires Valid()
      modifies this
      ensures Valid() && looks >= old(looks) && (enabled ==> looks >= old(looks) + |reap|)
      ensures Ticked(old(View()), View(), enabled, old(wasPaused) || old(ticks) == 0, devices,
                Signals(arrived(old(looks)), arrived(looks)))
      ensures wasPaused == !enabled
      ensures ticks == if enabled then ((if old(wasPaused) then 0 else old(ticks)) + 1) % reloadTicks else old(ticks)
    {
      if !enabled {
        StopAll();
        wasPaused := true;
        return;
      }
      if wasPaused {
        ticks := 0;
        wasPaused := false;
      }
      if ticks == 0 {
        Reload(devices);
      }
      ReapFinishedThreads();
      ticks := (ticks + 1) % reloadTicks;
    }

    // The whole life of the collector: whatever the switch and the monitored set
    // do at each pass, at the end every spawned thread has been told to stop and
    // joined exactly once, and none is left. The states between the passes are a
    // history, with reloads where the tick counter puts them.
    method Run(inputs: seq<(bool, set<string>)>)
      returns (ghost states: seq<State>, ghost passes: seq<Pass>, ghost signals: seq<Signals>, ghost seen: seq<nat>)
      requires Valid()
      modifies this
      ensures Valid() && workers == map[] && reap == []
      ensures forall t: Tid :: multiset(joined)[t] == if t < |spawned| then 1 else 0
      ensures forall t: Tid :: t < |spawned| ==> t in stopped
      ensures |passes| == |inputs| && IsHistory(states, passes, signals) && states[0] == old(View())
      ensures Observed(arrived, seen, signals) && seen[0] == old(looks) && Watchful(states, passes, seen)
      ensures forall i :: 0 <= i < |inputs| ==>
        passes[i] == PassAt(reloadTicks, Clock(old(ticks), old(wasPaused)), inputs, i)
      ensures states[|inputs|].spawned == spawned && states[|inputs|].joined <= joined && states[|inputs|].stopped <= stopped
    {
      states, passes, signals, seen := [View()], [], [], [looks];
      assert IsHistory(states, passes, signals) && Observed(arrived, seen, signals) && Watchful(states, passes, seen);
      hide Ticked, Inv, IsHistory, Observed, Watchful, Lasting;
      for i := 0 to |inputs|
        invariant Valid()
        invariant |passes| == |signals| == i && |states| == |seen| == i + 1
        invariant IsHistory(states, passes, signals) && states[0] == old(View()) && states[i] == View()
        invariant Observed(arrived, seen, signals) && seen[0] == old(looks) && seen[i] == looks
        invariant Watchful(states, passes, seen)
        invariant Clock(ticks, wasPaused) == ClockAfter(reloadTicks, Clock(old(ticks), old(wasPaused)), inputs, i)
        invariant forall j :: 0 <= j < i ==>
          passes[j] == PassAt(reloadTicks, Clock(old(ticks), old(wasPaused)), inputs, j)
      {
        ghost var pass, before := Pass(inputs[i].0, wasPaused || ticks == 0, inputs[i].1), looks;
        Tick(inputs[i].0, inputs[i].1);
        ghost var signal := Signals(arrived(before), arrived(looks));
        HistoryGrows(states, passes, signals, pass, signal, View());
        ObservedGrows(arrived, seen, signals, looks);
        WatchfulGrows(states, passes, seen, pass, View(), looks);
        states, passes, signals, seen := states + [View()], passes + [pass], signals + [signal], seen + [looks];
      }
      StopAll();
      EmptyMeansAllJoined(View());
    }
  }

  // ---- Over several passes ------------------------------------------------------------------

  ghost predicate Watched(passes: seq<Pass>, f: string) {
    forall i :: 0 <= i < |passes| ==> passes[i].enabled && (passes[i].reload ==> f in passes[i].devices)
  }

  // Over any stretch of a history, and so of any run, a device keeps its thread
  // exactly as long as polling is not paused and every reload lists the device;
  // otherwise the thread has been told to stop, for good.
  lemma KeepsItsThread(states: seq<State>, passes: seq<Pass>, signals: seq<Signals>, from: nat, to: nat, f: string)
    requires IsHistory(states, passes, signals) && from <= to <= |passes| && f in states[from].workers
    ensures var last, t := states[to], states[from].workers[f];
      && t < |last.spawned| && last.spawned[t] == f
      && (Watched(passes[from..to], f) <==> t !in last.stopped)
      && (Watched(passes[from..to], f) ==> f in last.workers && last.workers[f] == t)
  {
    hide Ticked, Inv, Watched;
    KeepsFromStart(states[from..to + 1], passes[from..to], signals[from..to], f);
  }

  lemma {:induction false} KeepsFromStart(states: seq<State>, passes: seq<Pass>, signals: seq<Signals>, f: string)
    requires IsHistory(states, passes, signals) && f in states[0].workers
    ensures var last, t := states[|passes|], states[0].workers[f];
      && t < |last.spawned| && last.spawned[t] == f
      && (Watched(passes, f) <==> t !in last.stopped)
      && (Watched(passes, f) ==> f in last.workers && last.workers[f] == t)
  {
    if passes != [] {
      var n := |passes| - 1;
      KeepsFromStart(states[..n + 1], passes[..n], signals[..n], f);
      PassKeepsOrStops(states[n], states[n + 1], passes[n], signals[n], f, states[0].workers[f]);
      assert Watched(passes, f) <==> Watched(passes[..n], f) && passes[n].enabled && (passes[n].reload ==> f in passes[n].devices);
    }
  }

  lemma PassKeepsOrStops(s: State, s': State, pass: Pass, signal: Signals, f: string, t: Tid)
    requires Inv(s) && Inv(s') && Ticked(s, s', pass.enabled, pass.reload, pass.devices, signal)
    requires t < |s.spawned| && s.spawned[t] == f
    ensures t < |s'.spawned| && s'.spawned[t] == f
    ensures t !in s'.stopped <==> t !in s.stopped && pass.enabled && (pass.reload ==> f in pass.devices)
  {
    assert s'.spawned[t] == s.spawned[t];
    assert t !in s.stopped <==> Works(s, t);
    assert t !in s'.stopped <==> Works(s', t);
  }

  // A thread that has been told to stop and whose finish signal has arrived is joined
  // by the next pass, and stays joined.
  lemma FinishedAreJoined(states: seq<State>, passes: seq<Pass>, signals: seq<Signals>, i: nat, t: Tid)
    requires IsHistory(states, passes, signals) && i < |passes|
    requires t in states[i].stopped && (passes[i].enabled ==> t in signals[i].before)
    ensures t in states[i + 1].joined
  {
    var next := states[i + 1];
    assert Ticked(states[i], next, passes[i].enabled, passes[i].reload, passes[i].devices, signals[i]);
    assert t in next.stopped && t < |next.spawned|;
    assert !Works(next, t);
    assert Places(next, t) == 1;
  }

  // While polling goes on, no thread is joined before its finish signal has arrived.
  lemma JoinedHaveFinished(states: seq<State>, passes: seq<Pass>, signals: seq<Signals>, i: nat, t: Tid)
    requires IsHistory(states, passes, signals) && i < |passes| && passes[i].enabled
    requires t in states[i + 1].joined && t !in states[i].joined
    ensures t in signals[i].after
  {
    var was, now := states[i].joined, states[i + 1].joined;
    assert Ticked(states[i], states[i + 1], passes[i].enabled, passes[i].reload, passes[i].devices, signals[i]);
    var k :| 0 <= k < |now| && now[k] == t;
    assert now[..|was|] == was;
    assert t !in now[..|was|];
  }

  // Whenever its finish signal arrives, a thread that has been told to stop is joined in
  // the end: a signal that shows from the n-th look on is seen within n + 1 passes.
  lemma JoinedInTheEnd(arrived: Arrivals, states: seq<State>, passes: seq<Pass>, signals: seq<Signals>, looks: seq<nat>,
                       i: nat, t: Tid, n: nat)
    requires IsHistory(states, passes, signals) && Observed(arrived, looks, signals) && Watchful(states, passes, looks)
    requires Lasting(arrived) && t in arrived(n) && i + n < |passes| && t in states[i].stopped
    ensures t in states[i + n + 1].joined
  {
    LooksOn(arrived, states, passes, signals, looks, i, t, n);
    if t in states[i + n].joined {
      StaysJoined(states, passes, signals, i + n, t);
    } else {
      var now := i + n;
      assert signals[now] == Signals(arrived(looks[now]), arrived(looks[now + 1]));
      assert t in arrived(looks[now]);
      StaysStopped(states, passes, signals, i, i + n, t);
      FinishedAreJoined(states, passes, signals, i + n, t);
    }
  }

  lemma {:induction false} LooksOn(arrived: Arrivals, states: seq<State>, passes: seq<Pass>, signals: seq<Signals>,
                                   looks: seq<nat>, i: nat, t: Tid, m: nat)
    requires IsHistory(states, passes, signals) && Observed(arrived, looks, signals) && Watchful(states, passes, looks)
    requires i + m < |states| && t in states[i].stopped
    ensures t in states[i + m].joined || looks[i + m] >= m
  {
    if m > 0 {
      LooksOn(arrived, states, passes, signals, looks, i, t, m - 1);
      StaysStopped(states, passes, signals, i, i + m, t);
      if t in states[i + m - 1].joined {
        StaysJoined(states, passes, signals, i + m - 1, t);
      } else {
        StoppedIsKept(states, passes, signals, i + m - 1, t);
      }
    }
  }

  // What has been told to stop is being reaped or joined, and all joined by a pause.
  lemma StoppedIsKept(states: seq<State>, passes: seq<Pass>, signals: seq<Signals>, i: nat, t: Tid)
    requires IsHistory(states, passes, signals) && i < |passes| && t in states[i + 1].stopped
    ensures t in states[i + 1].joined || (passes[i].enabled && |states[i + 1].reap| > 0)
  {
    var now := states[i + 1];
    assert Ticked(states[i], now, passes[i].enabled, passes[i].reload, passes[i].devices, signals[i]);
    assert t < |now.spawned| && !Works(now, t);
    assert Places(now, t) == 1;
  }

  lemma StaysJoined(states: seq<State>, passes: seq<Pass>, signals: seq<Signals>, i: nat, t: Tid)
    requires IsHistory(states, passes, signals) && i < |passes| && t in states[i].joined
    ensures t in states[i + 1].joined
  {
    assert Ticked(states[i], states[i + 1], passes[i].enabled, passes[i].reload, passes[i].devices, signals[i]);
    assert states[i + 1].joined[..|states[i].joined|] == states[i].joined;
  }

  lemma {:induction false} StaysStopped(states: seq<State>, passes: seq<Pass>, signals: seq<Signals>, i: nat, j: nat, t: Tid)
    requires IsHistory(states, passes, signals) && i <= j < |states| && t in states[i].stopped
    ensures t in states[j].stopped
    decreases j
  {
    if i < j {
      StaysStopped(states, passes, signals, i, j - 1, t);
      assert Ticked(states[j - 1], states[j], passes[j - 1].enabled, passes[j - 1].reload, passes[j - 1].devices, signals[j - 1]);
    }
  }
}
