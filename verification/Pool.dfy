/**
 Bounded fan-out (nexus/src/collectors/pool.rs): at most `max_workers` threads
 drain one mutex-guarded queue, and the caller waits for all of them.

 A step is one critical section or one thread operation. The start-up jitter
 only delays a worker, so it is part of the scheduling.
 */
module Pool {

  // A call of `work` is numbered by the moment its item was popped.
  datatype Worker<T> = Ready | Working(item: T, call: nat) | Exited

  // `taken` lists the items passed to `work`, call by call, and `returned` the
  // calls that have returned; both, and the call numbers, are history.
  datatype State<T> = State(
    target: nat,
    queue: seq<T>,
    workers: seq<Worker<T>>,
    taken: seq<T>,
    returned: set<nat>,
    left: bool)

  datatype Step = SpawnWorker | Pop(i: nat) | Return(i: nat) | LeaveScope

  function WorkerCount(limit: nat, items: nat): nat {
    var atLeastOne := if limit < 1 then 1 else limit;
    if atLeastOne < items then atLeastOne else items
  }

  function Init<T>(items: seq<T>, limit: nat): State<T> {
    State(WorkerCount(limit, |items|), items, [], [], {}, false)
  }

  predicate Enabled<T>(s: State<T>, step: Step) {
    match step
    case SpawnWorker => !s.left && |s.workers| < s.target
    case Pop(i) => i < |s.workers| && s.workers[i].Ready?
    case Return(i) => i < |s.workers| && s.workers[i].Working?
    case LeaveScope => !s.left && |s.workers| == s.target && forall i :: 0 <= i < |s.workers| ==> s.workers[i].Exited?
  }

  function Do<T>(s: State<T>, step: Step): State<T>
    requires Enabled(s, step)
  {
    match step
    case SpawnWorker => s.(workers := s.workers + [Ready])
    case Pop(i) =>
      if s.queue == [] then s.(workers := s.workers[i := Exited])
      else
        s.(workers := s.workers[i := Working(s.queue[0], |s.taken|)],
           queue := s.queue[1..],
           taken := s.taken + [s.queue[0]])
    case Return(i) =>
      s.(workers := s.workers[i := Ready], returned := s.returned + {s.workers[i].call})
    case LeaveScope => s.(left := true)
  }

  ghost predicate IsRun<T>(s: State<T>, steps: seq<Step>)
    decreases |steps|
  {
    steps == [] || (Enabled(s, steps[0]) && IsRun(Do(s, steps[0]), steps[1..]))
  }

  ghost function End<T>(s: State<T>, steps: seq<Step>): State<T>
    requires IsRun(s, steps)
    decreases |steps|
  {
    if steps == [] then s else End(Do(s, steps[0]), steps[1..])
  }

  // ---- Invariant ----------------------------------------------------------------

  predicate Running<T>(s: State<T>, i: nat, call: nat) {
    i < |s.workers| && s.workers[i].Working? && s.workers[i].call == call
  }

  // Every call that was made is running on exactly one worker, with the item it
  // was made for, or has returned.
  ghost predicate CallsBalance<T>(s: State<T>) {
    && (forall k: nat :: k < |s.taken| && k !in s.returned ==> exists i: nat :: Running(s, i, k))
    && (forall i: nat, k: nat :: Running(s, i, k) ==> k < |s.taken| && s.workers[i].item == s.taken[k] && k !in s.returned)
    && (forall i: nat, j: nat, k: nat :: Running(s, i, k) && Running(s, j, k) ==> i == j)
    && (forall k :: k in s.returned ==> k < |s.taken|)
  }

  ghost predicate Inv<T>(items: seq<T>, limit: nat, s: State<T>) {
    && s.target == WorkerCount(limit, |items|)
    && |s.workers| <= s.target
    && s.taken + s.queue == items
    && CallsBalance(s)
    && (forall i :: 0 <= i < |s.workers| && s.workers[i].Exited? ==> s.queue == [])
    && (s.left ==> |s.workers| == s.target && forall i :: 0 <= i < |s.workers| ==> s.workers[i].Exited?)
  }

  lemma BalanceStep<T>(s: State<T>, step: Step)
    requires CallsBalance(s) && Enabled(s, step)
    ensures CallsBalance(Do(s, step))
  {
    var s' := Do(s, step);
    match step
    case Pop(i) =>
      if s.queue != [] {
        assert forall j: nat, k: nat :: Running(s', j, k) <==> Running(s, j, k) || (j == i && k == |s.taken|);
      } else {
        assert forall j: nat, k: nat :: Running(s', j, k) <==> Running(s, j, k);
      }
    case Return(i) =>
      assert Running(s, i, s.workers[i].call);
      assert forall j: nat, k: nat :: Running(s', j, k) <==> Running(s, j, k) && j != i;
    case _ =>
      assert forall j: nat, k: nat :: Running(s', j, k) <==> Running(s, j, k);
  }

  lemma StepInv<T>(items: seq<T>, limit: nat, s: State<T>, step: Step)
    requires Inv(items, limit, s) && Enabled(s, step)
    ensures Inv(items, limit, Do(s, step))
  {
    BalanceStep(s, step);
    if step.Pop? && s.queue != [] {
      assert s.queue == [s.queue[0]] + s.queue[1..];
    }
  }

  lemma {:induction false} RunInv<T>(items: seq<T>, limit: nat, s: State<T>, steps: seq<Step>)
    requires Inv(items, limit, s) && IsRun(s, steps)
    ensures Inv(items, limit, End(s, steps))
    decreases |steps|
  {
    if steps != [] {
      StepInv(items, limit, s, steps[0]);
      RunInv(items, limit, Do(s, steps[0]), steps[1..]);
    }
  }

  // ---- Theorems -----------------------------------------------------------------

  // The workers with a call of `work` in progress.
  function Live<T>(workers: seq<Worker<T>>): set<int> {
    set i | 0 <= i < |workers| && workers[i].Working?
  }

  lemma {:induction false} LiveBounded<T>(workers: seq<Worker<T>>)
    ensures |Live(workers)| <= |workers|
  {
    if workers != [] {
      var last := |workers| - 1;
      LiveBounded(workers[..last]);
      assert Live(workers) == Live(workers[..last]) + (if workers[last].Working? then {last} else {});
    }
  }

  // In every interleaving and at every moment: items are handed to `work` in
  // queue order, none twice and none skipped, and no more calls are live than
  // the limit (at least one) or the number of items.
  lemma ConcurrencyBounded<T>(items: seq<T>, limit: nat, steps: seq<Step>)
    requires IsRun(Init(items, limit), steps)
    ensures var s := End(Init(items, limit), steps);
      && s.taken + s.queue == items
      && CallsBalance(s)
      && |Live(s.workers)| <= (if limit < 1 then 1 else limit)
      && |Live(s.workers)| <= |items|
  {
    RunInv(items, limit, Init(items, limit), steps);
    LiveBounded(End(Init(items, limit), steps).workers);
  }

  // The bound is reached: some schedule has that many calls live at once.
  lemma ConcurrencyReached<T>(items: seq<T>, limit: nat) returns (steps: seq<Step>)
    ensures IsRun(Init(items, limit), steps)
    ensures |Live(End(Init(items, limit), steps).workers)| ==
            if |items| == 0 then 0 else if limit < 1 then 1 else if limit < |items| then limit else |items|
  {
    var n := WorkerCount(limit, |items|);
    steps := AllBusy(items, limit, n);
    AllLive(End(Init(items, limit), steps).workers);
  }

  lemma {:induction false} AllLive<T>(workers: seq<Worker<T>>)
    requires forall i :: 0 <= i < |workers| ==> workers[i].Working?
    ensures |Live(workers)| == |workers|
  {
    if workers != [] {
      var last := |workers| - 1;
      AllLive(workers[..last]);
      assert Live(workers) == Live(workers[..last]) + {last};
    }
  }

  lemma {:induction false} RunSnoc<T>(s: State<T>, steps: seq<Step>, step: Step)
    requires IsRun(s, steps) && Enabled(End(s, steps), step)
    ensures IsRun(s, steps + [step]) && End(s, steps + [step]) == Do(End(s, steps), step)
    decreases |steps|
  {
    if steps != [] {
      RunSnoc(Do(s, steps[0]), steps[1..], step);
      assert (steps + [step])[1..] == steps[1..] + [step];
    } else {
      assert [] + [step] == [step];
      assert [step][1..] == [];
    }
  }

  // All workers are spawned, and none has popped an item yet.
  lemma {:induction false} AllSpawned<T>(items: seq<T>, limit: nat, n: nat) returns (steps: seq<Step>)
    requires n <= WorkerCount(limit, |items|)
    ensures IsRun(Init(items, limit), steps)
    ensures var s := End(Init(items, limit), steps);
      && s.target == WorkerCount(limit, |items|) && s.queue == items && !s.left
      && |s.workers| == n && forall i :: 0 <= i < n ==> s.workers[i].Ready?
  {
    steps := [];
    if n > 0 {
      steps := AllSpawned(items, limit, n - 1);
      RunSnoc(Init(items, limit), steps, SpawnWorker);
      steps := steps + [SpawnWorker];
    }
  }

  // The first n of them have an item.
  lemma {:induction false} AllBusy<T>(items: seq<T>, limit: nat, n: nat) returns (steps: seq<Step>)
    requires n <= WorkerCount(limit, |items|)
    ensures IsRun(Init(items, limit), steps)
    ensures var s := End(Init(items, limit), steps);
      && s.queue == items[n..] && |s.workers| == WorkerCount(limit, |items|)
      && (forall i :: 0 <= i < n ==> s.workers[i].Working?)
      && forall i :: n <= i < |s.workers| ==> s.workers[i].Ready?
  {
    if n == 0 {
      steps := AllSpawned(items, limit, WorkerCount(limit, |items|));
    } else {
      steps := AllBusy(items, limit, n - 1);
      RunSnoc(Init(items, limit), steps, Pop(n - 1));
      assert items[n - 1..][1..] == items[n..];
      steps := steps + [Pop(n - 1)];
    }
  }

  // At the barrier the queue is empty, nothing is live, every item has been
  // passed to `work` exactly once and every one of those calls has returned.
  lemma ExactlyOnce<T>(items: seq<T>, limit: nat, steps: seq<Step>)
    requires IsRun(Init(items, limit), steps) && End(Init(items, limit), steps).left
    ensures var s := End(Init(items, limit), steps);
      && s.taken == items && s.queue == []
      && (forall k: nat :: k in s.returned <==> k < |items|)
      && (forall i: nat, k: nat :: !Running(s, i, k))
      && forall step :: !Enabled(s, step)
  {
    var s := End(Init(items, limit), steps);
    RunInv(items, limit, Init(items, limit), steps);
    assert s.target > 0 ==> s.workers[0].Exited?;
    assert s.queue == [] by {
      if s.target == 0 {
        assert |items| == 0;
      }
    }
    assert s.taken + [] == s.taken;
  }

  function WorkersFuel<T>(workers: seq<Worker<T>>): nat {
    if workers == [] then 0
    else WorkersFuel(workers[..|workers| - 1]) + WorkerFuel(workers[|workers| - 1])
  }

  function WorkerFuel<T>(w: Worker<T>): nat {
    match w
    case Ready => 1
    case Working(_, _) => 2
    case Exited => 0
  }

  function Fuel<T>(s: State<T>): int {
    2 * (s.target - |s.workers|) + WorkersFuel(s.workers) + 2 * |s.queue| + (if s.left then 0 else 1)
  }

  lemma {:induction false} WorkersFuelUpdate<T>(workers: seq<Worker<T>>, i: nat, w: Worker<T>)
    requires i < |workers|
    ensures WorkersFuel(workers[i := w]) + WorkerFuel(workers[i]) == WorkersFuel(workers) + WorkerFuel(w)
  {
    var last := |workers| - 1;
    if i == last {
      assert workers[i := w][..last] == workers[..last];
    } else {
      assert workers[i := w][..last] == workers[..last][i := w];
      WorkersFuelUpdate(workers[..last], i, w);
    }
  }

  lemma FuelStep<T>(s: State<T>, step: Step)
    requires Enabled(s, step)
    ensures Fuel(Do(s, step)) == Fuel(s) - 1
  {
    match step
    case SpawnWorker =>
      assert (s.workers + [Ready])[..|s.workers|] == s.workers;
    case Pop(i) => WorkersFuelUpdate(s.workers, i, Do(s, step).workers[i]);
    case Return(i) => WorkersFuelUpdate(s.workers, i, Ready);
    case LeaveScope =>
  }

  lemma {:induction false} FuelRun<T>(s: State<T>, steps: seq<Step>)
    requires IsRun(s, steps)
    ensures Fuel(End(s, steps)) == Fuel(s) - |steps|
    decreases |steps|
  {
    if steps != [] {
      FuelStep(s, steps[0]);
      FuelRun(Do(s, steps[0]), steps[1..]);
    }
  }

  lemma {:induction false} ExitedFuel<T>(workers: seq<Worker<T>>)
    requires forall i :: 0 <= i < |workers| ==> workers[i].Exited?
    ensures WorkersFuel(workers) == 0
  {
    if workers != [] {
      ExitedFuel(workers[..|workers| - 1]);
    }
  }

  // Every schedule terminates, and all complete ones take the same number of
  // steps: a spawn and an exit per worker, a pop and a return per item.
  lemma Termination<T>(items: seq<T>, limit: nat, steps: seq<Step>)
    requires IsRun(Init(items, limit), steps)
    ensures var total := 2 * WorkerCount(limit, |items|) + 2 * |items| + 1;
      |steps| <= total && (End(Init(items, limit), steps).left <==> |steps| == total)
  {
    var s := End(Init(items, limit), steps);
    RunInv(items, limit, Init(items, limit), steps);
    FuelRun(Init(items, limit), steps);
    if s.left {
      ExactlyOnce(items, limit, steps);
      ExitedFuel(s.workers);
    }
  }

  // Until the caller has left the scope some step is enabled.
  lemma Progress<T>(items: seq<T>, limit: nat, steps: seq<Step>) returns (step: Step)
    requires IsRun(Init(items, limit), steps) && !End(Init(items, limit), steps).left
    ensures Enabled(End(Init(items, limit), steps), step)
  {
    var s := End(Init(items, limit), steps);
    RunInv(items, limit, Init(items, limit), steps);
    if i :| 0 <= i < |s.workers| && !s.workers[i].Exited? {
      step := if s.workers[i].Ready? then Pop(i) else Return(i);
    } else {
      step := if |s.workers| < s.target then SpawnWorker else LeaveScope;
    }
  }
}
