/**
 The up/down debouncer of the ICMP collector (nexus/src/collectors/pinger.rs):
 one accounting record per device, advanced once per tick, and the per-shard
 bookkeeping around it.
 */
module Pinger {
  import opened Options

  const LIMIT: nat := 10

  // The two counters are u8 in the source and saturate at 255.
  datatype Info = Info(responsive: Option<bool>, up: nat, down: nat)
  datatype Outcome = Outcome(info: Info, report: Option<bool>)

  function SaturatingInc(n: nat): nat {
    if n >= 255 then 255 else n + 1
  }

  function Seeded(seed: Option<bool>): Info {
    Info(seed, 0, 0)
  }

  // One observation: the first one of an unknown device is reported at once, a
  // matching one resets both counters, and LIMIT contrary ones flip the state.
  function Advance(info: Info, responding: bool): Outcome {
    match info.responsive
    case None => Outcome(info.(responsive := Some(responding)), Some(responding))
    case Some(current) =>
      if current == responding then Outcome(info.(up := 0, down := 0), None)
      else
        var next := if responding then info.(down := 0, up := SaturatingInc(info.up))
                    else info.(up := 0, down := SaturatingInc(info.down));
        if (if responding then next.up else next.down) >= LIMIT
        then Outcome(next.(responsive := Some(responding)), Some(responding))
        else Outcome(next, None)
  }

  // ---- Whole traces --------------------------------------------------------------------

  function Run(seed: Option<bool>, trace: seq<bool>): Info {
    if trace == [] then Seeded(seed)
    else Advance(Run(seed, trace[..|trace| - 1]), trace[|trace| - 1]).info
  }

  datatype Report = Report(at: nat, up: bool)

  // The reports made along a trace, each with the number of its observation.
  function Reports(seed: Option<bool>, trace: seq<bool>): seq<Report> {
    if trace == [] then []
    else
      var last := |trace| - 1;
      var report := Advance(Run(seed, trace[..last]), trace[last]).report;
      Reports(seed, trace[..last]) + (if report.Some? then [Report(last, report.value)] else [])
  }

  // The observations just before `end` are LIMIT equal ones.
  ghost predicate RunEndsAt(trace: seq<bool>, end: nat) {
    LIMIT <= end <= |trace| && forall i :: end - LIMIT <= i < end ==> trace[i] == trace[end - 1]
  }

  ghost predicate IsLastRun(trace: seq<bool>, end: nat) {
    RunEndsAt(trace, end) && forall e: nat :: end < e ==> !RunEndsAt(trace, e)
  }

  function Initial(seed: Option<bool>, trace: seq<bool>): Option<bool> {
    if seed.Some? || trace == [] then seed else Some(trace[0])
  }

  // The debounced value of a trace, said without counters: the value of the
  // last run of LIMIT equal observations, or the initial one if there is none.
  ghost predicate IsDebounced(seed: Option<bool>, trace: seq<bool>, state: Option<bool>) {
    && (forall end: nat :: IsLastRun(trace, end) ==> state == Some(trace[end - 1]))
    && ((forall end: nat :: !RunEndsAt(trace, end)) ==> state == Initial(seed, trace))
  }

  // Contrary observations counted so far.
  function Streak(info: Info): nat {
    if info.responsive == Some(true) then info.down else info.up
  }

  ghost predicate Counting(trace: seq<bool>, info: Info) {
    && info.responsive.Some?
    && info.up <= LIMIT && info.down <= LIMIT
    && var k := Streak(info);
       && k < LIMIT && k <= |trace|
       && (forall i :: |trace| - k <= i < |trace| ==> trace[i] != info.responsive.value)
       && (k < |trace| ==> trace[|trace| - k - 1] == info.responsive.value)
  }

  lemma RunEndsSnoc(trace: seq<bool>, x: bool, end: nat)
    ensures end <= |trace| ==> (RunEndsAt(trace + [x], end) <==> RunEndsAt(trace, end))
    ensures end > |trace| + 1 ==> !RunEndsAt(trace + [x], end)
  {
    if end <= |trace| {
      assert forall i :: 0 <= i < end ==> (trace + [x])[i] == trace[i];
    }
  }

  // Extending a trace either completes a run, whose value it takes, or changes nothing.
  lemma DebouncedSnoc(seed: Option<bool>, trace: seq<bool>, x: bool, state: Option<bool>, state': Option<bool>)
    requires IsDebounced(seed, trace, state) && (trace != [] || seed.Some?)
    requires RunEndsAt(trace + [x], |trace| + 1) ==> state' == Some(x)
    requires !RunEndsAt(trace + [x], |trace| + 1) ==> state' == state
    ensures IsDebounced(seed, trace + [x], state')
  {
    var trace' := trace + [x];
    forall end: nat ensures end != |trace| + 1 ==> (RunEndsAt(trace', end) <==> RunEndsAt(trace, end)) {
      RunEndsSnoc(trace, x, end);
    }
    forall end: nat | IsLastRun(trace', end) ensures state' == Some(trace'[end - 1]) {
      if end <= |trace| {
        assert !RunEndsAt(trace', |trace| + 1);
        assert IsLastRun(trace, end);
      }
    }
  }

  lemma CountingSnoc(trace: seq<bool>, info: Info, x: bool)
    requires Counting(trace, info)
    ensures var info' := Advance(info, x).info;
      && Counting(trace + [x], info')
      && (RunEndsAt(trace + [x], |trace| + 1) ==> info'.responsive == Some(x))
      && (!RunEndsAt(trace + [x], |trace| + 1) ==> info'.responsive == info.responsive)
  {
    var trace', k, n := trace + [x], Streak(info), |trace|;
    assert forall i :: 0 <= i < n ==> trace'[i] == trace[i];
    if x != info.responsive.value {
      if k + 1 < LIMIT && k < n {
        assert trace'[n - k - 1] != x;
      }
    }
  }

  lemma RunSnoc(seed: Option<bool>, trace: seq<bool>, x: bool)
    ensures Run(seed, trace + [x]) == Advance(Run(seed, trace), x).info
  {
    assert (trace + [x])[..|trace|] == trace;
  }

  lemma InvariantStart(seed: Option<bool>)
    ensures seed.Some? ==> Counting([], Run(seed, [])) && IsDebounced(seed, [], Run(seed, []).responsive)
    ensures forall x :: seed.None? ==> Counting([x], Run(seed, [x])) && IsDebounced(seed, [x], Run(seed, [x]).responsive)
  {
    forall x | seed.None? ensures Run(seed, [x]) == Info(Some(x), 0, 0) {
      RunSnoc(seed, [], x);
      assert [] + [x] == [x];
    }
  }

  lemma {:induction false} DebounceInvariant(seed: Option<bool>, trace: seq<bool>)
    requires trace != [] || seed.Some?
    ensures Counting(trace, Run(seed, trace)) && IsDebounced(seed, trace, Run(seed, trace).responsive)
  {
    hide Counting, IsDebounced, Run, Advance;
    if trace == [] {
      InvariantStart(seed);
    } else {
      var front, x := trace[..|trace| - 1], trace[|trace| - 1];
      assert trace == front + [x];
      if front == [] && seed.None? {
        InvariantStart(seed);
        assert trace == [x];
      } else {
        DebounceInvariant(seed, front);
        RunSnoc(seed, front, x);
        CountingSnoc(front, Run(seed, front), x);
        DebouncedSnoc(seed, front, x, Run(seed, front).responsive, Run(seed, trace).responsive);
      }
    }
  }

  // For every non-empty trace the state is the debounced value and the counters
  // never pass LIMIT, so the u8 additions never saturate.
  lemma DebounceClosedForm(seed: Option<bool>, trace: seq<bool>)
    requires trace != []
    ensures IsDebounced(seed, trace, Run(seed, trace).responsive)
    ensures Run(seed, trace).responsive.Some?
    ensures Run(seed, trace).up <= LIMIT && Run(seed, trace).down <= LIMIT
  {
    DebounceInvariant(seed, trace);
  }

  // The closed form determines the state.
  lemma {:induction false} LastRunExists(trace: seq<bool>, n: nat) returns (end: nat)
    requires n <= |trace| && exists e: nat :: e <= n && RunEndsAt(trace, e)
    ensures end <= n && RunEndsAt(trace, end) && forall e: nat :: end < e <= n ==> !RunEndsAt(trace, e)
  {
    if RunEndsAt(trace, n) {
      end := n;
    } else {
      end := LastRunExists(trace, n - 1);
    }
  }

  lemma DebouncedIsUnique(seed: Option<bool>, trace: seq<bool>, a: Option<bool>, b: Option<bool>)
    requires IsDebounced(seed, trace, a) && IsDebounced(seed, trace, b)
    ensures a == b
  {
    if e: nat :| RunEndsAt(trace, e) {
      var end := LastRunExists(trace, |trace|);
      assert IsLastRun(trace, end);
    }
  }

  // ---- Reports ------------------------------------------------------------------------

  // Reports alternate in value, the last one is the state, and the distance to
  // it leaves room for the contrary observations counted since.
  ghost predicate WellSpaced(seed: Option<bool>, reports: seq<Report>, info: Info, observed: nat) {
    && (forall i :: 0 < i < |reports| ==>
          reports[i].up != reports[i - 1].up && reports[i - 1].at + LIMIT <= reports[i].at)
    && (reports == [] ==> info.responsive == seed)
    && (reports != [] ==>
          && info.responsive == Some(reports[|reports| - 1].up)
          && reports[|reports| - 1].at + Streak(info) < observed
          && (seed.Some? ==> reports[0].up != seed.value))
  }

  lemma AdvanceEffect(info: Info, x: bool)
    requires info.responsive.None? ==> info == Seeded(None)
    requires info.responsive.Some? ==> Streak(info) < LIMIT
    ensures var step := Advance(info, x);
      match step.report
      case None => info.responsive.Some? && step.info.responsive == info.responsive && Streak(step.info) <= Streak(info) + 1
      case Some(v) =>
        && v == x && step.info.responsive == Some(x) && Streak(step.info) == 0
        && (info.responsive.Some? ==> info.responsive.value != x && Streak(info) == LIMIT - 1)
  {
  }

  lemma WellSpacedStep(seed: Option<bool>, reports: seq<Report>, info: Info, observed: nat, x: bool)
    requires WellSpaced(seed, reports, info, observed)
    requires info.responsive.None? ==> seed.None? && reports == [] && info == Seeded(None)
    requires info.responsive.Some? ==> Streak(info) < LIMIT
    ensures var step := Advance(info, x);
      WellSpaced(seed, reports + (if step.report.Some? then [Report(observed, step.report.value)] else []),
                 step.info, observed + 1)
  {
    hide Advance, Streak;
    AdvanceEffect(info, x);
    var step := Advance(info, x);
    hide WellSpaced;
    if step.report.Some? {
      ReportSpaced(seed, reports, info, observed, step.info, x);
    } else {
      QuietSpaced(seed, reports, info, observed, step.info);
      assert reports + [] == reports;
    }
  }

  lemma ReportSpaced(seed: Option<bool>, reports: seq<Report>, info: Info, observed: nat, next: Info, x: bool)
    requires WellSpaced(seed, reports, info, observed)
    requires info.responsive.None? ==> seed.None? && reports == []
    requires next.responsive == Some(x) && Streak(next) == 0
    requires info.responsive.Some? ==> info.responsive.value != x && Streak(info) == LIMIT - 1
    ensures WellSpaced(seed, reports + [Report(observed, x)], next, observed + 1)
  {
    hide Streak;
    var reports' := reports + [Report(observed, x)];
    assert forall i :: 0 <= i < |reports| ==> reports'[i] == reports[i];
    assert reports'[|reports|] == Report(observed, x);
  }

  lemma QuietSpaced(seed: Option<bool>, reports: seq<Report>, info: Info, observed: nat, next: Info)
    requires WellSpaced(seed, reports, info, observed)
    requires next.responsive == info.responsive && Streak(next) <= Streak(info) + 1
    ensures WellSpaced(seed, reports, next, observed + 1)
  {
    hide Streak;
  }

  lemma RunState(seed: Option<bool>, trace: seq<bool>)
    ensures Run(seed, trace).responsive.None? ==> seed.None? && trace == [] && Run(seed, trace) == Seeded(None)
    ensures Run(seed, trace).responsive.Some? ==> Streak(Run(seed, trace)) < LIMIT
  {
    if trace != [] || seed.Some? {
      DebounceInvariant(seed, trace);
    }
  }

  lemma ReportsSnoc(seed: Option<bool>, trace: seq<bool>, x: bool)
    ensures var report := Advance(Run(seed, trace), x).report;
      Reports(seed, trace + [x]) ==
      Reports(seed, trace) + (if report.Some? then [Report(|trace|, report.value)] else [])
  {
    assert (trace + [x])[..|trace|] == trace;
  }

  // Along every trace reports strictly alternate, successive ones are at least
  // LIMIT observations apart and the last one equals the state.
  lemma {:induction false} ReportsAlternate(seed: Option<bool>, trace: seq<bool>)
    ensures WellSpaced(seed, Reports(seed, trace), Run(seed, trace), |trace|)
  {
    if trace != [] {
      hide WellSpaced, Advance, Run, Reports;
      var front, x := trace[..|trace| - 1], trace[|trace| - 1];
      assert trace == front + [x];
      ReportsAlternate(seed, front);
      RunState(seed, front);
      NoReportYet(seed, front);
      WellSpacedStep(seed, Reports(seed, front), Run(seed, front), |front|, x);
      RunSnoc(seed, front, x);
      ReportsSnoc(seed, front, x);
    }
  }

  lemma NoReportYet(seed: Option<bool>, trace: seq<bool>)
    ensures trace == [] ==> Reports(seed, trace) == []
  {
  }

  // An unknown device is reported on its first observation.
  lemma {:induction false} FirstObservationReported(trace: seq<bool>)
    requires trace != []
    ensures Reports(None, trace) != [] && Reports(None, trace)[0] == Report(0, trace[0])
  {
    var front, x := trace[..|trace| - 1], trace[|trace| - 1];
    assert trace == front + [x];
    ReportsSnoc(None, front, x);
    if front != [] {
      FirstObservationReported(front);
    }
  }

  // A known state flips on the tenth contrary observation in a row, and not before.
  lemma {:induction false} TenFlip(up: bool, trace: seq<bool>)
    requires forall i :: 0 <= i < |trace| ==> trace[i] != up
    ensures Run(Some(up), trace).responsive == Some(if |trace| < 10 then up else !up)
    ensures |trace| < 10 ==> Streak(Run(Some(up), trace)) == |trace| && Reports(Some(up), trace) == []
    ensures |trace| == 10 ==> Reports(Some(up), trace) == [Report(9, !up)]
  {
    if trace != [] {
      TenFlip(up, trace[..|trace| - 1]);
    }
  }

  // ---- One shard -------------------------------------------------------------------------

  type Accounting = map<string, Info>

  ghost predicate Distinct(shard: seq<string>) {
    forall i, j :: 0 <= i < j < |shard| ==> shard[i] != shard[j]
  }

  // A device without a reply row counts as not responding.
  function Responding(responded: map<string, bool>, fqdn: string): bool {
    if fqdn in responded then responded[fqdn] else false
  }

  function LastKnown(known: map<string, bool>, fqdn: string): Option<bool> {
    if fqdn in known then Some(known[fqdn]) else None
  }

  function Reconciled(accounting: Accounting, shard: seq<string>, known: map<string, bool>): Accounting {
    map f | f in shard :: if f in accounting then accounting[f] else Seeded(LastKnown(known, f))
  }

  function Advanced(accounting: Accounting, shard: seq<string>, responded: map<string, bool>): Accounting {
    map f | f in accounting ::
      if f in shard then Advance(accounting[f], Responding(responded, f)).info else accounting[f]
  }

  function ShardReports(accounting: Accounting, shard: seq<string>, responded: map<string, bool>): seq<(string, bool)> {
    if shard == [] then []
    else
      var f := shard[|shard| - 1];
      ShardReports(accounting, shard[..|shard| - 1], responded) +
      (if f in accounting
       then match Advance(accounting[f], Responding(responded, f)).report
            case Some(up) => [(f, up)]
            case None => []
       else [])
  }

  // Target i is the last entry of its name whose address replied.
  predicate LastReply(targets: seq<(string, string)>, byAddr: map<string, bool>, i: nat) {
    && i < |targets| && targets[i].1 in byAddr
    && forall j :: i < j < |targets| && targets[j].0 == targets[i].0 ==> targets[j].1 !in byAddr
  }

  // Replies are keyed by the address that was pinged, so aliases share a result;
  // of several entries of one name the last that got a reply counts.
  method ResponsesByFqdn(targets: seq<(string, string)>, byAddr: map<string, bool>)
    returns (responded: map<string, bool>)
    ensures forall i: nat :: LastReply(targets, byAddr, i) ==>
              targets[i].0 in responded && responded[targets[i].0] == byAddr[targets[i].1]
    ensures forall f :: f in responded ==> exists i: nat :: LastReply(targets, byAddr, i) && targets[i].0 == f
  {
    responded := map[];
    for i := 0 to |targets|
      invariant forall j: nat :: LastReply(targets[..i], byAddr, j) ==>
        targets[j].0 in responded && responded[targets[j].0] == byAddr[targets[j].1]
      invariant forall f :: f in responded ==> exists j: nat :: LastReply(targets[..i], byAddr, j) && targets[j].0 == f
    {
      LastReplyGrows(targets, byAddr, i);
      if targets[i].1 in byAddr {
        responded := responded[targets[i].0 := byAddr[targets[i].1]];
      }
    }
    assert targets[..|targets|] == targets;
  }

  lemma LastReplyGrows(targets: seq<(string, string)>, byAddr: map<string, bool>, i: nat)
    requires i < |targets|
    ensures forall j: nat :: LastReply(targets[..i + 1], byAddr, j) <==>
      if targets[i].1 in byAddr then j == i || (LastReply(targets[..i], byAddr, j) && targets[j].0 != targets[i].0)
      else LastReply(targets[..i], byAddr, j)
  {
    var now, before := targets[..i + 1], targets[..i];
    assert forall j :: 0 <= j < i ==> now[j] == before[j];
    assert now[i] == targets[i];
  }

  lemma AdvancedSnoc(accounting: Accounting, shard: seq<string>, f: string, responded: map<string, bool>)
    requires f !in shard
    ensures f in Advanced(accounting, shard, responded) <==> f in accounting
    ensures f in accounting ==> Advanced(accounting, shard, responded)[f] == accounting[f]
    ensures f in accounting ==>
        var before, step := Advanced(accounting, shard, responded), Advance(accounting[f], Responding(responded, f));
        && Advanced(accounting, shard + [f], responded) == before[f := step.info]
        && ShardReports(accounting, shard + [f], responded) ==
           ShardReports(accounting, shard, responded) + (if step.report.Some? then [(f, step.report.value)] else [])
    ensures f !in accounting ==>
        && Advanced(accounting, shard + [f], responded) == Advanced(accounting, shard, responded)
        && ShardReports(accounting, shard + [f], responded) == ShardReports(accounting, shard, responded)
  {
    hide Advance, Responding;
    assert (shard + [f])[..|shard|] == shard;
  }

  // A newcomer starts from its last known state, with nothing counted.
  lemma NewcomerSeeded(accounting: Accounting, shard: seq<string>, known: map<string, bool>, f: string)
    requires f in shard && f !in accounting
    ensures var info := Reconciled(accounting, shard, known)[f];
      && info.up == 0 && info.down == 0
      && (f in known ==> info.responsive == Some(known[f])) && (f !in known ==> info.responsive.None?)
  {
  }

  // What a device is observed as is its reply, and "down" when it has none: an unknown
  // device is reported as just that.
  lemma {:induction false} ObservedAsReplied(accounting: Accounting, shard: seq<string>, responded: map<string, bool>, f: string, up: bool)
    requires f in shard && f in accounting && accounting[f].responsive.None?
    ensures (f, up) in ShardReports(accounting, shard, responded) <==> up == (f in responded && responded[f])
    ensures Advanced(accounting, shard, responded)[f].responsive == Some(f in responded && responded[f])
  {
    var front, last := shard[..|shard| - 1], shard[|shard| - 1];
    assert shard == front + [last];
    if f in front {
      ObservedAsReplied(accounting, front, responded, f, up);
    } else {
      NotReported(accounting, front, responded, f, up);
    }
  }

  lemma {:induction false} NotReported(accounting: Accounting, shard: seq<string>, responded: map<string, bool>, f: string, up: bool)
    requires f !in shard
    ensures (f, up) !in ShardReports(accounting, shard, responded)
  {
    hide Advance;
    if shard != [] {
      NotReported(accounting, shard[..|shard| - 1], responded, f, up);
    }
  }

  // The state a shard worker keeps between its ticks.
  class ShardWorker {
    var accounting: Accounting

    constructor ()
      ensures accounting == map[]
    {
      accounting := map[];
    }

    // Drops departed devices and seeds newcomers from the last known state.
    method ReconcileAccounting(shard: seq<string>, known: map<string, bool>)
      modifies this
      ensures accounting == Reconciled(old(accounting), shard, known)
    {
      ghost var before := accounting;
      accounting := map f | f in accounting && f in shard :: accounting[f];
      for i := 0 to |shard|
        invariant forall f :: f in accounting <==> f in shard && (f in before || f in shard[..i])
        invariant forall f :: f in accounting ==>
          accounting[f] == if f in before then before[f] else Seeded(LastKnown(known, f))
      {
        if shard[i] !in accounting {
          accounting := accounting[shard[i] := Seeded(LastKnown(known, shard[i]))];
        }
      }
    }

    method AdvanceShard(shard: seq<string>, responded: map<string, bool>) returns (reports: seq<(string, bool)>)
      requires Distinct(shard)
      modifies this
      ensures accounting == Advanced(old(accounting), shard, responded)
      ensures reports == ShardReports(old(accounting), shard, responded)
    {
      ghost var before := accounting;
      reports := [];
      assert shard[..0] == [];
      hide Advance;
      for i := 0 to |shard|
        invariant accounting == Advanced(before, shard[..i], responded)
        invariant reports == ShardReports(before, shard[..i], responded)
      {
        var f := shard[i];
        AdvancedSnoc(before, shard[..i], f, responded);
        assert shard[..i + 1] == shard[..i] + [f];
        hide Advanced, ShardReports;
        if f in accounting {
          var step := Advance(accounting[f], Responding(responded, f));
          accounting := accounting[f := step.info];
          if step.report.Some? {
            reports := reports + [(f, step.report.value)];
          }
        }
      }
      assert shard[..|shard|] == shard;
    }

    // Paused: the accounting is dropped.
    method Clear()
      modifies this
      ensures accounting == map[]
    {
      accounting := map[];
    }
  }

  // ---- A device over the ticks of its shard ------------------------------------------------

  // One tick: paused; nothing pinged (nothing resolved, or the send failed); or
  // a full round. `known` is the last known state of each device at that time.
  datatype Tick =
    | Paused
    | Quiet(shard: seq<string>, known: map<string, bool>)
    | Pinged(shard: seq<string>, known: map<string, bool>, responded: map<string, bool>)

  function AfterTick(accounting: Accounting, tick: Tick): Accounting {
    match tick
    case Paused => map[]
    case Quiet(shard, known) => Reconciled(accounting, shard, known)
    case Pinged(shard, known, responded) => Advanced(Reconciled(accounting, shard, known), shard, responded)
  }

  function AfterTicks(ticks: seq<Tick>): Accounting {
    if ticks == [] then map[] else AfterTick(AfterTicks(ticks[..|ticks| - 1]), ticks[|ticks| - 1])
  }

  // What one device has been through since it last joined the shard.
  datatype Membership = Membership(seed: Option<bool>, trace: seq<bool>)

  function History(ticks: seq<Tick>, f: string): Option<Membership> {
    if ticks == [] then None
    else
      var before := History(ticks[..|ticks| - 1], f);
      match ticks[|ticks| - 1]
      case Paused => None
      case Quiet(shard, known) => if f in shard then Some(Joined(before, known, f)) else None
      case Pinged(shard, known, responded) =>
        if f in shard
        then
          var m := Joined(before, known, f);
          Some(Membership(m.seed, m.trace + [Responding(responded, f)]))
        else None
  }

  function Joined(before: Option<Membership>, known: map<string, bool>, f: string): Membership {
    if before.Some? then before.value else Membership(LastKnown(known, f), [])
  }

  // The accounting holds, for f, exactly the run of this membership.
  ghost predicate Records(accounting: Accounting, f: string, m: Option<Membership>) {
    && (f in accounting <==> m.Some?)
    && (m.Some? ==> accounting[f] == Run(m.value.seed, m.value.trace))
  }

  lemma ReconcileRecords(accounting: Accounting, shard: seq<string>, known: map<string, bool>, f: string, m: Option<Membership>)
    requires Records(accounting, f, m)
    ensures Records(Reconciled(accounting, shard, known), f, if f in shard then Some(Joined(m, known, f)) else None)
  {
    assert Run(LastKnown(known, f), []) == Seeded(LastKnown(known, f));
  }

  lemma AdvanceRecords(accounting: Accounting, shard: seq<string>, responded: map<string, bool>, f: string, m: Option<Membership>)
    requires Records(accounting, f, m) && (f in accounting ==> f in shard)
    ensures Records(Advanced(accounting, shard, responded), f,
                    if m.Some? then Some(Membership(m.value.seed, m.value.trace + [Responding(responded, f)])) else None)
  {
    if m.Some? {
      RunSnoc(m.value.seed, m.value.trace, Responding(responded, f));
    }
  }

  // Over every sequence of ticks, membership changes, pauses and failed sends,
  // a device's record is the debounced run of exactly its own observations
  // since it joined; other devices have no influence on it.
  lemma {:induction false} DevicesAreIndependent(ticks: seq<Tick>, f: string)
    ensures Records(AfterTicks(ticks), f, History(ticks, f))
  {
    hide Reconciled, Advanced, Run;
    if ticks != [] {
      var before, tick := ticks[..|ticks| - 1], ticks[|ticks| - 1];
      DevicesAreIndependent(before, f);
      if !tick.Paused? {
        var m := History(before, f);
        ReconcileRecords(AfterTicks(before), tick.shard, tick.known, f, m);
        if tick.Pinged? {
          var joined := if f in tick.shard then Some(Joined(m, tick.known, f)) else None;
          AdvanceRecords(Reconciled(AfterTicks(before), tick.shard, tick.known), tick.shard, tick.responded, f, joined);
        }
      }
    }
  }

  // So every monitored device with an observation is in its debounced state.
  lemma FleetIsDebounced(ticks: seq<Tick>, f: string)
    requires f in AfterTicks(ticks)
    ensures var m := History(ticks, f).value;
      m.trace != [] ==> IsDebounced(m.seed, m.trace, AfterTicks(ticks)[f].responsive)
  {
    DevicesAreIndependent(ticks, f);
    var m := History(ticks, f).value;
    if m.trace != [] {
      DebounceClosedForm(m.seed, m.trace);
    }
  }

  // ---- Resuming after a pause -----------------------------------------------------------------

  // The reports that a tick makes after these ticks.
  function TickReports(before: seq<Tick>, tick: Tick): seq<(string, bool)> {
    match tick
    case Pinged(shard, known, responded) =>
      ShardReports(Reconciled(AfterTicks(before), shard, known), shard, responded)
    case _ => []
  }

  lemma {:induction false} ReportsAre(accounting: Accounting, shard: seq<string>, responded: map<string, bool>, f: string, up: bool)
    ensures (f, up) in ShardReports(accounting, shard, responded) <==>
            f in shard && f in accounting && Advance(accounting[f], Responding(responded, f)).report == Some(up)
  {
    hide Advance, Responding;
    if shard != [] {
      var front, last := shard[..|shard| - 1], shard[|shard| - 1];
      assert shard == front + [last];
      ReportsAre(accounting, front, responded, f, up);
    }
  }

  predicate Monitors(tick: Tick, f: string) {
    !tick.Paused? && f in tick.shard
  }

  // Tick k takes the device up, after a pause, a time outside the shard or the
  // start; until the last tick it is monitored but nothing is pinged, and the last
  // tick makes its first observation.
  predicate FirstObservedAfter(ticks: seq<Tick>, k: nat, f: string) {
    && k < |ticks| && (k == 0 || !Monitors(ticks[k - 1], f))
    && (forall j :: k <= j < |ticks| ==> Monitors(ticks[j], f))
    && (forall j :: k <= j < |ticks| - 1 ==> ticks[j].Quiet?)
    && ticks[|ticks| - 1].Pinged?
  }

  lemma {:induction false} JoinedAt(ticks: seq<Tick>, k: nat, n: nat, f: string)
    requires k < n <= |ticks| && (k == 0 || !Monitors(ticks[k - 1], f))
    requires forall j :: k <= j < n ==> Monitors(ticks[j], f) && ticks[j].Quiet?
    ensures History(ticks[..n], f) == Some(Membership(LastKnown(ticks[k].known, f), []))
  {
    assert ticks[..n][..n - 1] == ticks[..n - 1];
    if k < n - 1 {
      JoinedAt(ticks, k, n - 1, f);
    } else if k > 0 {
      assert ticks[..k][..k - 1] == ticks[..k - 1];
    }
  }

  // Over all ticks: the first observation after a device was taken up is reported,
  // with its value, if and only if no state of the device was known at the tick
  // that took it up; what is known when it is finally pinged does not matter. The
  // comment at pinger.rs:216-219 promises the report for every device.
  lemma ResumeReportsIffUnknown(ticks: seq<Tick>, k: nat, f: string, up: bool)
    requires FirstObservedAfter(ticks, k, f)
    ensures var n := |ticks| - 1;
      (f, up) in TickReports(ticks[..n], ticks[n]) <==>
      f !in ticks[k].known && up == Responding(ticks[n].responded, f)
  {
    var n := |ticks| - 1;
    var before, tick := ticks[..n], ticks[n];
    var m := History(before, f);
    DevicesAreIndependent(before, f);
    ReconcileRecords(AfterTicks(before), tick.shard, tick.known, f, m);
    if k < n {
      JoinedAt(ticks, k, n, f);
    } else if k > 0 {
      assert ticks[..k][..k - 1] == ticks[..k - 1];
      assert m == None;
    }
    assert Joined(m, tick.known, f) == Membership(LastKnown(ticks[k].known, f), []);
    hide AfterTicks, History;
    ReportsAre(Reconciled(AfterTicks(before), tick.shard, tick.known), tick.shard, tick.responded, f, up);
  }

  // A device that was up before a pause and is down at the first ping after it: no
  // report comes on resuming.
  lemma ResumeCanStaySilent()
    ensures var ticks := [Paused, Pinged(["a"], map["a" := true], map["a" := false])];
      FirstObservedAfter(ticks, 1, "a") && forall up :: ("a", up) !in TickReports(ticks[..1], ticks[1])
  {
    var ticks := [Paused, Pinged(["a"], map["a" := true], map["a" := false])];
    forall up ensures ("a", up) !in TickReports(ticks[..1], ticks[1]) {
      ResumeReportsIffUnknown(ticks, 1, "a", up);
    }
  }
}
