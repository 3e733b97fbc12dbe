/**
 Vendor-aware source selection (nexus/src/collectors/vendor.rs): probe the
 alternative sources of a device in a preferred order, remember who answered.
 */
module Vendors {
  import opened Options
  import opened Sorting

  datatype Vendor = Cisco | HpProcurve | Generic
  datatype Source = Source(name: string, vendor: Vendor)

  ghost predicate DistinctNames(sources: seq<Source>) {
    forall i, j :: 0 <= i < j < |sources| ==> sources[i].name != sources[j].name
  }

  // The preference class of a source: the smaller the earlier.
  function Rank(source: Source, hint: Vendor, cached: Option<string>): nat {
    if cached == Some(source.name) then 0
    else if hint.Generic? || source.vendor == hint then 1
    else if source.vendor.Generic? then 2
    else 3
  }

  // The index of the best answering source among the first n: a single pass that
  // replaces its choice only for a strictly better rank.
  function Best(sources: seq<Source>, hint: Vendor, cached: Option<string>, answering: set<string>, n: nat): (r: Option<nat>)
    requires n <= |sources|
    ensures r.Some? ==> r.value < n && sources[r.value].name in answering
    ensures r.None? <==> forall i :: 0 <= i < n ==> sources[i].name !in answering
    ensures r.Some? ==> forall i :: 0 <= i < n && sources[i].name in answering && i != r.value ==>
              Before(sources, hint, cached, r.value, i)
  {
    if n == 0 then None
    else
      var best := Best(sources, hint, cached, answering, n - 1);
      if sources[n - 1].name in answering &&
         (best.None? || Rank(sources[n - 1], hint, cached) < Rank(sources[best.value], hint, cached))
      then Some(n - 1) else best
  }

  // By rank, then by position.
  predicate Before(sources: seq<Source>, hint: Vendor, cached: Option<string>, i: int, j: int)
    requires 0 <= i < |sources| && 0 <= j < |sources|
  {
    var a, b := Rank(sources[i], hint, cached), Rank(sources[j], hint, cached);
    a < b || (a == b && i < j)
  }

  // What is preferred: the cached winner to all; under a vendor hint its sources,
  // then the standard ones, then the rest; under no hint the declared order.
  lemma Preferences(sources: seq<Source>, hint: Vendor, cached: Option<string>, i: nat, j: nat)
    requires i < |sources| && j < |sources| && DistinctNames(sources) && i != j
    ensures cached == Some(sources[i].name) ==> Before(sources, hint, cached, i, j)
    ensures cached !in {Some(sources[i].name), Some(sources[j].name)} ==>
      Before(sources, hint, cached, i, j) ==
      if hint.Generic? || sources[i].vendor == sources[j].vendor then i < j
      else if sources[i].vendor == hint then true
      else if sources[j].vendor == hint then false
      else if sources[i].vendor.Generic? then true
      else if sources[j].vendor.Generic? then false
      else i < j
  {
    assert sources[i].name != sources[j].name;
  }

  // ---- The probe order --------------------------------------------------------------

  function RankAt(sources: seq<Source>, hint: Vendor, cached: Option<string>, i: int): nat {
    if 0 <= i < |sources| then Rank(sources[i], hint, cached) else 4
  }

  function ByRank(sources: seq<Source>, hint: Vendor, cached: Option<string>): (int, int) -> bool {
    (i: int, j: int) => RankAt(sources, hint, cached, i) <= RankAt(sources, hint, cached, j)
  }

  function ProbeOrder(sources: seq<Source>, hint: Vendor, cached: Option<string>): seq<int> {
    SortBy(seq(|sources|, i => i), ByRank(sources, hint, cached))
  }

  // Every source once, each before the next.
  ghost predicate InOrder(sources: seq<Source>, hint: Vendor, cached: Option<string>, order: seq<int>) {
    && (forall k :: 0 <= k < |order| ==> 0 <= order[k] < |sources|)
    && (forall k, m :: 0 <= k < m < |order| ==> Before(sources, hint, cached, order[k], order[m]))
  }

  ghost predicate Reaches(order: seq<int>, i: int) {
    exists k :: 0 <= k < |order| && order[k] == i
  }

  // The sources asked: all of them, or the best one and those before it.
  ghost predicate ProbedUpTo(sources: seq<Source>, hint: Vendor, cached: Option<string>, probed: seq<int>, best: Option<nat>)
    requires best.Some? ==> best.value < |sources|
  {
    && InOrder(sources, hint, cached, probed)
    && forall i :: 0 <= i < |sources| ==>
         (Reaches(probed, i) <==> best.None? || i == best.value || Before(sources, hint, cached, i, best.value))
  }

  // Stable sorting visits every source once, by rank and then by position.
  lemma ProbesInOrder(sources: seq<Source>, hint: Vendor, cached: Option<string>)
    ensures var order := ProbeOrder(sources, hint, cached);
      InOrder(sources, hint, cached, order) && forall i :: 0 <= i < |sources| ==> Reaches(order, i)
  {
    var all, le := seq(|sources|, i => i), ByRank(sources, hint, cached);
    hide Rank;
    assert Increasing(all) && TotalPreorder(le);
    SortByPosition(all, le);
    SameNumbers(all, SortBy(all, le));
    PositionIsOrder(sources, hint, cached, SortBy(all, le));
  }

  lemma PositionIsOrder(sources: seq<Source>, hint: Vendor, cached: Option<string>, order: seq<int>)
    requires ByPosition(order, ByRank(sources, hint, cached))
    requires forall k :: 0 <= k < |order| ==> 0 <= order[k] < |sources|
    ensures InOrder(sources, hint, cached, order)
  {
    hide Rank;
  }

  lemma SameNumbers(all: seq<int>, order: seq<int>)
    requires all == seq(|all|, i => i) && multiset(order) == multiset(all)
    ensures forall k :: 0 <= k < |order| ==> 0 <= order[k] < |all|
    ensures forall i :: 0 <= i < |all| ==> Reaches(order, i)
  {
    forall k | 0 <= k < |order| ensures 0 <= order[k] < |all| {
      assert order[k] in multiset(order);
      assert order[k] in all;
    }
    forall i | 0 <= i < |all| ensures Reaches(order, i) {
      assert all[i] in multiset(order);
      assert i in order;
    }
  }

  // ---- The cache ------------------------------------------------------------------------

  class SourceCache {
    var winners: map<string, string>

    constructor ()
      ensures winners == map[]
    {
      winners := map[];
    }

    function Winner(fqdn: string): Option<string>
      reads this
    {
      if fqdn in winners then Some(winners[fqdn]) else None
    }

    method Remember(fqdn: string, name: string)
      modifies this
      ensures winners == old(winners)[fqdn := name]
    {
      winners := winners[fqdn := name];
    }

    method Forget(fqdn: string)
      modifies this
      ensures winners == old(winners) - {fqdn}
    {
      winners := winners - {fqdn};
    }

    method RetainOnly(keep: set<string>)
      modifies this
      ensures winners == map fqdn | fqdn in old(winners) && fqdn in keep :: old(winners)[fqdn]
    {
      winners := map fqdn | fqdn in winners && fqdn in keep :: winners[fqdn];
    }
  }

  // What is left in the cache when a call ends with this choice.
  function Recorded(winners: map<string, string>, fqdn: string, sources: seq<Source>, choice: Option<nat>): map<string, string>
    requires choice.Some? ==> choice.value < |sources|
  {
    if choice.Some? then winners[fqdn := sources[choice.value].name] else winners - {fqdn}
  }

  // `answers` is what each source would answer during this call. `probed` are the
  // sources asked, in order: all that come before the winner, and the winner.
  method CollectFirst<T>(cache: SourceCache, fqdn: string, hint: Vendor, sources: seq<Source>, answers: map<string, T>)
    returns (result: Option<T>, probed: seq<int>)
    modifies cache
    ensures var best := Best(sources, hint, old(cache.Winner(fqdn)), answers.Keys, |sources|);
      && cache.winners == Recorded(old(cache.winners), fqdn, sources, best)
      && result == (if best.Some? then Some(answers[sources[best.value].name]) else None)
      && ProbedUpTo(sources, hint, old(cache.Winner(fqdn)), probed, best)
  {
    var cached := cache.Winner(fqdn);
    var order := ProbeOrder(sources, hint, cached);
    ProbesInOrder(sources, hint, cached);
    hide ProbeOrder, Best, InOrder, ProbedUpTo;
    var k := FirstAnswering(sources, order, answers);
    if k < |order| {
      BestIsFirst(sources, hint, cached, answers.Keys, order, k);
      cache.Remember(fqdn, sources[order[k]].name);
      return Some(answers[sources[order[k]].name]), order[..k + 1];
    }
    NoneAnswers(sources, hint, cached, order, answers.Keys);
    cache.Forget(fqdn);
    return None, order;
  }

  // Asks one source after the other; the number that did not answer.
  method FirstAnswering<T>(sources: seq<Source>, order: seq<int>, answers: map<string, T>) returns (k: nat)
    requires forall m :: 0 <= m < |order| ==> 0 <= order[m] < |sources|
    ensures k <= |order| && (k < |order| ==> sources[order[k]].name in answers)
    ensures forall m :: 0 <= m < k ==> sources[order[m]].name !in answers
  {
    k := 0;
    while k < |order|
      invariant k <= |order| && forall m :: 0 <= m < k ==> sources[order[m]].name !in answers
    {
      if sources[order[k]].name in answers {
        return;
      }
      k := k + 1;
    }
  }

  lemma NoneAnswers(sources: seq<Source>, hint: Vendor, cached: Option<string>, order: seq<int>, answering: set<string>)
    requires InOrder(sources, hint, cached, order)
    requires forall k :: 0 <= k < |order| ==> 0 <= order[k] < |sources| && sources[order[k]].name !in answering
    requires forall i :: 0 <= i < |sources| ==> Reaches(order, i)
    ensures Best(sources, hint, cached, answering, |sources|).None?
    ensures ProbedUpTo(sources, hint, cached, order, None)
  {
    forall i | 0 <= i < |sources| ensures sources[i].name !in answering {
      assert Reaches(order, i);
    }
  }

  // The first source in the order that answers is the best, and the order up to it
  // is what comes before it.
  lemma BestIsFirst(sources: seq<Source>, hint: Vendor, cached: Option<string>, answering: set<string>, order: seq<int>, k: nat)
    requires InOrder(sources, hint, cached, order) && k < |order|
    requires forall i :: 0 <= i < |sources| ==> Reaches(order, i)
    requires sources[order[k]].name in answering
    requires forall m :: 0 <= m < k ==> sources[order[m]].name !in answering
    ensures Best(sources, hint, cached, answering, |sources|) == Some(order[k])
    ensures ProbedUpTo(sources, hint, cached, order[..k + 1], Some(order[k]))
  {
    var best := Best(sources, hint, cached, answering, |sources|);
    hide Rank, Best;
    assert Reaches(order, best.value);
    var n :| 0 <= n < |order| && order[n] == best.value;
    if n != k {
      assert false;
    }
    UpToIsProbed(sources, hint, cached, order, k);
  }

  lemma UpToIsProbed(sources: seq<Source>, hint: Vendor, cached: Option<string>, order: seq<int>, k: nat)
    requires InOrder(sources, hint, cached, order) && k < |order|
    requires forall i :: 0 <= i < |sources| ==> Reaches(order, i)
    ensures ProbedUpTo(sources, hint, cached, order[..k + 1], Some(order[k]))
  {
    hide Rank;
    forall i | 0 <= i < |sources|
      ensures Reaches(order[..k + 1], i) <==> i == order[k] || Before(sources, hint, cached, i, order[k])
    {
      assert Reaches(order, i);
      var n :| 0 <= n < |order| && order[n] == i;
      assert n < k ==> Before(sources, hint, cached, order[n], order[k]);
      assert n > k ==> Before(sources, hint, cached, order[k], order[n]);
      assert n <= k ==> order[..k + 1][n] == i;
    }
  }

  // ---- Over a history of calls ---------------------------------------------------------------

  // A selection for one device, with the sources that answer during it, or the
  // removal of devices that are no longer monitored.
  datatype Event = Ask(fqdn: string, hint: Vendor, answering: set<string>) | Retain(keep: set<string>)

  function Lookup(winners: map<string, string>, fqdn: string): Option<string> {
    if fqdn in winners then Some(winners[fqdn]) else None
  }

  function Choice(winners: map<string, string>, sources: seq<Source>, ask: Event): Option<nat>
    requires ask.Ask?
  {
    Best(sources, ask.hint, Lookup(winners, ask.fqdn), ask.answering, |sources|)
  }

  function CacheAfter(sources: seq<Source>, events: seq<Event>): map<string, string> {
    if events == [] then map[]
    else
      var before, last := CacheAfter(sources, events[..|events| - 1]), events[|events| - 1];
      match last
      case Ask(fqdn, _, _) => Recorded(before, fqdn, sources, Choice(before, sources, last))
      case Retain(keep) => map fqdn | fqdn in before && fqdn in keep :: before[fqdn]
  }

  // The choice that the n-th event of the history made.
  function ChoiceAt(sources: seq<Source>, events: seq<Event>, n: nat): Option<nat>
    requires n < |events| && events[n].Ask?
  {
    Choice(CacheAfter(sources, events[..n]), sources, events[n])
  }

  predicate Touches(e: Event, fqdn: string) {
    match e
    case Ask(f, _, _) => f == fqdn
    case Retain(keep) => fqdn !in keep
  }

  // After any history the cache holds, for each device, the winner of the last
  // call about it; nothing when that call had no answer, or when the device has
  // been removed since.
  lemma {:induction false} CacheHoldsLastWinner(sources: seq<Source>, events: seq<Event>, fqdn: string, n: nat)
    requires n < |events| && Touches(events[n], fqdn) && forall m :: n < m < |events| ==> !Touches(events[m], fqdn)
    ensures Lookup(CacheAfter(sources, events), fqdn) ==
            if events[n].Retain? || ChoiceAt(sources, events, n).None? then None
            else Some(sources[ChoiceAt(sources, events, n).value].name)
  {
    if n < |events| - 1 {
      var front := events[..|events| - 1];
      CacheHoldsLastWinner(sources, front, fqdn, n);
      assert front[..n] == events[..n];
    }
  }

  lemma {:induction false} NeverCalledNotCached(sources: seq<Source>, events: seq<Event>, fqdn: string)
    requires forall m :: 0 <= m < |events| && events[m].Ask? ==> events[m].fqdn != fqdn
    ensures Lookup(CacheAfter(sources, events), fqdn).None?
  {
    if events != [] {
      NeverCalledNotCached(sources, events[..|events| - 1], fqdn);
    }
  }

  // Once a source has won for a device it wins again, and alone is probed, as long
  // as the device stays monitored and the source still answers, whatever the hint
  // and the other sources say.
  lemma WinnerStays(sources: seq<Source>, events: seq<Event>, n: nat, next: Event)
    requires DistinctNames(sources) && n < |events| && events[n].Ask? && next.Ask?
    requires events[n].fqdn == next.fqdn && forall m :: n < m < |events| ==> !Touches(events[m], next.fqdn)
    requires var choice := ChoiceAt(sources, events, n);
      choice.Some? && sources[choice.value].name in next.answering
    ensures var choice := ChoiceAt(sources, events, n);
      && Choice(CacheAfter(sources, events), sources, next) == choice
      && forall i: nat :: i < |sources| ==>
           !Before(sources, next.hint, Lookup(CacheAfter(sources, events), next.fqdn), i, choice.value)
  {
    CacheHoldsLastWinner(sources, events, next.fqdn, n);
    var w := ChoiceAt(sources, events, n).value;
    var cached := Lookup(CacheAfter(sources, events), next.fqdn);
    assert cached == Some(sources[w].name);
    forall i: nat | i < |sources| && i != w ensures Rank(sources[i], next.hint, cached) > 0 {
      assert sources[i].name != sources[w].name;
    }
    assert Before(sources, next.hint, cached, w, w) == false;
    hide CacheAfter;
  }
}
