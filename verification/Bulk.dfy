/**
 GETBULK and request handling in the simulator (nexus/perf/src/main.rs).

 The partner of the interleaved bulk answer is section 4.2.3 of RFC 3416 read
 literally: every repetition asks GETNEXT of the names the previous one returned.
 */
module Bulk {
  import opened Options
  import opened Ber
  import opened Response
  import opened Mib

  function ToVarbind(e: Entry, elapsed: u64): Varbind {
    Varbind(e.oid, Evaluate(e.gen, elapsed))
  }

  // ---- The simple form --------------------------------------------------------------

  // One GETNEXT; past the last object, the same name with endOfMibView.
  function NextVarbind(tree: Tree, oid: Oid, elapsed: u64): Varbind {
    match GetNext(tree, oid)
    case Some(e) => ToVarbind(e, elapsed)
    case None => Varbind(oid, EndOfMibView)
  }

  // The varbind of one requested name in repetition `rep`, counted from 0.
  function Repetition(tree: Tree, oid: Oid, elapsed: u64, rep: nat): Varbind {
    if rep == 0 then NextVarbind(tree, oid, elapsed)
    else NextVarbind(tree, Repetition(tree, oid, elapsed, rep - 1).oid, elapsed)
  }

  function Round(tree: Tree, requested: seq<Oid>, elapsed: u64, rep: nat): (r: seq<Varbind>)
    ensures |r| == |requested|
    ensures forall i :: 0 <= i < |requested| ==> r[i] == Repetition(tree, requested[i], elapsed, rep)
  {
    seq(|requested|, i requires 0 <= i < |requested| => Repetition(tree, requested[i], elapsed, rep))
  }

  function Rounds(tree: Tree, requested: seq<Oid>, elapsed: u64, reps: nat): seq<Varbind> {
    if reps == 0 then [] else Rounds(tree, requested, elapsed, reps - 1) + Round(tree, requested, elapsed, reps - 1)
  }

  // A round in which some requested name still yields an object.
  ghost predicate Yields(tree: Tree, requested: seq<Oid>, elapsed: u64, rep: nat) {
    exists oid :: oid in requested && !Repetition(tree, oid, elapsed, rep).value.EndOfMibView?
  }

  // Where the answer is cut: after `max` rounds, or before the first empty one.
  ghost predicate CutAt(tree: Tree, requested: seq<Oid>, elapsed: u64, max: nat, reps: nat) {
    && reps <= max
    && (forall rep: nat :: rep < reps ==> Yields(tree, requested, elapsed, rep))
    && (reps < max ==> !Yields(tree, requested, elapsed, reps))
  }

  // No generator of the tree answers endOfMibView itself.
  ghost predicate Objects(tree: Tree) {
    forall e :: e in tree ==> e.gen != Fixed(EndOfMibView)
  }

  // ---- What a repetition is, in terms of the entries above a name ------------------------

  lemma {:induction false} RepetitionIsAbove(tree: Tree, oid: Oid, elapsed: u64, rep: nat)
    requires Sorted(tree)
    ensures var above := Above(tree, oid);
      Repetition(tree, oid, elapsed, rep) ==
        if rep < |above| then ToVarbind(above[rep], elapsed)
        else Varbind(if above == [] then oid else above[|above| - 1].oid, EndOfMibView)
    ensures var above := Above(tree, oid);
      Above(tree, Repetition(tree, oid, elapsed, rep).oid) == if rep < |above| then above[rep + 1..] else []
  {
    var above := Above(tree, oid);
    if rep == 0 {
      if above != [] {
        AboveNext(tree, oid);
      }
    } else {
      RepetitionIsAbove(tree, oid, elapsed, rep - 1);
      var prev := Repetition(tree, oid, elapsed, rep - 1).oid;
      if rep < |above| {
        assert Above(tree, prev)[0] == above[rep];
        AboveNext(tree, prev);
        assert above[rep..][1..] == above[rep + 1..];
      }
    }
  }

  // ---- The fast form ----------------------------------------------------------------------

  // One pass over the successors of every requested name, then the names are
  // interleaved repetition by repetition and exhausted ones padded.
  method BulkResponse(tree: Tree, requested: seq<Oid>, max: nat, elapsed: u64) returns (out: seq<Varbind>, reps: nat)
    requires Sorted(tree) && Objects(tree)
    ensures CutAt(tree, requested, elapsed, max, reps)
    ensures out == Rounds(tree, requested, elapsed, reps)
  {
    hide Sorted, Objects, Repetition, Successors, Evaluate, CutAt, GetNext, Above, ToVarbind;
    var per := seq(|requested|, i requires 0 <= i < |requested| => Successors(tree, requested[i], max));
    reps := 0;
    for i := 0 to |per|
      invariant reps <= max
      invariant forall j :: 0 <= j < i ==> |per[j]| <= reps
      invariant reps > 0 ==> exists j :: 0 <= j < i && |per[j]| == reps
    {
      reps := if |per[i]| > reps then |per[i]| else reps;
    }
    LongestCuts(tree, requested, max, elapsed, per, reps);
    out := [];
    for rep := 0 to reps
      invariant out == Rounds(tree, requested, elapsed, rep)
    {
      ghost var before := out;
      for i := 0 to |per|
        invariant out == before + Round(tree, requested, elapsed, rep)[..i]
      {
        var p := per[i];
        PadsToRepetition(tree, requested[i], max, elapsed, rep);
        if rep < |p| {
          out := out + [ToVarbind(p[rep], elapsed)];
        } else {
          var last := if p == [] then requested[i] else p[|p| - 1].oid;
          out := out + [Varbind(last, EndOfMibView)];
        }
      }
    }
  }

  lemma PadsToRepetition(tree: Tree, oid: Oid, max: nat, elapsed: u64, rep: nat)
    requires Sorted(tree) && rep < max
    ensures var p := Successors(tree, oid, max);
      Repetition(tree, oid, elapsed, rep) ==
        if rep < |p| then ToVarbind(p[rep], elapsed)
        else Varbind(if p == [] then oid else p[|p| - 1].oid, EndOfMibView)
  {
    hide *;
    SuccessorsTakeAbove(tree, oid, max);
    RepetitionIsAbove(tree, oid, elapsed, rep);
  }

  lemma YieldsIffLonger(tree: Tree, oid: Oid, max: nat, elapsed: u64, rep: nat)
    requires Sorted(tree) && Objects(tree) && rep < max
    ensures !Repetition(tree, oid, elapsed, rep).value.EndOfMibView? <==> rep < |Successors(tree, oid, max)|
  {
    hide Above, Repetition, Successors, Evaluate;
    PadsToRepetition(tree, oid, max, elapsed, rep);
    SuccessorsTakeAbove(tree, oid, max);
    AboveExact(tree, oid);
    var above := Above(tree, oid);
    if rep < |above| {
      assert above[rep] in above;
      ObjectsAnswer(above[rep].gen, elapsed);
    }
  }

  lemma ObjectsAnswer(gen: Gen, elapsed: u64)
    requires gen != Fixed(EndOfMibView)
    ensures !Evaluate(gen, elapsed).EndOfMibView?
  {
  }

  lemma LongestCuts(tree: Tree, requested: seq<Oid>, max: nat, elapsed: u64, per: seq<Tree>, reps: nat)
    requires Sorted(tree) && Objects(tree) && |per| == |requested| && reps <= max
    requires forall i :: 0 <= i < |per| ==> per[i] == Successors(tree, requested[i], max) && |per[i]| <= reps
    requires reps > 0 ==> exists i :: 0 <= i < |per| && |per[i]| == reps
    ensures CutAt(tree, requested, elapsed, max, reps)
  {
    forall rep: nat | rep < reps ensures Yields(tree, requested, elapsed, rep) {
      var i :| 0 <= i < |per| && |per[i]| == reps;
      YieldsIffLonger(tree, requested[i], max, elapsed, rep);
      assert requested[i] in requested;
    }
    if reps < max {
      forall oid | oid in requested ensures Repetition(tree, oid, elapsed, reps).value.EndOfMibView? {
        var i :| 0 <= i < |requested| && requested[i] == oid;
        YieldsIffLonger(tree, oid, max, elapsed, reps);
      }
    }
  }

  // The cut determines the number of rounds.
  lemma CutIsUnique(tree: Tree, requested: seq<Oid>, elapsed: u64, max: nat, reps: nat, reps': nat)
    requires CutAt(tree, requested, elapsed, max, reps) && CutAt(tree, requested, elapsed, max, reps')
    ensures reps == reps'
  {
  }

  // De-interleaving: position rep * n + i belongs to requested name i in
  // repetition rep, and nothing else is in the answer.
  lemma {:induction false} Deinterleave(tree: Tree, requested: seq<Oid>, elapsed: u64, reps: nat, rep: nat, i: nat)
    requires rep < reps && i < |requested|
    ensures |Rounds(tree, requested, elapsed, reps)| == reps * |requested|
    ensures rep * |requested| + i < reps * |requested|
    ensures Rounds(tree, requested, elapsed, reps)[rep * |requested| + i] == Repetition(tree, requested[i], elapsed, rep)
  {
    var n := |requested|;
    RoundsLength(tree, requested, elapsed, reps);
    RoundsLength(tree, requested, elapsed, reps - 1);
    assert (reps - 1) * n + n == reps * n;
    if rep < reps - 1 {
      Deinterleave(tree, requested, elapsed, reps - 1, rep, i);
    }
  }

  lemma {:induction false} RoundsLength(tree: Tree, requested: seq<Oid>, elapsed: u64, reps: nat)
    ensures |Rounds(tree, requested, elapsed, reps)| == reps * |requested|
  {
    if reps > 0 {
      RoundsLength(tree, requested, elapsed, reps - 1);
      assert (reps - 1) * |requested| + |requested| == reps * |requested|;
    }
  }

  // ---- Walking with GETBULK -------------------------------------------------------------------

  // The varbind shows this entry, at the time of one of the requests.
  ghost predicate Visit(vb: Varbind, e: Entry, clock: nat -> u64) {
    exists k: nat :: vb == ToVarbind(e, clock(k))
  }

  // A client that asks for the last name it was given, with any repetition
  // counts of at least one, until nothing comes back.
  method Walk(tree: Tree, oid: Oid, sizes: nat -> nat, clock: nat -> u64) returns (visited: seq<Varbind>)
    requires Sorted(tree) && Objects(tree)
    requires forall k :: sizes(k) >= 1
    ensures |visited| == |Above(tree, oid)|
    ensures forall i :: 0 <= i < |visited| ==> Visit(visited[i], Above(tree, oid)[i], clock)
  {
    hide Sorted, Objects, Above, CutAt, Rounds;
    ghost var all := Above(tree, oid);
    visited := [];
    assert Shown([], [], clock) && all[..0] == [] && all[0..] == all;
    hide Shown, Visit;
    var last, asked := oid, 0;
    var more := true;
    while more
      invariant |visited| <= |all| && Above(tree, last) == all[|visited|..]
      invariant Shown(visited, all[..|visited|], clock)
      invariant !more ==> |visited| == |all|
      decreases |all| - |visited|, more
    {
      var max, elapsed := sizes(asked), clock(asked);
      ghost var now := asked;
      asked := asked + 1;
      var page, reps := BulkResponse(tree, [last], max, elapsed);
      PageVisits(tree, last, max, clock, now, reps, all, |visited|);
      if page == [] {
        more := false;
      } else {
        ShownTogether(visited, page, all, clock);
        visited := visited + page;
        last := page[|page| - 1].oid;
      }
    }
    WholeShown(visited, all, clock);
  }

  lemma WholeShown(vbs: seq<Varbind>, entries: seq<Entry>, clock: nat -> u64)
    requires |vbs| == |entries| && Shown(vbs, entries[..|vbs|], clock)
    ensures forall i :: 0 <= i < |vbs| ==> Visit(vbs[i], entries[i], clock)
  {
    hide Visit;
    assert entries[..|vbs|] == entries;
  }

  ghost predicate Shown(vbs: seq<Varbind>, entries: seq<Entry>, clock: nat -> u64) {
    |vbs| == |entries| && forall i :: 0 <= i < |vbs| ==> Visit(vbs[i], entries[i], clock)
  }

  lemma ShownTogether(visited: seq<Varbind>, page: seq<Varbind>, all: seq<Entry>, clock: nat -> u64)
    requires |visited| + |page| <= |all| && Shown(visited, all[..|visited|], clock)
    requires Shown(page, all[|visited|..][..|page|], clock)
    ensures Shown(visited + page, all[..|visited + page|], clock)
  {
    hide Visit;
    assert all[..|visited + page|] == all[..|visited|] + all[|visited|..][..|page|];
  }

  // A page shows the next rows of a walk, and its last name leads on to the rest.
  lemma PageVisits(tree: Tree, last: Oid, max: nat, clock: nat -> u64, now: nat, reps: nat, all: seq<Entry>, n: nat)
    requires Sorted(tree) && Objects(tree) && max >= 1
    requires n <= |all| && Above(tree, last) == all[n..] && CutAt(tree, [last], clock(now), max, reps)
    ensures var page := Rounds(tree, [last], clock(now), reps);
      && n + |page| <= |all| && (page == [] ==> n == |all|)
      && Shown(page, all[n..][..|page|], clock)
      && (page != [] ==> Above(tree, page[|page| - 1].oid) == all[n + |page|..])
  {
    hide Sorted, Objects, Above, CutAt, Rounds, Repetition, ToVarbind;
    PageIsNextRows(tree, last, max, clock(now), reps);
    if reps > 0 {
      RepetitionIsAbove(tree, last, clock(now), reps - 1);
      assert all[n..][reps..] == all[n + reps..];
    }
    var page, rest := Rounds(tree, [last], clock(now), reps), all[n..];
    forall i | 0 <= i < |page| ensures Visit(page[i], rest[i], clock) {
      assert page[i] == ToVarbind(rest[i], clock(now));
    }
  }

  // A page for one name holds the next rows above it, as many as fit.
  lemma PageIsNextRows(tree: Tree, oid: Oid, max: nat, elapsed: u64, reps: nat)
    requires Sorted(tree) && Objects(tree) && max >= 1
    requires CutAt(tree, [oid], elapsed, max, reps)
    ensures var above, page := Above(tree, oid), Rounds(tree, [oid], elapsed, reps);
      && reps == (if |above| <= max then |above| else max)
      && |page| == reps
      && forall i :: 0 <= i < reps ==> page[i] == ToVarbind(above[i], elapsed)
  {
    hide Sorted, Objects, Repetition, Rounds;
    var above := Above(tree, oid);
    var reps' := if |above| <= max then |above| else max;
    SuccessorsTakeAbove(tree, oid, max);
    var per := [Successors(tree, oid, max)];
    assert |per[0]| == reps';
    LongestCuts(tree, [oid], max, elapsed, per, reps');
    CutIsUnique(tree, [oid], elapsed, max, reps, reps');
    RoundsLength(tree, [oid], elapsed, reps);
    forall i | 0 <= i < reps
      ensures Rounds(tree, [oid], elapsed, reps)[i] == ToVarbind(above[i], elapsed)
    {
      Deinterleave(tree, [oid], elapsed, reps, i, 0);
      RepetitionIsAbove(tree, oid, elapsed, i);
    }
  }

  // A walk visits exactly the greater keys, each once and in order.
  lemma WalkedKeys(tree: Tree, oid: Oid)
    requires Sorted(tree)
    ensures var above := Above(tree, oid);
      && (forall e :: e in above <==> e in tree && Less(oid, e.oid))
      && (forall i, j :: 0 <= i < j < |above| ==> Less(above[i].oid, above[j].oid) && above[i].oid != above[j].oid)
  {
    AboveExact(tree, oid);
    var above := Above(tree, oid);
    forall i, j | 0 <= i < j < |above| ensures above[i].oid != above[j].oid {
      LessIrreflexive(above[i].oid);
    }
  }

  // ---- Requests ---------------------------------------------------------------------------------

  datatype Kind = GetRequest | GetNextRequest | GetBulkRequest | OtherMessage

  // A parsed datagram. GETBULK carries max-repetitions in the error-index slot.
  datatype Request = Request(kind: Kind, community: Bytes, reqId: i32, errorIndex: int, requested: seq<Oid>)

  function First(requested: seq<Oid>): Oid {
    if requested == [] then [] else requested[0]
  }

  function MaxRepetitions(req: Request): nat {
    if req.errorIndex < 1 then 1 else req.errorIndex
  }

  ghost predicate IsAnswer(tree: Tree, req: Request, elapsed: u64, vbs: seq<Varbind>) {
    var first := First(req.requested);
    match req.kind
    case GetRequest =>
      |vbs| == 1 && vbs[0].oid == first &&
      (if exists e :: e in tree && e.oid == first
       then exists e :: e in tree && e.oid == first && vbs[0].value == Evaluate(e.gen, elapsed)
       else vbs[0].value == EndOfMibView)
    case GetNextRequest => vbs == [NextVarbind(tree, first, elapsed)]
    case GetBulkRequest => BulkRounds(tree, req.requested, elapsed, MaxRepetitions(req), vbs)
    case OtherMessage => false
  }

  // The rounds up to the cut; an empty answer is filled with endOfMibView.
  ghost predicate BulkRounds(tree: Tree, requested: seq<Oid>, elapsed: u64, max: nat, vbs: seq<Varbind>) {
    exists reps :: CutAt(tree, requested, elapsed, max, reps) &&
      vbs == (if Rounds(tree, requested, elapsed, reps) == [] then [Varbind(First(requested), EndOfMibView)]
              else Rounds(tree, requested, elapsed, reps))
  }

  lemma {:induction false} ExactFinds(tree: Tree, oid: Oid)
    ensures Exact(tree, oid).None? ==> forall e :: e in tree ==> e.oid != oid
    ensures Exact(tree, oid).Some? ==> Entry(oid, Exact(tree, oid).value) in tree
  {
    if tree != [] {
      ExactFinds(tree[1..], oid);
    }
  }

  method HandleRequest(tree: Tree, datagram: Option<Request>, elapsed: u64) returns (response: Option<Bytes>)
    requires Sorted(tree) && Objects(tree)
    ensures response.Some? <==> datagram.Some? && !datagram.value.kind.OtherMessage?
    ensures response.Some? ==> exists vbs :: (
              && IsAnswer(tree, datagram.value, elapsed, vbs)
              && response.value == MessageBytes(datagram.value.community, datagram.value.reqId, vbs))
  {
    if datagram.None? || datagram.value.kind.OtherMessage? {
      return None;
    }
    hide MessageBytes, Evaluate, Above, Repetition;
    var req := datagram.value;
    var first := First(req.requested);
    var vbs: seq<Varbind>;
    match req.kind {
      case GetRequest =>
        ExactFinds(tree, first);
        var found := Exact(tree, first);
        vbs := [Varbind(first, if found.Some? then Evaluate(found.value, elapsed) else EndOfMibView)];
      case GetNextRequest =>
        SuccessorsTakeAbove(tree, first, 1);
        var succ := Successors(tree, first, 1);
        vbs := [if succ == [] then Varbind(first, EndOfMibView) else ToVarbind(succ[0], elapsed)];
      case GetBulkRequest =>
        var reps;
        vbs, reps := BulkResponse(tree, req.requested, MaxRepetitions(req), elapsed);
        if vbs == [] {
          vbs := [Varbind(first, EndOfMibView)];
        }
    }
    assert IsAnswer(tree, req, elapsed, vbs);
    var bytes := BuildResponse(req.community, req.reqId, vbs);
    response := Some(bytes);
  }

  // A GETBULK answer has the rounds that the request asks for in its error-index slot,
  // one when it asks for none, cut where nothing is left to report.
  lemma BulkHonoursCount(tree: Tree, req: Request, elapsed: u64, vbs: seq<Varbind>)
    requires req.kind.GetBulkRequest? && IsAnswer(tree, req, elapsed, vbs)
    ensures req.errorIndex >= 1 ==> BulkRounds(tree, req.requested, elapsed, req.errorIndex, vbs)
    ensures req.errorIndex < 1 ==> BulkRounds(tree, req.requested, elapsed, 1, vbs)
    ensures |req.requested| > 0 ==> |vbs| <= (if req.errorIndex < 1 then 1 else req.errorIndex) * |req.requested|
  {
    hide CutAt, Rounds;
    var reps :| CutAt(tree, req.requested, elapsed, MaxRepetitions(req), reps) &&
      vbs == (if Rounds(tree, req.requested, elapsed, reps) == [] then [Varbind(First(req.requested), EndOfMibView)]
              else Rounds(tree, req.requested, elapsed, reps));
    RoundsLength(tree, req.requested, elapsed, reps);
    CutWithin(tree, req.requested, elapsed, MaxRepetitions(req), reps);
    if |req.requested| > 0 {
      Multiplied(reps, MaxRepetitions(req), |req.requested|);
    }
  }

  lemma CutWithin(tree: Tree, requested: seq<Oid>, elapsed: u64, max: nat, reps: nat)
    requires CutAt(tree, requested, elapsed, max, reps)
    ensures reps <= max
  {
  }

  lemma Multiplied(a: nat, b: nat, n: nat)
    requires a <= b && b >= 1 && n >= 1
    ensures a * n <= b * n && 1 <= b * n
  {
  }

  // For one name: as many of the entries above it as the request asks for and there
  // are, in order; past the last entry, only endOfMibView under the name itself.
  lemma BulkOfOneName(tree: Tree, req: Request, elapsed: u64, vbs: seq<Varbind>, oid: Oid)
    requires Sorted(tree) && Objects(tree)
    requires req.kind.GetBulkRequest? && req.requested == [oid] && IsAnswer(tree, req, elapsed, vbs)
    ensures var above := Above(tree, oid);
      && (above == [] ==> vbs == [Varbind(oid, EndOfMibView)])
      && (above != [] ==>
            && |vbs| == (if req.errorIndex < 1 then 1 else if |above| <= req.errorIndex then |above| else req.errorIndex)
            && forall i :: 0 <= i < |vbs| ==> vbs[i] == ToVarbind(above[i], elapsed))
  {
    hide CutAt, Rounds, Above, Sorted, Objects;
    var max := MaxRepetitions(req);
    var reps :| CutAt(tree, req.requested, elapsed, max, reps) &&
      vbs == (if Rounds(tree, req.requested, elapsed, reps) == [] then [Varbind(First(req.requested), EndOfMibView)]
              else Rounds(tree, req.requested, elapsed, reps));
    PageIsNextRows(tree, oid, max, elapsed, reps);
  }

  // ---- End to end: what the manager reads is what the tree answers ---------------------------------

  ghost predicate NamesValid(tree: Tree, requested: seq<Oid>) {
    && (forall e :: e in tree ==> ValidOid(e.oid))
    && (forall oid :: oid in requested ==> ValidOid(oid))
  }

  lemma {:induction false} RepetitionNamed(tree: Tree, requested: seq<Oid>, oid: Oid, elapsed: u64, rep: nat)
    requires Sorted(tree) && NamesValid(tree, requested) && oid in requested
    ensures ValidOid(Repetition(tree, oid, elapsed, rep).oid)
  {
    var prev := if rep == 0 then oid else Repetition(tree, oid, elapsed, rep - 1).oid;
    if rep > 0 {
      RepetitionNamed(tree, requested, oid, elapsed, rep - 1);
    }
    GetNextIsLeast(tree, prev);
  }

  lemma {:induction false} RoundsNamed(tree: Tree, requested: seq<Oid>, elapsed: u64, reps: nat)
    requires Sorted(tree) && NamesValid(tree, requested)
    ensures AllNamed(Rounds(tree, requested, elapsed, reps))
  {
    hide ValidOid, NamesValid, Sorted, Round, Repetition;
    if reps > 0 {
      hide AllNamed;
      RoundsNamed(tree, requested, elapsed, reps - 1);
      RoundNamed(tree, requested, elapsed, reps - 1);
      NamedTogether(Rounds(tree, requested, elapsed, reps - 1), Round(tree, requested, elapsed, reps - 1));
    } else {
      assert Rounds(tree, requested, elapsed, 0) == [];
    }
  }

  predicate AllNamed(vbs: seq<Varbind>) {
    forall vb :: vb in vbs ==> ValidOid(vb.oid)
  }

  lemma NamedTogether(a: seq<Varbind>, b: seq<Varbind>)
    requires AllNamed(a) && AllNamed(b)
    ensures AllNamed(a + b)
  {
    hide ValidOid;
  }

  lemma RoundNamed(tree: Tree, requested: seq<Oid>, elapsed: u64, rep: nat)
    requires Sorted(tree) && NamesValid(tree, requested)
    ensures AllNamed(Round(tree, requested, elapsed, rep))
  {
    hide ValidOid, NamesValid, Sorted, Repetition;
    var round := Round(tree, requested, elapsed, rep);
    forall vb | vb in round ensures ValidOid(vb.oid) {
      var i :| 0 <= i < |round| && round[i] == vb;
      RepetitionNamed(tree, requested, requested[i], elapsed, rep);
    }
  }

  lemma AnswerNamed(tree: Tree, req: Request, elapsed: u64, vbs: seq<Varbind>)
    requires Sorted(tree) && NamesValid(tree, req.requested) && req.requested != []
    requires IsAnswer(tree, req, elapsed, vbs)
    ensures AllNamed(vbs)
  {
    assert First(req.requested) in req.requested;
    match req.kind
    case GetRequest =>
    case GetNextRequest =>
      RepetitionNamed(tree, req.requested, First(req.requested), elapsed, 0);
    case GetBulkRequest =>
      var reps :| CutAt(tree, req.requested, elapsed, MaxRepetitions(req), reps) &&
        vbs == (if Rounds(tree, req.requested, elapsed, reps) == [] then [Varbind(First(req.requested), EndOfMibView)]
                else Rounds(tree, req.requested, elapsed, reps));
      RoundsNamed(tree, req.requested, elapsed, reps);
  }

  // The bytes of an answer decode to the request's community and id, no error,
  // and exactly the answer's varbinds.
  lemma AnswerDecodes(tree: Tree, req: Request, elapsed: u64, vbs: seq<Varbind>)
    requires Sorted(tree) && NamesValid(tree, req.requested) && req.requested != []
    requires IsAnswer(tree, req, elapsed, vbs) && |MessageBytes(req.community, req.reqId, vbs)| < BASE64
    ensures ReadMessage(MessageBytes(req.community, req.reqId, vbs)) ==
            Some(Message(req.community, req.reqId, 0, 0, vbs))
  {
    AnswerNamed(tree, req, elapsed, vbs);
    RoundTripIffValid(req.community, req.reqId, vbs);
  }

  predicate Usable(column: Column) {
    ValidOid(column.base) && (column.template.Every? ==> column.template.gen != Fixed(EndOfMibView))
  }

  // The built tree satisfies what the results above ask of a tree.
  lemma BuiltTreeIsUsable(n: u32)
    ensures var tree := AllRows(COLUMNS, n);
      Sorted(tree) && Objects(tree) && forall e :: e in tree ==> ValidOid(e.oid)
  {
    ColumnsOrdered();
    ColumnsUsable();
    hide *;
    AllRowsSorted(COLUMNS, n);
    RowsUsable(COLUMNS, n);
  }

  // Every column answers for every interface, under its own identifier.
  lemma ColumnAnswers(columns: seq<Column>, n: u32, c: nat, i: u32)
    requires Ordered(columns) && c < |columns| && 1 <= i <= n
    ensures Exact(AllRows(columns, n), columns[c].base + [i]) == Some(GenFor(columns[c], i))
  {
    hide GenFor, Rows, Exact, Ordered;
    var tree, row := AllRows(columns, n), Row(columns[c], i);
    AllRowsSorted(columns, n);
    AllRowsMembers(columns, n, row);
    hide AllRows;
    ExactFinds(tree, row.oid);
    if Exact(tree, row.oid).Some? {
      SameKey(tree, row, Entry(row.oid, Exact(tree, row.oid).value));
    }
  }

  lemma SameKey(tree: Tree, a: Entry, b: Entry)
    requires Sorted(tree) && a in tree && b in tree && a.oid == b.oid
    ensures a == b
  {
    hide Less;
    var i :| 0 <= i < |tree| && tree[i] == a;
    var j :| 0 <= j < |tree| && tree[j] == b;
    LessIrreflexive(a.oid);
  }

  // What an IF-MIB reader (RFC 2863) gets for interface i from ifTable: its name, that
  // it is up, and its error and discard counters.
  lemma IfTableAnswers(n: u32, i: u32)
    requires 1 <= i <= n
    ensures var tree := AllRows(COLUMNS, n);
      && Exact(tree, [1, 3, 6, 1, 2, 1, 2, 2, 1, 2, i]) == Some(GenFor(Column([], Name("GigabitEthernet0/")), i))
      && Exact(tree, [1, 3, 6, 1, 2, 1, 2, 2, 1, 8, i]) == Some(Fixed(Integer(1)))
      && forall c :: c in {14, 19, 20} ==> Exact(tree, [1, 3, 6, 1, 2, 1, 2, 2, 1, c, i]) == Some(Counting32(0, 1))
  {
    hide AllRows, Exact, GenFor;
    IfAnswers(n, i, 0);
    IfAnswers(n, i, 1);
    IfAnswers(n, i, 2);
    IfAnswers(n, i, 3);
    IfAnswers(n, i, 4);
    EveryAnswers(i);
  }

  // And from ifXTable: its short name, its octet and packet counters and its speed in
  // megabits.
  lemma IfxTableAnswers(n: u32, i: u32)
    requires 1 <= i <= n
    ensures var tree := AllRows(COLUMNS, n);
      && Exact(tree, [1, 3, 6, 1, 2, 1, 31, 1, 1, 1, 1, i]) == Some(GenFor(Column([], Name("Gi0/")), i))
      && Exact(tree, [1, 3, 6, 1, 2, 1, 31, 1, 1, 1, 6, i]) == Some(Counting64(1_000_000, 12_500_000))
      && Exact(tree, [1, 3, 6, 1, 2, 1, 31, 1, 1, 1, 10, i]) == Some(Counting64(2_000_000, 12_500_000))
      && (forall c :: c in {7, 11} ==> Exact(tree, [1, 3, 6, 1, 2, 1, 31, 1, 1, 1, c, i]) == Some(Counting64(1000, 10_000)))
      && (forall c :: c in {8, 12} ==> Exact(tree, [1, 3, 6, 1, 2, 1, 31, 1, 1, 1, c, i]) == Some(Counting64(100, 50)))
      && (forall c :: c in {9, 13} ==> Exact(tree, [1, 3, 6, 1, 2, 1, 31, 1, 1, 1, c, i]) == Some(Counting64(100, 20)))
      && Exact(tree, [1, 3, 6, 1, 2, 1, 31, 1, 1, 1, 15, i]) == Some(Fixed(Gauge32(1000)))
  {
    hide AllRows, Exact, GenFor;
    forall k: nat | k < 10
      ensures Exact(AllRows(COLUMNS, n), [1, 3, 6, 1, 2, 1, 31, 1, 1, 1, IFX_COLUMNS[k].0, i]) == Some(GenFor(Column([], IFX_COLUMNS[k].1), i))
    {
      IfxAnswers(n, i, k);
    }
    EveryAnswers(i);
    assert IFX_COLUMNS[0].0 == 1 && IFX_COLUMNS[1].0 == 6 && IFX_COLUMNS[2].0 == 7 && IFX_COLUMNS[3].0 == 8 && IFX_COLUMNS[4].0 == 9;
    assert IFX_COLUMNS[5].0 == 10 && IFX_COLUMNS[6].0 == 11 && IFX_COLUMNS[7].0 == 12 && IFX_COLUMNS[8].0 == 13 && IFX_COLUMNS[9].0 == 15;
  }

  lemma EveryAnswers(i: nat)
    ensures forall gen :: GenFor(Column([], Every(gen)), i) == gen
  {
  }

  lemma IfAnswers(n: u32, i: u32, k: nat)
    requires 1 <= i <= n && k < |IF_COLUMNS|
    ensures Exact(AllRows(COLUMNS, n), [1, 3, 6, 1, 2, 1, 2, 2, 1, IF_COLUMNS[k].0, i]) ==
            Some(GenFor(Column([], IF_COLUMNS[k].1), i))
  {
    ColumnsOrdered();
    ColumnAnswers(COLUMNS, n, k, i);
    hide AllRows, Exact, Ordered, InTable;
    assert COLUMNS[k] == Column(IF_TABLE + [IF_COLUMNS[k].0], IF_COLUMNS[k].1);
    assert COLUMNS[k].base + [i] == [1, 3, 6, 1, 2, 1, 2, 2, 1, IF_COLUMNS[k].0, i];
  }

  lemma IfxAnswers(n: u32, i: u32, k: nat)
    requires 1 <= i <= n && k < |IFX_COLUMNS|
    ensures Exact(AllRows(COLUMNS, n), [1, 3, 6, 1, 2, 1, 31, 1, 1, 1, IFX_COLUMNS[k].0, i]) ==
            Some(GenFor(Column([], IFX_COLUMNS[k].1), i))
  {
    ColumnsOrdered();
    ColumnAnswers(COLUMNS, n, 5 + k, i);
    hide AllRows, Exact, Ordered, InTable;
    assert COLUMNS[5 + k] == Column(IFX_TABLE + [IFX_COLUMNS[k].0], IFX_COLUMNS[k].1);
    assert COLUMNS[5 + k].base + [i] == [1, 3, 6, 1, 2, 1, 31, 1, 1, 1, IFX_COLUMNS[k].0, i];
  }

  lemma ColumnsUsable()
    ensures forall column :: column in COLUMNS ==> Usable(column)
  {
    IfColumnsUsable();
    IfxColumnsUsable();
    hide InTable, Usable;
  }

  lemma IfColumnsUsable()
    ensures forall column :: column in InTable(IF_TABLE, IF_COLUMNS) ==> Usable(column)
  {
    hide InTable, Usable;
    TableUsable(IF_TABLE, IF_COLUMNS);
  }

  lemma IfxColumnsUsable()
    ensures forall column :: column in InTable(IFX_TABLE, IFX_COLUMNS) ==> Usable(column)
  {
    hide InTable, Usable;
    TableUsable(IFX_TABLE, IFX_COLUMNS);
  }

  lemma TableUsable(table: Oid, columns: seq<(u64, Template)>)
    requires |table| > 2 && ValidOid(table)
    requires forall c :: c in columns ==> c.1 != Every(Fixed(EndOfMibView))
    ensures forall column :: column in InTable(table, columns) ==> Usable(column)
  {
  }

  lemma RowsUsable(columns: seq<Column>, n: u32)
    requires forall column :: column in columns ==> Usable(column)
    ensures var tree := AllRows(columns, n);
      Objects(tree) && forall e :: e in tree ==> ValidOid(e.oid)
  {
    forall e | e in AllRows(columns, n) ensures ValidOid(e.oid) && e.gen != Fixed(EndOfMibView) {
      AllRowsMembers(columns, n, e);
      var c, i :| 0 <= c < |columns| && 1 <= i <= n && e == Row(columns[c], i);
      assert columns[c] in columns;
    }
  }
}
