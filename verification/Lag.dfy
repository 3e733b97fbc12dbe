/**
 The link-aggregation decoders (nexus/src/collectors/lagpoller.rs): which ports
 belong to which aggregate.
 */
module Lag {
  import opened Options
  import opened Snmp
  import opened LastWrites
  import opened Sorting

  datatype Member = Member(
    actorState: seq<string>, partnerState: seq<string>, partnerSystemId: Option<string>, partnerPort: Option<int>)

  // A configured member that is not attached.
  const NO_DETAIL := Member([], [], None, None)

  datatype Group = Group(
    protocol: string, actorSystemId: Option<string>, partnerSystemId: Option<string>, members: map<int, Member>)

  type Groups = map<int, Group>

  // ---- System ids ------------------------------------------------------------------

  function HexOnly(s: string): string {
    if s == "" then ""
    else
      var c := s[|s| - 1];
      HexOnly(s[..|s| - 1]) +
      (if '0' <= c <= '9' || 'a' <= c <= 'f' then [c]
       else if 'A' <= c <= 'F' then [c - 'A' + 'a']
       else "")
  }

  function Pairs(hex: string): string {
    if |hex| <= 2 then hex else hex[..2] + ":" + Pairs(hex[2..])
  }

  // The normalized address, none when it is missing or all zero.
  function SystemId(mac: Option<string>): Option<string> {
    var text :- mac;
    var id := Pairs(HexOnly(text));
    if id == "" || id == "00:00:00:00:00:00" then None else Some(id)
  }

  lemma {:induction false} HexOnlyAppend(a: string, b: string)
    ensures HexOnly(a + b) == HexOnly(a) + HexOnly(b)
  {
    if b == "" {
      assert a + b == a;
    } else {
      assert (a + b)[..|a + b| - 1] == a + b[..|b| - 1];
      HexOnlyAppend(a, b[..|b| - 1]);
    }
  }

  // A hexadecimal digit in either case, and what else may stand in an address.
  function Spelled(n: nat, upper: bool): char
    requires n < 16
  {
    if upper then "0123456789ABCDEF"[n] else "0123456789abcdef"[n]
  }

  ghost predicate Separates(sep: string) {
    forall i, n: nat, upper :: 0 <= i < |sep| && n < 16 ==> sep[i] != Spelled(n, upper)
  }

  lemma DigitStays(n: nat, upper: bool)
    requires n < 16
    ensures HexOnly([Spelled(n, upper)]) == [Spelled(n, false)]
  {
    assert [Spelled(n, upper)][..0] == "" && HexOnly("") == "";
  }

  lemma {:induction false} SeparatorsGo(sep: string)
    requires Separates(sep)
    ensures HexOnly(sep) == ""
  {
    if sep != "" {
      var front, c := sep[..|sep| - 1], sep[|sep| - 1];
      SeparatorsGo(front);
      if '0' <= c <= '9' || 'a' <= c <= 'f' || 'A' <= c <= 'F' {
        DigitIsSpelled(c);
        assert false;
      }
    }
  }

  lemma DigitIsSpelled(c: char)
    requires '0' <= c <= '9' || 'a' <= c <= 'f' || 'A' <= c <= 'F'
    ensures exists n: nat, upper :: n < 16 && c == Spelled(n, upper)
  {
    var n := if c <= '9' then c as int - '0' as int else if c <= 'F' then c as int - 'A' as int + 10 else c as int - 'a' as int + 10;
    assert c == Spelled(n, 'A' <= c <= 'F');
  }

  // Octets as two digits each, with a separator in between.
  function Address(octets: seq<nat>, sep: string, upper: bool): string
    requires forall i :: 0 <= i < |octets| ==> octets[i] < 256
  {
    if octets == [] then ""
    else
      var n := octets[|octets| - 1];
      Address(octets[..|octets| - 1], sep, upper) + (if |octets| == 1 then "" else sep) +
      [Spelled(n / 16, upper), Spelled(n % 16, upper)]
  }

  lemma {:induction false} DigitsOfAddress(octets: seq<nat>, sep: string, upper: bool)
    requires Separates(sep) && forall i :: 0 <= i < |octets| ==> octets[i] < 256
    ensures HexOnly(Address(octets, sep, upper)) == Address(octets, "", false)
    ensures |Address(octets, "", false)| == 2 * |octets|
  {
    hide HexOnly, Spelled, Separates;
    if octets == [] {
      NoDigits();
    } else {
      var front, n := octets[..|octets| - 1], octets[|octets| - 1];
      DigitsOfAddress(front, sep, upper);
      var mid := if |octets| == 1 then "" else sep;
      var a, b := Spelled(n / 16, upper), Spelled(n % 16, upper);
      DigitStays(n / 16, upper);
      DigitStays(n % 16, upper);
      SeparatorsGo(sep);
      NoDigits();
      HexOnlyAppend(Address(front, sep, upper), mid);
      HexOnlyAppend(Address(front, sep, upper) + mid, [a, b]);
      HexOnlyAppend([a], [b]);
      assert [a] + [b] == [a, b];
    }
  }

  lemma NoDigits()
    ensures HexOnly("") == ""
  {
  }

  lemma {:induction false} PairsGrow(hex: string, a: char, b: char)
    requires |hex| % 2 == 0
    ensures Pairs(hex + [a, b]) == Pairs(hex) + (if hex == "" then "" else ":") + [a, b]
    decreases |hex|
  {
    if |hex| > 0 {
      PairsGrow(hex[2..], a, b);
      assert (hex + [a, b])[..2] == hex[..2] && (hex + [a, b])[2..] == hex[2..] + [a, b];
      if |hex| == 2 {
        assert hex[2..] == "" && hex[..2] == hex;
        assert Pairs(hex) == hex && Pairs([a, b]) == [a, b] && "" + [a, b] == [a, b];
      }
    } else {
      assert hex + [a, b] == [a, b];
    }
  }

  // An odd digit stands alone at the end.
  lemma {:induction false} OddDigit(hex: string, a: char)
    requires |hex| % 2 == 0
    ensures Pairs(hex + [a]) == Pairs(hex) + (if hex == "" then "" else ":") + [a]
    decreases |hex|
  {
    if |hex| > 0 {
      OddDigit(hex[2..], a);
      assert (hex + [a])[..2] == hex[..2] && (hex + [a])[2..] == hex[2..] + [a];
      if |hex| == 2 {
        assert hex[2..] == "" && hex[..2] == hex;
        assert Pairs(hex) == hex && Pairs([a]) == [a] && "" + [a] == [a];
      }
    } else {
      assert hex + [a] == [a];
    }
  }

  lemma {:induction false} PairsOfAddress(octets: seq<nat>)
    requires forall i :: 0 <= i < |octets| ==> octets[i] < 256
    ensures |Address(octets, "", false)| == 2 * |octets|
    ensures Pairs(Address(octets, "", false)) == Address(octets, ":", false)
  {
    hide Spelled;
    if octets != [] {
      var front, n := octets[..|octets| - 1], octets[|octets| - 1];
      PairsOfAddress(front);
      var hex := Address(front, "", false);
      hide Pairs;
      PairsGrow(hex, Spelled(n / 16, false), Spelled(n % 16, false));
      assert hex + "" == hex;
    }
  }

  // Every spelling of an address, with any separator and in either case, has one id:
  // the lower-case digits with colons. The zero address and the empty text have none.
  lemma SpellingsShareId(octets: seq<nat>, sep: string, upper: bool)
    requires Separates(sep) && forall i :: 0 <= i < |octets| ==> octets[i] < 256
    ensures SystemId(Some(Address(octets, sep, upper))) ==
            if octets == [] || IsZero(octets) then None else Some(Address(octets, ":", false))
  {
    hide HexOnly, Pairs;
    DigitsOfAddress(octets, sep, upper);
    PairsOfAddress(octets);
    ZeroAddress(octets);
    hide Address;
  }

  predicate IsZero(octets: seq<nat>) {
    |octets| == 6 && forall i :: 0 <= i < 6 ==> octets[i] == 0
  }

  lemma ZeroAddress(octets: seq<nat>)
    requires forall i :: 0 <= i < |octets| ==> octets[i] < 256
    ensures Address(octets, ":", false) == "" <==> octets == []
    ensures Address(octets, ":", false) == "00:00:00:00:00:00" <==> IsZero(octets)
  {
    hide Address;
    AddressLength(octets);
    var zeros: seq<nat> := seq(6, i requires 0 <= i < 6 => 0);
    AddressLength(zeros);
    ZerosRead(zeros);
    ZeroText(Address(zeros, ":", false));
    AddressesDiffer(octets, zeros);
    if IsZero(octets) {
      assert octets == zeros;
    }
  }

  lemma ZeroText(text: string)
    requires |text| == 17 && forall k :: 0 <= k < |text| ==> text[k] == if k % 3 == 2 then ':' else '0'
    ensures text == "00:00:00:00:00:00"
  {
  }

  lemma {:induction false} ZerosRead(octets: seq<nat>)
    requires forall i :: 0 <= i < |octets| ==> octets[i] == 0
    ensures forall k :: 0 <= k < |Address(octets, ":", false)| ==> Address(octets, ":", false)[k] == if k % 3 == 2 then ':' else '0'
  {
    if octets != [] {
      ZerosRead(octets[..|octets| - 1]);
      AddressLength(octets[..|octets| - 1]);
    }
  }

  // Different octets make different addresses.
  lemma {:induction false} AddressesDiffer(a: seq<nat>, b: seq<nat>)
    requires forall i :: 0 <= i < |a| ==> a[i] < 256
    requires forall i :: 0 <= i < |b| ==> b[i] < 256
    ensures Address(a, ":", false) == Address(b, ":", false) ==> a == b
  {
    if a != [] && b != [] && Address(a, ":", false) == Address(b, ":", false) {
      var s, t := Address(a[..|a| - 1], ":", false), Address(b[..|b| - 1], ":", false);
      var x, y := a[|a| - 1], b[|b| - 1];
      var all := Address(a, ":", false);
      assert all[|all| - 2..] == [Spelled(x / 16, false), Spelled(x % 16, false)];
      assert all[|all| - 2..] == [Spelled(y / 16, false), Spelled(y % 16, false)];
      SpelledApart(x / 16, y / 16);
      SpelledApart(x % 16, y % 16);
      AddressLength(a);
      AddressLength(b);
      assert |a| == |b|;
      var cut := if |a| == 1 then 0 else |all| - 3;
      assert s == all[..cut] && t == all[..cut];
      AddressesDiffer(a[..|a| - 1], b[..|b| - 1]);
      assert a == a[..|a| - 1] + [x] && b == b[..|b| - 1] + [y];
    }
  }

  lemma {:induction false} AddressLength(a: seq<nat>)
    requires forall i :: 0 <= i < |a| ==> a[i] < 256
    ensures |Address(a, ":", false)| == if a == [] then 0 else 3 * |a| - 1
  {
    if a != [] {
      AddressLength(a[..|a| - 1]);
    }
  }

  lemma SpelledApart(m: nat, n: nat)
    requires m < 16 && n < 16 && Spelled(m, false) == Spelled(n, false)
    ensures m == n
  {
  }

  // ---- PAgP ------------------------------------------------------------------------

  // The channel that a row puts its own port into.
  function PagpGroup(row: Row): Option<(int, int)> {
    var port :- Index(row, "ifIndex");
    var group :- ObjI64(row, "pagpGroupIfIndex");
    if group > 0 && group != port then Some((group, port)) else None
  }

  function PagpMode(row: Row): Option<(int, int)> {
    var port :- Index(row, "ifIndex");
    var mode :- ObjI64(row, "pagpEthcOperationMode");
    Some((port, mode))
  }

  function WithPort(groups: map<int, set<int>>, group: int, port: int): map<int, set<int>> {
    groups[group := (if group in groups then groups[group] else {}) + {port}]
  }

  function PagpGroups(rows: Table): map<int, set<int>> {
    if rows == [] then map[]
    else
      var before := PagpGroups(rows[..|rows| - 1]);
      match PagpGroup(rows[|rows| - 1])
      case None => before
      case Some((group, port)) => WithPort(before, group, port)
  }

  method DecodePagp(rows: Table) returns (groups: map<int, set<int>>, modes: map<int, int>)
    ensures groups == PagpGroups(rows) && modes == Indexed(rows, PagpMode)
  {
    groups, modes := map[], map[];
    for i := 0 to |rows|
      invariant groups == PagpGroups(rows[..i]) && modes == Indexed(rows[..i], PagpMode)
    {
      assert rows[..i + 1][..i] == rows[..i];
      hide ObjI64;
      var port := Index(rows[i], "ifIndex");
      if port.Some? {
        var mode := ObjI64(rows[i], "pagpEthcOperationMode");
        if mode.Some? {
          modes := modes[port.value := mode.value];
        }
        var group := ObjI64(rows[i], "pagpGroupIfIndex");
        if group.Some? && group.value > 0 && group.value != port.value {
          groups := WithPort(groups, group.value, port.value);
        }
      }
    }
    assert rows[..|rows|] == rows;
  }

  // The row of a bundled port: a channel of its own is no bundle, and no number is
  // none either.
  predicate NamesChannel(row: Row, g: int, p: int) {
    Index(row, "ifIndex") == Some(p) && ObjI64(row, "pagpGroupIfIndex") == Some(g) && g > 0 && g != p
  }

  lemma PagpGroupIs(row: Row, g: int, p: int)
    ensures PagpGroup(row) == Some((g, p)) <==> NamesChannel(row, g, p)
  {
    hide ObjI64;
  }

  // Channels hold exactly the ports whose rows name them, so none is empty.
  lemma {:induction false} ChannelsAre(rows: Table, g: int, p: int)
    ensures g in PagpGroups(rows) && p in PagpGroups(rows)[g] <==> exists row :: row in rows && NamesChannel(row, g, p)
    ensures g in PagpGroups(rows) ==> PagpGroups(rows)[g] != {}
  {
    hide PagpGroup, NamesChannel;
    if rows != [] {
      var front, row := rows[..|rows| - 1], rows[|rows| - 1];
      assert rows == front + [row];
      ChannelsAre(front, g, p);
      PagpGroupIs(row, g, p);
      if PagpGroup(row).Some? {
        var (group, port) := PagpGroup(row).value;
        assert port in PagpGroups(rows)[group];
      }
      assert row in rows;
    }
  }

  // ---- IEEE 802.3ad -------------------------------------------------------------------

  function AdminKey(row: Row, column: string): Option<int> {
    var key :- ObjI64(row, column);
    if key > 0 then Some(key) else None
  }

  // The aggregate of a row and the key it claims.
  function Claim(row: Row): Option<(int, int)> {
    var agg :- Index(row, "dot3adAggIndex");
    var key :- AdminKey(row, "dot3adAggActorAdminKey");
    Some((key, agg))
  }

  // A key that one row claims leads to its aggregate, a key that several rows
  // claim to nothing.
  function ClaimedBy(aggs: Table, key: int): Option<Option<int>> {
    if aggs == [] then None
    else
      var before := ClaimedBy(aggs[..|aggs| - 1], key);
      var claim := Claim(aggs[|aggs| - 1]);
      if claim.None? || claim.value.0 != key then before
      else if before.Some? then Some(None)
      else Some(Some(claim.value.1))
  }

  // The row is an aggregate's and carries this key; keys are positive.
  predicate Claims(row: Row, key: int) {
    Index(row, "dot3adAggIndex").Some? && ObjI64(row, "dot3adAggActorAdminKey") == Some(key) && key > 0
  }

  lemma ClaimIs(row: Row)
    ensures forall key, agg :: Claim(row) == Some((key, agg)) <==> Claims(row, key) && Index(row, "dot3adAggIndex") == Some(agg)
    ensures forall key :: Claims(row, key) <==> Claim(row).Some? && Claim(row).value.0 == key
  {
    hide ObjI64;
  }

  ghost predicate OnlyClaim(aggs: Table, key: int, agg: int) {
    exists i :: 0 <= i < |aggs| && Claims(aggs[i], key) && Index(aggs[i], "dot3adAggIndex") == Some(agg) &&
      forall j :: 0 <= j < |aggs| && j != i ==> !Claims(aggs[j], key)
  }

  lemma {:induction false} ClaimedByOnlyRow(aggs: Table, key: int, agg: int)
    ensures ClaimedBy(aggs, key).None? <==> forall j :: 0 <= j < |aggs| ==> !Claims(aggs[j], key)
    ensures ClaimedBy(aggs, key) == Some(Some(agg)) <==> OnlyClaim(aggs, key, agg)
  {
    hide Claim, Claims;
    if aggs != [] {
      var front, last := aggs[..|aggs| - 1], aggs[|aggs| - 1];
      assert aggs == front + [last];
      ClaimedByOnlyRow(front, key, agg);
      OneMoreClaim(front, last, key, agg);
      ClaimIs(last);
      hide OnlyClaim;
    }
  }

  lemma OneMoreClaim(front: Table, last: Row, key: int, agg: int)
    ensures (forall j :: 0 <= j < |front + [last]| ==> !Claims((front + [last])[j], key)) <==>
            (forall j :: 0 <= j < |front| ==> !Claims(front[j], key)) && !Claims(last, key)
    ensures !Claims(last, key) ==> (OnlyClaim(front + [last], key, agg) <==> OnlyClaim(front, key, agg))
    ensures Claims(last, key) ==>
              (OnlyClaim(front + [last], key, agg) <==>
               Index(last, "dot3adAggIndex") == Some(agg) && forall j :: 0 <= j < |front| ==> !Claims(front[j], key))
  {
    hide Claims, Index;
    var all, n := front + [last], |front|;
    assert all[n] == last && forall j :: 0 <= j < n ==> all[j] == front[j];
    if OnlyClaim(front, key, agg) && !Claims(last, key) {
      var i :| 0 <= i < n && Claims(front[i], key) && Index(front[i], "dot3adAggIndex") == Some(agg) &&
        forall j :: 0 <= j < n && j != i ==> !Claims(front[j], key);
      assert all[i] == front[i];
    }
    if OnlyClaim(all, key, agg) {
      var i :| 0 <= i <= n && Claims(all[i], key) && Index(all[i], "dot3adAggIndex") == Some(agg) &&
        forall j :: 0 <= j <= n && j != i ==> !Claims(all[j], key);
      assert forall j :: 0 <= j < n && j != i ==> !Claims(front[j], key);
    }
  }

  function Detail(row: Row): Member {
    Member(
      ObjBits(row, "dot3adAggPortActorOperState"),
      ObjBits(row, "dot3adAggPortPartnerOperState"),
      SystemId(ObjStr(row, "dot3adAggPortPartnerOperSystemID")),
      AdminKey(row, "dot3adAggPortPartnerOperPort"))
  }

  // A port attached to itself is an individual link.
  predicate Attached(row: Row, port: int) {
    var agg := ObjI64(row, "dot3adAggPortAttachedAggID").GetOr(0);
    agg > 0 && agg != port
  }

  // The aggregate that a port row is put into, with its member record.
  function Placement(aggs: Table, row: Row): Option<(int, int, Member)> {
    var port :- Index(row, "dot3adAggPortIndex");
    if Attached(row, port) then Some((ObjI64(row, "dot3adAggPortAttachedAggID").GetOr(0), port, Detail(row)))
    else
      var key :- AdminKey(row, "dot3adAggPortActorAdminKey");
      var claimed :- ClaimedBy(aggs, key);
      var agg :- claimed;
      Some((agg, port, NO_DETAIL))
  }

  function WithMember(groups: Groups, agg: int, port: int, member: Member): Groups {
    var group := if agg in groups then groups[agg] else Group("lacp", None, None, map[]);
    groups[agg := group.(members := group.members[port := member])]
  }

  function Placed(aggs: Table, ports: Table): Groups {
    if ports == [] then map[]
    else
      var before := Placed(aggs, ports[..|ports| - 1]);
      match Placement(aggs, ports[|ports| - 1])
      case None => before
      case Some((agg, port, member)) => WithMember(before, agg, port, member)
  }

  function Ids(row: Row): Option<(int, (Option<string>, Option<string>))> {
    var agg :- Index(row, "dot3adAggIndex");
    Some((agg, (SystemId(ObjStr(row, "dot3adAggActorSystemID")), SystemId(ObjStr(row, "dot3adAggPartnerSystemID")))))
  }

  function Named(group: Group, ids: map<int, (Option<string>, Option<string>)>, agg: int): Group {
    if agg in ids then group.(actorSystemId := ids[agg].0, partnerSystemId := ids[agg].1) else group
  }

  // The groups, each with the ids of the last aggregate row about it.
  function Dot3ad(aggs: Table, ports: Table): Groups {
    var placed := Placed(aggs, ports);
    map agg | agg in placed :: Named(placed[agg], Indexed(aggs, Ids), agg)
  }

  method DecodeDot3ad(aggTable: Option<Table>, portTable: Option<Table>) returns (groups: Groups)
    ensures groups == Dot3ad(aggTable.GetOr([]), portTable.GetOr([]))
  {
    var aggs, ports := aggTable.GetOr([]), portTable.GetOr([]);
    var byKey := IndexKeys(aggs);
    groups := map[];
    for i := 0 to |ports|
      invariant groups == Placed(aggs, ports[..i])
    {
      assert ports[..i + 1][..i] == ports[..i];
      var row := ports[i];
      var port := Index(row, "dot3adAggPortIndex");
      if port.Some? {
        if Attached(row, port.value) {
          groups := WithMember(groups, ObjI64(row, "dot3adAggPortAttachedAggID").GetOr(0), port.value, Detail(row));
        } else {
          var key := AdminKey(row, "dot3adAggPortActorAdminKey");
          if key.Some? && key.value in byKey && byKey[key.value].Some? {
            groups := WithMember(groups, byKey[key.value].value, port.value, NO_DETAIL);
          }
        }
      }
    }
    assert ports[..|ports|] == ports;
    groups := NameGroups(groups, aggs);
  }

  method IndexKeys(aggs: Table) returns (byKey: map<int, Option<int>>)
    ensures forall key :: ClaimedBy(aggs, key) == if key in byKey then Some(byKey[key]) else None
  {
    byKey := map[];
    for i := 0 to |aggs|
      invariant forall key :: ClaimedBy(aggs[..i], key) == if key in byKey then Some(byKey[key]) else None
    {
      assert aggs[..i + 1][..i] == aggs[..i];
      var claim := Claim(aggs[i]);
      if claim.Some? {
        var (key, agg) := claim.value;
        byKey := byKey[key := if key in byKey then None else Some(agg)];
      }
    }
    assert aggs[..|aggs|] == aggs;
  }

  method NameGroups(placed: Groups, aggs: Table) returns (groups: Groups)
    ensures groups == map agg | agg in placed :: Named(placed[agg], Indexed(aggs, Ids), agg)
  {
    groups := placed;
    for i := 0 to |aggs|
      invariant groups == map agg | agg in placed :: Named(placed[agg], Indexed(aggs[..i], Ids), agg)
    {
      assert aggs[..i + 1][..i] == aggs[..i];
      var ids := Ids(aggs[i]);
      if ids.Some? && ids.value.0 in groups {
        var (agg, names) := ids.value;
        groups := groups[agg := groups[agg].(actorSystemId := names.0, partnerSystemId := names.1)];
      }
    }
    assert aggs[..|aggs|] == aggs;
  }

  // ---- Who is a member -------------------------------------------------------------------

  // Row `row` puts port p into aggregate a: attached to it, or else holding a key
  // that a's row alone claims.
  ghost predicate PutsInto(aggs: Table, row: Row, p: int, a: int) {
    && Index(row, "dot3adAggPortIndex") == Some(p)
    && var attached, key := ObjI64(row, "dot3adAggPortAttachedAggID").GetOr(0), ObjI64(row, "dot3adAggPortActorAdminKey").GetOr(0);
       if attached > 0 && attached != p then a == attached else key > 0 && OnlyClaim(aggs, key, a)
  }

  lemma PlacementIs(aggs: Table, row: Row, p: int, a: int)
    ensures PutsInto(aggs, row, p, a) <==>
            Placement(aggs, row).Some? && Placement(aggs, row).value.0 == a && Placement(aggs, row).value.1 == p
  {
    hide ObjI64, Detail, ClaimedBy, OnlyClaim;
    var key := AdminKey(row, "dot3adAggPortActorAdminKey");
    if key.Some? {
      ClaimedByOnlyRow(aggs, key.value, a);
    }
  }

  predicate IsMember(groups: Groups, a: int, p: int) {
    a in groups && p in groups[a].members
  }

  lemma {:induction false} PlacedMembers(aggs: Table, ports: Table, p: int, a: int)
    ensures IsMember(Placed(aggs, ports), a, p) <==> exists row :: row in ports && PutsInto(aggs, row, p, a)
    ensures a in Placed(aggs, ports) ==> Placed(aggs, ports)[a].members != map[] && Placed(aggs, ports)[a].protocol == "lacp"
  {
    hide PutsInto, Placement;
    if ports != [] {
      var front, row := ports[..|ports| - 1], ports[|ports| - 1];
      assert ports == front + [row];
      PlacedMembers(aggs, front, p, a);
      PlacementIs(aggs, row, p, a);
      if Placement(aggs, row).Some? {
        var (agg, port, _) := Placement(aggs, row).value;
        assert port in Placed(aggs, ports)[agg].members;
      }
      assert row in ports;
    }
  }

  // Membership, exactly; and every group is an LACP bundle with a member.
  lemma MembersAre(aggs: Table, ports: Table, p: int, a: int)
    ensures IsMember(Dot3ad(aggs, ports), a, p) <==> exists row :: row in ports && PutsInto(aggs, row, p, a)
    ensures a in Dot3ad(aggs, ports) ==> Dot3ad(aggs, ports)[a].members != map[] && Dot3ad(aggs, ports)[a].protocol == "lacp"
  {
    hide PutsInto, Placed;
    PlacedMembers(aggs, ports, p, a);
  }

  // A port with one row is in at most one aggregate.
  lemma OneAggregateEach(aggs: Table, ports: Table, p: int, a: int, b: int)
    requires forall i, j :: 0 <= i < j < |ports| && Index(ports[i], "dot3adAggPortIndex") == Some(p) ==>
               Index(ports[j], "dot3adAggPortIndex") != Some(p)
    requires IsMember(Dot3ad(aggs, ports), a, p) && IsMember(Dot3ad(aggs, ports), b, p)
    ensures a == b
  {
    hide Placed, Placement;
    MembersAre(aggs, ports, p, a);
    MembersAre(aggs, ports, p, b);
    var row :| row in ports && PutsInto(aggs, row, p, a);
    var other :| other in ports && PutsInto(aggs, other, p, b);
    PlacementIs(aggs, row, p, a);
    PlacementIs(aggs, other, p, b);
    var i :| 0 <= i < |ports| && ports[i] == row;
    var j :| 0 <= j < |ports| && ports[j] == other;
  }

  // The member record and the ids are those of the last rows about them.
  lemma {:induction false} LastRowDescribes(aggs: Table, ports: Table, i: nat)
    requires i < |ports| && Placement(aggs, ports[i]).Some?
    requires forall j :: i < j < |ports| && Placement(aggs, ports[j]).Some? ==>
      (Placement(aggs, ports[j]).value.0, Placement(aggs, ports[j]).value.1) !=
      (Placement(aggs, ports[i]).value.0, Placement(aggs, ports[i]).value.1)
    ensures var (a, p, member) := Placement(aggs, ports[i]).value;
      IsMember(Placed(aggs, ports), a, p) && Placed(aggs, ports)[a].members[p] == member
  {
    hide Placement;
    if i < |ports| - 1 {
      LastRowDescribes(aggs, ports[..|ports| - 1], i);
    }
  }

  // The last row about a port, when it attaches the port to another interface, gives
  // the member record column by column. Port numbers are positive.
  lemma AttachedMemberColumns(aggs: Table, ports: Table, p: int, i: nat)
    requires LastAbout(ports, "dot3adAggPortIndex", p, i)
    requires var a := ObjI64(ports[i], "dot3adAggPortAttachedAggID").GetOr(0); a > 0 && a != p
    ensures var a, partner := ObjI64(ports[i], "dot3adAggPortAttachedAggID").GetOr(0), ObjI64(ports[i], "dot3adAggPortPartnerOperPort");
      && IsMember(Dot3ad(aggs, ports), a, p)
      && var m := Dot3ad(aggs, ports)[a].members[p];
        && m.actorState == ObjBits(ports[i], "dot3adAggPortActorOperState")
        && m.partnerState == ObjBits(ports[i], "dot3adAggPortPartnerOperState")
        && m.partnerSystemId == SystemId(ObjStr(ports[i], "dot3adAggPortPartnerOperSystemID"))
        && m.partnerPort == if partner.Some? && partner.value > 0 then partner else None
  {
    LastRowPlaces(aggs, ports, p, i);
    hide Placed, SystemId, ObjBits, ObjI64, ObjStr;
  }

  // The last row about a port, when it leaves the port unattached, makes it a member
  // without any state of the aggregate that alone claims its key.
  lemma ConfiguredMember(aggs: Table, ports: Table, p: int, i: nat, key: int, a: int)
    requires LastAbout(ports, "dot3adAggPortIndex", p, i)
    requires ObjI64(ports[i], "dot3adAggPortAttachedAggID").GetOr(0) in {0, p}
    requires ObjI64(ports[i], "dot3adAggPortActorAdminKey") == Some(key) && key > 0 && OnlyClaim(aggs, key, a)
    ensures IsMember(Dot3ad(aggs, ports), a, p) && Dot3ad(aggs, ports)[a].members[p] == Member([], [], None, None)
  {
    ClaimedByOnlyRow(aggs, key, a);
    LastRowPlaces(aggs, ports, p, i);
    hide Placed, ObjI64, ClaimedBy, OnlyClaim;
  }

  lemma LastRowPlaces(aggs: Table, ports: Table, p: int, i: nat)
    requires LastAbout(ports, "dot3adAggPortIndex", p, i) && Placement(aggs, ports[i]).Some?
    ensures var (a, q, member) := Placement(aggs, ports[i]).value;
      q == p && IsMember(Placed(aggs, ports), a, p) && Placed(aggs, ports)[a].members[p] == member
  {
    hide Detail, ClaimedBy, AdminKey, ObjI64, Attached, Placed;
    forall j | i < j < |ports| && Placement(aggs, ports[j]).Some?
      ensures Placement(aggs, ports[j]).value.1 == Index(ports[j], "dot3adAggPortIndex").value
    {
    }
    LastRowDescribes(aggs, ports, i);
  }

  // The ids of a group, from the last row about its aggregate.
  lemma GroupIds(aggs: Table, ports: Table, agg: int, i: nat)
    requires agg in Dot3ad(aggs, ports) && LastAbout(aggs, "dot3adAggIndex", agg, i)
    ensures Dot3ad(aggs, ports)[agg].actorSystemId == SystemId(ObjStr(aggs[i], "dot3adAggActorSystemID"))
    ensures Dot3ad(aggs, ports)[agg].partnerSystemId == SystemId(ObjStr(aggs[i], "dot3adAggPartnerSystemID"))
  {
    hide Placed, SystemId;
    assert LastWriter(aggs, Ids, agg, i);
    IndexedByLastWriter(aggs, Ids, agg);
  }

  // ---- The Cisco merge --------------------------------------------------------------------

  predicate Negotiates(modes: map<int, int>, port: int) {
    port in modes && modes[port] >= 3
  }

  // A new group for a channel that LACP does not know.
  function Channel(ports: set<int>, modes: map<int, int>): Group {
    Group(if exists p :: p in ports && Negotiates(modes, p) then "pagp" else "static", None, None, map[])
  }

  function AddedMembers(known: map<int, Member>, ports: set<int>): map<int, Member> {
    map p | p in known.Keys + ports :: if p in known then known[p] else NO_DETAIL
  }

  function MergedGroup(dot3ad: Groups, pagp: map<int, set<int>>, modes: map<int, int>, a: int): Group
    requires a in dot3ad || a in pagp
  {
    if a !in pagp then dot3ad[a]
    else
      var group := if a in dot3ad then dot3ad[a] else Channel(pagp[a], modes);
      group.(members := AddedMembers(group.members, pagp[a]))
  }

  method MergeCisco(dot3ad: Groups, pagp: map<int, set<int>>, modes: map<int, int>) returns (r: Groups)
    ensures r == map a | a in dot3ad.Keys + pagp.Keys :: MergedGroup(dot3ad, pagp, modes, a)
  {
    hide Channel, AddedMembers;
    r := dot3ad;
    var aggs := SortedKeys(pagp.Keys);
    for i := 0 to |aggs|
      invariant forall a :: a in r <==> a in dot3ad || a in aggs[..i]
      invariant forall a :: a in r ==> r[a] == if a in aggs[..i] then MergedGroup(dot3ad, pagp, modes, a) else dot3ad[a]
    {
      var a := aggs[i];
      assert aggs[..i + 1] == aggs[..i] + [a];
      assert a !in aggs[..i];
      var group := if a in r then r[a] else Channel(pagp[a], modes);
      var members := AddMembers(group.members, pagp[a]);
      r := r[a := group.(members := members)];
    }
    assert aggs[..|aggs|] == aggs;
    forall a ensures a in r <==> a in dot3ad.Keys + pagp.Keys {
      assert a in aggs <==> a in pagp.Keys;
    }
  }

  // Members that are known already keep their record.
  method AddMembers(known: map<int, Member>, ports: set<int>) returns (r: map<int, Member>)
    ensures r == AddedMembers(known, ports)
  {
    r := known;
    var order := SortedKeys(ports);
    for i := 0 to |order|
      invariant forall p :: p in r <==> p in known || p in order[..i]
      invariant forall p :: p in r ==> r[p] == if p in known then known[p] else NO_DETAIL
    {
      assert order[..i + 1] == order[..i] + [order[i]];
      if order[i] !in r {
        r := r[order[i] := NO_DETAIL];
      }
    }
    assert order[..|order|] == order;
    ghost var wanted := AddedMembers(known, ports);
    forall p ensures (p in r <==> p in wanted) && (p in r ==> r[p] == wanted[p]) {
      assert p in order <==> p in ports;
    }
  }

  // What the merge promises: an LACP group keeps its protocol, its ids and all its
  // members with their state; the members are the union with the channel of the
  // same number; a channel of its own is "pagp" exactly when some port negotiates.
  lemma MergeKeepsDot3ad(dot3ad: Groups, pagp: map<int, set<int>>, modes: map<int, int>, a: int)
    requires a in dot3ad || a in pagp
    requires a in dot3ad ==> dot3ad[a].members != map[]
    requires a in pagp ==> pagp[a] != {}
    ensures var group := MergedGroup(dot3ad, pagp, modes, a);
      && group.members != map[]
      && (forall p :: p in group.members <==> IsMember(dot3ad, a, p) || (a in pagp && p in pagp[a]))
      && (forall p :: IsMember(dot3ad, a, p) ==> group.members[p] == dot3ad[a].members[p])
      && (forall p :: p in group.members && !IsMember(dot3ad, a, p) ==> group.members[p] == NO_DETAIL)
      && (a in dot3ad ==> group == dot3ad[a].(members := group.members))
      && (a !in dot3ad ==>
            && group.actorSystemId.None? && group.partnerSystemId.None? && group.protocol in {"pagp", "static"}
            && (group.protocol == "pagp" <==> exists p :: p in pagp[a] && Negotiates(modes, p)))
  {
    var group := MergedGroup(dot3ad, pagp, modes, a);
    if a in pagp {
      var p := Sorting.Member(pagp[a]);
      assert p in group.members;
    }
  }

  // A Cisco device as a whole.
  lemma CiscoMembersAre(aggs: Table, ports: Table, pagp: Table, a: int, p: int)
    ensures var dot3ad, channels, modes := Dot3ad(aggs, ports), PagpGroups(pagp), Indexed(pagp, PagpMode);
      (a in dot3ad || a in channels) && p in MergedGroup(dot3ad, channels, modes, a).members <==>
      (exists row :: row in ports && PutsInto(aggs, row, p, a)) || (exists row :: row in pagp && NamesChannel(row, a, p))
    ensures var dot3ad, channels, modes := Dot3ad(aggs, ports), PagpGroups(pagp), Indexed(pagp, PagpMode);
      a in dot3ad || a in channels ==> MergedGroup(dot3ad, channels, modes, a).members != map[]
  {
    hide PutsInto, NamesChannel, Dot3ad, PagpGroups, MergedGroup, Indexed;
    var dot3ad, channels, modes := Dot3ad(aggs, ports), PagpGroups(pagp), Indexed(pagp, PagpMode);
    MembersAre(aggs, ports, p, a);
    ChannelsAre(pagp, a, p);
    if a in dot3ad || a in channels {
      MergeKeepsDot3ad(dot3ad, channels, modes, a);
    }
  }

  // The last row that gives a mode for the port.
  ghost predicate LastMode(pagp: Table, p: int, i: nat) {
    && i < |pagp| && Index(pagp[i], "ifIndex") == Some(p) && ObjI64(pagp[i], "pagpEthcOperationMode").Some?
    && forall j :: i < j < |pagp| ==> Index(pagp[j], "ifIndex") != Some(p) || ObjI64(pagp[j], "pagpEthcOperationMode").None?
  }

  // A port negotiates when its last mode is desirable or auto, that is 3 or more.
  ghost predicate IsNegotiating(pagp: Table, p: int) {
    exists i: nat :: LastMode(pagp, p, i) && ObjI64(pagp[i], "pagpEthcOperationMode").value >= 3
  }

  lemma NegotiatingIs(pagp: Table, p: int)
    ensures Negotiates(Indexed(pagp, PagpMode), p) <==> IsNegotiating(pagp, p)
  {
    hide ObjI64, Index;
    assert forall i: nat :: LastMode(pagp, p, i) <==> LastWriter(pagp, PagpMode, p, i);
    IndexedByLastWriter(pagp, PagpMode, p);
    hide Indexed, LastMode;
    if Negotiates(Indexed(pagp, PagpMode), p) {
      var i: nat :| LastWriter(pagp, PagpMode, p, i);
      assert LastMode(pagp, p, i);
    }
  }

  // A channel that LACP does not know is PAgP when one of its ports negotiates, and
  // else static.
  lemma ChannelProtocol(aggs: Table, ports: Table, pagp: Table, a: int)
    requires a in PagpGroups(pagp) && a !in Dot3ad(aggs, ports)
    ensures var group := MergedGroup(Dot3ad(aggs, ports), PagpGroups(pagp), Indexed(pagp, PagpMode), a);
      group.protocol ==
      if exists row, p :: row in pagp && NamesChannel(row, a, p) && IsNegotiating(pagp, p) then "pagp" else "static"
  {
    hide Dot3ad, PagpGroups, Indexed, NamesChannel, IsNegotiating, Negotiates;
    var channel, modes := PagpGroups(pagp)[a], Indexed(pagp, PagpMode);
    forall p ensures p in channel <==> exists row :: row in pagp && NamesChannel(row, a, p) {
      ChannelsAre(pagp, a, p);
    }
    forall p ensures Negotiates(modes, p) <==> IsNegotiating(pagp, p) {
      NegotiatingIs(pagp, p);
    }
  }
}
