/**
 The HP RPVST source of spanning-tree state
 (nexus/src/collectors/entitypoller.rs): from SNMP tables to samples.
 */
module Rpvst {
  import opened Options
  import opened Snmp
  import opened LastWrites
  import opened Sorting
  import opened Stp
  import opened StpRoundTrip
  import opened StpEntity
  import Lag

  // The text form of a duration reads as whole seconds, if it reads at all.
  type Seconds = string -> Option<int>

  datatype Tables = Tables(
    interfaces: map<int, string>, roles: Table, states: Option<Table>, costs: Option<Table>, vlans: Option<Table>)

  function RowKey(row: Row): Option<(int, int)> {
    var vlan :- Index(row, "hpicfRpvstVlanId");
    var port :- Index(row, "hpicfRpvstPortIndex");
    Some((vlan, port))
  }

  function StateEntry(row: Row): Option<((int, int), string)> {
    var key :- RowKey(row);
    var state :- ObjStr(row, "hpicfRpvstPortVlanState");
    Some((key, state))
  }

  function CostEntry(row: Row): Option<((int, int), int)> {
    var key :- RowKey(row);
    var cost :- ObjI64(row, "hpicfRpvstPortVlanPathCost");
    Some((key, cost))
  }

  function At<K, V>(m: map<K, V>, k: K, default: V): V {
    if k in m then m[k] else default
  }

  // The record of a role row; a role outside its enumeration is no text, and its
  // row is skipped.
  function PortOfRow(interfaces: map<int, string>, states: map<(int, int), string>, costs: map<(int, int), int>,
                     row: Row, timestamp: nat): Option<PortRecord> {
    var (vlan, port) :- RowKey(row);
    var role :- ObjStr(row, "hpicfRpvstPortVlanRole");
    Some(PortRecord(
      vlan, port, At(interfaces, port, "UNKNOWN"), port, role, At(states, (vlan, port), ""), "",
      0, At(costs, (vlan, port), 0), 0, 0, false, timestamp))
  }

  function SecondsOf(row: Row, read: Seconds): Option<int> {
    match ObjStr(row, "hpicfRpvstVlanTimeSinceLastTopoChange")
    case Some(text) => read(text)
    case None => ObjI64(row, "hpicfRpvstVlanTimeSinceLastTopoChange")
  }

  function RootOf(row: Row): Option<(int, string)> {
    var priority :- ObjI64(row, "hpicfRpvstVlanRootPriority");
    var mac := ObjStr(row, "hpicfRpvstVlanRootMacAddress");
    Some((priority, if mac.Some? then Lag.Pairs(Lag.HexOnly(mac.value)) else ""))
  }

  function BridgeOfRow(row: Row, read: Seconds, timestamp: nat): Option<BridgeRecord> {
    var vlan :- Index(row, "hpicfRpvstVlanId");
    Some(BridgeRecord(
      vlan, RootOf(row),
      ObjI64(row, "hpicfRpvstVlanRootPathCost"),
      ObjI64(row, "hpicfRpvstVlanRootPort"),
      ObjI64(row, "hpicfVlanTopoChangeCount"),
      SecondsOf(row, read), timestamp))
  }

  // ---- All rows ---------------------------------------------------------------------

  function Collected<T>(rows: Table, record: Row -> Option<T>): seq<T> {
    if rows == [] then []
    else
      var last := record(rows[|rows| - 1]);
      Collected(rows[..|rows| - 1], record) + (if last.Some? then [last.value] else [])
  }

  lemma CollectedSnoc<T>(rows: Table, i: nat, record: Row -> Option<T>)
    requires i < |rows|
    ensures Collected(rows[..i + 1], record) ==
            if record(rows[i]).Some? then Collected(rows[..i], record) + [record(rows[i]).value] else Collected(rows[..i], record)
  {
    assert rows[..i + 1][..i] == rows[..i];
  }

  ghost predicate Gives<T>(rows: Table, record: Row -> Option<T>, r: T) {
    exists k :: 0 <= k < |rows| && record(rows[k]) == Some(r)
  }

  lemma {:induction false} CollectedAre<T>(rows: Table, record: Row -> Option<T>, r: T)
    ensures r in Collected(rows, record) <==> Gives(rows, record, r)
  {
    if rows != [] {
      var front, last := rows[..|rows| - 1], rows[|rows| - 1];
      CollectedAre(front, record, r);
      if Gives(front, record, r) {
        var k :| 0 <= k < |front| && record(front[k]) == Some(r);
        assert rows[k] == front[k];
      }
      if record(last) == Some(r) {
        assert rows[|rows| - 1] == last;
      }
    }
  }

  // The keys of two rows' records differ.
  ghost predicate DistinctRows<T, K>(rows: Table, record: Row -> Option<T>, key: T -> K) {
    forall i, j :: 0 <= i < j < |rows| && record(rows[i]).Some? && record(rows[j]).Some? ==>
      key(record(rows[i]).value) != key(record(rows[j]).value)
  }

  ghost predicate DistinctRecords<T, K>(c: seq<T>, key: T -> K) {
    forall i, j :: 0 <= i < j < |c| ==> key(c[i]) != key(c[j])
  }

  lemma {:induction false} CollectedDistinct<T, K>(rows: Table, record: Row -> Option<T>, key: T -> K)
    requires DistinctRows(rows, record, key)
    ensures DistinctRecords(Collected(rows, record), key)
  {
    if rows != [] {
      var n := |rows| - 1;
      var front := rows[..n];
      assert DistinctRows(front, record, key);
      CollectedDistinct(front, record, key);
      var c := Collected(front, record);
      if record(rows[n]).Some? {
        forall i | 0 <= i < |c| ensures key(c[i]) != key(record(rows[n]).value) {
          assert c[i] in c;
          CollectedAre(front, record, c[i]);
          var k :| 0 <= k < |front| && record(front[k]) == Some(c[i]);
          assert rows[k] == front[k];
        }
      }
    }
  }

  function PortRule(t: Tables, timestamp: nat): Row -> Option<PortRecord> {
    var states, costs := Indexed(t.states.GetOr([]), StateEntry), Indexed(t.costs.GetOr([]), CostEntry);
    (row: Row) => PortOfRow(t.interfaces, states, costs, row, timestamp)
  }

  function BridgeRule(read: Seconds, timestamp: nat): Row -> Option<BridgeRecord> {
    (row: Row) => BridgeOfRow(row, read, timestamp)
  }

  function PortRecords(t: Tables, timestamp: nat): seq<PortRecord> {
    Collected(t.roles, PortRule(t, timestamp))
  }

  function BridgeRecords(t: Tables, read: Seconds, timestamp: nat): seq<BridgeRecord> {
    Collected(t.vlans.GetOr([]), BridgeRule(read, timestamp))
  }

  method RpvstMetrics(d: Device, t: Tables, read: Seconds, timestamp: nat) returns (out: seq<Sample>)
    ensures out == Flatten(d, PortRecords(t, timestamp), BridgeRecords(t, read, timestamp))
  {
    var states := BuildIndex(t.states.GetOr([]), StateEntry);
    var costs := BuildIndex(t.costs.GetOr([]), CostEntry);
    out := PushPorts(d, t, states, costs, timestamp);
    out := PushBridges(out, d, t.vlans.GetOr([]), read, timestamp);
  }

  method PushPorts(d: Device, t: Tables, states: map<(int, int), string>, costs: map<(int, int), int>, timestamp: nat)
    returns (out: seq<Sample>)
    requires states == Indexed(t.states.GetOr([]), StateEntry) && costs == Indexed(t.costs.GetOr([]), CostEntry)
    ensures out == AllPortSamples(d, PortRecords(t, timestamp))
  {
    hide PortOfRow, PortSamples, PortMetrics, AllPortSamples, Indexed;
    ghost var rule := PortRule(t, timestamp);
    NoPorts(d);
    out := [];
    for i := 0 to |t.roles|
      invariant out == AllPortSamples(d, Collected(t.roles[..i], rule))
    {
      CollectedSnoc(t.roles, i, rule);
      var record := PortOfRow(t.interfaces, states, costs, t.roles[i], timestamp);
      if record.Some? {
        PortsSnoc(d, Collected(t.roles[..i], rule), record.value);
        out := PushPort(out, d, record.value);
      }
    }
    assert t.roles[..|t.roles|] == t.roles;
  }

  lemma NoPorts(d: Device)
    ensures AllPortSamples(d, []) == [] && AllBridgeSamples(d, []) == []
  {
  }

  method PushBridges(before: seq<Sample>, d: Device, vlans: Table, read: Seconds, timestamp: nat) returns (out: seq<Sample>)
    ensures out == before + AllBridgeSamples(d, Collected(vlans, BridgeRule(read, timestamp)))
  {
    hide BridgeOfRow, BridgeSamples, AllBridgeSamples;
    ghost var rule := BridgeRule(read, timestamp);
    NoPorts(d);
    out := before;
    for i := 0 to |vlans|
      invariant out == before + AllBridgeSamples(d, Collected(vlans[..i], rule))
    {
      CollectedSnoc(vlans, i, rule);
      var record := BridgeOfRow(vlans[i], read, timestamp);
      if record.Some? {
        BridgesSnoc(d, Collected(vlans[..i], rule), record.value);
        out := PushBridge(out, d, record.value);
      }
    }
    assert vlans[..|vlans|] == vlans;
  }

  lemma PortsSnoc(d: Device, ports: seq<PortRecord>, r: PortRecord)
    ensures AllPortSamples(d, ports + [r]) == AllPortSamples(d, ports) + PortSamples(d, r, |PortMetrics(r)|)
  {
    assert (ports + [r])[..|ports|] == ports;
  }

  lemma BridgesSnoc(d: Device, bridges: seq<BridgeRecord>, r: BridgeRecord)
    ensures AllBridgeSamples(d, bridges + [r]) == AllBridgeSamples(d, bridges) + BridgeSamples(d, r, |BRIDGE_METRICS|)
  {
    assert (bridges + [r])[..|bridges|] == bridges;
  }

  // ---- From tables to rows --------------------------------------------------------------

  // A table has one row for each index, and indices are 64-bit numbers.
  ghost predicate ProperTables(t: Tables) {
    && (forall i, j :: 0 <= i < j < |t.roles| && RowKey(t.roles[i]).Some? ==> RowKey(t.roles[i]) != RowKey(t.roles[j]))
    && (forall i :: 0 <= i < |t.roles| && RowKey(t.roles[i]).Some? ==>
          Fits(RowKey(t.roles[i]).value.0) && Fits(RowKey(t.roles[i]).value.1))
    && (var vlans := t.vlans.GetOr([]);
        && (forall i, j :: 0 <= i < j < |vlans| && Index(vlans[i], "hpicfRpvstVlanId").Some? ==>
              Index(vlans[i], "hpicfRpvstVlanId") != Index(vlans[j], "hpicfRpvstVlanId"))
        && (forall i :: 0 <= i < |vlans| && Index(vlans[i], "hpicfRpvstVlanId").Some? ==>
              Fits(Index(vlans[i], "hpicfRpvstVlanId").value)))
  }

  lemma PortRuleKeeps(t: Tables, timestamp: nat, row: Row)
    ensures var r := PortRule(t, timestamp)(row);
      r.Some? ==> RowKey(row) == Some((r.value.vlan, r.value.id)) && r.value.interfaceId == r.value.id
  {
    hide Indexed;
  }

  lemma RecordsDistinct(t: Tables, read: Seconds, timestamp: nat)
    requires ProperTables(t)
    ensures DistinctKeys(PortRecords(t, timestamp), BridgeRecords(t, read, timestamp))
  {
    PortRecordsDistinct(t, timestamp);
    BridgeRecordsDistinct(t, read, timestamp);
    hide PortRecords, BridgeRecords;
  }

  lemma PortRecordsDistinct(t: Tables, timestamp: nat)
    requires ProperTables(t)
    ensures var ports := PortRecords(t, timestamp);
      && (forall i, j :: 0 <= i < j < |ports| ==> (ports[i].vlan, ports[i].id) != (ports[j].vlan, ports[j].id))
      && forall i :: 0 <= i < |ports| ==> PortFits(ports[i])
  {
    forall row {
      PortRuleKeeps(t, timestamp, row);
    }
    hide PortRule, RowKey, Fits;
    var rule, key := PortRule(t, timestamp), (r: PortRecord) => (r.vlan, r.id);
    assert DistinctRows(t.roles, rule, key);
    CollectedDistinct(t.roles, rule, key);
    var ports := PortRecords(t, timestamp);
    forall i, j | 0 <= i < j < |ports| ensures (ports[i].vlan, ports[i].id) != (ports[j].vlan, ports[j].id) {
      assert key(ports[i]) != key(ports[j]);
    }
    forall i | 0 <= i < |ports| ensures PortFits(ports[i]) {
      assert ports[i] in ports;
      CollectedAre(t.roles, rule, ports[i]);
    }
  }

  lemma BridgeRecordsDistinct(t: Tables, read: Seconds, timestamp: nat)
    requires ProperTables(t)
    ensures var bridges := BridgeRecords(t, read, timestamp);
      && (forall i, j :: 0 <= i < j < |bridges| ==> bridges[i].vlan != bridges[j].vlan)
      && forall i :: 0 <= i < |bridges| ==> Fits(bridges[i].vlan)
  {
    hide RowKey, Fits, RootOf, SecondsOf;
    var rule, key := BridgeRule(read, timestamp), (r: BridgeRecord) => r.vlan;
    assert DistinctRows(t.vlans.GetOr([]), rule, key);
    CollectedDistinct(t.vlans.GetOr([]), rule, key);
    var bridges := BridgeRecords(t, read, timestamp);
    forall i, j | 0 <= i < j < |bridges| ensures bridges[i].vlan != bridges[j].vlan {
      assert key(bridges[i]) != key(bridges[j]);
    }
    forall i | 0 <= i < |bridges| ensures Fits(bridges[i].vlan) {
      assert bridges[i] in bridges;
      CollectedAre(t.vlans.GetOr([]), rule, bridges[i]);
    }
  }

  // The stored rows of an HP device are the port rows of its role table and the
  // bridge rows of its VLAN table.
  lemma StoredRowsAreTableRows(d: Device, t: Tables, read: Seconds, timestamp: nat, samples: seq<Sample>,
                               portRows: seq<Port>, bridgeRows: seq<Bridge>)
    requires ProperTables(t)
    requires IsArrangement(d, PortRecords(t, timestamp), BridgeRecords(t, read, timestamp), samples)
    requires PortRows(Decode(samples), portRows) && BridgeRows(Decode(samples), bridgeRows)
    ensures forall p :: p in portRows <==> exists k :: 0 <= k < |t.roles| && IsPortRow(t, timestamp, t.roles[k], p)
    ensures SortedBy(portRows, PortLe)
    ensures forall b :: b in bridgeRows <==>
              exists k :: 0 <= k < |t.vlans.GetOr([])| && IsBridgeRow(t, read, timestamp, t.vlans.GetOr([])[k], b)
    ensures forall i, j :: 0 <= i < j < |bridgeRows| ==> bridgeRows[i].vlan < bridgeRows[j].vlan
  {
    RecordsDistinct(t, read, timestamp);
    var ports := PortRecords(t, timestamp);
    RowsAreRecords(d, ports, BridgeRecords(t, read, timestamp), samples, portRows, bridgeRows);
    hide Decode, PortRows, BridgeRows, ProperTables, IsArrangement;
    forall p ensures p in portRows <==> exists k :: 0 <= k < |t.roles| && IsPortRow(t, timestamp, t.roles[k], p) {
      PortRowsGiven(t, timestamp, p);
    }
    hide PortRecords, BridgeRecords, IsBridgeRow, StoredBridge;
    forall b ensures b in bridgeRows <==>
      exists k :: 0 <= k < |t.vlans.GetOr([])| && IsBridgeRow(t, read, timestamp, t.vlans.GetOr([])[k], b)
    {
      BridgeRowsGiven(t, read, timestamp, b);
    }
  }

  predicate IsPortRow(t: Tables, timestamp: nat, row: Row, p: Port) {
    PortRule(t, timestamp)(row).Some? && p == NormalPort(PortRule(t, timestamp)(row).value)
  }

  // A VLAN row without any value leaves nothing behind.
  predicate IsBridgeRow(t: Tables, read: Seconds, timestamp: nat, row: Row, b: Bridge) {
    var record := BridgeRule(read, timestamp)(row);
    record.Some? && Reports(record.value) && b == StoredBridge(PortRecords(t, timestamp), record.value)
  }

  lemma PortRowsGiven(t: Tables, timestamp: nat, p: Port)
    ensures var ports := PortRecords(t, timestamp);
      (exists i :: 0 <= i < |ports| && p == NormalPort(ports[i])) <==>
      exists k :: 0 <= k < |t.roles| && IsPortRow(t, timestamp, t.roles[k], p)
  {
    hide PortRule, NormalPort;
    var ports, rule := PortRecords(t, timestamp), PortRule(t, timestamp);
    if i :| 0 <= i < |ports| && p == NormalPort(ports[i]) {
      assert ports[i] in ports;
      CollectedAre(t.roles, rule, ports[i]);
      var k :| 0 <= k < |t.roles| && rule(t.roles[k]) == Some(ports[i]);
      assert IsPortRow(t, timestamp, t.roles[k], p);
    }
    if k :| 0 <= k < |t.roles| && IsPortRow(t, timestamp, t.roles[k], p) {
      var r := rule(t.roles[k]).value;
      assert Gives(t.roles, rule, r);
      CollectedAre(t.roles, rule, r);
      var i :| 0 <= i < |ports| && ports[i] == r;
    }
  }

  lemma BridgeRowsGiven(t: Tables, read: Seconds, timestamp: nat, b: Bridge)
    ensures var ports, bridges := PortRecords(t, timestamp), BridgeRecords(t, read, timestamp);
      (exists i :: 0 <= i < |bridges| && Reports(bridges[i]) && b == StoredBridge(ports, bridges[i])) <==>
      exists k :: 0 <= k < |t.vlans.GetOr([])| && IsBridgeRow(t, read, timestamp, t.vlans.GetOr([])[k], b)
  {
    hide BridgeRule, StoredBridge, PortRecords, Reports;
    var ports, bridges, rule := PortRecords(t, timestamp), BridgeRecords(t, read, timestamp), BridgeRule(read, timestamp);
    var rows := t.vlans.GetOr([]);
    if i :| 0 <= i < |bridges| && Reports(bridges[i]) && b == StoredBridge(ports, bridges[i]) {
      assert bridges[i] in bridges;
      CollectedAre(rows, rule, bridges[i]);
      var k :| 0 <= k < |rows| && rule(rows[k]) == Some(bridges[i]);
      assert IsBridgeRow(t, read, timestamp, rows[k], b);
    }
    if k :| 0 <= k < |rows| && IsBridgeRow(t, read, timestamp, rows[k], b) {
      var r := rule(rows[k]).value;
      assert Gives(rows, rule, r);
      CollectedAre(rows, rule, r);
      var i :| 0 <= i < |bridges| && bridges[i] == r;
    }
  }

  // ---- The columns of the rows, in terms of the tables alone ------------------------------

  // The name of a port as it is stored, none when nobody knows it.
  predicate NamesPort(interfaces: map<int, string>, port: int, name: Option<string>) {
    if port in interfaces && interfaces[port] !in {"", "UNKNOWN"} then name == Some(interfaces[port]) else name == None
  }

  // The row is about this port of this VLAN.
  predicate AboutPort(row: Row, vlan: int, port: int) {
    Index(row, "hpicfRpvstVlanId") == Some(vlan) && Index(row, "hpicfRpvstPortIndex") == Some(port)
  }

  lemma RowKeyIs(row: Row)
    ensures forall vlan, port :: RowKey(row) == Some((vlan, port)) <==> AboutPort(row, vlan, port)
  {
  }

  // The last row about a port that gives its state, and the last that gives its cost.
  ghost predicate LastState(rows: Table, vlan: int, port: int, i: nat) {
    && i < |rows| && AboutPort(rows[i], vlan, port) && ObjStr(rows[i], "hpicfRpvstPortVlanState").Some?
    && forall j :: i < j < |rows| ==> !AboutPort(rows[j], vlan, port) || ObjStr(rows[j], "hpicfRpvstPortVlanState").None?
  }

  ghost predicate LastCost(rows: Table, vlan: int, port: int, i: nat) {
    && i < |rows| && AboutPort(rows[i], vlan, port) && ObjI64(rows[i], "hpicfRpvstPortVlanPathCost").Some?
    && forall j :: i < j < |rows| ==> !AboutPort(rows[j], vlan, port) || ObjI64(rows[j], "hpicfRpvstPortVlanPathCost").None?
  }

  // The role rows that are stored: those with both indices and a textual role.
  predicate HasRole(row: Row) {
    RowKey(row).Some? && ObjStr(row, "hpicfRpvstPortVlanRole").Some?
  }

  // A role row gives a port row exactly when it has a role. The state and the cost
  // are those of the last row that the other tables have about its port.
  lemma PortRowColumns(t: Tables, timestamp: nat, row: Row, p: Port)
    ensures IsPortRow(t, timestamp, row, p) <==>
      && AboutPort(row, p.vlan, p.id) && ObjStr(row, "hpicfRpvstPortVlanRole").Some?
      && (var role := ObjStr(row, "hpicfRpvstPortVlanRole").value;
          p.role == if role in ROLES then role else if role == "backup" then "backUp" else "unknown")
      && StateIs(t.states.GetOr([]), p) && CostIs(t.costs.GetOr([]), p)
      && NamesPort(t.interfaces, p.id, p.interfaceName)
      && p.interfaceId == (if p.id == 0 then None else Some(p.id))
      && p.enabled.None? && p.designatedCost == 0 && p.priority == 0 && p.forwardTransitions == 0 && p.timestamp == timestamp
  {
    RowKeyIs(row);
    StateFor(t.states.GetOr([]), p.vlan, p.id);
    CostFor(t.costs.GetOr([]), p.vlan, p.id);
    StateColumn(t.states.GetOr([]), p);
    CostColumn(t.costs.GetOr([]), p);
    hide Indexed, ObjI64, ObjStr, RowKey, AboutPort, StateIs, CostIs, LastState, LastCost;
    PortRuleKeeps(t, timestamp, row);
  }

  // The state that the table gives, "unknown" for none and for one it does not name.
  ghost predicate StateIs(rows: Table, p: Port) {
    && (forall i: nat :: LastState(rows, p.vlan, p.id, i) ==>
          p.state == var state := ObjStr(rows[i], "hpicfRpvstPortVlanState").value; if state in STATES then state else "unknown")
    && ((forall i: nat :: !LastState(rows, p.vlan, p.id, i)) ==> p.state == "unknown")
  }

  ghost predicate CostIs(rows: Table, p: Port) {
    && (forall i: nat :: LastCost(rows, p.vlan, p.id, i) ==> Some(p.pathCost) == ObjI64(rows[i], "hpicfRpvstPortVlanPathCost"))
    && ((forall i: nat :: !LastCost(rows, p.vlan, p.id, i)) ==> p.pathCost == 0)
  }

  lemma StateColumn(rows: Table, p: Port)
    ensures var states := Indexed(rows, StateEntry);
      StateIs(rows, p) <==> p.state == var state := At(states, (p.vlan, p.id), ""); if state in STATES then state else "unknown"
  {
    StateFor(rows, p.vlan, p.id);
    hide Indexed, ObjStr, LastState;
    assert "" !in STATES && "unknown" !in STATES;
  }

  lemma CostColumn(rows: Table, p: Port)
    ensures CostIs(rows, p) <==> p.pathCost == At(Indexed(rows, CostEntry), (p.vlan, p.id), 0)
  {
    CostFor(rows, p.vlan, p.id);
    hide Indexed, ObjI64, LastCost;
  }

  lemma StateFor(rows: Table, vlan: int, port: int)
    ensures var states := Indexed(rows, StateEntry);
      && ((vlan, port) in states <==> exists i: nat :: LastState(rows, vlan, port, i))
      && forall i: nat :: LastState(rows, vlan, port, i) ==> Some(states[(vlan, port)]) == ObjStr(rows[i], "hpicfRpvstPortVlanState")
  {
    hide ObjStr, Index;
    assert forall i: nat :: LastState(rows, vlan, port, i) <==> LastWriter(rows, StateEntry, (vlan, port), i);
    IndexedByLastWriter(rows, StateEntry, (vlan, port));
    hide Indexed;
  }

  lemma CostFor(rows: Table, vlan: int, port: int)
    ensures var costs := Indexed(rows, CostEntry);
      && ((vlan, port) in costs <==> exists i: nat :: LastCost(rows, vlan, port, i))
      && forall i: nat :: LastCost(rows, vlan, port, i) ==> Some(costs[(vlan, port)]) == ObjI64(rows[i], "hpicfRpvstPortVlanPathCost")
  {
    hide ObjI64, Index;
    assert forall i: nat :: LastCost(rows, vlan, port, i) <==> LastWriter(rows, CostEntry, (vlan, port), i);
    IndexedByLastWriter(rows, CostEntry, (vlan, port));
    hide Indexed;
  }

  // The root's address is stored beside its priority, when it has any hex digit.
  predicate RootColumns(row: Row, b: Bridge) {
    var mac := ObjStr(row, "hpicfRpvstVlanRootMacAddress");
    && b.rootPriority == ObjI64(row, "hpicfRpvstVlanRootPriority")
    && b.rootMac == if b.rootPriority.Some? && mac.Some? && Lag.HexOnly(mac.value) != ""
                    then Some(Lag.Pairs(Lag.HexOnly(mac.value))) else None
  }

  // The root port is named as its own role row in the same VLAN is.
  ghost predicate RootPortNamed(t: Tables, b: Bridge) {
    && (forall k :: 0 <= k < |t.roles| && b.rootPort.Some? && IsRootPort(t.roles[k], b) ==>
          NamesPort(t.interfaces, b.rootPort.value, b.rootPortName))
    && ((forall k :: 0 <= k < |t.roles| && b.rootPort.Some? ==> !IsRootPort(t.roles[k], b)) ==> b.rootPortName.None?)
  }

  predicate IsRootPort(row: Row, b: Bridge)
    requires b.rootPort.Some?
  {
    AboutPort(row, b.vlan, b.rootPort.value) && ObjStr(row, "hpicfRpvstPortVlanRole").Some?
  }

  lemma BridgeRowColumns(t: Tables, read: Seconds, timestamp: nat, row: Row, b: Bridge)
    requires ProperTables(t)
    ensures IsBridgeRow(t, read, timestamp, row, b) <==>
      && Index(row, "hpicfRpvstVlanId") == Some(b.vlan)
      && RootColumns(row, b)
      && b.rootCost == ObjI64(row, "hpicfRpvstVlanRootPathCost")
      && b.rootPort == ObjI64(row, "hpicfRpvstVlanRootPort")
      && b.topologyChanges == ObjI64(row, "hpicfVlanTopoChangeCount")
      && (var text := ObjStr(row, "hpicfRpvstVlanTimeSinceLastTopoChange");
          b.timeSinceChange == if text.Some? then read(text.value) else ObjI64(row, "hpicfRpvstVlanTimeSinceLastTopoChange"))
      && (b.rootPriority.Some? || b.rootCost.Some? || b.rootPort.Some? || b.topologyChanges.Some? || b.timeSinceChange.Some?)
      && RootPortNamed(t, b) && b.timestamp == timestamp
  {
    if b.rootPort.Some? {
      RootPortName(t, timestamp, b);
    }
    hide ObjI64, ObjStr, ProperTables, PortRecords, RecordName, RootPortNamed;
    NoHexNoPairs(row);
  }

  lemma NoHexNoPairs(row: Row)
    ensures var mac := ObjStr(row, "hpicfRpvstVlanRootMacAddress");
      mac.Some? ==> (Lag.Pairs(Lag.HexOnly(mac.value)) == "" <==> Lag.HexOnly(mac.value) == "")
  {
  }

  lemma RootPortName(t: Tables, timestamp: nat, b: Bridge)
    requires ProperTables(t) && b.rootPort.Some?
    ensures RootPortNamed(t, b) <==> b.rootPortName == RecordName(PortRecords(t, timestamp), b.vlan, b.rootPort.value)
  {
    hide RecordName, ProperTables, PortRecords, IsRootPort;
    forall k | 0 <= k < |t.roles| && IsRootPort(t.roles[k], b)
      ensures NamesPort(t.interfaces, b.rootPort.value, RecordName(PortRecords(t, timestamp), b.vlan, b.rootPort.value))
    {
      RootRowNames(t, timestamp, b, k);
    }
    if forall k :: 0 <= k < |t.roles| ==> !IsRootPort(t.roles[k], b) {
      NoRootRow(t, timestamp, b);
    }
  }

  lemma RootRowNames(t: Tables, timestamp: nat, b: Bridge, k: nat)
    requires ProperTables(t) && b.rootPort.Some? && k < |t.roles| && IsRootPort(t.roles[k], b)
    ensures NamesPort(t.interfaces, b.rootPort.value, RecordName(PortRecords(t, timestamp), b.vlan, b.rootPort.value))
  {
    hide ObjStr, ProperTables, RecordName, NamesPort, OptName, PortRule, Collected;
    var ports, rule := PortRecords(t, timestamp), PortRule(t, timestamp);
    PortRecordsDistinct(t, timestamp);
    RecordNameIs(ports, b.vlan, b.rootPort.value);
    var r := RecordOf(t, timestamp, t.roles[k]);
    assert Gives(t.roles, rule, r);
    CollectedAre(t.roles, rule, r);
    var i :| 0 <= i < |ports| && ports[i] == r;
  }

  lemma NoRootRow(t: Tables, timestamp: nat, b: Bridge)
    requires ProperTables(t) && b.rootPort.Some? && forall k :: 0 <= k < |t.roles| ==> !IsRootPort(t.roles[k], b)
    ensures RecordName(PortRecords(t, timestamp), b.vlan, b.rootPort.value) == None
  {
    hide ObjStr, ProperTables, RecordName, OptName, PortRule, Collected;
    var ports, rule := PortRecords(t, timestamp), PortRule(t, timestamp);
    PortRecordsDistinct(t, timestamp);
    RecordNameIs(ports, b.vlan, b.rootPort.value);
    forall i | 0 <= i < |ports| ensures (ports[i].vlan, ports[i].id) != (b.vlan, b.rootPort.value) {
      assert ports[i] in ports;
      CollectedAre(t.roles, rule, ports[i]);
      var k :| 0 <= k < |t.roles| && rule(t.roles[k]) == Some(ports[i]);
      PortRuleHasRole(t, timestamp, t.roles[k]);
      assert !IsRootPort(t.roles[k], b);
    }
  }

  lemma PortRuleHasRole(t: Tables, timestamp: nat, row: Row)
    ensures PortRule(t, timestamp)(row).Some? <==> HasRole(row)
    ensures var r := PortRule(t, timestamp)(row); r.Some? ==> RowKey(row) == Some((r.value.vlan, r.value.id))
    ensures var r := PortRule(t, timestamp)(row); r.Some? ==> NamesPort(t.interfaces, r.value.id, OptName(r.value.interfaceName))
  {
    hide Indexed, ObjStr, NamesPort, OptName;
    PortNameIs(t.interfaces);
  }

  lemma PortNameIs(interfaces: map<int, string>)
    ensures forall port :: NamesPort(interfaces, port, OptName(At(interfaces, port, "UNKNOWN")))
  {
  }

  lemma RecordOf(t: Tables, timestamp: nat, row: Row) returns (r: PortRecord)
    requires HasRole(row)
    ensures PortRule(t, timestamp)(row) == Some(r) && RowKey(row) == Some((r.vlan, r.id))
    ensures NamesPort(t.interfaces, r.id, OptName(r.interfaceName))
  {
    PortRuleHasRole(t, timestamp, row);
    r := PortRule(t, timestamp)(row).value;
  }
}
