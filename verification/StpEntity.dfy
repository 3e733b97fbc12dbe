/**
 The STP part of the entity store (nexus/src/collectors/entitypoller.rs): the
 loops that emit samples, and the decoder with its sorted output.
 */
module StpEntity {
  import opened Options
  import opened Sorting
  import opened Stp
  import opened StpRoundTrip

  // ---- Emitting ---------------------------------------------------------------------

  method PushPort(out: seq<Sample>, d: Device, r: PortRecord) returns (more: seq<Sample>)
    ensures more == out + PortSamples(d, r, |PortMetrics(r)|)
  {
    hide PortSample, PortMetrics;
    more := out;
    for c := 0 to |PortMetrics(r)|
      invariant more == out + PortSamples(d, r, c)
    {
      more := more + [PortSample(d, r, PortMetrics(r)[c])];
    }
  }

  method PushBridge(out: seq<Sample>, d: Device, r: BridgeRecord) returns (more: seq<Sample>)
    ensures more == out + BridgeSamples(d, r, |BRIDGE_METRICS|)
  {
    hide BridgeSample, BridgeValue;
    more := out;
    for c := 0 to |BRIDGE_METRICS|
      invariant more == out + BridgeSamples(d, r, c)
    {
      if BridgeValue(r, BRIDGE_METRICS[c]).Some? {
        more := more + [BridgeSample(d, r, BRIDGE_METRICS[c])];
      }
    }
  }

  method FlattenRecords(d: Device, ports: seq<PortRecord>, bridges: seq<BridgeRecord>) returns (out: seq<Sample>)
    ensures out == Flatten(d, ports, bridges)
  {
    hide PortSamples, BridgeSamples, PortMetrics;
    out := [];
    for i := 0 to |ports|
      invariant out == AllPortSamples(d, ports[..i])
    {
      assert ports[..i + 1][..i] == ports[..i];
      out := PushPort(out, d, ports[i]);
    }
    assert ports[..|ports|] == ports;
    for i := 0 to |bridges|
      invariant out == AllPortSamples(d, ports) + AllBridgeSamples(d, bridges[..i])
    {
      assert bridges[..i + 1][..i] == bridges[..i];
      out := PushBridge(out, d, bridges[i]);
    }
    assert bridges[..|bridges|] == bridges;
  }

  // ---- Decoding ---------------------------------------------------------------------------

  method DecodeSamples(samples: seq<Sample>) returns (decoded: Decoded)
    ensures decoded == Decode(samples)
  {
    hide MetricOf, PortAfter, BridgeAfter;
    var ports: map<(int, int), Port> := map[];
    var bridges: map<int, Bridge> := map[];
    for k := 0 to |samples|
      invariant Decoded(ports, bridges) == Decode(samples[..k])
    {
      assert samples[..k + 1][..k] == samples[..k];
      var s := samples[k];
      match SubjectOf(s) {
        case PortOf(vlan, id) => ports := ports[(vlan, id) := PortAfter(ports, s, (vlan, id))];
        case BridgeOf(vlan) => bridges := bridges[vlan := BridgeAfter(bridges, s, vlan)];
        case Nothing =>
      }
    }
    assert samples[..|samples|] == samples;
    decoded := Decoded(ports, bridges);
  }

  ghost predicate KeyedByRecord(d: Decoded) {
    && (forall key :: key in d.ports ==> (d.ports[key].vlan, d.ports[key].id) == key)
    && (forall vlan :: vlan in d.bridges ==> d.bridges[vlan].vlan == vlan && d.bridges[vlan].rootPortName.None?)
  }

  lemma {:induction false} DecodeKeyed(samples: seq<Sample>)
    ensures KeyedByRecord(Decode(samples))
  {
    hide SubjectOf, PortAfter, BridgeAfter;
    if samples != [] {
      var before, s := Decode(samples[..|samples| - 1]), samples[|samples| - 1];
      DecodeKeyed(samples[..|samples| - 1]);
      match SubjectOf(s) {
        case PortOf(vlan, id) => PortAfterKeyed(before.ports, s, (vlan, id));
        case BridgeOf(vlan) => BridgeAfterKeyed(before.bridges, s, vlan);
        case Nothing =>
      }
    }
  }

  lemma PortAfterKeyed(ports: map<(int, int), Port>, s: Sample, key: (int, int))
    requires key in ports ==> (ports[key].vlan, ports[key].id) == key
    ensures (PortAfter(ports, s, key).vlan, PortAfter(ports, s, key).id) == key
  {
    hide MetricOf, RoleText, StateText;
  }

  lemma BridgeAfterKeyed(bridges: map<int, Bridge>, s: Sample, vlan: int)
    requires vlan in bridges ==> bridges[vlan].vlan == vlan && bridges[vlan].rootPortName.None?
    ensures BridgeAfter(bridges, s, vlan).vlan == vlan && BridgeAfter(bridges, s, vlan).rootPortName.None?
  {
    hide MetricOf;
  }

  // ---- The order of the rows ------------------------------------------------------------------

  // No name comes before every name.
  predicate NameLe(a: Option<string>, b: Option<string>) {
    a.None? || (b.Some? && StringLe(a.value, b.value))
  }

  predicate PortLe(a: Port, b: Port) {
    a.vlan < b.vlan || (a.vlan == b.vlan &&
      (if a.interfaceName != b.interfaceName then NameLe(a.interfaceName, b.interfaceName) else a.id <= b.id))
  }

  lemma NameLeOrders(a: Option<string>, b: Option<string>, c: Option<string>)
    ensures NameLe(a, b) || NameLe(b, a)
    ensures NameLe(a, b) && NameLe(b, a) ==> a == b
    ensures NameLe(a, b) && NameLe(b, c) ==> NameLe(a, c)
  {
    if a.Some? && b.Some? {
      StringLeTotal(a.value, b.value);
      if c.Some? && StringLe(a.value, b.value) && StringLe(b.value, c.value) {
        StringLeTransitive(a.value, b.value, c.value);
      }
    }
  }

  lemma PortLePreorder()
    ensures TotalPreorder(PortLe)
  {
    hide NameLe;
    forall x: Port, y: Port ensures PortLe(x, y) || PortLe(y, x) {
      NameLeOrders(x.interfaceName, y.interfaceName, None);
    }
    forall x: Port, y: Port, z: Port | PortLe(x, y) && PortLe(y, z) ensures PortLe(x, z) {
      NameLeOrders(x.interfaceName, y.interfaceName, z.interfaceName);
      NameLeOrders(y.interfaceName, x.interfaceName, z.interfaceName);
      NameLeOrders(y.interfaceName, z.interfaceName, x.interfaceName);
    }
  }

  // ---- The decoder -----------------------------------------------------------------------------

  // The rows are the decoded ports, each once, sorted.
  ghost predicate PortRows(d: Decoded, rows: seq<Port>) {
    && SortedBy(rows, PortLe)
    && |rows| == |d.ports|
    && forall p :: p in rows <==> exists key :: key in d.ports && d.ports[key] == p
  }

  // The rows by VLAN, then by interface name, ports without one first, then by port.
  lemma PortRowsOrder(d: Decoded, rows: seq<Port>, i: nat, j: nat)
    requires PortRows(d, rows) && i < j < |rows|
    ensures var a, b := rows[i], rows[j];
      && a.vlan <= b.vlan
      && (a.vlan == b.vlan && b.interfaceName.None? ==> a.interfaceName.None?)
      && (a.vlan == b.vlan && a.interfaceName.Some? && b.interfaceName.Some? ==>
            Alphabetical(a.interfaceName.value, b.interfaceName.value))
      && (a.vlan == b.vlan && a.interfaceName == b.interfaceName ==> a.id <= b.id)
  {
    var a, b := rows[i], rows[j];
    assert PortLe(a, b);
    if a.interfaceName.Some? && b.interfaceName.Some? {
      StringLeIs(a.interfaceName.value, b.interfaceName.value);
    }
  }

  // The name of the root port, through the rows of the same VLAN.
  function RootName(d: Decoded, b: Bridge): Option<string> {
    if b.rootPort.Some? && (b.vlan, b.rootPort.value) in d.ports then d.ports[(b.vlan, b.rootPort.value)].interfaceName else None
  }

  // A decoded bridge, with the name of its root port filled in.
  predicate IsResolved(d: Decoded, row: Bridge) {
    row.vlan in d.bridges && row == d.bridges[row.vlan].(rootPortName := RootName(d, d.bridges[row.vlan]))
  }

  ghost predicate BridgeRows(d: Decoded, rows: seq<Bridge>) {
    && (forall i, j :: 0 <= i < j < |rows| ==> rows[i].vlan < rows[j].vlan)
    && (forall i :: 0 <= i < |rows| ==> IsResolved(d, rows[i]))
    && (forall vlan :: vlan in d.bridges ==> exists i :: 0 <= i < |rows| && rows[i].vlan == vlan)
  }

  method DecodeEntity(samples: seq<Sample>) returns (ports: seq<Port>, bridges: seq<Bridge>)
    ensures PortRows(Decode(samples), ports)
    ensures BridgeRows(Decode(samples), bridges)
  {
    var decoded := DecodeSamples(samples);
    DecodeKeyed(samples);
    hide Decode;
    ports := SortPorts(decoded);
    bridges := ResolveBridges(decoded, ports);
  }

  method SortPorts(d: Decoded) returns (rows: seq<Port>)
    requires KeyedByRecord(d)
    ensures PortRows(d, rows)
  {
    hide PortLe;
    var rest, list := d.ports.Keys, [];
    while rest != {}
      invariant rest <= d.ports.Keys
      invariant |list| + |rest| == |d.ports|
      invariant forall p :: p in list <==> exists key :: key in d.ports && key !in rest && d.ports[key] == p
    {
      ghost var some := Member(rest);
      var key :| key in rest;
      list := list + [d.ports[key]];
      rest := rest - {key};
    }
    rows := SortBy(list, PortLe);
    PortLePreorder();
    SortBySorted(list, PortLe);
    forall p ensures p in rows <==> p in list {
      assert p in multiset(rows) <==> p in multiset(list);
    }
  }

  // The first row of this port of this VLAN.
  method FindPort(rows: seq<Port>, vlan: int, id: int) returns (name: Option<string>)
    ensures (forall p :: p in rows ==> (p.vlan, p.id) != (vlan, id)) ==> name == None
    ensures (exists p :: p in rows && (p.vlan, p.id) == (vlan, id)) ==>
              exists p :: p in rows && (p.vlan, p.id) == (vlan, id) && name == p.interfaceName
  {
    for i := 0 to |rows|
      invariant forall j :: 0 <= j < i ==> (rows[j].vlan, rows[j].id) != (vlan, id)
    {
      if rows[i].vlan == vlan && rows[i].id == id {
        assert rows[i] in rows;
        return rows[i].interfaceName;
      }
    }
    name := None;
  }

  method ResolveBridges(d: Decoded, ports: seq<Port>) returns (rows: seq<Bridge>)
    requires KeyedByRecord(d) && PortRows(d, ports)
    ensures BridgeRows(d, rows)
  {
    hide SortedBy;
    var vlans := SortedKeys(d.bridges.Keys);
    rows := [];
    for i := 0 to |vlans|
      invariant |rows| == i
      invariant forall j :: 0 <= j < i ==> rows[j].vlan == vlans[j] && IsResolved(d, rows[j])
    {
      assert vlans[i] in vlans;
      var bridge := d.bridges[vlans[i]];
      if bridge.rootPort.Some? {
        var name := FindPort(ports, bridge.vlan, bridge.rootPort.value);
        RootNameFound(d, ports, bridge, name);
        bridge := bridge.(rootPortName := name);
      }
      rows := rows + [bridge];
    }
    forall vlan | vlan in d.bridges ensures exists i :: 0 <= i < |rows| && rows[i].vlan == vlan {
      var i :| 0 <= i < |vlans| && vlans[i] == vlan;
    }
  }

  lemma RootNameFound(d: Decoded, ports: seq<Port>, b: Bridge, name: Option<string>)
    requires KeyedByRecord(d) && PortRows(d, ports) && b.rootPort.Some?
    requires (forall p :: p in ports ==> (p.vlan, p.id) != (b.vlan, b.rootPort.value)) ==> name == None
    requires (exists p :: p in ports && (p.vlan, p.id) == (b.vlan, b.rootPort.value)) ==>
               exists p :: p in ports && (p.vlan, p.id) == (b.vlan, b.rootPort.value) && name == p.interfaceName
    ensures name == RootName(d, b)
  {
    hide SortedBy;
    var key := (b.vlan, b.rootPort.value);
    if key in d.ports {
      assert d.ports[key] in ports;
    }
  }

  // ---- The whole round trip ------------------------------------------------------------------------

  // The interface name of the record of this port of this VLAN.
  function RecordName(ports: seq<PortRecord>, vlan: int, id: int): Option<string> {
    if ports == [] then None
    else
      var last := ports[|ports| - 1];
      if (last.vlan, last.id) == (vlan, id) then OptName(last.interfaceName)
      else RecordName(ports[..|ports| - 1], vlan, id)
  }

  lemma {:induction false} RecordNameIs(ports: seq<PortRecord>, vlan: int, id: int)
    requires forall i, j :: 0 <= i < j < |ports| ==> (ports[i].vlan, ports[i].id) != (ports[j].vlan, ports[j].id)
    ensures forall i :: 0 <= i < |ports| && (ports[i].vlan, ports[i].id) == (vlan, id) ==>
              RecordName(ports, vlan, id) == OptName(ports[i].interfaceName)
    ensures (forall i :: 0 <= i < |ports| ==> (ports[i].vlan, ports[i].id) != (vlan, id)) ==> RecordName(ports, vlan, id) == None
  {
    hide OptName;
    if ports != [] {
      RecordNameIs(ports[..|ports| - 1], vlan, id);
    }
  }

  // What is stored for a bridge: its own values, and the name that the record of
  // its root port has in the same VLAN.
  function StoredBridge(ports: seq<PortRecord>, r: BridgeRecord): Bridge {
    NormalBridge(r).(rootPortName := if r.rootPort.Some? then RecordName(ports, r.vlan, r.rootPort.value) else None)
  }

  // Emit records as samples, shuffle the samples, decode them: the rows are the
  // records, normalized, each once and in order.
  lemma RowsAreRecords(d: Device, ports: seq<PortRecord>, bridges: seq<BridgeRecord>, samples: seq<Sample>,
                       portRows: seq<Port>, bridgeRows: seq<Bridge>)
    requires DistinctKeys(ports, bridges) && IsArrangement(d, ports, bridges, samples)
    requires PortRows(Decode(samples), portRows) && BridgeRows(Decode(samples), bridgeRows)
    ensures SortedBy(portRows, PortLe) && |portRows| == |ports|
    ensures forall p :: p in portRows <==> exists i :: 0 <= i < |ports| && p == NormalPort(ports[i])
    ensures forall i, j :: 0 <= i < j < |bridgeRows| ==> bridgeRows[i].vlan < bridgeRows[j].vlan
    ensures forall b :: b in bridgeRows <==> exists i :: 0 <= i < |bridges| && Reports(bridges[i]) && b == StoredBridge(ports, bridges[i])
  {
    DecodeUndoesFlatten(d, ports, bridges, samples);
    var decoded := Decode(samples);
    hide Decode, IsArrangement, NormalPort, NormalBridge, StoredBridge, SortedBy, PortFits, Reports;
    PortCount(ports, bridges, decoded);
    forall i | 0 <= i < |bridges| && Reports(bridges[i])
      ensures decoded.bridges[bridges[i].vlan].(rootPortName := RootName(decoded, decoded.bridges[bridges[i].vlan])) ==
              StoredBridge(ports, bridges[i])
    {
      StoredName(ports, bridges, decoded, bridges[i]);
    }
    forall b ensures b in bridgeRows <==> exists i :: 0 <= i < |bridges| && Reports(bridges[i]) && b == StoredBridge(ports, bridges[i]) {
      if i :| 0 <= i < |bridges| && Reports(bridges[i]) && b == StoredBridge(ports, bridges[i]) {
        var k :| 0 <= k < |bridgeRows| && bridgeRows[k].vlan == bridges[i].vlan;
        assert IsResolved(decoded, bridgeRows[k]);
      }
      if b in bridgeRows {
        var k :| 0 <= k < |bridgeRows| && bridgeRows[k] == b;
        assert IsResolved(decoded, bridgeRows[k]);
      }
    }
  }

  lemma StoredName(ports: seq<PortRecord>, bridges: seq<BridgeRecord>, decoded: Decoded, r: BridgeRecord)
    requires DistinctKeys(ports, bridges)
    requires forall i :: 0 <= i < |ports| ==>
      (ports[i].vlan, ports[i].id) in decoded.ports && decoded.ports[(ports[i].vlan, ports[i].id)] == NormalPort(ports[i])
    requires forall key :: key in decoded.ports ==> exists i :: 0 <= i < |ports| && (ports[i].vlan, ports[i].id) == key
    ensures NormalBridge(r).(rootPortName := RootName(decoded, NormalBridge(r))) == StoredBridge(ports, r)
  {
    if r.rootPort.Some? {
      RecordNameIs(ports, r.vlan, r.rootPort.value);
      hide RecordName, OptName, PortFits;
      var key := (r.vlan, r.rootPort.value);
      if key in decoded.ports {
        var i :| 0 <= i < |ports| && (ports[i].vlan, ports[i].id) == key;
      }
    }
  }

  lemma PortCount(ports: seq<PortRecord>, bridges: seq<BridgeRecord>, decoded: Decoded)
    requires DistinctKeys(ports, bridges)
    requires forall i :: 0 <= i < |ports| ==> (ports[i].vlan, ports[i].id) in decoded.ports
    requires forall key :: key in decoded.ports ==> exists i :: 0 <= i < |ports| && (ports[i].vlan, ports[i].id) == key
    ensures |decoded.ports| == |ports|
  {
    hide PortFits;
    var keys := seq(|ports|, i requires 0 <= i < |ports| => (ports[i].vlan, ports[i].id));
    DistinctMultiset(keys);
    assert |keys| == |multiset(keys)|;
    forall key ensures key in decoded.ports <==> key in keys {
      if key in decoded.ports {
        var i :| 0 <= i < |ports| && (ports[i].vlan, ports[i].id) == key;
        assert keys[i] == key;
      }
    }
    assert decoded.ports.Keys == (set key | key in keys);
  }
}
