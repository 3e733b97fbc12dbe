/**
 Spanning-tree state as flat labelled samples and back
 (nexus/src/collectors/entitypoller.rs): the poller flattens port and bridge
 records into samples, and the store decodes the samples into records.
 */
module Stp {
  import opened Options
  import opened Sorting
  import opened Text

  // ---- Samples -------------------------------------------------------------------

  datatype Sample = Sample(name: string, labels: map<string, string>, value: int, timestamp: nat)

  datatype Metric =
    | DesignatedCost | PathCost | Priority | ForwardTransitions | Enabled | Role | State | OtherPort
    | RootPriority | RootCost | RootPort | TopologyChanges | TimeSinceChange | OtherBridge
    | NotStp

  const STP := "jaspy_stp_"
  const BRIDGE := "jaspy_stp_bridge_"

  function Name(m: Metric): string {
    match m
    case DesignatedCost => STP + "port_designated_cost"
    case PathCost => STP + "port_path_cost"
    case Priority => STP + "port_priority"
    case ForwardTransitions => STP + "port_forward_transitions"
    case Enabled => STP + "port_enabled"
    case Role => STP + "port_role"
    case State => STP + "port_state"
    case RootPriority => BRIDGE + "root_priority"
    case RootCost => BRIDGE + "root_cost"
    case RootPort => BRIDGE + "root_port"
    case TopologyChanges => BRIDGE + "topology_changes"
    case TimeSinceChange => BRIDGE + "time_since_topology_change"
    case OtherPort => STP
    case OtherBridge => BRIDGE
    case NotStp => ""
  }

  function PortMetric(key: string): Metric {
    if key == "port_role" then Role
    else if key == "port_state" then State
    else if key == "port_enabled" then Enabled
    else if key == "port_designated_cost" then DesignatedCost
    else if key == "port_path_cost" then PathCost
    else if key == "port_priority" then Priority
    else if key == "port_forward_transitions" then ForwardTransitions
    else OtherPort
  }

  function BridgeMetric(key: string): Metric {
    if key == "root_priority" then RootPriority
    else if key == "root_cost" then RootCost
    else if key == "root_port" then RootPort
    else if key == "topology_changes" then TopologyChanges
    else if key == "time_since_topology_change" then TimeSinceChange
    else OtherBridge
  }

  // The longer prefix is tried first, since it starts with the shorter one.
  function MetricOf(name: string): Metric {
    if BRIDGE <= name then BridgeMetric(name[|BRIDGE|..])
    else if STP <= name then PortMetric(name[|STP|..])
    else NotStp
  }

  predicate IsPortMetric(m: Metric) {
    m in {DesignatedCost, PathCost, Priority, ForwardTransitions, Enabled, Role, State}
  }

  predicate IsBridgeMetric(m: Metric) {
    m in {RootPriority, RootCost, RootPort, TopologyChanges, TimeSinceChange}
  }

  lemma PrefixesDiffer(key: string)
    requires key != "" && key[0] == 'p'
    ensures !(BRIDGE <= STP + key) && STP <= STP + key && (STP + key)[|STP|..] == key
  {
    assert (STP + key)[10] == 'p' && BRIDGE[10] == 'b';
  }

  lemma BridgePrefix(key: string)
    ensures BRIDGE <= BRIDGE + key && (BRIDGE + key)[|BRIDGE|..] == key
  {
  }

  // Every metric is recognized by its own name.
  lemma NamesAreRecognized(m: Metric)
    requires IsPortMetric(m) || IsBridgeMetric(m)
    ensures MetricOf(Name(m)) == m
  {
    if IsPortMetric(m) {
      PortNameRecognized(m);
    } else {
      BridgeNameRecognized(m);
    }
  }

  lemma PortNameRecognized(m: Metric)
    requires IsPortMetric(m)
    ensures MetricOf(Name(m)) == m
  {
    match m {
      case DesignatedCost => PrefixesDiffer("port_designated_cost");
      case PathCost => PrefixesDiffer("port_path_cost");
      case Priority => PrefixesDiffer("port_priority");
      case ForwardTransitions => PrefixesDiffer("port_forward_transitions");
      case Enabled => PrefixesDiffer("port_enabled");
      case Role => PrefixesDiffer("port_role");
      case State => PrefixesDiffer("port_state");
      case _ =>
    }
  }

  lemma BridgeNameRecognized(m: Metric)
    requires IsBridgeMetric(m)
    ensures MetricOf(Name(m)) == m
  {
    match m {
      case RootPriority => BridgePrefix("root_priority");
      case RootCost => BridgePrefix("root_cost");
      case RootPort => BridgePrefix("root_port");
      case TopologyChanges => BridgePrefix("topology_changes");
      case TimeSinceChange => BridgePrefix("time_since_topology_change");
      case _ =>
    }
  }

  // The names under which the metrics are stored: a prefix of its own for ports and
  // for bridges, and the column.
  lemma MetricNames(m: Metric, column: string)
    ensures (m, column) in {(Role, "port_role"), (State, "port_state"), (Enabled, "port_enabled"), (DesignatedCost, "port_designated_cost"),
              (PathCost, "port_path_cost"), (Priority, "port_priority"), (ForwardTransitions, "port_forward_transitions")} ==>
              Name(m) == "jaspy_stp_" + column
    ensures (m, column) in {(RootPriority, "root_priority"), (RootCost, "root_cost"), (RootPort, "root_port"),
              (TopologyChanges, "topology_changes"), (TimeSinceChange, "time_since_topology_change")} ==>
              Name(m) == "jaspy_stp_bridge_" + column
  {
  }

  // Any other name is one of a bridge, of a port, or none of this store, by its prefix.
  lemma OtherNames(name: string)
    ensures "jaspy_stp_bridge_" <= name <==> IsBridgeMetric(MetricOf(name)) || MetricOf(name).OtherBridge?
    ensures "jaspy_stp_" <= name && !("jaspy_stp_bridge_" <= name) <==> IsPortMetric(MetricOf(name)) || MetricOf(name).OtherPort?
  {
    assert "jaspy_stp_bridge_"[..10] == "jaspy_stp_";
    assert "jaspy_stp_bridge_" <= name ==> name[..10] == "jaspy_stp_bridge_"[..10];
  }

  // ---- Enumerations as numbers ----------------------------------------------------

  function RoleNumber(role: string): int {
    if role == "disabled" then 1
    else if role == "root" then 2
    else if role == "designated" then 3
    else if role == "alternate" then 4
    else if role == "backUp" || role == "backup" then 5
    else if role == "boundary" then 6
    else if role == "master" then 7
    else 0
  }

  function RoleText(n: int): string {
    if n == 1 then "disabled"
    else if n == 2 then "root"
    else if n == 3 then "designated"
    else if n == 4 then "alternate"
    else if n == 5 then "backUp"
    else if n == 6 then "boundary"
    else if n == 7 then "master"
    else "unknown"
  }

  function StateNumber(state: string): int {
    if state == "disabled" then 1
    else if state == "blocking" then 2
    else if state == "listening" then 3
    else if state == "learning" then 4
    else if state == "forwarding" then 5
    else if state == "broken" then 6
    else 0
  }

  function StateText(n: int): string {
    if n == 1 then "disabled"
    else if n == 2 then "blocking"
    else if n == 3 then "listening"
    else if n == 4 then "learning"
    else if n == 5 then "forwarding"
    else if n == 6 then "broken"
    else "unknown"
  }

  function EnableNumber(enable: string): int {
    if enable == "enabled" then 1 else if enable == "disabled" then 2 else 0
  }

  function EnableBool(n: int): Option<bool> {
    if n == 1 then Some(true) else if n == 2 then Some(false) else None
  }

  const ROLES: set<string> := {"disabled", "root", "designated", "alternate", "backUp", "boundary", "master"}
  const STATES: set<string> := {"disabled", "blocking", "listening", "learning", "forwarding", "broken"}

  // A role survives, HP's spelling of "backUp" becomes Cisco's, anything else is unknown.
  lemma RoleSurvives(role: string)
    ensures RoleText(RoleNumber(role)) == if role in ROLES then role else if role == "backup" then "backUp" else "unknown"
  {
  }

  lemma StateSurvives(state: string)
    ensures StateText(StateNumber(state)) == if state in STATES then state else "unknown"
  {
  }

  // Both texts are inverses on the numbers of the enumeration.
  lemma NumbersSurvive(n: int)
    ensures RoleNumber(RoleText(n)) == if 1 <= n <= 7 then n else 0
    ensures StateNumber(StateText(n)) == if 1 <= n <= 6 then n else 0
  {
  }

  // ---- Flattening --------------------------------------------------------------------

  // `full` tells the Cisco walk, which reports all seven columns of a port, from
  // HP's RPVST tables, which give path cost, role and state only.
  datatype PortRecord = PortRecord(
    vlan: int, id: int, interfaceName: string, interfaceId: int,
    role: string, state: string, enable: string,
    designatedCost: int, pathCost: int, priority: int, forwardTransitions: int,
    full: bool, timestamp: nat)

  datatype BridgeRecord = BridgeRecord(
    vlan: int, root: Option<(int, string)>, rootCost: Option<int>, rootPort: Option<int>,
    topologyChanges: Option<int>, timeSinceChange: Option<int>, timestamp: nat)

  datatype Device = Device(hostname: string, fqdn: string)

  function PortLabels(d: Device, r: PortRecord): map<string, string> {
    map["hostname" := d.hostname, "fqdn" := d.fqdn, "vlan" := ShowInt(r.vlan), "stp_port_id" := ShowInt(r.id),
        "interface_name" := r.interfaceName, "interface_id" := ShowInt(r.interfaceId)]
  }

  function PortValue(r: PortRecord, m: Metric): int {
    match m
    case DesignatedCost => r.designatedCost
    case PathCost => r.pathCost
    case Priority => r.priority
    case ForwardTransitions => r.forwardTransitions
    case Enabled => EnableNumber(r.enable)
    case Role => RoleNumber(r.role)
    case State => StateNumber(r.state)
    case _ => 0
  }

  function PortSample(d: Device, r: PortRecord, m: Metric): Sample {
    Sample(Name(m), PortLabels(d, r), PortValue(r, m), r.timestamp)
  }

  function PortMetrics(r: PortRecord): seq<Metric> {
    if r.full then [DesignatedCost, PathCost, Priority, ForwardTransitions, Enabled, Role, State]
    else [PathCost, Role, State]
  }

  function BridgeLabels(d: Device, r: BridgeRecord, m: Metric): map<string, string> {
    var labels := map["hostname" := d.hostname, "fqdn" := d.fqdn, "vlan" := ShowInt(r.vlan)];
    if m.RootPriority? && r.root.Some? then labels["root_mac" := r.root.value.1] else labels
  }

  function BridgeValue(r: BridgeRecord, m: Metric): Option<int> {
    match m
    case RootPriority => if r.root.Some? then Some(r.root.value.0) else None
    case RootCost => r.rootCost
    case RootPort => r.rootPort
    case TopologyChanges => r.topologyChanges
    case TimeSinceChange => r.timeSinceChange
    case _ => None
  }

  const BRIDGE_METRICS: seq<Metric> := [RootPriority, RootCost, RootPort, TopologyChanges, TimeSinceChange]

  function BridgeSample(d: Device, r: BridgeRecord, m: Metric): Sample
    requires BridgeValue(r, m).Some?
  {
    Sample(Name(m), BridgeLabels(d, r, m), BridgeValue(r, m).value, r.timestamp)
  }

  // A sample says whose it is: the device under both its names, the VLAN, and for a
  // port its number, its interface and the interface's number.
  lemma SamplesSayWhose(d: Device, r: PortRecord, m: Metric, b: BridgeRecord, n: Metric)
    requires BridgeValue(b, n).Some?
    ensures var labels := PortSample(d, r, m).labels;
      && labels.Keys == {"hostname", "fqdn", "vlan", "stp_port_id", "interface_name", "interface_id"}
      && labels["hostname"] == d.hostname && labels["fqdn"] == d.fqdn && labels["interface_name"] == r.interfaceName
    ensures var labels := BridgeSample(d, b, n).labels;
      && labels.Keys == {"hostname", "fqdn", "vlan"} + (if n == RootPriority then {"root_mac"} else {})
      && labels["hostname"] == d.hostname && labels["fqdn"] == d.fqdn
  {
    hide ShowInt, Name;
  }

  // ---- Decoded records -------------------------------------------------------------------

  datatype Port = Port(
    vlan: int, id: int, interfaceName: Option<string>, interfaceId: Option<int>,
    role: string, state: string, enabled: Option<bool>,
    designatedCost: int, pathCost: int, priority: int, forwardTransitions: int, timestamp: nat)

  datatype Bridge = Bridge(
    vlan: int, rootPriority: Option<int>, rootMac: Option<string>, rootCost: Option<int>, rootPort: Option<int>,
    rootPortName: Option<string>, topologyChanges: Option<int>, timeSinceChange: Option<int>, timestamp: nat)

  datatype Decoded = Decoded(ports: map<(int, int), Port>, bridges: map<int, Bridge>)

  function Label(s: Sample, key: string): string {
    if key in s.labels then s.labels[key] else ""
  }

  function OptName(name: string): Option<string> {
    if name == "" || name == "UNKNOWN" then None else Some(name)
  }

  function OptId(id: string): Option<int> {
    if ParseInt(id) == Some(0) then None else ParseInt(id)
  }

  function Max(a: nat, b: nat): nat {
    if a < b then b else a
  }

  function NewPort(s: Sample, vlan: int, id: int): Port {
    Port(vlan, id, OptName(Label(s, "interface_name")), OptId(Label(s, "interface_id")), "unknown", "unknown", None, 0, 0, 0, 0, 0)
  }

  function NewBridge(vlan: int): Bridge {
    Bridge(vlan, None, None, None, None, None, None, None, 0)
  }

  function WithPortValue(p: Port, m: Metric, value: int): Port {
    match m
    case Role => p.(role := RoleText(value))
    case State => p.(state := StateText(value))
    case Enabled => p.(enabled := EnableBool(value))
    case DesignatedCost => p.(designatedCost := value)
    case PathCost => p.(pathCost := value)
    case Priority => p.(priority := value)
    case ForwardTransitions => p.(forwardTransitions := value)
    case _ => p
  }

  function WithBridgeValue(b: Bridge, m: Metric, value: int, mac: string): Bridge {
    match m
    case RootPriority => b.(rootPriority := Some(value), rootMac := if mac != "" then Some(mac) else b.rootMac)
    case RootCost => b.(rootCost := Some(value))
    case RootPort => b.(rootPort := Some(value))
    case TopologyChanges => b.(topologyChanges := Some(value))
    case TimeSinceChange => b.(timeSinceChange := Some(value))
    case _ => b
  }

  // The record that a sample is about.
  datatype Subject = PortOf(vlan: int, id: int) | BridgeOf(vlan: int) | Nothing

  function SubjectOf(s: Sample): Subject {
    var vlan := ParseInt(Label(s, "vlan"));
    if MetricOf(s.name).NotStp? || vlan.None? then Nothing
    else if IsBridgeMetric(MetricOf(s.name)) || MetricOf(s.name).OtherBridge? then BridgeOf(vlan.value)
    else
      var id := ParseInt(Label(s, "stp_port_id"));
      if id.None? then Nothing else PortOf(vlan.value, id.value)
  }

  function PortAfter(ports: map<(int, int), Port>, s: Sample, key: (int, int)): Port {
    var port := if key in ports then ports[key] else NewPort(s, key.0, key.1);
    var changed := WithPortValue(port, MetricOf(s.name), s.value);
    changed.(timestamp := Max(port.timestamp, s.timestamp))
  }

  function BridgeAfter(bridges: map<int, Bridge>, s: Sample, vlan: int): Bridge {
    var bridge := if vlan in bridges then bridges[vlan] else NewBridge(vlan);
    var changed := WithBridgeValue(bridge, MetricOf(s.name), s.value, Label(s, "root_mac"));
    changed.(timestamp := Max(bridge.timestamp, s.timestamp))
  }

  function After(d: Decoded, s: Sample): Decoded {
    match SubjectOf(s)
    case PortOf(vlan, id) => d.(ports := d.ports[(vlan, id) := PortAfter(d.ports, s, (vlan, id))])
    case BridgeOf(vlan) => d.(bridges := d.bridges[vlan := BridgeAfter(d.bridges, s, vlan)])
    case Nothing => d
  }

  function Decode(samples: seq<Sample>): Decoded {
    if samples == [] then Decoded(map[], map[])
    else After(Decode(samples[..|samples| - 1]), samples[|samples| - 1])
  }

  // ---- What a record looks like when some of its samples have been seen ---------------------

  ghost function Seen(samples: seq<Sample>, subject: Subject): set<Metric> {
    set k | 0 <= k < |samples| && SubjectOf(samples[k]) == subject :: MetricOf(samples[k].name)
  }

  // The columns in `seen` as in p, the others as if never reported.
  function PartialPort(p: Port, seen: set<Metric>): Port {
    p.(role := if Role in seen then p.role else "unknown",
       state := if State in seen then p.state else "unknown",
       enabled := if Enabled in seen then p.enabled else None,
       designatedCost := if DesignatedCost in seen then p.designatedCost else 0,
       pathCost := if PathCost in seen then p.pathCost else 0,
       priority := if Priority in seen then p.priority else 0,
       forwardTransitions := if ForwardTransitions in seen then p.forwardTransitions else 0)
  }

  function PartialBridge(b: Bridge, seen: set<Metric>): Bridge {
    b.(rootPriority := if RootPriority in seen then b.rootPriority else None,
       rootMac := if RootPriority in seen then b.rootMac else None,
       rootCost := if RootCost in seen then b.rootCost else None,
       rootPort := if RootPort in seen then b.rootPort else None,
       topologyChanges := if TopologyChanges in seen then b.topologyChanges else None,
       timeSinceChange := if TimeSinceChange in seen then b.timeSinceChange else None)
  }

  // The sample says of its port nothing but what p says.
  predicate AgreesWithPort(s: Sample, p: Port) {
    && s.timestamp == p.timestamp
    && OptName(Label(s, "interface_name")) == p.interfaceName && OptId(Label(s, "interface_id")) == p.interfaceId
    && WithPortValue(p, MetricOf(s.name), s.value) == p
  }

  predicate AgreesWithBridge(s: Sample, b: Bridge) {
    && s.timestamp == b.timestamp && b.rootPortName.None?
    && (MetricOf(s.name).RootPriority? ==> b.rootMac == if Label(s, "root_mac") != "" then Some(Label(s, "root_mac")) else None)
    && WithBridgeValue(b, MetricOf(s.name), s.value, Label(s, "root_mac")) == b
  }

  ghost predicate AllAgreeOnPort(samples: seq<Sample>, p: Port) {
    forall k :: 0 <= k < |samples| && SubjectOf(samples[k]) == PortOf(p.vlan, p.id) ==> AgreesWithPort(samples[k], p)
  }

  ghost predicate AllAgreeOnBridge(samples: seq<Sample>, b: Bridge) {
    forall k :: 0 <= k < |samples| && SubjectOf(samples[k]) == BridgeOf(b.vlan) ==> AgreesWithBridge(samples[k], b)
  }

  lemma SeenSnoc(samples: seq<Sample>, subject: Subject)
    requires samples != []
    ensures var front, last := samples[..|samples| - 1], samples[|samples| - 1];
      Seen(samples, subject) == Seen(front, subject) + (if SubjectOf(last) == subject then {MetricOf(last.name)} else {})
  {
    hide SubjectOf, MetricOf;
    var front := samples[..|samples| - 1];
    forall m | m in Seen(front, subject) ensures m in Seen(samples, subject) {
      var k :| 0 <= k < |front| && SubjectOf(front[k]) == subject && MetricOf(front[k].name) == m;
      assert samples[k] == front[k];
    }
    forall m | m in Seen(samples, subject) && !(SubjectOf(samples[|samples| - 1]) == subject && MetricOf(samples[|samples| - 1].name) == m)
      ensures m in Seen(front, subject)
    {
      var k :| 0 <= k < |samples| && SubjectOf(samples[k]) == subject && MetricOf(samples[k].name) == m;
      assert samples[k] == front[k];
    }
  }

  // Whatever the order and the company of the samples: a port that they agree on
  // is decoded with exactly the columns that were seen.
  lemma {:induction false} DecodedPort(samples: seq<Sample>, p: Port)
    requires AllAgreeOnPort(samples, p)
    ensures var seen, d, key := Seen(samples, PortOf(p.vlan, p.id)), Decode(samples), (p.vlan, p.id);
      (key in d.ports <==> seen != {}) && (seen != {} ==> d.ports[key] == PartialPort(p, seen))
  {
    hide SubjectOf, MetricOf;
    if samples != [] {
      var front, last := samples[..|samples| - 1], samples[|samples| - 1];
      DecodedPort(front, p);
      SeenSnoc(samples, PortOf(p.vlan, p.id));
      if SubjectOf(last) == PortOf(p.vlan, p.id) {
        OnePortSample(Decode(front).ports, last, p, Seen(front, PortOf(p.vlan, p.id)));
      }
    }
  }

  lemma OnePortSample(ports: map<(int, int), Port>, s: Sample, p: Port, seen: set<Metric>)
    requires (p.vlan, p.id) in ports <==> seen != {}
    requires seen != {} ==> ports[(p.vlan, p.id)] == PartialPort(p, seen)
    requires AgreesWithPort(s, p)
    ensures PortAfter(ports, s, (p.vlan, p.id)) == PartialPort(p, seen + {MetricOf(s.name)})
  {
    hide MetricOf, OptName, OptId, Label, RoleText, StateText, EnableBool, WithPortValue;
    if seen == {} {
      assert NewPort(s, p.vlan, p.id) == PartialPort(p, {}).(timestamp := 0);
      PartialGrows(p, {}, MetricOf(s.name), s.value, 0);
    } else {
      PartialGrows(p, seen, MetricOf(s.name), s.value, p.timestamp);
    }
  }

  lemma PartialGrows(p: Port, seen: set<Metric>, m: Metric, value: int, timestamp: nat)
    requires WithPortValue(p, m, value) == p
    ensures WithPortValue(PartialPort(p, seen).(timestamp := timestamp), m, value) ==
            PartialPort(p, seen + {m}).(timestamp := timestamp)
  {
    hide RoleText, StateText, EnableBool;
    var grown := seen + {m};
    assert forall x :: x in grown <==> x in seen || x == m;
    match m
    case Role => case State => case Enabled => case DesignatedCost => case PathCost =>
    case Priority => case ForwardTransitions => case _ =>
  }

  lemma {:induction false} DecodedBridge(samples: seq<Sample>, b: Bridge)
    requires AllAgreeOnBridge(samples, b)
    ensures var seen, d := Seen(samples, BridgeOf(b.vlan)), Decode(samples);
      (b.vlan in d.bridges <==> seen != {}) && (seen != {} ==> d.bridges[b.vlan] == PartialBridge(b, seen))
  {
    hide SubjectOf, MetricOf;
    if samples != [] {
      var front, last := samples[..|samples| - 1], samples[|samples| - 1];
      DecodedBridge(front, b);
      SeenSnoc(samples, BridgeOf(b.vlan));
      if SubjectOf(last) == BridgeOf(b.vlan) {
        OneBridgeSample(Decode(front).bridges, last, b, Seen(front, BridgeOf(b.vlan)));
      }
    }
  }

  lemma OneBridgeSample(bridges: map<int, Bridge>, s: Sample, b: Bridge, seen: set<Metric>)
    requires b.vlan in bridges <==> seen != {}
    requires seen != {} ==> bridges[b.vlan] == PartialBridge(b, seen)
    requires AgreesWithBridge(s, b)
    ensures BridgeAfter(bridges, s, b.vlan) == PartialBridge(b, seen + {MetricOf(s.name)})
  {
    hide MetricOf, Label;
  }
}
