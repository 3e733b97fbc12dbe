/**
 Decoding undoes flattening (nexus/src/collectors/entitypoller.rs): whatever the
 order of the samples, the decoded records are the ones that were flattened.
 */
module StpRoundTrip {
  import opened Options
  import opened Snmp
  import opened Sorting
  import opened Text
  import opened Stp

  // ---- All samples of some records ---------------------------------------------------

  function Append(out: seq<Sample>, s: Option<Sample>): seq<Sample> {
    if s.Some? then out + [s.value] else out
  }

  function PortSamples(d: Device, r: PortRecord, count: nat): seq<Sample>
    requires count <= |PortMetrics(r)|
  {
    if count == 0 then [] else PortSamples(d, r, count - 1) + [PortSample(d, r, PortMetrics(r)[count - 1])]
  }

  function MaybeBridgeSample(d: Device, r: BridgeRecord, m: Metric): Option<Sample> {
    if BridgeValue(r, m).Some? then Some(BridgeSample(d, r, m)) else None
  }

  function BridgeSamples(d: Device, r: BridgeRecord, count: nat): seq<Sample>
    requires count <= |BRIDGE_METRICS|
  {
    if count == 0 then [] else Append(BridgeSamples(d, r, count - 1), MaybeBridgeSample(d, r, BRIDGE_METRICS[count - 1]))
  }

  function AllPortSamples(d: Device, ports: seq<PortRecord>): seq<Sample> {
    if ports == [] then []
    else
      var last := ports[|ports| - 1];
      AllPortSamples(d, ports[..|ports| - 1]) + PortSamples(d, last, |PortMetrics(last)|)
  }

  function AllBridgeSamples(d: Device, bridges: seq<BridgeRecord>): seq<Sample> {
    if bridges == [] then []
    else AllBridgeSamples(d, bridges[..|bridges| - 1]) + BridgeSamples(d, bridges[|bridges| - 1], |BRIDGE_METRICS|)
  }

  function Flatten(d: Device, ports: seq<PortRecord>, bridges: seq<BridgeRecord>): seq<Sample> {
    AllPortSamples(d, ports) + AllBridgeSamples(d, bridges)
  }

  // ---- What comes back --------------------------------------------------------------------

  function NormalPort(r: PortRecord): Port {
    Port(
      r.vlan, r.id, OptName(r.interfaceName), if r.interfaceId == 0 then None else Some(r.interfaceId),
      if r.role in ROLES then r.role else if r.role == "backup" then "backUp" else "unknown",
      if r.state in STATES then r.state else "unknown",
      if !r.full then None else if r.enable == "enabled" then Some(true) else if r.enable == "disabled" then Some(false) else None,
      if r.full then r.designatedCost else 0,
      r.pathCost,
      if r.full then r.priority else 0,
      if r.full then r.forwardTransitions else 0,
      r.timestamp)
  }

  function NormalBridge(r: BridgeRecord): Bridge {
    Bridge(
      r.vlan,
      if r.root.Some? then Some(r.root.value.0) else None,
      if r.root.Some? && r.root.value.1 != "" then Some(r.root.value.1) else None,
      r.rootCost, r.rootPort, None, r.topologyChanges, r.timeSinceChange, r.timestamp)
  }

  predicate Fits(n: int) {
    -I64_MAX - 1 <= n <= I64_MAX
  }

  predicate PortFits(r: PortRecord) {
    Fits(r.vlan) && Fits(r.id) && Fits(r.interfaceId)
  }

  // A bridge without any value leaves no sample behind, and so is not decoded.
  predicate Reports(r: BridgeRecord) {
    r.root.Some? || r.rootCost.Some? || r.rootPort.Some? || r.topologyChanges.Some? || r.timeSinceChange.Some?
  }

  ghost predicate DistinctKeys(ports: seq<PortRecord>, bridges: seq<BridgeRecord>) {
    && (forall i, j :: 0 <= i < j < |ports| ==> (ports[i].vlan, ports[i].id) != (ports[j].vlan, ports[j].id))
    && (forall i, j :: 0 <= i < j < |bridges| ==> bridges[i].vlan != bridges[j].vlan)
    && (forall i :: 0 <= i < |ports| ==> PortFits(ports[i]))
    && (forall i :: 0 <= i < |bridges| ==> Fits(bridges[i].vlan))
  }

  // ---- One sample --------------------------------------------------------------------------

  lemma PortLabelsRead(d: Device, r: PortRecord, s: Sample)
    requires s.labels == PortLabels(d, r)
    ensures Label(s, "vlan") == ShowInt(r.vlan) && Label(s, "stp_port_id") == ShowInt(r.id)
    ensures Label(s, "interface_name") == r.interfaceName && Label(s, "interface_id") == ShowInt(r.interfaceId)
  {
    hide ShowInt;
  }

  lemma PortSampleSubject(d: Device, r: PortRecord, m: Metric)
    requires PortFits(r) && IsPortMetric(m)
    ensures SubjectOf(PortSample(d, r, m)) == PortOf(r.vlan, r.id)
    ensures MetricOf(PortSample(d, r, m).name) == m
  {
    NamesAreRecognized(m);
    PortLabelsRead(d, r, PortSample(d, r, m));
    ShownIntReads(r.vlan);
    ShownIntReads(r.id);
    PortMetricIsNoOther(m);
    hide MetricOf, Name, Label, PortLabels, ShowInt, ParseInt, IsPortMetric, IsBridgeMetric, PortValue;
  }

  lemma PortMetricIsNoOther(m: Metric)
    requires IsPortMetric(m)
    ensures !IsBridgeMetric(m) && !m.OtherBridge? && !m.NotStp?
  {
  }

  lemma PortSampleAgrees(d: Device, r: PortRecord, m: Metric)
    requires PortFits(r) && IsPortMetric(m) && (r.full || m in {PathCost, Role, State})
    ensures AgreesWithPort(PortSample(d, r, m), NormalPort(r))
  {
    PortSampleSubject(d, r, m);
    PortLabelsRead(d, r, PortSample(d, r, m));
    ShownIntReads(r.interfaceId);
    PortValueKept(r, m);
    hide MetricOf, Name, Label, PortLabels, ShowInt, ParseInt, SubjectOf, WithPortValue, PortValue;
  }

  // A metric's own value changes nothing in the record it comes from.
  lemma PortValueKept(r: PortRecord, m: Metric)
    requires IsPortMetric(m) && (r.full || m in {PathCost, Role, State})
    ensures WithPortValue(NormalPort(r), m, PortValue(r, m)) == NormalPort(r)
  {
    RoleSurvives(r.role);
    StateSurvives(r.state);
    hide RoleText, RoleNumber, StateText, StateNumber, OptName;
  }

  lemma BridgeLabelsRead(d: Device, r: BridgeRecord, m: Metric, s: Sample)
    requires s.labels == BridgeLabels(d, r, m)
    ensures Label(s, "vlan") == ShowInt(r.vlan)
    ensures m.RootPriority? && r.root.Some? ==> Label(s, "root_mac") == r.root.value.1
  {
    hide ShowInt;
  }

  lemma BridgeSampleSubject(d: Device, r: BridgeRecord, m: Metric)
    requires Fits(r.vlan) && IsBridgeMetric(m) && BridgeValue(r, m).Some?
    ensures SubjectOf(BridgeSample(d, r, m)) == BridgeOf(r.vlan)
    ensures MetricOf(BridgeSample(d, r, m).name) == m
  {
    NamesAreRecognized(m);
    BridgeLabelsRead(d, r, m, BridgeSample(d, r, m));
    ShownIntReads(r.vlan);
    hide MetricOf, Name, Label, BridgeLabels, ShowInt, ParseInt;
  }

  lemma BridgeSampleAgrees(d: Device, r: BridgeRecord, m: Metric)
    requires Fits(r.vlan) && IsBridgeMetric(m) && BridgeValue(r, m).Some?
    ensures AgreesWithBridge(BridgeSample(d, r, m), NormalBridge(r))
  {
    BridgeSampleSubject(d, r, m);
    BridgeLabelsRead(d, r, m, BridgeSample(d, r, m));
    hide MetricOf, Name, Label, BridgeLabels, ShowInt, SubjectOf;
  }

  // ---- Where samples come from ---------------------------------------------------------------

  ghost predicate FromPort(d: Device, ports: seq<PortRecord>, s: Sample) {
    exists i, c :: 0 <= i < |ports| && 0 <= c < |PortMetrics(ports[i])| && s == PortSample(d, ports[i], PortMetrics(ports[i])[c])
  }

  ghost predicate FromBridge(d: Device, bridges: seq<BridgeRecord>, s: Sample) {
    exists i, c :: 0 <= i < |bridges| && 0 <= c < |BRIDGE_METRICS| && Some(s) == MaybeBridgeSample(d, bridges[i], BRIDGE_METRICS[c])
  }

  lemma {:induction false} PortSamplesAre(d: Device, r: PortRecord, count: nat, s: Sample)
    requires count <= |PortMetrics(r)|
    ensures s in PortSamples(d, r, count) <==> exists c :: 0 <= c < count && s == PortSample(d, r, PortMetrics(r)[c])
  {
    hide PortSample, PortMetrics;
    if count > 0 {
      PortSamplesAre(d, r, count - 1, s);
    }
  }

  lemma {:induction false} BridgeSamplesAre(d: Device, r: BridgeRecord, count: nat, s: Sample)
    requires count <= |BRIDGE_METRICS|
    ensures s in BridgeSamples(d, r, count) <==> exists c :: 0 <= c < count && Some(s) == MaybeBridgeSample(d, r, BRIDGE_METRICS[c])
  {
    hide MaybeBridgeSample;
    if count > 0 {
      BridgeSamplesAre(d, r, count - 1, s);
    }
  }

  lemma {:induction false} AllPortSamplesAre(d: Device, ports: seq<PortRecord>, s: Sample)
    ensures s in AllPortSamples(d, ports) <==> FromPort(d, ports, s)
  {
    hide PortSample, PortMetrics, PortSamples;
    if ports != [] {
      var front, last := ports[..|ports| - 1], ports[|ports| - 1];
      AllPortSamplesAre(d, front, s);
      PortSamplesAre(d, last, |PortMetrics(last)|, s);
      if FromPort(d, front, s) {
        var i, c :| 0 <= i < |front| && 0 <= c < |PortMetrics(front[i])| && s == PortSample(d, front[i], PortMetrics(front[i])[c]);
        assert ports[i] == front[i];
      }
    }
  }

  lemma {:induction false} AllBridgeSamplesAre(d: Device, bridges: seq<BridgeRecord>, s: Sample)
    ensures s in AllBridgeSamples(d, bridges) <==> FromBridge(d, bridges, s)
  {
    hide MaybeBridgeSample, BridgeSamples;
    if bridges != [] {
      var front, last := bridges[..|bridges| - 1], bridges[|bridges| - 1];
      AllBridgeSamplesAre(d, front, s);
      BridgeSamplesAre(d, last, |BRIDGE_METRICS|, s);
      if FromBridge(d, front, s) {
        var i, c :| 0 <= i < |front| && 0 <= c < |BRIDGE_METRICS| && Some(s) == MaybeBridgeSample(d, front[i], BRIDGE_METRICS[c]);
        assert bridges[i] == front[i];
      }
    }
  }

  // ---- The samples together -----------------------------------------------------------------

  // Some arrangement of the samples of these records.
  ghost predicate IsArrangement(d: Device, ports: seq<PortRecord>, bridges: seq<BridgeRecord>, samples: seq<Sample>) {
    multiset(samples) == multiset(Flatten(d, ports, bridges))
  }

  lemma SampleOrigin(d: Device, ports: seq<PortRecord>, bridges: seq<BridgeRecord>, samples: seq<Sample>, s: Sample)
    requires IsArrangement(d, ports, bridges, samples)
    ensures s in samples <==> FromPort(d, ports, s) || FromBridge(d, bridges, s)
  {
    hide FromPort, FromBridge;
    assert s in samples <==> s in multiset(samples);
    assert s in Flatten(d, ports, bridges) <==> s in multiset(Flatten(d, ports, bridges));
    AllPortSamplesAre(d, ports, s);
    AllBridgeSamplesAre(d, bridges, s);
  }

  lemma PortMetricsArePortMetrics(r: PortRecord, c: nat)
    requires c < |PortMetrics(r)|
    ensures IsPortMetric(PortMetrics(r)[c]) && (r.full || PortMetrics(r)[c] in {PathCost, Role, State})
  {
  }

  lemma BridgeMetricsAreBridgeMetrics(c: nat)
    requires c < |BRIDGE_METRICS|
    ensures IsBridgeMetric(BRIDGE_METRICS[c])
  {
  }

  // A sample about a port comes from the record of that port.
  lemma PortOrigin(d: Device, ports: seq<PortRecord>, bridges: seq<BridgeRecord>, samples: seq<Sample>, k: nat, vlan: int, id: int)
    returns (i: nat, c: nat)
    requires DistinctKeys(ports, bridges) && IsArrangement(d, ports, bridges, samples)
    requires k < |samples| && SubjectOf(samples[k]) == PortOf(vlan, id)
    ensures i < |ports| && (ports[i].vlan, ports[i].id) == (vlan, id) && c < |PortMetrics(ports[i])|
    ensures samples[k] == PortSample(d, ports[i], PortMetrics(ports[i])[c])
  {
    hide SubjectOf, MetricOf, IsPortMetric, IsBridgeMetric, PortSample, BridgeSample, PortMetrics, PortFits, Reports;
    var s := samples[k];
    SampleOrigin(d, ports, bridges, samples, s);
    if FromBridge(d, bridges, s) {
      var j, e :| 0 <= j < |bridges| && 0 <= e < |BRIDGE_METRICS| && Some(s) == MaybeBridgeSample(d, bridges[j], BRIDGE_METRICS[e]);
      BridgeMetricsAreBridgeMetrics(e);
      BridgeSampleSubject(d, bridges[j], BRIDGE_METRICS[e]);
      assert false;
    }
    i, c :| 0 <= i < |ports| && 0 <= c < |PortMetrics(ports[i])| && s == PortSample(d, ports[i], PortMetrics(ports[i])[c]);
    PortMetricsArePortMetrics(ports[i], c);
    PortSampleSubject(d, ports[i], PortMetrics(ports[i])[c]);
  }

  lemma BridgeOrigin(d: Device, ports: seq<PortRecord>, bridges: seq<BridgeRecord>, samples: seq<Sample>, k: nat, vlan: int)
    returns (i: nat, c: nat)
    requires DistinctKeys(ports, bridges) && IsArrangement(d, ports, bridges, samples)
    requires k < |samples| && SubjectOf(samples[k]) == BridgeOf(vlan)
    ensures i < |bridges| && bridges[i].vlan == vlan && c < |BRIDGE_METRICS|
    ensures Some(samples[k]) == MaybeBridgeSample(d, bridges[i], BRIDGE_METRICS[c])
  {
    hide SubjectOf, MetricOf, IsPortMetric, IsBridgeMetric, PortSample, BridgeSample, PortMetrics, PortFits, Reports;
    var s := samples[k];
    SampleOrigin(d, ports, bridges, samples, s);
    if FromPort(d, ports, s) {
      var j, e :| 0 <= j < |ports| && 0 <= e < |PortMetrics(ports[j])| && s == PortSample(d, ports[j], PortMetrics(ports[j])[e]);
      PortMetricsArePortMetrics(ports[j], e);
      PortSampleSubject(d, ports[j], PortMetrics(ports[j])[e]);
      assert false;
    }
    i, c :| 0 <= i < |bridges| && 0 <= c < |BRIDGE_METRICS| && Some(s) == MaybeBridgeSample(d, bridges[i], BRIDGE_METRICS[c]);
    BridgeMetricsAreBridgeMetrics(c);
    BridgeSampleSubject(d, bridges[i], BRIDGE_METRICS[c]);
  }

  lemma PortsAgree(d: Device, ports: seq<PortRecord>, bridges: seq<BridgeRecord>, samples: seq<Sample>, i: nat)
    requires DistinctKeys(ports, bridges) && IsArrangement(d, ports, bridges, samples) && i < |ports|
    ensures AllAgreeOnPort(samples, NormalPort(ports[i]))
  {
    hide SubjectOf, AgreesWithPort, PortSample, PortMetrics, PortFits, Reports, IsPortMetric;
    forall k | 0 <= k < |samples| && SubjectOf(samples[k]) == PortOf(ports[i].vlan, ports[i].id)
      ensures AgreesWithPort(samples[k], NormalPort(ports[i]))
    {
      var j, c := PortOrigin(d, ports, bridges, samples, k, ports[i].vlan, ports[i].id);
      assert j == i;
      PortMetricsArePortMetrics(ports[i], c);
      PortSampleAgrees(d, ports[i], PortMetrics(ports[i])[c]);
    }
  }

  lemma BridgesAgree(d: Device, ports: seq<PortRecord>, bridges: seq<BridgeRecord>, samples: seq<Sample>, i: nat)
    requires DistinctKeys(ports, bridges) && IsArrangement(d, ports, bridges, samples) && i < |bridges|
    ensures AllAgreeOnBridge(samples, NormalBridge(bridges[i]))
  {
    hide SubjectOf, AgreesWithBridge, BridgeSample, PortFits, Reports, IsBridgeMetric;
    forall k | 0 <= k < |samples| && SubjectOf(samples[k]) == BridgeOf(bridges[i].vlan)
      ensures AgreesWithBridge(samples[k], NormalBridge(bridges[i]))
    {
      var j, c := BridgeOrigin(d, ports, bridges, samples, k, bridges[i].vlan);
      assert j == i;
      BridgeMetricsAreBridgeMetrics(c);
      BridgeSampleAgrees(d, bridges[i], BRIDGE_METRICS[c]);
    }
  }

  // Each metric that a record reports is seen.
  lemma PortSeen(d: Device, ports: seq<PortRecord>, bridges: seq<BridgeRecord>, samples: seq<Sample>, i: nat, c: nat)
    requires DistinctKeys(ports, bridges) && IsArrangement(d, ports, bridges, samples)
    requires i < |ports| && c < |PortMetrics(ports[i])|
    ensures PortMetrics(ports[i])[c] in Seen(samples, PortOf(ports[i].vlan, ports[i].id))
  {
    hide SubjectOf, MetricOf, PortSample, PortMetrics, PortFits, Reports, IsPortMetric;
    var s := PortSample(d, ports[i], PortMetrics(ports[i])[c]);
    assert FromPort(d, ports, s);
    SampleOrigin(d, ports, bridges, samples, s);
    PortMetricsArePortMetrics(ports[i], c);
    PortSampleSubject(d, ports[i], PortMetrics(ports[i])[c]);
    var k :| 0 <= k < |samples| && samples[k] == s;
  }

  lemma BridgeSeen(d: Device, ports: seq<PortRecord>, bridges: seq<BridgeRecord>, samples: seq<Sample>, i: nat, c: nat)
    requires DistinctKeys(ports, bridges) && IsArrangement(d, ports, bridges, samples)
    requires i < |bridges| && c < |BRIDGE_METRICS| && BridgeValue(bridges[i], BRIDGE_METRICS[c]).Some?
    ensures BRIDGE_METRICS[c] in Seen(samples, BridgeOf(bridges[i].vlan))
  {
    hide SubjectOf, MetricOf, BridgeSample, PortFits, Reports, IsBridgeMetric, BridgeValue;
    var s := BridgeSample(d, bridges[i], BRIDGE_METRICS[c]);
    assert Some(s) == MaybeBridgeSample(d, bridges[i], BRIDGE_METRICS[c]);
    assert FromBridge(d, bridges, s);
    SampleOrigin(d, ports, bridges, samples, s);
    BridgeMetricsAreBridgeMetrics(c);
    BridgeSampleSubject(d, bridges[i], BRIDGE_METRICS[c]);
    var k :| 0 <= k < |samples| && samples[k] == s;
  }

  lemma WholePort(r: PortRecord, seen: set<Metric>)
    requires forall c :: 0 <= c < |PortMetrics(r)| ==> PortMetrics(r)[c] in seen
    ensures seen != {} && PartialPort(NormalPort(r), seen) == NormalPort(r)
  {
    var m := PortMetrics(r);
    if r.full {
      assert m[0] in seen && m[1] in seen && m[2] in seen && m[3] in seen && m[4] in seen && m[5] in seen && m[6] in seen;
    } else {
      assert m[0] in seen && m[1] in seen && m[2] in seen;
    }
  }

  lemma WholeBridge(r: BridgeRecord, seen: set<Metric>)
    requires Reports(r)
    requires forall c :: 0 <= c < |BRIDGE_METRICS| && BridgeValue(r, BRIDGE_METRICS[c]).Some? ==> BRIDGE_METRICS[c] in seen
    ensures seen != {} && PartialBridge(NormalBridge(r), seen) == NormalBridge(r)
  {
    var m := BRIDGE_METRICS;
    assert m[0] == RootPriority && m[1] == RootCost && m[2] == RootPort && m[3] == TopologyChanges && m[4] == TimeSinceChange;
  }

  // Decoding any arrangement of the samples gives exactly the records, normalized.
  lemma DecodeUndoesFlatten(d: Device, ports: seq<PortRecord>, bridges: seq<BridgeRecord>, samples: seq<Sample>)
    requires DistinctKeys(ports, bridges) && IsArrangement(d, ports, bridges, samples)
    ensures var decoded := Decode(samples);
      && (forall i :: 0 <= i < |ports| ==>
            var key := (ports[i].vlan, ports[i].id); key in decoded.ports && decoded.ports[key] == NormalPort(ports[i]))
      && (forall key :: key in decoded.ports ==> exists i :: 0 <= i < |ports| && (ports[i].vlan, ports[i].id) == key)
      && (forall i :: 0 <= i < |bridges| && Reports(bridges[i]) ==>
            bridges[i].vlan in decoded.bridges && decoded.bridges[bridges[i].vlan] == NormalBridge(bridges[i]))
      && (forall vlan :: vlan in decoded.bridges ==>
            exists i :: 0 <= i < |bridges| && bridges[i].vlan == vlan && Reports(bridges[i]))
  {
    hide Decode, IsArrangement, DistinctKeys;
    var decoded := Decode(samples);
    forall i | 0 <= i < |ports|
      ensures (ports[i].vlan, ports[i].id) in decoded.ports && decoded.ports[(ports[i].vlan, ports[i].id)] == NormalPort(ports[i])
    {
      PortComesBack(d, ports, bridges, samples, i);
    }
    forall key | key in decoded.ports ensures exists i :: 0 <= i < |ports| && (ports[i].vlan, ports[i].id) == key {
      NoOtherPort(d, ports, bridges, samples, key);
    }
    forall i | 0 <= i < |bridges| && Reports(bridges[i])
      ensures bridges[i].vlan in decoded.bridges && decoded.bridges[bridges[i].vlan] == NormalBridge(bridges[i])
    {
      BridgeComesBack(d, ports, bridges, samples, i);
    }
    forall vlan | vlan in decoded.bridges
      ensures exists i :: 0 <= i < |bridges| && bridges[i].vlan == vlan && Reports(bridges[i])
    {
      NoOtherBridge(d, ports, bridges, samples, vlan);
    }
  }

  lemma PortComesBack(d: Device, ports: seq<PortRecord>, bridges: seq<BridgeRecord>, samples: seq<Sample>, i: nat)
    requires DistinctKeys(ports, bridges) && IsArrangement(d, ports, bridges, samples) && i < |ports|
    ensures var key := (ports[i].vlan, ports[i].id);
      key in Decode(samples).ports && Decode(samples).ports[key] == NormalPort(ports[i])
  {
    hide Decode, IsArrangement, DistinctKeys, PartialPort, PortMetrics, Seen, AllAgreeOnPort;
    var r := ports[i];
    PortsAgree(d, ports, bridges, samples, i);
    DecodedPort(samples, NormalPort(r));
    forall c | 0 <= c < |PortMetrics(r)| ensures PortMetrics(r)[c] in Seen(samples, PortOf(r.vlan, r.id)) {
      PortSeen(d, ports, bridges, samples, i, c);
    }
    WholePort(r, Seen(samples, PortOf(r.vlan, r.id)));
  }

  lemma NoOtherPort(d: Device, ports: seq<PortRecord>, bridges: seq<BridgeRecord>, samples: seq<Sample>, key: (int, int))
    requires DistinctKeys(ports, bridges) && IsArrangement(d, ports, bridges, samples)
    requires key in Decode(samples).ports
    ensures exists i :: 0 <= i < |ports| && (ports[i].vlan, ports[i].id) == key
  {
    hide Decode, IsArrangement, DistinctKeys, PartialPort, SubjectOf, AgreesWithPort, MetricOf;
    var p := Port(key.0, key.1, None, None, "", "", None, 0, 0, 0, 0, 0);
    if k :| 0 <= k < |samples| && SubjectOf(samples[k]) == PortOf(key.0, key.1) {
      var i, c := PortOrigin(d, ports, bridges, samples, k, key.0, key.1);
    } else {
      DecodedPort(samples, p);
    }
  }

  lemma BridgeComesBack(d: Device, ports: seq<PortRecord>, bridges: seq<BridgeRecord>, samples: seq<Sample>, i: nat)
    requires DistinctKeys(ports, bridges) && IsArrangement(d, ports, bridges, samples)
    requires i < |bridges| && Reports(bridges[i])
    ensures bridges[i].vlan in Decode(samples).bridges && Decode(samples).bridges[bridges[i].vlan] == NormalBridge(bridges[i])
  {
    hide Decode, IsArrangement, DistinctKeys, PartialBridge, Seen, AllAgreeOnBridge, Reports;
    var r := bridges[i];
    BridgesAgree(d, ports, bridges, samples, i);
    DecodedBridge(samples, NormalBridge(r));
    forall c | 0 <= c < |BRIDGE_METRICS| && BridgeValue(r, BRIDGE_METRICS[c]).Some?
      ensures BRIDGE_METRICS[c] in Seen(samples, BridgeOf(r.vlan))
    {
      BridgeSeen(d, ports, bridges, samples, i, c);
    }
    WholeBridge(r, Seen(samples, BridgeOf(r.vlan)));
  }

  lemma NoOtherBridge(d: Device, ports: seq<PortRecord>, bridges: seq<BridgeRecord>, samples: seq<Sample>, vlan: int)
    requires DistinctKeys(ports, bridges) && IsArrangement(d, ports, bridges, samples)
    requires vlan in Decode(samples).bridges
    ensures exists i :: 0 <= i < |bridges| && bridges[i].vlan == vlan && Reports(bridges[i])
  {
    hide Decode, IsArrangement, DistinctKeys, PartialBridge, SubjectOf, AgreesWithBridge, MetricOf;
    if k :| 0 <= k < |samples| && SubjectOf(samples[k]) == BridgeOf(vlan) {
      var i, c := BridgeOrigin(d, ports, bridges, samples, k, vlan);
      assert Reports(bridges[i]);
    } else {
      DecodedBridge(samples, NewBridge(vlan));
    }
  }
}
