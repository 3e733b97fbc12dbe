/**
 When the QoS decoder's output depends on the order of its hash map
 (nexus/src/collectors/qos.rs), said on the rows of the tables.
 */
module QosOrder {
  import opened Options
  import opened Snmp
  import opened LastWrites
  import opened Sorting
  import opened Climb
  import opened Qos

  // ---- The rows about a class-map object ------------------------------------------------

  function PolicyRow(t: Tables, k: (int, int)): Option<Row> {
    LastFor(t.servicePolicy, PolicyMetaEntry, k.0)
  }

  function ObjectRow(t: Tables, k: (int, int)): Option<Row> {
    LastFor(t.objects, ObjectEntry, k)
  }

  function NameRow(t: Tables, k: (int, int)): Option<Row> {
    var row :- ObjectRow(t, k);
    LastFor(t.cmCfg, ConfigNameEntry("cbQosCMName"), ObjI64(row, "cbQosConfigIndex").GetOr(0))
  }

  function StatsRow(t: Tables, k: (int, int)): Option<Row> {
    LastFor(t.cmStats, StatsEntry, k)
  }

  function PoliceRow(t: Tables, k: (int, int)): Option<Row> {
    var row :- LastFor(t.objects, PoliceChildEntry, k);
    var child :- Index(row, "cbQosObjectsIndex");
    LastFor(t.policeStats, StatsEntry, (k.0, child))
  }

  predicate IsClassmapRow(t: Tables, k: (int, int)) {
    ObjectRow(t, k).Some? && ObjStr(ObjectRow(t, k).value, "cbQosObjectsType") == Some("classmap")
  }

  // ---- The columns -------------------------------------------------------------------------

  function Interface(t: Tables, k: (int, int)): int {
    if PolicyRow(t, k).None? then 0 else ObjI64(PolicyRow(t, k).value, "cbQosIfIndex").GetOr(0)
  }

  predicate IsOutput(t: Tables, k: (int, int)) {
    PolicyRow(t, k).Some? && ObjStr(PolicyRow(t, k).value, "cbQosPolicyDirection") == Some("output")
  }

  function NameText(t: Tables, k: (int, int)): string {
    if NameRow(t, k).None? then "" else ObjStr(NameRow(t, k).value, "cbQosCMName").GetOr("")
  }

  // The four sort keys.
  ghost predicate SameSortKeys(t: Tables, k: (int, int), k': (int, int)) {
    && Interface(t, k) == Interface(t, k') && (IsOutput(t, k) <==> IsOutput(t, k'))
    && EnclosingName(t, k) == EnclosingName(t, k') && NameText(t, k) == NameText(t, k')
  }

  const CLASS_COUNTERS: seq<string> := [
    "cbQosCMPrePolicyPkt64", "cbQosCMPrePolicyByte64", "cbQosCMPostPolicyByte64", "cbQosCMDropPkt64", "cbQosCMDropByte64"]

  const POLICE_COUNTERS: seq<string> := [
    "cbQosPoliceConformedPkt64", "cbQosPoliceConformedByte64", "cbQosPoliceExceededPkt64",
    "cbQosPoliceExceededByte64", "cbQosPoliceViolatedPkt64", "cbQosPoliceViolatedByte64"]

  // A missing row and a missing column look the same, except that a missing
  // policer row means no policer.
  predicate SameCounters(t: Tables, k: (int, int), k': (int, int)) {
    && SameColumns(CLASS_COUNTERS, StatsRow(t, k), StatsRow(t, k'))
    && (PoliceRow(t, k).Some? <==> PoliceRow(t, k').Some?)
    && SameColumns(POLICE_COUNTERS, PoliceRow(t, k), PoliceRow(t, k'))
  }

  predicate SameColumns(columns: seq<string>, a: Option<Row>, b: Option<Row>) {
    forall i :: 0 <= i < |columns| ==> Counter(a, columns[i]) == Counter(b, columns[i])
  }

  function Columns(columns: seq<string>, row: Option<Row>): seq<Option<int>> {
    seq(|columns|, i requires 0 <= i < |columns| => Counter(row, columns[i]))
  }

  function PoliceCounters(p: Police): seq<Option<int>> {
    [p.conformPkts, p.conformBytes, p.exceedPkts, p.exceedBytes, p.violatePkts, p.violateBytes]
  }

  lemma SameColumnsIff(columns: seq<string>, a: Option<Row>, b: Option<Row>)
    ensures SameColumns(columns, a, b) <==> Columns(columns, a) == Columns(columns, b)
  {
    hide Counter;
    if Columns(columns, a) == Columns(columns, b) {
      forall i | 0 <= i < |columns| ensures Counter(a, columns[i]) == Counter(b, columns[i]) {
        assert Columns(columns, a)[i] == Columns(columns, b)[i];
      }
    }
  }

  // ---- The decoded class has these columns ----------------------------------------------------

  lemma ClassmapRows(t: Tables, k: (int, int))
    ensures IsClassmap(t, k) <==> IsClassmapRow(t, k)
  {
    hide ObjI64, ObjStr;
    IndexedByLastRow(t.objects, ObjectEntry, k);
    hide Indexed, LastFor;
  }

  lemma KeysFromRows(t: Tables, k: (int, int))
    requires IsClassmap(t, k)
    ensures var c := Class(t, k);
      && c.ifindex == Interface(t, k) && (c.direction.Output? <==> IsOutput(t, k))
      && c.policymap == EnclosingName(t, k) && c.classmap == NameText(t, k)
      && c.ifName == Lookup(t.ifNames, Interface(t, k))
  {
    hide ObjI64, ObjStr, ObjU64, EnclosingName;
    IndexedByLastRow(t.servicePolicy, PolicyMetaEntry, k.0);
    IndexedByLastRow(t.objects, ObjectEntry, k);
    IndexedByLastRow(t.cmCfg, ConfigNameEntry("cbQosCMName"), ObjectsOf(t)[k].configIndex);
    hide Indexed, LastFor;
  }

  lemma CountersFromRows(t: Tables, k: (int, int))
    requires IsClassmap(t, k)
    ensures var c := Class(t, k);
      [c.prepolicyPkts, c.prepolicyBytes, c.postpolicyBytes, c.dropPkts, c.dropBytes] == Columns(CLASS_COUNTERS, StatsRow(t, k))
  {
    hide ObjI64, ObjStr, ObjU64, EnclosingName;
    IndexedByLastRow(t.cmStats, StatsEntry, k);
    hide Indexed, LastFor;
    assert |CLASS_COUNTERS| == 5;
  }

  lemma PoliceFromRows(t: Tables, k: (int, int))
    requires IsClassmap(t, k)
    ensures var p := Class(t, k).police;
      && (p.Some? <==> PoliceRow(t, k).Some?)
      && (p.Some? ==> PoliceCounters(p.value) == Columns(POLICE_COUNTERS, PoliceRow(t, k)))
  {
    PoliceRowIs(t, k);
    if PoliceRow(t, k).Some? {
      PoliceCountersOf(PoliceRow(t, k));
    }
    hide ObjI64, ObjStr, ObjU64, EnclosingName, PoliceRow, PoliceCounters, PoliceOf, Columns, Indexed;
  }

  lemma PoliceCountersOf(row: Option<Row>)
    requires row.Some?
    ensures PoliceCounters(PoliceOf(row.value)) == Columns(POLICE_COUNTERS, row)
  {
    hide ObjU64;
    assert |POLICE_COUNTERS| == 6;
  }

  // The row that the decoder's two maps lead to.
  lemma PoliceRowIs(t: Tables, k: (int, int))
    ensures var child := Lookup(Indexed(t.objects, PoliceChildEntry), k);
      PoliceRow(t, k) == if child.None? then None else Lookup(Indexed(t.policeStats, StatsEntry), (k.0, child.value))
  {
    hide ObjI64, ObjStr;
    IndexedByLastRow(t.objects, PoliceChildEntry, k);
    var child := Lookup(Indexed(t.objects, PoliceChildEntry), k);
    if child.Some? {
      IndexedByLastRow(t.policeStats, StatsEntry, (k.0, child.value));
    }
    hide Indexed, LastFor;
  }

  lemma TiedIffSameSortKeys(t: Tables, k: (int, int), k': (int, int))
    requires IsClassmap(t, k) && IsClassmap(t, k')
    ensures Tied(Class(t, k), Class(t, k')) <==> SameSortKeys(t, k, k')
  {
    KeysFromRows(t, k);
    KeysFromRows(t, k');
    hide Class, Interface, IsOutput, EnclosingName, NameText, IsClassmap, StringLe;
    var a, b := Class(t, k), Class(t, k');
    StringLeTotal(a.policymap, b.policymap);
    StringLeTotal(a.classmap, b.classmap);
  }

  lemma EqualIffSameRows(t: Tables, k: (int, int), k': (int, int))
    requires IsClassmap(t, k) && IsClassmap(t, k') && SameSortKeys(t, k, k')
    ensures Class(t, k) == Class(t, k') <==> SameCounters(t, k, k')
  {
    KeysFromRows(t, k);
    KeysFromRows(t, k');
    CountersFromRows(t, k);
    CountersFromRows(t, k');
    PoliceFromRows(t, k);
    PoliceFromRows(t, k');
    SameColumnsIff(CLASS_COUNTERS, StatsRow(t, k), StatsRow(t, k'));
    SameColumnsIff(POLICE_COUNTERS, PoliceRow(t, k), PoliceRow(t, k'));
    hide Class, Interface, IsOutput, EnclosingName, NameText, IsClassmap, Columns, SameColumns, StatsRow, PoliceRow, SameSortKeys;
    SameClass(Class(t, k), Class(t, k'), Columns(CLASS_COUNTERS, StatsRow(t, k)), Columns(CLASS_COUNTERS, StatsRow(t, k')));
    SamePolice(Class(t, k).police, Class(t, k').police,
      Columns(POLICE_COUNTERS, PoliceRow(t, k)), Columns(POLICE_COUNTERS, PoliceRow(t, k')));
  }

  lemma SameClass(a: QosClass, b: QosClass, counters: seq<Option<int>>, counters': seq<Option<int>>)
    requires a.ifindex == b.ifindex && a.ifName == b.ifName && a.direction == b.direction
    requires a.policymap == b.policymap && a.classmap == b.classmap
    requires counters == [a.prepolicyPkts, a.prepolicyBytes, a.postpolicyBytes, a.dropPkts, a.dropBytes]
    requires counters' == [b.prepolicyPkts, b.prepolicyBytes, b.postpolicyBytes, b.dropPkts, b.dropBytes]
    ensures a == b <==> counters == counters' && a.police == b.police
  {
    if counters == counters' {
      assert counters[0] == counters'[0] && counters[1] == counters'[1] && counters[2] == counters'[2];
      assert counters[3] == counters'[3] && counters[4] == counters'[4];
    }
  }

  lemma SamePolice(a: Option<Police>, b: Option<Police>, counters: seq<Option<int>>, counters': seq<Option<int>>)
    requires a.Some? ==> counters == PoliceCounters(a.value)
    requires b.Some? ==> counters' == PoliceCounters(b.value)
    ensures a == b <==> (a.Some? <==> b.Some?) && (a.Some? ==> counters == counters')
  {
    if a.Some? && b.Some? && counters == counters' {
      assert counters[0] == counters'[0] && counters[1] == counters'[1] && counters[2] == counters'[2];
      assert counters[3] == counters'[3] && counters[4] == counters'[4] && counters[5] == counters'[5];
    }
  }

  // The decoded list is the same for every iteration order if and only if class-map
  // objects that agree in the four sort keys agree in all their counters.
  lemma OrderDoesNotShowIffRowsAgree(t: Tables)
    ensures OrderDoesNotShow(t) <==>
            forall k, k' :: IsClassmapRow(t, k) && IsClassmapRow(t, k') && SameSortKeys(t, k, k') ==> SameCounters(t, k, k')
  {
    OrderDoesNotShowIffTiesAreEqual(t);
    forall k {
      ClassmapRows(t, k);
    }
    hide OrderDoesNotShow, IsClassmap, IsClassmapRow, SameSortKeys, SameCounters, Class, Tied;
    forall k, k' | IsClassmap(t, k) && IsClassmap(t, k')
      ensures Tied(Class(t, k), Class(t, k')) <==> SameSortKeys(t, k, k')
      ensures SameSortKeys(t, k, k') ==> (Class(t, k) == Class(t, k') <==> SameCounters(t, k, k'))
    {
      TiedIffSameSortKeys(t, k, k');
      if SameSortKeys(t, k, k') {
        EqualIffSameRows(t, k, k');
      }
    }
  }

  // ---- Tables whose order shows -------------------------------------------------------------------

  lemma KeyedRow(policy: int, obj: int, column: string, value: Scalar) returns (row: Row)
    ensures PolicyObjKey(row) == Some((policy, obj)) && row.objects == map[column := value]
  {
    assert |"cbQosPolicyIndex"| != |"cbQosObjectsIndex"|;
    row := Row(map["cbQosPolicyIndex" := policy, "cbQosObjectsIndex" := obj], map[column := value]);
  }

  lemma LastOfOne<K, V>(row: Row, entry: Row -> Option<(K, V)>, k: K)
    ensures LastFor([row], entry, k) == if entry(row).Some? && entry(row).value.0 == k then Some(row) else None
  {
    assert [row][..0] == [];
  }

  lemma LastOfTwo<K, V>(a: Row, b: Row, entry: Row -> Option<(K, V)>, k: K)
    ensures LastFor([a, b], entry, k) ==
      if entry(b).Some? && entry(b).value.0 == k then Some(b) else LastFor([a], entry, k)
  {
    assert [a, b][..1] == [a];
  }

  // Two class-maps of one policy, both without a configured name, as when the
  // configuration walk failed; only the first has dropped a packet.
  lemma OrderCanShow() returns (t: Tables)
    ensures !OrderDoesNotShow(t)
    ensures |t.objects| == 2 && |t.cmStats| == 1
  {
    var first := KeyedRow(1, 10, "cbQosObjectsType", Str("classmap"));
    var second := KeyedRow(1, 11, "cbQosObjectsType", Str("classmap"));
    var dropped := KeyedRow(1, 10, "cbQosCMDropPkt64", Uint64(1));
    t := Tables([], [first, second], [], [], [dropped], [], map[]);
    var k, k' := (1, 10), (1, 11);
    LastOfOne(first, ObjectEntry, k);
    LastOfTwo(first, second, ObjectEntry, k);
    LastOfTwo(first, second, ObjectEntry, k');
    assert IsClassmapRow(t, k) && IsClassmapRow(t, k');
    NoPolicymap(t, first, second);
    assert EnclosingName(t, k) == "" && EnclosingName(t, k') == "";
    hide EnclosingName;
    assert SameSortKeys(t, k, k');
    LastOfOne(dropped, StatsEntry, k);
    LastOfOne(dropped, StatsEntry, k');
    assert CLASS_COUNTERS[3] == "cbQosCMDropPkt64";
    assert Counter(StatsRow(t, k), CLASS_COUNTERS[3]) == Some(1) && Counter(StatsRow(t, k'), CLASS_COUNTERS[3]) == None;
    OrderDoesNotShowIffRowsAgree(t);
  }

  lemma NoPolicymap(t: Tables, first: Row, second: Row)
    requires t.objects == [first, second]
    requires ObjStr(first, "cbQosObjectsType") == Some("classmap") && ObjStr(second, "cbQosObjectsType") == Some("classmap")
    ensures forall policy, obj, p :: !Encloses(ObjectsOf(t), policy, obj, p)
  {
    hide ObjStr, ObjI64;
    forall policy, p ensures !IsPolicymap(ObjectsOf(t), policy, p) {
      IndexedByLastRow(t.objects, ObjectEntry, (policy, p));
      hide Indexed, LastFor;
      assert "classmap" != "policymap";
    }
  }
}
