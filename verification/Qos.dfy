/**
 The class-based QoS decoder (nexus/src/collectors/qos.rs): a join over six
 tables into one sorted list of classes, and the cache of negative probes.
 */
module Qos {
  import opened Options
  import opened Snmp
  import opened LastWrites
  import opened Sorting
  import opened Climb

  datatype Direction = Input | Output

  datatype Police = Police(
    conformPkts: Option<int>, conformBytes: Option<int>,
    exceedPkts: Option<int>, exceedBytes: Option<int>,
    violatePkts: Option<int>, violateBytes: Option<int>)

  datatype QosClass = QosClass(
    ifindex: int,
    ifName: Option<string>,
    direction: Direction,
    policymap: string,
    classmap: string,
    prepolicyPkts: Option<int>,
    prepolicyBytes: Option<int>,
    postpolicyBytes: Option<int>,
    dropPkts: Option<int>,
    dropBytes: Option<int>,
    police: Option<Police>)

  datatype Tables = Tables(
    servicePolicy: Table,
    objects: Table,
    policymapCfg: Table,
    cmCfg: Table,
    cmStats: Table,
    policeStats: Table,
    ifNames: map<int, string>)

  // ---- Row readers ------------------------------------------------------------------

  // Column names without their common CISCO-CLASS-BASED-QOS-MIB prefix.
  function PolicyObjKey(row: Row): Option<(int, int)> {
    var policy :- Index(row, "cbQosPolicyIndex");
    var obj :- Index(row, "cbQosObjectsIndex");
    Some((policy, obj))
  }

  function PolicyMetaEntry(row: Row): Option<(int, (int, Direction))> {
    var policy :- Index(row, "cbQosPolicyIndex");
    var ifindex := ObjI64(row, "cbQosIfIndex").GetOr(0);
    var direction := if ObjStr(row, "cbQosPolicyDirection") == Some("output") then Output else Input;
    Some((policy, (ifindex, direction)))
  }

  function ConfigNameEntry(column: string): Row -> Option<(int, string)> {
    (row: Row) =>
      if Index(row, "cbQosConfigIndex").Some? && ObjStr(row, column).Some?
      then Some((Index(row, "cbQosConfigIndex").value, ObjStr(row, column).value))
      else None
  }

  function Info(row: Row): ObjInfo {
    ObjInfo(ObjI64(row, "cbQosConfigIndex").GetOr(0),
            ObjStr(row, "cbQosObjectsType").GetOr(""),
            ObjI64(row, "cbQosParentObjectsIndex").GetOr(0))
  }

  function ObjectEntry(row: Row): Option<((int, int), ObjInfo)> {
    var key :- PolicyObjKey(row);
    Some((key, Info(row)))
  }

  // (policy, class-map object) -> its police object.
  function PoliceChildEntry(row: Row): Option<((int, int), int)> {
    var key :- PolicyObjKey(row);
    if Info(row).otype == "police" then Some(((key.0, Info(row).parent), key.1)) else None
  }

  function StatsEntry(row: Row): Option<((int, int), Row)> {
    var key :- PolicyObjKey(row);
    Some((key, row))
  }

  function PoliceOf(row: Row): Police {
    Police(ObjU64(row, "cbQosPoliceConformedPkt64"), ObjU64(row, "cbQosPoliceConformedByte64"),
           ObjU64(row, "cbQosPoliceExceededPkt64"), ObjU64(row, "cbQosPoliceExceededByte64"),
           ObjU64(row, "cbQosPoliceViolatedPkt64"), ObjU64(row, "cbQosPoliceViolatedByte64"))
  }

  // ---- The join, class by class --------------------------------------------------------

  // The maps the decoder builds before it visits the objects.
  datatype Indexes = Indexes(
    meta: map<int, (int, Direction)>,
    policymapNames: map<int, string>,
    cmNames: map<int, string>,
    objs: Objects,
    policeChild: map<(int, int), int>,
    cmStats: map<(int, int), Row>,
    policeStats: map<(int, int), Row>,
    ifNames: map<int, string>)

  function IndexesOf(t: Tables): Indexes {
    Indexes(
      Indexed(t.servicePolicy, PolicyMetaEntry),
      Indexed(t.policymapCfg, ConfigNameEntry("cbQosPolicyMapName")),
      Indexed(t.cmCfg, ConfigNameEntry("cbQosCMName")),
      Indexed(t.objects, ObjectEntry),
      Indexed(t.objects, PoliceChildEntry),
      Indexed(t.cmStats, StatsEntry),
      Indexed(t.policeStats, StatsEntry),
      t.ifNames)
  }

  function ObjectsOf(t: Tables): Objects {
    IndexesOf(t).objs
  }

  function Counter(stats: Option<Row>, column: string): Option<int> {
    var row :- stats;
    ObjU64(row, column)
  }

  function Lookup<K, V>(m: map<K, V>, k: K): Option<V> {
    if k in m then Some(m[k]) else None
  }

  function PoliceFor(ix: Indexes, key: (int, int)): Option<Police> {
    var child :- Lookup(ix.policeChild, key);
    var row :- Lookup(ix.policeStats, (key.0, child));
    Some(PoliceOf(row))
  }

  function ClassOf(ix: Indexes, key: (int, int), policymap: string): QosClass
    requires key in ix.objs
  {
    var (ifindex, direction) := Lookup(ix.meta, key.0).GetOr((0, Input));
    var cm := Lookup(ix.cmStats, key);
    QosClass(
      ifindex, Lookup(ix.ifNames, ifindex), direction, policymap,
      Lookup(ix.cmNames, ix.objs[key].configIndex).GetOr(""),
      Counter(cm, "cbQosCMPrePolicyPkt64"),
      Counter(cm, "cbQosCMPrePolicyByte64"),
      Counter(cm, "cbQosCMPostPolicyByte64"),
      Counter(cm, "cbQosCMDropPkt64"),
      Counter(cm, "cbQosCMDropByte64"),
      PoliceFor(ix, key))
  }

  // The name of the enclosing policy-map at any distance, empty if there is none.
  ghost function EnclosingName(t: Tables, key: (int, int)): string {
    if p :| Encloses(ObjectsOf(t), key.0, key.1, p) then NameOf(ObjectsOf(t), IndexesOf(t).policymapNames, key.0, p) else ""
  }

  // ---- The decoder ---------------------------------------------------------------------

  // A hash map is visited in some order, each key once.
  ghost predicate IsIteration(t: Tables, order: seq<(int, int)>) {
    multiset(order) == multiset(ObjectsOf(t).Keys)
  }

  predicate IsClassmap(t: Tables, key: (int, int)) {
    key in ObjectsOf(t) && ObjectsOf(t)[key].otype == "classmap"
  }

  ghost function Class(t: Tables, key: (int, int)): QosClass
    requires IsClassmap(t, key)
  {
    ClassOf(IndexesOf(t), key, EnclosingName(t, key))
  }

  // One class per class-map object, in the order of the visit.
  ghost function Classes(t: Tables, order: seq<(int, int)>): seq<QosClass> {
    if order == [] then []
    else
      var key := order[|order| - 1];
      Classes(t, order[..|order| - 1]) + (if IsClassmap(t, key) then [Class(t, key)] else [])
  }

  predicate DirectionLe(a: Direction, b: Direction) {
    a.Input? || b.Output?
  }

  // Interface, direction, policy-map, class-map.
  predicate Le(a: QosClass, b: QosClass) {
    a.ifindex < b.ifindex || (a.ifindex == b.ifindex &&
      (if a.direction != b.direction then DirectionLe(a.direction, b.direction)
       else if a.policymap != b.policymap then StringLe(a.policymap, b.policymap)
       else StringLe(a.classmap, b.classmap)))
  }

  lemma LeTransitive(a: QosClass, b: QosClass, c: QosClass)
    requires Le(a, b) && Le(b, c)
    ensures Le(a, c)
  {
    StringLeTotal(a.policymap, b.policymap);
    StringLeTotal(b.policymap, c.policymap);
    if StringLe(a.policymap, b.policymap) && StringLe(b.policymap, c.policymap) {
      StringLeTransitive(a.policymap, b.policymap, c.policymap);
    }
    if StringLe(a.classmap, b.classmap) && StringLe(b.classmap, c.classmap) {
      StringLeTransitive(a.classmap, b.classmap, c.classmap);
    }
  }

  lemma LePreorder()
    ensures TotalPreorder(Le)
  {
    forall x: QosClass, y: QosClass ensures Le(x, y) || Le(y, x) {
      StringLeTotal(x.policymap, y.policymap);
      StringLeTotal(x.classmap, y.classmap);
    }
    forall x: QosClass, y: QosClass, z: QosClass | Le(x, y) && Le(y, z) ensures Le(x, z) {
      LeTransitive(x, y, z);
    }
  }

  method DecodeQos(t: Tables, order: seq<(int, int)>) returns (out: seq<QosClass>)
    requires IsIteration(t, order)
    ensures out == SortBy(Classes(t, order), Le)
  {
    var meta := BuildIndex(t.servicePolicy, PolicyMetaEntry);
    var policymapNames := BuildIndex(t.policymapCfg, ConfigNameEntry("cbQosPolicyMapName"));
    var cmNames := BuildIndex(t.cmCfg, ConfigNameEntry("cbQosCMName"));
    var objs := BuildIndex(t.objects, ObjectEntry);
    var policeChild := BuildIndex(t.objects, PoliceChildEntry);
    var cmStats := BuildIndex(t.cmStats, StatsEntry);
    var policeStats := BuildIndex(t.policeStats, StatsEntry);
    var ix := Indexes(meta, policymapNames, cmNames, objs, policeChild, cmStats, policeStats, t.ifNames);
    out := [];
    for i := 0 to |order|
      invariant out == Classes(t, order[..i])
    {
      var key := order[i];
      assert order[..i + 1][..i] == order[..i];
      assert key in multiset(order);
      if objs[key].otype == "classmap" {
        var policymap := ResolvePolicymap(key.0, key.1, objs, policymapNames);
        out := out + [ClassOf(ix, key, policymap)];
      }
    }
    assert order[..|order|] == order;
    out := SortBy(out, Le);
  }

  // ---- What the decoder returns ------------------------------------------------------------

  lemma {:induction false} ClassesMembers(t: Tables, order: seq<(int, int)>, c: QosClass)
    ensures c in Classes(t, order) <==> exists key :: key in order && IsClassmap(t, key) && c == Class(t, key)
  {
    if order != [] {
      var front, last := order[..|order| - 1], order[|order| - 1];
      assert order == front + [last];
      ClassesMembers(t, front, c);
    }
  }

  // The rows a class is joined from, one table at a time: always the last row
  // with the key that the previous table named.
  lemma ClassCounters(t: Tables, key: (int, int), cm: nat)
    requires IsClassmap(t, key) && LastWriter(t.cmStats, StatsEntry, key, cm)
    ensures var c, row := Class(t, key), t.cmStats[cm];
      && c.prepolicyPkts == ObjU64(row, "cbQosCMPrePolicyPkt64")
      && c.prepolicyBytes == ObjU64(row, "cbQosCMPrePolicyByte64")
      && c.postpolicyBytes == ObjU64(row, "cbQosCMPostPolicyByte64")
      && c.dropPkts == ObjU64(row, "cbQosCMDropPkt64")
      && c.dropBytes == ObjU64(row, "cbQosCMDropByte64")
  {
    hide ObjU64, IsClassmap;
    IndexedByLastWriter(t.cmStats, StatsEntry, key);
  }

  lemma ClassInterface(t: Tables, key: (int, int), policy: nat)
    requires IsClassmap(t, key) && LastWriter(t.servicePolicy, PolicyMetaEntry, key.0, policy)
    ensures var c, row := Class(t, key), t.servicePolicy[policy];
      && c.ifindex == ObjI64(row, "cbQosIfIndex").GetOr(0)
      && (c.direction.Output? <==> ObjStr(row, "cbQosPolicyDirection") == Some("output"))
      && (c.ifName.Some? <==> c.ifindex in t.ifNames)
      && (c.ifName.Some? ==> c.ifName.value == t.ifNames[c.ifindex])
  {
    hide ObjI64, IsClassmap;
    IndexedByLastWriter(t.servicePolicy, PolicyMetaEntry, key.0);
  }

  lemma ClassName(t: Tables, key: (int, int), obj: nat, name: nat)
    requires IsClassmap(t, key) && LastWriter(t.objects, ObjectEntry, key, obj)
    requires LastWriter(t.cmCfg, ConfigNameEntry("cbQosCMName"), ObjI64(t.objects[obj], "cbQosConfigIndex").GetOr(0), name)
    ensures Some(Class(t, key).classmap) == ObjStr(t.cmCfg[name], "cbQosCMName")
  {
    hide ObjI64, ObjStr;
    IndexedByLastWriter(t.objects, ObjectEntry, key);
    IndexedByLastWriter(t.cmCfg, ConfigNameEntry("cbQosCMName"), ObjI64(t.objects[obj], "cbQosConfigIndex").GetOr(0));
  }

  lemma ClassPolice(t: Tables, key: (int, int), obj: nat, police: nat)
    requires IsClassmap(t, key) && LastWriter(t.objects, PoliceChildEntry, key, obj)
    requires LastWriter(t.policeStats, StatsEntry, PolicyObjKey(t.objects[obj]).value, police)
    ensures ObjStr(t.objects[obj], "cbQosObjectsType") == Some("police")
    ensures ObjI64(t.objects[obj], "cbQosParentObjectsIndex").GetOr(0) == key.1
    ensures var p, row := Class(t, key).police, t.policeStats[police];
      && p.Some?
      && p.value.conformPkts == ObjU64(row, "cbQosPoliceConformedPkt64")
      && p.value.conformBytes == ObjU64(row, "cbQosPoliceConformedByte64")
      && p.value.exceedPkts == ObjU64(row, "cbQosPoliceExceededPkt64")
      && p.value.exceedBytes == ObjU64(row, "cbQosPoliceExceededByte64")
      && p.value.violatePkts == ObjU64(row, "cbQosPoliceViolatedPkt64")
      && p.value.violateBytes == ObjU64(row, "cbQosPoliceViolatedByte64")
  {
    hide ObjI64, ObjU64, ObjStr, IsClassmap;
    IndexedByLastWriter(t.objects, PoliceChildEntry, key);
    IndexedByLastWriter(t.policeStats, StatsEntry, PolicyObjKey(t.objects[obj]).value);
  }

  // The name of the policy-map at the end of a chain of parents from the class-map
  // object: the last one that the configuration table gives for its index, and empty
  // when that table gives none.
  lemma ClassPolicymap(t: Tables, key: (int, int), chain: seq<int>)
    requires IsClassmap(t, key) && IsChain(ObjectsOf(t), key.0, chain) && chain[0] == key.1
    ensures var config := ObjectsOf(t)[(key.0, chain[|chain| - 1])].configIndex;
      && (forall row: nat :: LastNaming(t.policymapCfg, "cbQosPolicyMapName", config, row) ==>
            Some(Class(t, key).policymap) == ObjStr(t.policymapCfg[row], "cbQosPolicyMapName"))
      && ((forall row: nat :: !LastNaming(t.policymapCfg, "cbQosPolicyMapName", config, row)) ==> Class(t, key).policymap == "")
  {
    hide ObjStr, ObjectsOf, IsClassmap;
    var top := chain[|chain| - 1];
    EnclosesIffChain(ObjectsOf(t), key.0, key.1, top);
    hide IsChain;
    forall p | Encloses(ObjectsOf(t), key.0, key.1, p) ensures p == top {
      EnclosingIsUnique(ObjectsOf(t), key.0, key.1, p, top);
    }
    NamingIsWriting(t.policymapCfg, "cbQosPolicyMapName", ObjectsOf(t)[(key.0, top)].configIndex);
    hide Encloses, LastNaming;
    IndexedByLastWriter(t.policymapCfg, ConfigNameEntry("cbQosPolicyMapName"), ObjectsOf(t)[(key.0, top)].configIndex);
  }

  // Outside every such chain the name is empty.
  lemma ClassWithoutPolicymap(t: Tables, key: (int, int))
    requires IsClassmap(t, key) && forall chain :: IsChain(ObjectsOf(t), key.0, chain) ==> chain[0] != key.1
    ensures Class(t, key).policymap == ""
  {
    hide ObjectsOf, IsClassmap, IsChain;
    forall p ensures !Encloses(ObjectsOf(t), key.0, key.1, p) {
      EnclosesIffChain(ObjectsOf(t), key.0, key.1, p);
    }
  }

  // The row is the last one that names this configuration index.
  ghost predicate LastNaming(rows: Table, column: string, config: int, i: nat) {
    && i < |rows| && Index(rows[i], "cbQosConfigIndex") == Some(config) && ObjStr(rows[i], column).Some?
    && forall j :: i < j < |rows| ==> Index(rows[j], "cbQosConfigIndex") != Some(config) || ObjStr(rows[j], column).None?
  }

  lemma NamingIsWriting(rows: Table, column: string, config: int)
    ensures forall i: nat :: LastNaming(rows, column, config, i) <==> LastWriter(rows, ConfigNameEntry(column), config, i)
    ensures forall i: nat :: LastNaming(rows, column, config, i) ==> ConfigNameEntry(column)(rows[i]).value.1 == ObjStr(rows[i], column).value
  {
    hide ObjStr, Index;
  }

  // The row is the last one about this object of this policy.
  ghost predicate LastOfObject(rows: Table, key: (int, int), i: nat) {
    && i < |rows| && Index(rows[i], "cbQosPolicyIndex") == Some(key.0) && Index(rows[i], "cbQosObjectsIndex") == Some(key.1)
    && forall j :: i < j < |rows| ==>
         Index(rows[j], "cbQosPolicyIndex") != Some(key.0) || Index(rows[j], "cbQosObjectsIndex") != Some(key.1)
  }

  // Which rows the decoder's maps are filled from: the last one with the index that
  // each table has in common with the previous one.
  lemma JoinedRows(t: Tables, key: (int, int))
    ensures forall i: nat :: LastAbout(t.servicePolicy, "cbQosPolicyIndex", key.0, i) <==> LastWriter(t.servicePolicy, PolicyMetaEntry, key.0, i)
    ensures forall i: nat :: LastOfObject(t.objects, key, i) <==> LastWriter(t.objects, ObjectEntry, key, i)
    ensures forall i: nat :: LastOfObject(t.cmStats, key, i) <==> LastWriter(t.cmStats, StatsEntry, key, i)
    ensures forall i: nat :: LastOfObject(t.policeStats, key, i) <==> LastWriter(t.policeStats, StatsEntry, key, i)
  {
    hide ObjStr, ObjI64, Index;
  }

  // An object is known exactly when a row is about it, as the last such row has it.
  lemma ObjectsAre(t: Tables, key: (int, int))
    ensures key in ObjectsOf(t) <==> exists i: nat :: LastOfObject(t.objects, key, i)
    ensures forall i: nat :: LastOfObject(t.objects, key, i) ==>
              && ObjectsOf(t)[key].configIndex == ObjI64(t.objects[i], "cbQosConfigIndex").GetOr(0)
              && ObjectsOf(t)[key].otype == ObjStr(t.objects[i], "cbQosObjectsType").GetOr("")
              && ObjectsOf(t)[key].parent == ObjI64(t.objects[i], "cbQosParentObjectsIndex").GetOr(0)
  {
    hide ObjStr, ObjI64, Index;
    JoinedRows(t, key);
    hide LastOfObject;
    IndexedByLastWriter(t.objects, ObjectEntry, key);
  }

  // Lower interfaces come first, then input before output, then policy-maps and
  // class-maps by name.
  lemma DecodedOrder(t: Tables, order: seq<(int, int)>, i: nat, j: nat)
    requires IsIteration(t, order) && i < j < |SortBy(Classes(t, order), Le)|
    ensures var a, b := SortBy(Classes(t, order), Le)[i], SortBy(Classes(t, order), Le)[j];
      && a.ifindex <= b.ifindex
      && (a.ifindex == b.ifindex ==> a.direction.Input? || b.direction.Output?)
      && (a.ifindex == b.ifindex && a.direction == b.direction ==> Alphabetical(a.policymap, b.policymap))
      && (a.ifindex == b.ifindex && a.direction == b.direction && a.policymap == b.policymap ==> Alphabetical(a.classmap, b.classmap))
  {
    DecodedIsSortedAndComplete(t, order);
    var a, b := SortBy(Classes(t, order), Le)[i], SortBy(Classes(t, order), Le)[j];
    assert Le(a, b);
    StringLeIs(a.policymap, b.policymap);
    StringLeIs(a.classmap, b.classmap);
    hide Classes, SortBy, IsIteration;
  }

  // Whatever the order of the visit: the output is sorted by the four keys, it
  // holds exactly the classes of the class-map objects, and one of each.
  lemma DecodedIsSortedAndComplete(t: Tables, order: seq<(int, int)>)
    requires IsIteration(t, order)
    ensures var out := SortBy(Classes(t, order), Le);
      && SortedBy(out, Le)
      && (forall c :: c in out <==> exists key :: IsClassmap(t, key) && c == Class(t, key))
      && |out| == |ClassmapKeys(t)|
  {
    LePreorder();
    SortBySorted(Classes(t, order), Le);
    assert forall key :: key in order <==> key in multiset(order);
    forall c ensures c in SortBy(Classes(t, order), Le) <==> exists key :: IsClassmap(t, key) && c == Class(t, key) {
      hide Class, Classes, SortBy, Le;
      assert c in multiset(SortBy(Classes(t, order), Le)) <==> c in multiset(Classes(t, order));
      ClassesMembers(t, order, c);
    }
    ClassesCount(t, order);
    assert ClassmapKeys(t) == Visited(t, order);
  }

  ghost function ClassmapKeys(t: Tables): set<(int, int)> {
    set key | key in ObjectsOf(t) && IsClassmap(t, key)
  }

  ghost function Visited(t: Tables, order: seq<(int, int)>): set<(int, int)> {
    set key | key in order && IsClassmap(t, key)
  }

  lemma {:induction false} ClassesCount(t: Tables, order: seq<(int, int)>)
    requires forall key :: multiset(order)[key] <= 1
    ensures |Classes(t, order)| == |Visited(t, order)|
  {
    hide Class, IsClassmap;
    if order != [] {
      var front, last := order[..|order| - 1], order[|order| - 1];
      assert order == front + [last];
      assert multiset(order) == multiset(front) + multiset{last};
      assert forall key :: multiset(front)[key] <= multiset(order)[key];
      ClassesCount(t, front);
      assert last !in front by {
        assert multiset(front)[last] == multiset(order)[last] - 1;
        assert last in front ==> last in multiset(front);
      }
      assert Visited(t, order) == Visited(t, front) + (if IsClassmap(t, last) then {last} else {});
    }
  }

  // ---- When the order of the visit shows ------------------------------------------------------

  predicate Tied(a: QosClass, b: QosClass) {
    Le(a, b) && Le(b, a)
  }

  ghost predicate OrderDoesNotShow(t: Tables) {
    forall o, o' :: IsIteration(t, o) && IsIteration(t, o') ==>
      SortBy(Classes(t, o), Le) == SortBy(Classes(t, o'), Le)
  }

  // A permutation of a sequence holds its last element somewhere.
  lemma SplitAtLast<T>(o: seq<T>, o': seq<T>) returns (before: seq<T>, after: seq<T>)
    requires multiset(o) == multiset(o') && o != []
    ensures o' == before + ([o[|o| - 1]] + after)
    ensures multiset(before + after) == multiset(o[..|o| - 1])
  {
    var last := o[|o| - 1];
    assert last in multiset(o');
    var i :| 0 <= i < |o'| && o'[i] == last;
    before, after := o'[..i], o'[i + 1..];
    assert o' == before + ([last] + after);
    assert o == o[..|o| - 1] + [last];
    MoveBack(before, after, [last]);
    Cancel(multiset(before + after), multiset(o[..|o| - 1]), last);
  }

  lemma Cancel<T>(a: multiset<T>, b: multiset<T>, x: T)
    requires a + multiset{x} == b + multiset{x}
    ensures a == b
  {
    assert a == (a + multiset{x}) - multiset{x} && b == (b + multiset{x}) - multiset{x};
  }

  lemma MoveBack<T>(a: seq<T>, b: seq<T>, c: seq<T>)
    ensures multiset(a + (c + b)) == multiset(a + b) + multiset(c)
  {
    assert multiset(a + (c + b)) == multiset(a) + (multiset(c) + multiset(b));
    assert multiset(a + b) == multiset(a) + multiset(b);
  }

  lemma {:induction false} ClassesPermute(t: Tables, o: seq<(int, int)>, o': seq<(int, int)>)
    requires multiset(o) == multiset(o')
    ensures multiset(Classes(t, o)) == multiset(Classes(t, o'))
  {
    assert |o| == |multiset(o)| == |multiset(o')| == |o'|;
    if o != [] {
      var front, last := o[..|o| - 1], [o[|o| - 1]];
      var before, after := SplitAtLast(o, o');
      assert o == front + last;
      ClassesPermute(t, front, before + after);
      hide Classes;
      ClassesAppend(t, before, after);
      ClassesAppend(t, before, last + after);
      ClassesAppend(t, last, after);
      ClassesAppend(t, front, last);
      MoveBack(Classes(t, before), Classes(t, after), Classes(t, last));
    }
  }

  lemma {:induction false} ClassesAppend(t: Tables, a: seq<(int, int)>, b: seq<(int, int)>)
    ensures Classes(t, a + b) == Classes(t, a) + Classes(t, b)
  {
    if b == [] {
      assert a + b == a;
    } else {
      ClassesAppend(t, a, b[..|b| - 1]);
      assert (a + b)[..|a + b| - 1] == a + b[..|b| - 1];
    }
  }

  lemma {:induction false} Enumerate<T>(s: set<T>) returns (list: seq<T>)
    ensures multiset(list) == multiset(s)
  {
    list := [];
    if s != {} {
      var x :| x in s;
      list := Enumerate(s - {x});
      assert s == (s - {x}) + {x};
      list := list + [x];
    }
  }

  lemma TiesStart(x: QosClass, y: QosClass, rest: seq<QosClass>)
    requires Tied(x, y)
    ensures Ties([x, y] + rest, x, Le) != [] && Ties([x, y] + rest, x, Le)[0] == x
    decreases |rest|
  {
    LePreorder();
    assert Le(x, x);
    if rest == [] {
      assert [x][..0] == [] && [x, y][..1] == [x];
      assert Ties([x], x, Le) == [x] && Ties([x, y], x, Le) == [x, y];
      assert [x, y] + rest == [x, y];
    } else {
      TiesStart(x, y, rest[..|rest| - 1]);
      assert ([x, y] + rest)[..|rest| + 1] == [x, y] + rest[..|rest| - 1];
    }
  }

  lemma {:induction false} TiesSameClass(s: seq<QosClass>, x: QosClass, y: QosClass)
    requires Tied(x, y)
    ensures Ties(s, x, Le) == Ties(s, y, Le)
  {
    if s != [] {
      TiesSameClass(s[..|s| - 1], x, y);
      LePreorder();
    }
  }

  // The comment in the source promises a deterministic order. It is one if and
  // only if two class-map objects that agree in all four sort keys agree in
  // every other column too.
  lemma OrderDoesNotShowIffTiesAreEqual(t: Tables)
    ensures OrderDoesNotShow(t) <==>
            forall k, k' :: IsClassmap(t, k) && IsClassmap(t, k') && Tied(Class(t, k), Class(t, k')) ==>
              Class(t, k) == Class(t, k')
  {
    LePreorder();
    if k, k' :| IsClassmap(t, k) && IsClassmap(t, k') && Tied(Class(t, k), Class(t, k')) && Class(t, k) != Class(t, k') {
      TiedPairShows(t, k, k');
    } else {
      forall o, o' | IsIteration(t, o) && IsIteration(t, o')
        ensures SortBy(Classes(t, o), Le) == SortBy(Classes(t, o'), Le)
      {
        EqualTiesHide(t, o, o');
      }
    }
  }

  lemma EqualTiesHide(t: Tables, o: seq<(int, int)>, o': seq<(int, int)>)
    requires IsIteration(t, o) && IsIteration(t, o')
    requires forall k, k' :: IsClassmap(t, k) && IsClassmap(t, k') && Tied(Class(t, k), Class(t, k')) ==>
               Class(t, k) == Class(t, k')
    ensures SortBy(Classes(t, o), Le) == SortBy(Classes(t, o'), Le)
  {
    LePreorder();
    ClassesPermute(t, o, o');
    SortBySorted(Classes(t, o), Le);
    SortBySorted(Classes(t, o'), Le);
    var a := SortBy(Classes(t, o), Le);
    forall x, y | x in a && y in a && Le(x, y) && Le(y, x) ensures x == y {
      DecodedIsSortedAndComplete(t, o);
    }
    SortedUnique(a, SortBy(Classes(t, o'), Le), Le);
  }

  lemma TiedPairShows(t: Tables, k: (int, int), k': (int, int))
    requires IsClassmap(t, k) && IsClassmap(t, k') && Tied(Class(t, k), Class(t, k')) && Class(t, k) != Class(t, k')
    ensures !OrderDoesNotShow(t)
  {
    hide Tied, Class, Classes, SortBy, Le, IsIteration, IsClassmap;
    var rest := IterationsFrom(t, k, k');
    PairOutputsDiffer(t, k, k', rest);
    assert IsIteration(t, [k, k'] + rest) && IsIteration(t, [k', k] + rest);
  }

  // The other keys, so that a visit can start with two given ones in either order.
  lemma IterationsFrom(t: Tables, k: (int, int), k': (int, int)) returns (rest: seq<(int, int)>)
    requires IsClassmap(t, k) && IsClassmap(t, k') && k != k'
    ensures IsIteration(t, [k, k'] + rest) && IsIteration(t, [k', k] + rest)
  {
    assert k in ObjectsOf(t) && k' in ObjectsOf(t);
    hide ObjectsOf, IsClassmap;
    var keys := ObjectsOf(t).Keys;
    rest := Enumerate(keys - {k, k'});
    assert keys == {k, k'} + (keys - {k, k'});
    assert multiset(keys) == multiset{k, k'} + multiset(keys - {k, k'});
    assert multiset([k, k']) == multiset{k, k'} == multiset([k', k]);
  }

  lemma ClassesOfPair(t: Tables, k: (int, int), k': (int, int), rest: seq<(int, int)>)
    requires IsClassmap(t, k) && IsClassmap(t, k')
    ensures Classes(t, [k, k'] + rest) == [Class(t, k), Class(t, k')] + Classes(t, rest)
  {
    ClassesAppend(t, [k, k'], rest);
    ClassesAppend(t, [k], [k']);
    assert [k] + [k'] == [k, k'] && [k][..0] == [] && [k'][..0] == [];
  }

  lemma PairOutputsDiffer(t: Tables, k: (int, int), k': (int, int), rest: seq<(int, int)>)
    requires IsClassmap(t, k) && IsClassmap(t, k') && Tied(Class(t, k), Class(t, k')) && Class(t, k) != Class(t, k')
    ensures SortBy(Classes(t, [k, k'] + rest), Le) != SortBy(Classes(t, [k', k] + rest), Le)
  {
    hide Class, IsClassmap, Le, Classes, SortBy;
    var x, y, more := Class(t, k), Class(t, k'), Classes(t, rest);
    ClassesOfPair(t, k, k', rest);
    ClassesOfPair(t, k', k, rest);
    LePreorder();
    SortByStable([x, y] + more, x, Le);
    SortByStable([y, x] + more, y, Le);
    TiesStart(x, y, more);
    TiesStart(y, x, more);
    TiesSameClass(SortBy([x, y] + more, Le), x, y);
  }

  // ---- The negative-probe cache --------------------------------------------------------------

  // What the poller tells the cache, with the instant where it matters.
  datatype ProbeEvent = Absent(fqdn: string, at: nat) | Present(fqdn: string) | Retain(keep: set<string>)

  function AfterEvent(negatives: map<string, nat>, e: ProbeEvent): map<string, nat> {
    match e
    case Absent(fqdn, at) => negatives[fqdn := at]
    case Present(fqdn) => negatives - {fqdn}
    case Retain(keep) => map fqdn | fqdn in negatives && fqdn in keep :: negatives[fqdn]
  }

  function AfterEvents(events: seq<ProbeEvent>): map<string, nat> {
    if events == [] then map[] else AfterEvent(AfterEvents(events[..|events| - 1]), events[|events| - 1])
  }

  // Instants saturate: a `now` before the recording counts as no time at all.
  predicate Fresh(negatives: map<string, nat>, ttl: nat, fqdn: string, now: nat) {
    fqdn in negatives && (if now < negatives[fqdn] then 0 else now - negatives[fqdn]) < ttl
  }

  class QosProbeCache {
    var negatives: map<string, nat>
    const ttl: nat

    constructor (ttl: nat)
      ensures negatives == AfterEvents([]) && this.ttl == ttl
    {
      negatives := map[];
      this.ttl := ttl;
    }

    method ShouldSkip(fqdn: string, now: nat) returns (skip: bool)
      ensures skip == Fresh(negatives, ttl, fqdn, now)
    {
      if fqdn !in negatives {
        return false;
      }
      var elapsed := if now < negatives[fqdn] then 0 else now - negatives[fqdn];
      skip := elapsed < ttl;
    }

    method RecordAbsent(fqdn: string, now: nat)
      modifies this
      ensures negatives == AfterEvent(old(negatives), Absent(fqdn, now))
    {
      negatives := negatives[fqdn := now];
    }

    method NotePresent(fqdn: string)
      modifies this
      ensures negatives == AfterEvent(old(negatives), Present(fqdn))
    {
      negatives := negatives - {fqdn};
    }

    method RetainOnly(keep: set<string>)
      modifies this
      ensures negatives == AfterEvent(old(negatives), Retain(keep))
    {
      negatives := map fqdn | fqdn in negatives && fqdn in keep :: negatives[fqdn];
    }
  }

  // An event that makes the cache forget, or renew, what it holds for a device.
  predicate Touches(e: ProbeEvent, fqdn: string) {
    match e
    case Absent(f, _) => f == fqdn
    case Present(f) => f == fqdn
    case Retain(keep) => fqdn !in keep
  }

  // After any history, a device is skipped exactly when the last event that
  // touches it is an empty walk recorded less than the time-to-live ago.
  lemma {:induction false} SkippedIffLastWalkWasEmpty(events: seq<ProbeEvent>, ttl: nat, fqdn: string, now: nat)
    ensures Fresh(AfterEvents(events), ttl, fqdn, now) <==>
            exists i :: 0 <= i < |events| && events[i].Absent? && events[i].fqdn == fqdn && ttl > 0 &&
              now < events[i].at + ttl && forall j :: i < j < |events| ==> !Touches(events[j], fqdn)
  {
    if events != [] {
      var last := |events| - 1;
      var front := events[..last];
      SkippedIffLastWalkWasEmpty(front, ttl, fqdn, now);
      if Touches(events[last], fqdn) {
        assert events[last].Absent? ==> Fresh(AfterEvents(events), ttl, fqdn, now) ==
                                        (ttl > 0 && now < events[last].at + ttl);
      } else {
        assert Fresh(AfterEvents(events), ttl, fqdn, now) == Fresh(AfterEvents(front), ttl, fqdn, now);
        assert forall i :: 0 <= i < last ==> front[i] == events[i];
      }
    }
  }
}
