/**
 The per-device data source of the discovery engine
 (nexus/src/collectors/discovery.rs): the maps a device builds from its SNMP
 tables before links are resolved.
 */
module Devices {
  import opened Options
  import opened Snmp
  import opened LastWrites
  import opened Sorting
  import opened Text

  datatype Lldp = Lldp(sysName: string, chassisId: string, portId: string, portIdSubtype: string)
  datatype Cdp = Cdp(deviceId: string, devicePort: string)

  datatype Iface = Iface(
    ifindex: int,
    name: Option<string>,
    alias: Option<string>,
    descr: Option<string>,
    iftype: Option<string>,
    physAddress: Option<string>,
    lldp: seq<Lldp>,
    cdp: Option<Cdp>)

  type Ifaces = map<int, Iface>

  ghost predicate Keyed(interfaces: Ifaces) {
    forall i :: i in interfaces ==> interfaces[i].ifindex == i
  }

  ghost predicate Into<K>(m: map<K, int>, interfaces: Ifaces) {
    forall k :: k in m ==> m[k] in interfaces
  }

  // ---- Interfaces from the two IF-MIB tables -------------------------------------------

  function Or<T>(first: Option<T>, second: Option<T>): Option<T> {
    if first.Some? then first else second
  }

  function IfaceAt(interfaces: Ifaces, i: int): Iface {
    if i in interfaces then interfaces[i] else Iface(i, None, None, None, None, None, [], None)
  }

  function MergedRow(interfaces: Ifaces, row: Row): Ifaces {
    match Index(row, "ifIndex")
    case None => interfaces
    case Some(i) =>
      var was := IfaceAt(interfaces, i);
      interfaces[i := was.(
        name := Or(ObjStr(row, "ifName"), was.name),
        alias := Or(ObjStr(row, "ifAlias"), was.alias),
        descr := Or(ObjStr(row, "ifDescr"), was.descr),
        iftype := Or(ObjStr(row, "ifType"), was.iftype),
        physAddress := Or(ObjStr(row, "ifPhysAddress"), was.physAddress))]
  }

  function MergedRows(rows: Table): Ifaces {
    if rows == [] then map[] else MergedRow(MergedRows(rows[..|rows| - 1]), rows[|rows| - 1])
  }

  function ColumnEntry(column: string): Row -> Option<(int, string)> {
    (row: Row) =>
      if Index(row, "ifIndex").Some? && ObjStr(row, column).Some?
      then Some((Index(row, "ifIndex").value, ObjStr(row, column).value))
      else None
  }

  function Column(rows: Table, column: string, i: int): Option<string> {
    var m := Indexed(rows, ColumnEntry(column));
    if i in m then Some(m[i]) else None
  }

  // Every ifIndex in either table is an interface, under its own number, and each
  // column holds the last value that a row of that interface gave for it.
  lemma {:induction false} MergedColumns(rows: Table, i: int)
    ensures i in MergedRows(rows) <==> exists r :: r in rows && Index(r, "ifIndex") == Some(i)
    ensures i in MergedRows(rows) ==>
              MergedRows(rows)[i] == Iface(i, Column(rows, "ifName", i), Column(rows, "ifAlias", i),
                Column(rows, "ifDescr", i), Column(rows, "ifType", i), Column(rows, "ifPhysAddress", i), [], None)
    ensures i !in MergedRows(rows) ==> forall c :: Column(rows, c, i).None?
  {
    hide Column, ObjStr, Index;
    if rows != [] {
      var front, row := rows[..|rows| - 1], rows[|rows| - 1];
      assert rows == front + [row];
      MergedColumns(front, i);
      forall c {
        ColumnStep(front, row, c, i);
      }
    } else {
      forall c {
        NoColumn(c, i);
      }
    }
  }

  lemma NoColumn(column: string, i: int)
    ensures Column([], column, i) == None
  {
  }

  lemma ColumnStep(front: Table, row: Row, column: string, i: int)
    ensures Column(front + [row], column, i) ==
      if Index(row, "ifIndex") == Some(i) then Or(ObjStr(row, column), Column(front, column, i)) else Column(front, column, i)
  {
    assert (front + [row])[..|front|] == front;
    hide ObjStr, Index;
  }

  // ---- Names to interfaces ---------------------------------------------------------------

  predicate MacKeyed(iface: Iface) {
    iface.iftype.None? || iface.iftype == Some("ethernetCsmacd")
  }

  // The texts that identify an interface, with a mark on its MAC address.
  function Candidates(iface: Iface): seq<(Option<string>, bool)> {
    [(iface.alias, false), (iface.name, false), (iface.descr, false)] +
    (if MacKeyed(iface) then [(iface.physAddress, true)] else [])
  }

  function Candidate(m: map<string, int>, c: (Option<string>, bool), i: int): map<string, int> {
    if c.0.None? || Trim(c.0.value) == "" then m
    else
      var value := Trim(c.0.value);
      if !c.1 then m[value := i]
      else
        var spaced := ReplaceChar(value, ':', ' ');
        if value in m || spaced in m then m else m[value := i][spaced := i]
  }

  function AllCandidates(m: map<string, int>, cs: seq<(Option<string>, bool)>, i: int): map<string, int> {
    if cs == [] then m else Candidate(AllCandidates(m, cs[..|cs| - 1], i), cs[|cs| - 1], i)
  }

  function Registered(interfaces: Ifaces, order: seq<int>): map<string, int>
    requires forall i :: i in order ==> i in interfaces
  {
    if order == [] then map[]
    else
      var last := order[|order| - 1];
      AllCandidates(Registered(interfaces, order[..|order| - 1]), Candidates(interfaces[last]), last)
  }

  // A text, as opposed to a MAC address, of the interface.
  predicate HasText(iface: Iface, k: string) {
    k != "" && exists c :: c in {iface.alias, iface.name, iface.descr} && c.Some? && Trim(c.value) == k
  }

  // A MAC address identifies an interface of an unknown type or an Ethernet one.
  predicate HasMac(iface: Iface, k: string) {
    iface.iftype in {None, Some("ethernetCsmacd")} && iface.physAddress.Some? && Trim(iface.physAddress.value) != "" &&
    (k == Trim(iface.physAddress.value) || k == ReplaceChar(Trim(iface.physAddress.value), ':', ' '))
  }

  lemma CandidatesOf(m: map<string, int>, iface: Iface, i: int, k: string)
    ensures var m' := AllCandidates(m, Candidates(iface), i);
      && (HasText(iface, k) ==> k in m' && m'[k] == i)
      && (!HasText(iface, k) && k in m ==> k in m' && m'[k] == m[k])
      && (!HasText(iface, k) && k !in m && k in m' ==> HasMac(iface, k) && m'[k] == i)
  {
    hide Trim, ReplaceChar;
    var a, n, d := (iface.alias, false), (iface.name, false), (iface.descr, false);
    var m1 := Candidate(m, a, i);
    var m2 := Candidate(m1, n, i);
    var m3 := Candidate(m2, d, i);
    ThreeTexts(m, a, n, d, i);
    if MacKeyed(iface) {
      var p := (iface.physAddress, true);
      assert Candidates(iface) == [a, n, d, p];
      assert [a, n, d, p][..3] == [a, n, d];
      assert AllCandidates(m, [a, n, d, p], i) == Candidate(m3, p, i);
    } else {
      assert Candidates(iface) == [a, n, d];
    }
  }

  lemma ThreeTexts(m: map<string, int>, a: (Option<string>, bool), n: (Option<string>, bool), d: (Option<string>, bool), i: int)
    ensures AllCandidates(m, [a, n, d], i) == Candidate(Candidate(Candidate(m, a, i), n, i), d, i)
  {
    hide Candidate;
    assert [a][..0] == [];
    assert AllCandidates(m, [a], i) == Candidate(m, a, i);
    assert [a, n][..1] == [a];
    assert AllCandidates(m, [a, n], i) == Candidate(Candidate(m, a, i), n, i);
    assert [a, n, d][..2] == [a, n];
  }

  // A text belongs to the interface with the highest number that carries it, even
  // when it is also some interface's MAC address; any other key is a spelling of
  // the MAC address of the interface it leads to.
  lemma {:induction false} WhoOwnsText(interfaces: Ifaces, order: seq<int>, k: string)
    requires forall i :: i in order ==> i in interfaces
    requires Increasing(order)
    ensures var m := Registered(interfaces, order);
      && (k in m ==> m[k] in order && (HasText(interfaces[m[k]], k) || HasMac(interfaces[m[k]], k)))
      && (forall i :: i in order && HasText(interfaces[i], k) ==> k in m && m[k] >= i && HasText(interfaces[m[k]], k))
  {
    hide HasText, HasMac, AllCandidates, Candidates;
    if order != [] {
      var front, last := order[..|order| - 1], order[|order| - 1];
      assert order == front + [last];
      WhoOwnsText(interfaces, front, k);
      CandidatesOf(Registered(interfaces, front), interfaces[last], last, k);
    }
  }

  // The space-separated spelling of the MAC address that an interface is keyed by.
  function MacForm(iface: Iface): Option<string> {
    if iface.iftype in {None, Some("ethernetCsmacd")} && iface.physAddress.Some? && Trim(iface.physAddress.value) != ""
    then Some(ReplaceChar(Trim(iface.physAddress.value), ':', ' ')) else None
  }

  ghost predicate IsText(interfaces: Ifaces, order: seq<int>, k: string)
    requires forall i :: i in order ==> i in interfaces
  {
    exists i :: i in order && HasText(interfaces[i], k)
  }

  // What the candidates of an interface do to a key that is no text of it.
  lemma MacCandidate(m: map<string, int>, iface: Iface, i: int)
    requires MacForm(iface).Some?
    requires var value := Trim(iface.physAddress.value); !HasText(iface, value) && !HasText(iface, MacForm(iface).value)
    ensures var m', value, form := AllCandidates(m, Candidates(iface), i), Trim(iface.physAddress.value), MacForm(iface).value;
      if value in m || form in m then (value in m' <==> value in m) && (form in m' <==> form in m)
      else value in m' && m'[value] == i && form in m' && m'[form] == i
  {
    var value, form := Trim(iface.physAddress.value), MacForm(iface).value;
    var a, n, d, p := (iface.alias, false), (iface.name, false), (iface.descr, false), (iface.physAddress, true);
    var m3 := AllCandidates(m, [a, n, d], i);
    TextsKeep(m, iface, i, value);
    TextsKeep(m, iface, i, form);
    assert Candidates(iface) == [a, n, d, p];
    assert [a, n, d, p][..3] == [a, n, d];
    assert AllCandidates(m, [a, n, d, p], i) == Candidate(m3, p, i);
    hide AllCandidates, HasText, Trim, ReplaceChar;
  }

  lemma TextsKeep(m: map<string, int>, iface: Iface, i: int, k: string)
    requires k != "" && !HasText(iface, k)
    ensures var m' := AllCandidates(m, [(iface.alias, false), (iface.name, false), (iface.descr, false)], i);
      (k in m' <==> k in m) && (k in m ==> m'[k] == m[k])
  {
    hide Trim;
    ThreeTexts(m, (iface.alias, false), (iface.name, false), (iface.descr, false), i);
  }

  lemma FormOfForm(s: string)
    ensures ReplaceChar(ReplaceChar(s, ':', ' '), ':', ' ') == ReplaceChar(s, ':', ' ')
  {
  }

  // A key that is no text is registered only by owners of its address.
  lemma OwnersShareForm(interfaces: Ifaces, order: seq<int>, k: string)
    requires forall i :: i in order ==> i in interfaces
    requires Increasing(order) && !IsText(interfaces, order, k) && k in Registered(interfaces, order)
    ensures exists j :: j in order && MacForm(interfaces[j]) == Some(ReplaceChar(k, ':', ' '))
  {
    WhoOwnsText(interfaces, order, k);
    var j := Registered(interfaces, order)[k];
    hide Registered, Trim;
    assert HasMac(interfaces[j], k);
    FormOfForm(Trim(interfaces[j].physAddress.value));
  }

  // The first interface owning a MAC address wins, and both spellings lead to it,
  // unless some interface carries them as a text.
  lemma {:induction false} FirstMacWins(interfaces: Ifaces, order: seq<int>, n: nat)
    requires forall i :: i in order ==> i in interfaces
    requires Increasing(order) && n < |order| && order[n] in interfaces
    requires MacForm(interfaces[order[n]]).Some?
    requires forall k :: 0 <= k < n ==> order[k] in interfaces && MacForm(interfaces[order[k]]) != MacForm(interfaces[order[n]])
    requires !IsText(interfaces, order, Trim(interfaces[order[n]].physAddress.value))
    requires !IsText(interfaces, order, MacForm(interfaces[order[n]]).value)
    ensures Owns(Registered(interfaces, order), interfaces[order[n]], order[n])
  {
    hide Registered, Candidates, AllCandidates, Trim, ReplaceChar, HasText, HasMac;
    var i, last := order[n], order[|order| - 1];
    var front := order[..|order| - 1];
    var value, form := Trim(interfaces[i].physAddress.value), MacForm(interfaces[i]).value;
    assert order == front + [last];
    RegisteredSnoc(interfaces, front, last);
    FormOfForm(value);
    assert forall k :: !IsText(interfaces, order, k) ==> !IsText(interfaces, front, k) && !HasText(interfaces[last], k);
    if n < |front| {
      FirstMacWins(interfaces, front, n);
      CandidatesOf(Registered(interfaces, front), interfaces[last], last, value);
      CandidatesOf(Registered(interfaces, front), interfaces[last], last, form);
    } else {
      if value in Registered(interfaces, front) {
        OwnersShareForm(interfaces, front, value);
      }
      if form in Registered(interfaces, front) {
        OwnersShareForm(interfaces, front, form);
      }
      MacCandidate(Registered(interfaces, front), interfaces[last], last);
    }
  }

  predicate Owns(m: map<string, int>, iface: Iface, i: int)
    requires MacForm(iface).Some?
  {
    var value, form := Trim(iface.physAddress.value), MacForm(iface).value;
    value in m && m[value] == i && form in m && m[form] == i
  }

  lemma RegisteredSnoc(interfaces: Ifaces, order: seq<int>, last: int)
    requires last in interfaces && forall i :: i in order ==> i in interfaces
    ensures Registered(interfaces, order + [last]) == AllCandidates(Registered(interfaces, order), Candidates(interfaces[last]), last)
  {
    assert (order + [last])[..|order|] == order;
  }

  // ---- LLDP local ports ---------------------------------------------------------------------

  predicate IsMacPort(row: Row) {
    ObjStr(row, "lldpLocPortIdSubtype") == Some("macAddress")
  }

  function PortId(row: Row): string {
    ObjStr(row, "lldpLocPortId").GetOr("")
  }

  // The vendor bug: two ports identified by one MAC address.
  ghost predicate DuplicateMacs(rows: Table) {
    exists i, j :: 0 <= i < j < |rows| && IsMacPort(rows[i]) && IsMacPort(rows[j]) && PortId(rows[i]) == PortId(rows[j])
  }

  // What a port id stands for when it spells another one in hexadecimal.
  function HexTarget(interfaces: Ifaces, anything: map<string, int>, portId: string): Option<int> {
    var port :- UnhexAscii(portId);
    if ParseI64(port).Some? && ParseI64(port).value in interfaces then ParseI64(port)
    else if |port| >= 3 && port[..3] == "Eth" && SpellEthernet(port) in anything then Some(anything[SpellEthernet(port)])
    else if port in anything then Some(anything[port])
    else None
  }

  // Which interface a local port stands for: the strongest of the guesses.
  function PortTarget(interfaces: Ifaces, anything: map<string, int>, duplicates: bool, row: Row, port: int): Option<int> {
    var id := PortId(row);
    var byName := if id in anything then Some(anything[id]) else None;
    if IsMacPort(row) then
      if !duplicates && byName.Some? then byName else if port in interfaces then Some(port) else None
    else if ObjStr(row, "lldpLocPortIdSubtype") in {Some("local"), Some("interfaceName")} then
      Or(HexTarget(interfaces, anything, id), byName)
    else byName
  }

  function PortEntry(interfaces: Ifaces, anything: map<string, int>, duplicates: bool): Row -> Option<(int, int)> {
    (row: Row) =>
      var port := Index(row, "lldpLocPortNum");
      if port.None? then None
      else
        var target := PortTarget(interfaces, anything, duplicates, row, port.value);
        if target.None? then None else Some((port.value, target.value))
  }

  // A local port whose description is the number of an interface.
  function LocalEntry(interfaces: Ifaces): Row -> Option<(string, int)> {
    (row: Row) =>
      var number := ParseI64(ObjStr(row, "lldpLocPortDesc").GetOr(""));
      if Index(row, "lldpLocPortNum").None? || ObjStr(row, "lldpLocPortIdSubtype") != Some("local") ||
         number.None? || number.value !in interfaces
      then None
      else Some((PortId(row), number.value))
  }

  // ---- What the local port table says of one port, in terms of its rows ------------------

  // The last row about a port decides, as far as it leads anywhere: a MAC address to
  // its owner, unless addresses repeat, and else to the interface of the port's number;
  // a local or an interface name to the interface that its hexadecimal spelling
  // numbers, else the one it names with "Eth" spelled out, else the one it names, and
  // else the one that the id itself names; any other id to the one that it names. A
  // row that leads nowhere leaves the port to the earlier rows.
  lemma LocalPortTarget(base: Ifaces, anything: map<string, int>, duplicates: bool, rows: Table, port: int, k: nat)
    requires LastAbout(rows, "lldpLocPortNum", port, k)
    ensures var m, before := Indexed(rows, PortEntry(base, anything, duplicates)), Indexed(rows[..k], PortEntry(base, anything, duplicates));
      var id, subtype := ObjStr(rows[k], "lldpLocPortId").GetOr(""), ObjStr(rows[k], "lldpLocPortIdSubtype").GetOr("");
      && (subtype == "macAddress" ==>
            && (!duplicates && id in anything ==> port in m && m[port] == anything[id])
            && ((duplicates || id !in anything) && port in base ==> port in m && m[port] == port)
            && ((duplicates || id !in anything) && port !in base ==> SameAt(m, before, port)))
      && (subtype == "local" || subtype == "interfaceName" ==>
            var text := UnhexAscii(id);
            && (text.None? && id in anything ==> port in m && m[port] == anything[id])
            && (text.None? && id !in anything ==> SameAt(m, before, port))
            && (text.Some? ==> SpelledTarget(m, before, base, anything, id, text.value, port)))
      && (subtype !in {"macAddress", "local", "interfaceName"} ==>
            && (id in anything ==> port in m && m[port] == anything[id])
            && (id !in anything ==> SameAt(m, before, port)))
  {
    hide Indexed, PortEntry, PortTarget, ParseI64, SpellEthernet, UnhexAscii, ObjStr;
    LastRowDecides(base, anything, duplicates, rows, port, k);
    TargetOfRow(base, anything, duplicates, rows[k], port);
    assert "macAddress" != "local" && "macAddress" != "interfaceName";
  }

  lemma TargetOfRow(base: Ifaces, anything: map<string, int>, duplicates: bool, row: Row, port: int)
    ensures var id, subtype := ObjStr(row, "lldpLocPortId").GetOr(""), ObjStr(row, "lldpLocPortIdSubtype").GetOr("");
      PortTarget(base, anything, duplicates, row, port) ==
      if subtype == "macAddress" then
        (if !duplicates && id in anything then Some(anything[id]) else if port in base then Some(port) else None)
      else
        Or(if subtype == "local" || subtype == "interfaceName" then HexTarget(base, anything, id) else None,
           if id in anything then Some(anything[id]) else None)
  {
    hide ObjStr, HexTarget;
  }

  predicate SameAt<K>(m: map<K, int>, before: map<K, int>, k: K) {
    (k in m <==> k in before) && (k in m ==> m[k] == before[k])
  }

  predicate SpelledTarget(m: map<int, int>, before: map<int, int>, base: Ifaces, anything: map<string, int>,
                          id: string, text: string, port: int)
  {
    var number, ethernet := ParseI64(text), SpellEthernet(text);
    if number.Some? && number.value in base then port in m && m[port] == number.value
    else if "Eth" <= text && ethernet in anything then port in m && m[port] == anything[ethernet]
    else if text in anything then port in m && m[port] == anything[text]
    else if id in anything then port in m && m[port] == anything[id]
    else SameAt(m, before, port)
  }

  lemma LastRowDecides(base: Ifaces, anything: map<string, int>, duplicates: bool, rows: Table, port: int, k: nat)
    requires LastAbout(rows, "lldpLocPortNum", port, k)
    ensures var m, before := Indexed(rows, PortEntry(base, anything, duplicates)), Indexed(rows[..k], PortEntry(base, anything, duplicates));
      var target := PortTarget(base, anything, duplicates, rows[k], port);
      if target.Some? then port in m && m[port] == target.value else SameAt(m, before, port)
  {
    hide Indexed, PortTarget;
    var entry := PortEntry(base, anything, duplicates);
    LaterRowsKeep(rows, entry, port, k + 1);
    IndexedGrows(rows, entry, k);
  }

  // A port named "local" with a decimal description is that interface's, for whoever
  // announces the id; the last such row with the id decides.
  lemma LocalIdTarget(base: Ifaces, rows: Table, id: string, i: int)
    ensures var m := Indexed(rows, LocalEntry(base));
      id in m && m[id] == i <==> exists k: nat :: IsLocalRow(base, rows, id, i, k)
  {
    IndexedByLastWriter(rows, LocalEntry(base), id);
    LocalEntryNumbers(base, id);
    hide Indexed, LocalEntry, NumbersIface;
    var m := Indexed(rows, LocalEntry(base));
    if k: nat :| IsLocalRow(base, rows, id, i, k) {
      forall j | k < j < |rows| && LocalEntry(base)(rows[j]).Some? ensures LocalEntry(base)(rows[j]).value.0 != id {
        var e := LocalEntry(base)(rows[j]).value;
        assert !NumbersIface(base, rows[j], id, e.1);
      }
      assert LastWriter(rows, LocalEntry(base), id, k);
    }
    if k: nat :| LastWriter(rows, LocalEntry(base), id, k) {
      assert m[id] == i ==> IsLocalRow(base, rows, id, i, k);
    }
  }

  lemma LocalEntryNumbers(base: Ifaces, id: string)
    ensures forall row, n :: NumbersIface(base, row, id, n) <==> LocalEntry(base)(row) == Some((id, n))
  {
    hide ParseI64, ObjStr, Index;
  }

  predicate NumbersIface(base: Ifaces, row: Row, id: string, i: int) {
    && Index(row, "lldpLocPortNum").Some? && ObjStr(row, "lldpLocPortIdSubtype") == Some("local")
    && ObjStr(row, "lldpLocPortId").GetOr("") == id
    && ParseI64(ObjStr(row, "lldpLocPortDesc").GetOr("")) == Some(i) && i in base
  }

  ghost predicate IsLocalRow(base: Ifaces, rows: Table, id: string, i: int, k: nat) {
    && k < |rows| && NumbersIface(base, rows[k], id, i)
    && forall j, n :: k < j < |rows| ==> !NumbersIface(base, rows[j], id, n)
  }

  // ---- LLDP and CDP neighbours ------------------------------------------------------------------

  // An interface whose name ends in ".0" reports on its parent.
  function ParentOf(interfaces: Ifaces, anything: map<string, int>, i: int): int {
    if i in interfaces && interfaces[i].name.Some? then
      var name := interfaces[i].name.value;
      if |name| >= 2 && name[|name| - 2..] == ".0" && name[..|name| - 2] in anything
      then anything[name[..|name| - 2]]
      else i
    else i
  }

  // The interface a remote row belongs to; without a mapping, the port number itself.
  function RemoteTarget(interfaces: Ifaces, anything: map<string, int>, lldpIndex: map<int, int>, row: Row): Option<int> {
    var port :- Index(row, "lldpRemLocalPortNum");
    if port in lldpIndex then Some(ParentOf(interfaces, anything, lldpIndex[port]))
    else if port in interfaces then Some(ParentOf(interfaces, anything, port))
    else None
  }

  function RemoteNeighbour(row: Row): Lldp {
    Lldp(ObjStr(row, "lldpRemSysName").GetOr(""), ObjStr(row, "lldpRemChassisId").GetOr(""),
         ObjStr(row, "lldpRemPortId").GetOr(""), ObjStr(row, "lldpRemPortIdSubtype").GetOr(""))
  }

  // The neighbours that the rows announce on interface i, in row order.
  function AnnouncedOn(interfaces: Ifaces, anything: map<string, int>, lldpIndex: map<int, int>, rows: Table, i: int): seq<Lldp> {
    if rows == [] then []
    else
      var row := rows[|rows| - 1];
      AnnouncedOn(interfaces, anything, lldpIndex, rows[..|rows| - 1], i) +
      (if RemoteTarget(interfaces, anything, lldpIndex, row) == Some(i) && Trim(RemoteNeighbour(row).sysName) != ""
       then [RemoteNeighbour(row)] else [])
  }

  // Later rows announce after earlier ones.
  lemma {:induction false} AnnouncedInOrder(base: Ifaces, anything: map<string, int>, lldpIndex: map<int, int>, a: Table, b: Table, i: int)
    ensures AnnouncedOn(base, anything, lldpIndex, a + b, i) ==
            AnnouncedOn(base, anything, lldpIndex, a, i) + AnnouncedOn(base, anything, lldpIndex, b, i)
  {
    hide RemoteTarget, RemoteNeighbour, Trim;
    if b == [] {
      assert a + b == a;
    } else {
      assert (a + b)[..|a + b| - 1] == a + b[..|b| - 1];
      AnnouncedInOrder(base, anything, lldpIndex, a, b[..|b| - 1], i);
    }
  }

  // An interface whose name is a registered one and ".0" reports on the registered one.
  ghost predicate ReportsOn(base: Ifaces, anything: map<string, int>, at: int, to: int) {
    && at in base
    && if exists stem :: base[at].name == Some(stem + ".0") && stem in anything
       then exists stem :: base[at].name == Some(stem + ".0") && stem in anything && to == anything[stem]
       else to == at
  }

  // A row announces one neighbour, column by column, unless its system name is blank:
  // for the interface that its local port maps to, or that has the port's number when
  // the port is unmapped. Without a local port it announces nothing.
  lemma AnnouncementOfRow(base: Ifaces, anything: map<string, int>, lldpIndex: map<int, int>, row: Row, i: int)
    requires Into(lldpIndex, base)
    ensures var port, sysName := Index(row, "lldpRemLocalPortNum"), ObjStr(row, "lldpRemSysName").GetOr("");
      AnnouncedOn(base, anything, lldpIndex, [row], i) ==
      if port.Some? && Trim(sysName) != "" &&
         ReportsOn(base, anything, if port.value in lldpIndex then lldpIndex[port.value] else port.value, i)
      then [Lldp(sysName, ObjStr(row, "lldpRemChassisId").GetOr(""), ObjStr(row, "lldpRemPortId").GetOr(""),
                 ObjStr(row, "lldpRemPortIdSubtype").GetOr(""))]
      else []
  {
    hide Trim, ObjStr;
    var port := Index(row, "lldpRemLocalPortNum");
    if port.Some? {
      ParentReports(base, anything, if port.value in lldpIndex then lldpIndex[port.value] else port.value);
    }
    hide ReportsOn, ParentOf;
    assert [row][..0] == [];
    assert AnnouncedOn(base, anything, lldpIndex, [], i) == [];
  }

  lemma ParentReports(base: Ifaces, anything: map<string, int>, at: int)
    ensures at in base ==> forall i :: ReportsOn(base, anything, at, i) <==> ParentOf(base, anything, at) == i
  {
    if at in base && base[at].name.Some? {
      var name := base[at].name.value;
      if |name| >= 2 && name[|name| - 2..] == ".0" {
        assert name == name[..|name| - 2] + ".0";
      }
      forall stem | name == stem + ".0" ensures |name| >= 2 && name[..|name| - 2] == stem && name[|name| - 2..] == ".0" {
      }
    }
  }

  function WithLldp(iface: Iface, more: seq<Lldp>): Iface {
    iface.(lldp := iface.lldp + more)
  }

  // One announcement, on its interface.
  function WithRemote(interfaces: Ifaces, target: Option<int>, row: Row): Ifaces {
    if target.Some? && target.value in interfaces && Trim(RemoteNeighbour(row).sysName) != ""
    then interfaces[target.value := WithLldp(interfaces[target.value], [RemoteNeighbour(row)])]
    else interfaces
  }

  function CdpEntry(row: Row): Option<(int, Cdp)> {
    var i :- Index(row, "cdpCacheIfIndex");
    Some((i, Cdp(ObjStr(row, "cdpCacheDeviceId").GetOr(""), ObjStr(row, "cdpCacheDevicePort").GetOr(""))))
  }

  function WithCdp(iface: Iface, cdp: map<int, Cdp>, i: int): Iface {
    if i in cdp then iface.(cdp := Some(cdp[i])) else iface
  }

  function Sane(iface: Iface): Iface {
    iface.(name := Or(iface.name, iface.descr), iftype := Some(iface.iftype.GetOr("other")))
  }

  // A name or a type that was there stays, a missing name is the description and a
  // missing type "other"; nothing else changes.
  predicate MadeSane(was: Iface, now: Iface) {
    && (was.name.Some? ==> now.name == was.name) && (was.name.None? ==> now.name == was.descr)
    && (was.iftype.Some? ==> now.iftype == was.iftype) && (was.iftype.None? ==> now.iftype == Some("other"))
    && now == was.(name := now.name, iftype := now.iftype)
  }

  lemma MadeSaneIs(was: Iface, now: Iface)
    requires MadeSane(was, now)
    ensures now == Sane(was)
  {
  }

  // An interface after the neighbour tables, from what it was before them.
  function Completed(base: Ifaces, anything: map<string, int>, lldpIndex: map<int, int>, remotes: Table, cdp: Table, i: int): Iface
    requires i in base
  {
    Sane(WithCdp(WithLldp(base[i], AnnouncedOn(base, anything, lldpIndex, remotes, i)), Indexed(cdp, CdpEntry), i))
  }

  // ---- What link resolution sees of a device ------------------------------------------------

  // `visit` is the order in which the interface map is iterated, and `chassis`
  // the id that the bridge address or the local LLDP data gave.
  datatype Device = Device(
    fqdn: string,
    interfaces: Ifaces,
    visit: seq<int>,
    anything: map<string, int>,
    lldpLocal: map<string, int>,
    duplicateMacs: bool,
    chassis: Option<string>)

  // A map is iterated in some order, each key once.
  ghost predicate EachOnce<T(!new)>(visit: seq<T>, keys: set<T>) {
    (forall x :: x in visit <==> x in keys) && forall i, j :: 0 <= i < j < |visit| ==> visit[i] != visit[j]
  }

  ghost predicate ValidDevice(d: Device) {
    && Keyed(d.interfaces) && Into(d.anything, d.interfaces) && Into(d.lldpLocal, d.interfaces)
    && EachOnce(d.visit, d.interfaces.Keys)
  }

  // The bridge address, with colons, before the local LLDP chassis id.
  function ChassisId(bridgeAddress: Option<string>, localChassisId: Option<string>): Option<string> {
    match bridgeAddress
    case Some(address) => Some(ReplaceChar(address, ' ', ':'))
    case None =>
      match localChassisId
      case Some(id) => Some(ReplaceChar(id, ' ', ':'))
      case None => None
  }

  lemma ColonsStay(id: string)
    ensures ' ' !in id ==> ReplaceChar(id, ' ', ':') == id
  {
  }

  // ---- The device ---------------------------------------------------------------------------------

  class DetectedDevice {
    const fqdn: string
    var interfaces: Ifaces
    var anything: map<string, int>
    var lldpIndex: map<int, int>
    var lldpLocal: map<string, int>
    var duplicateMacs: bool

    // All maps lead to interfaces, and interfaces know their numbers.
    ghost predicate Valid()
      reads this
    {
      Keyed(interfaces) && Into(anything, interfaces) && Into(lldpIndex, interfaces) && Into(lldpLocal, interfaces)
    }

    // However the device came to its maps, link resolution gets a valid view of it.
    ghost function View(visit: seq<int>, bridgeAddress: Option<string>, localChassisId: Option<string>): (d: Device)
      requires Valid() && EachOnce(visit, interfaces.Keys)
      reads this
      ensures ValidDevice(d)
      ensures bridgeAddress.None? && localChassisId.None? <==> d.chassis.None?
      ensures d.chassis.Some? ==> ' ' !in d.chassis.value
      ensures bridgeAddress.Some? && ' ' !in bridgeAddress.value ==> d.chassis == bridgeAddress
      ensures bridgeAddress.None? && localChassisId.Some? && ' ' !in localChassisId.value ==> d.chassis == localChassisId
      ensures d.fqdn == fqdn && d.interfaces == interfaces && d.visit == visit
      ensures d.anything == anything && d.lldpLocal == lldpLocal && d.duplicateMacs == duplicateMacs
    {
      ColonsStay(bridgeAddress.GetOr(""));
      ColonsStay(localChassisId.GetOr(""));
      Device(fqdn, interfaces, visit, anything, lldpLocal, duplicateMacs, ChassisId(bridgeAddress, localChassisId))
    }

    constructor (fqdn: string)
      ensures this.fqdn == fqdn && Valid()
      ensures interfaces == map[] && anything == map[] && lldpIndex == map[] && lldpLocal == map[] && !duplicateMacs
    {
      this.fqdn := fqdn;
      interfaces, anything, lldpIndex, lldpLocal, duplicateMacs := map[], map[], map[], map[], false;
    }

    method MergeIfmibEntry(row: Row)
      requires Valid()
      modifies this`interfaces
      ensures Valid() && interfaces == MergedRow(old(interfaces), row)
    {
      var ifindex := Index(row, "ifIndex");
      if ifindex.None? {
        return;
      }
      var iface := IfaceAt(interfaces, ifindex.value);
      if ObjStr(row, "ifName").Some? { iface := iface.(name := ObjStr(row, "ifName")); }
      if ObjStr(row, "ifAlias").Some? { iface := iface.(alias := ObjStr(row, "ifAlias")); }
      if ObjStr(row, "ifDescr").Some? { iface := iface.(descr := ObjStr(row, "ifDescr")); }
      if ObjStr(row, "ifType").Some? { iface := iface.(iftype := ObjStr(row, "ifType")); }
      if ObjStr(row, "ifPhysAddress").Some? { iface := iface.(physAddress := ObjStr(row, "ifPhysAddress")); }
      interfaces := interfaces[ifindex.value := iface];
    }

    method BuildAnythingToInterface()
      requires Valid()
      modifies this`anything
      ensures Valid()
      ensures exists order :: Ascending(order, interfaces.Keys) && anything == Registered(interfaces, order)
    {
      var ifindexes := SortedKeys(interfaces.Keys);
      var mapping: map<string, int> := map[];
      for j := 0 to |ifindexes|
        invariant mapping == Registered(interfaces, ifindexes[..j])
      {
        var i := ifindexes[j];
        assert ifindexes[..j + 1][..j] == ifindexes[..j];
        var before := mapping;
        var candidates := Candidates(interfaces[i]);
        for c := 0 to |candidates|
          invariant mapping == AllCandidates(before, candidates[..c], i)
        {
          assert candidates[..c + 1][..c] == candidates[..c];
          mapping := RegisterCandidate(mapping, candidates[c].0, candidates[c].1, i);
        }
        assert candidates[..|candidates|] == candidates;
      }
      assert ifindexes[..|ifindexes|] == ifindexes;
      anything := mapping;
      forall k | k in anything ensures anything[k] in interfaces {
        WhoOwnsText(interfaces, ifindexes, k);
      }
    }

    static method RegisterCandidate(m: map<string, int>, candidate: Option<string>, isMac: bool, i: int)
      returns (r: map<string, int>)
      ensures r == Candidate(m, (candidate, isMac), i)
    {
      r := m;
      if candidate.None? {
        return;
      }
      var value := Trim(candidate.value);
      if value == "" {
        return;
      }
      if isMac {
        var spaced := ReplaceChar(value, ':', ' ');
        if value in m || spaced in m {
          return;
        }
        r := r[value := i];
        r := r[spaced := i];
      } else {
        r := r[value := i];
      }
    }

    method FindDuplicateMacs(rows: Table)
      modifies this`duplicateMacs
      ensures duplicateMacs == (old(duplicateMacs) || DuplicateMacs(rows))
    {
      var seen: set<string> := {};
      for i := 0 to |rows|
        invariant duplicateMacs == (old(duplicateMacs) || DuplicateMacs(rows[..i]))
        invariant !duplicateMacs ==> forall id :: id in seen <==> exists j :: 0 <= j < i && IsMacPort(rows[j]) && PortId(rows[j]) == id
      {
        DuplicatesGrow(rows, i);
        if IsMacPort(rows[i]) && !duplicateMacs {
          if PortId(rows[i]) in seen {
            duplicateMacs := true;
          } else {
            seen := seen + {PortId(rows[i])};
          }
        }
      }
      assert rows[..|rows|] == rows;
    }

    method HandleLldpLocPortTable(rows: Table)
      requires Valid()
      modifies this`duplicateMacs, this`lldpIndex, this`lldpLocal
      ensures Valid()
      ensures duplicateMacs == (old(duplicateMacs) || DuplicateMacs(rows))
      ensures lldpIndex == old(lldpIndex) + Indexed(rows, PortEntry(interfaces, anything, duplicateMacs))
      ensures lldpLocal == old(lldpLocal) + Indexed(rows, LocalEntry(interfaces))
    {
      hide Keyed, Into, DuplicateMacs;
      FindDuplicateMacs(rows);
      ghost var duplicates := duplicateMacs;
      ghost var ports, locals := PortEntry(interfaces, anything, duplicates), LocalEntry(interfaces);
      for i := 0 to |rows|
        invariant Valid() && duplicateMacs == duplicates
        invariant lldpIndex == old(lldpIndex) + Indexed(rows[..i], ports)
        invariant lldpLocal == old(lldpLocal) + Indexed(rows[..i], locals)
      {
        assert rows[..i + 1] == rows[..i] + [rows[i]];
        IndexedSnoc(old(lldpIndex), rows[..i], rows[i], ports);
        IndexedSnoc(old(lldpLocal), rows[..i], rows[i], locals);
        hide *;
        HandlePortRow(rows[i]);
      }
      assert rows[..|rows|] == rows;
    }

    method HandlePortRow(row: Row)
      requires Valid()
      modifies this`lldpIndex, this`lldpLocal
      ensures Valid()
      ensures lldpIndex == Written(old(lldpIndex), PortEntry(interfaces, anything, duplicateMacs)(row))
      ensures lldpLocal == Written(old(lldpLocal), LocalEntry(interfaces)(row))
    {
      PortRow(interfaces, anything, duplicateMacs, row);
      hide PortEntry, LocalEntry, PortTarget, ParseI64, ObjStr, Index, PortId;
      assert "macAddress" != "local";
      var port := Index(row, "lldpLocPortNum");
      if port.Some? {
        if IsMacPort(row) {
          MapMacPort(port.value, row);
        } else {
          MapNamedPort(port.value, row);
        }
      }
    }

    method MapMacPort(port: int, row: Row)
      requires Valid() && IsMacPort(row)
      modifies this`lldpIndex
      ensures Valid()
      ensures var target := PortTarget(interfaces, anything, duplicateMacs, row, port);
        lldpIndex == if target.Some? then old(lldpIndex)[port := target.value] else old(lldpIndex)
    {
      var portId := PortId(row);
      if duplicateMacs {
        if port in interfaces {
          lldpIndex := lldpIndex[port := port];
        }
      } else if portId in anything {
        lldpIndex := lldpIndex[port := anything[portId]];
      } else if port in interfaces {
        lldpIndex := lldpIndex[port := port];
      }
    }

    method MapNamedPort(port: int, row: Row)
      requires Valid() && !IsMacPort(row)
      modifies this`lldpIndex, this`lldpLocal
      ensures Valid()
      ensures var target := PortTarget(interfaces, anything, duplicateMacs, row, port);
        lldpIndex == if target.Some? then old(lldpIndex)[port := target.value] else old(lldpIndex)
      ensures var number := ParseI64(ObjStr(row, "lldpLocPortDesc").GetOr(""));
        lldpLocal ==
        if ObjStr(row, "lldpLocPortIdSubtype") == Some("local") && number.Some? && number.value in interfaces
        then old(lldpLocal)[PortId(row) := number.value] else old(lldpLocal)
    {
      var portType, portId := ObjStr(row, "lldpLocPortIdSubtype").GetOr(""), PortId(row);
      if portId in anything {
        lldpIndex := lldpIndex[port := anything[portId]];
      }
      var portDesc := ObjStr(row, "lldpLocPortDesc").GetOr("");
      if AllDigits(portDesc) && portType == "local" {
        var number := ParseI64(portDesc);
        if number.Some? && number.value in interfaces {
          lldpLocal := lldpLocal[portId := number.value];
        }
      }
      if portType == "local" || portType == "interfaceName" {
        MapIdUsingAnything(port, portId);
      }
    }

    method MapIdUsingAnything(port: int, portId: string)
      requires Valid()
      modifies this`lldpIndex
      ensures Valid()
      ensures var target := HexTarget(interfaces, anything, portId);
        lldpIndex == if target.Some? then old(lldpIndex)[port := target.value] else old(lldpIndex)
    {
      var decoded := TryUnhexAscii(portId);
      if decoded.None? {
        return;
      }
      var name := decoded.value;
      if AllDigits(name) {
        var number := ParseI64(name);
        if number.Some? && number.value in interfaces {
          lldpIndex := lldpIndex[port := number.value];
          return;
        }
      }
      if name in anything {
        lldpIndex := lldpIndex[port := anything[name]];
      }
      if |name| >= 3 && name[..3] == "Eth" {
        var spelled := SpellEthernet(name);
        if spelled in anything {
          lldpIndex := lldpIndex[port := anything[spelled]];
        }
      }
    }

    method HandleLldpRemTable(rows: Table)
      requires Valid()
      modifies this`interfaces
      ensures Valid() && interfaces.Keys == old(interfaces.Keys)
      ensures forall i :: i in interfaces ==>
        interfaces[i] == WithLldp(old(interfaces)[i], AnnouncedOn(old(interfaces), anything, lldpIndex, rows, i))
    {
      ghost var was := interfaces;
      for j := 0 to |rows|
        invariant Valid() && interfaces.Keys == was.Keys
        invariant forall i :: i in was ==>
          interfaces[i] == WithLldp(was[i], AnnouncedOn(was, anything, lldpIndex, rows[..j], i))
      {
        assert rows[..j + 1] == rows[..j] + [rows[j]];
        var row := rows[j];
        ghost var now := interfaces;
        SameTarget(was, now, anything, lldpIndex, row);
        HandleRemoteRow(row);
        RemoteOnMap(was, anything, lldpIndex, row);
        AnnouncedStep(was, now, interfaces, anything, lldpIndex, rows[..j], row);
      }
      assert rows[..|rows|] == rows;
    }

    method HandleRemoteRow(row: Row)
      requires Valid()
      modifies this`interfaces
      ensures Valid() && interfaces.Keys == old(interfaces.Keys)
      ensures interfaces == WithRemote(old(interfaces), RemoteTarget(old(interfaces), anything, lldpIndex, row), row)
    {
      RemoteOnMap(interfaces, anything, lldpIndex, row);
      ghost var goal := RemoteTarget(interfaces, anything, lldpIndex, row);
      var port := Index(row, "lldpRemLocalPortNum");
      if port.None? || !(port.value in lldpIndex || port.value in interfaces) {
        return;
      }
      var target := if port.value in lldpIndex then lldpIndex[port.value] else port.value;
      target := Parent(target);
      assert goal == Some(target);
      hide RemoteTarget, ParentOf, Trim, ObjStr;
      var sysName := ObjStr(row, "lldpRemSysName").GetOr("");
      if Trim(sysName) != "" {
        var neighbour := Lldp(
          sysName,
          ObjStr(row, "lldpRemChassisId").GetOr(""),
          ObjStr(row, "lldpRemPortId").GetOr(""),
          ObjStr(row, "lldpRemPortIdSubtype").GetOr(""));
        interfaces := interfaces[target := WithLldp(interfaces[target], [neighbour])];
      }
    }

    method Parent(i: int) returns (r: int)
      ensures r == ParentOf(interfaces, anything, i)
    {
      r := i;
      if i in interfaces && interfaces[i].name.Some? {
        var name := interfaces[i].name.value;
        if |name| >= 2 && name[|name| - 2] == '.' && name[|name| - 1] == '0' {
          var parent := name[..|name| - 2];
          if parent in anything {
            r := anything[parent];
          }
        }
      }
    }

    method HandleCdpCacheTable(rows: Table)
      requires Valid()
      modifies this`interfaces
      ensures Valid() && interfaces.Keys == old(interfaces.Keys)
      ensures var cdp := Indexed(rows, CdpEntry);
        forall i :: i in interfaces ==>
          interfaces[i] == WithCdp(old(interfaces)[i], cdp, i)
    {
      ghost var was := interfaces;
      for j := 0 to |rows|
        invariant Valid() && interfaces.Keys == was.Keys
        invariant forall i :: i in was ==> interfaces[i] == WithCdp(was[i], Indexed(rows[..j], CdpEntry), i)
      {
        assert rows[..j + 1][..j] == rows[..j];
        var ifindex := Index(rows[j], "cdpCacheIfIndex");
        if ifindex.Some? {
          var deviceId := ObjStr(rows[j], "cdpCacheDeviceId").GetOr("");
          var devicePort := ObjStr(rows[j], "cdpCacheDevicePort").GetOr("");
          if ifindex.value in interfaces {
            interfaces := interfaces[ifindex.value := interfaces[ifindex.value].(cdp := Some(Cdp(deviceId, devicePort)))];
          }
        }
      }
      assert rows[..|rows|] == rows;
    }

    // Afterwards every interface has a type, and a name if it has a description.
    method EnsureInterfaceSanity()
      requires Valid()
      modifies this`interfaces
      ensures Valid() && interfaces.Keys == old(interfaces.Keys)
      ensures forall i :: i in interfaces ==> MadeSane(old(interfaces)[i], interfaces[i])
    {
      var rest := interfaces.Keys;
      while rest != {}
        invariant rest <= interfaces.Keys && interfaces.Keys == old(interfaces.Keys) && Valid()
        invariant forall i :: i in interfaces ==>
          interfaces[i] == if i in rest then old(interfaces)[i] else Sane(old(interfaces)[i])
      {
        ghost var some := Member(rest);
        var i :| i in rest;
        var iface := interfaces[i];
        if iface.name.None? {
          iface := iface.(name := iface.descr);
        }
        if iface.iftype.None? {
          iface := iface.(iftype := Some("other"));
        }
        interfaces := interfaces[i := iface];
        rest := rest - {i};
      }
      forall i | i in interfaces ensures MadeSane(old(interfaces)[i], interfaces[i]) {
        assert interfaces[i] == Sane(old(interfaces)[i]);
      }
    }

    // Collection succeeds when both IF-MIB tables answer; any other table may fail.
    method Collect(ifx: Option<Table>, ifs: Option<Table>, ports: Option<Table>, remotes: Option<Table>, cdp: Option<Table>)
      returns (ok: bool)
      requires Valid()
      requires interfaces == map[] && anything == map[] && lldpIndex == map[] && lldpLocal == map[] && !duplicateMacs
      modifies this
      ensures Valid()
      ensures ok <==> ifx.Some? && ifs.Some?
      ensures ok ==>
        var base := MergedRows(ifx.value + ifs.value);
        && (exists order :: Ascending(order, base.Keys) && anything == Registered(base, order))
        && duplicateMacs == DuplicateMacs(ports.GetOr([]))
        && lldpIndex == Indexed(ports.GetOr([]), PortEntry(base, anything, duplicateMacs))
        && lldpLocal == Indexed(ports.GetOr([]), LocalEntry(base))
        && interfaces.Keys == base.Keys
        && forall i :: i in base ==>
             interfaces[i] == Completed(base, anything, lldpIndex, remotes.GetOr([]), cdp.GetOr([]), i)
    {
      hide *;
      ok := GetIfmibs(ifx, ifs);
      if !ok {
        return;
      }
      BuildAnythingToInterface();
      CollectPorts(ports);
      CollectNeighbours(remotes, cdp);
    }

    method CollectPorts(ports: Option<Table>)
      requires Valid() && lldpIndex == map[] && lldpLocal == map[] && !duplicateMacs
      modifies this`duplicateMacs, this`lldpIndex, this`lldpLocal
      ensures Valid()
      ensures duplicateMacs == DuplicateMacs(ports.GetOr([]))
      ensures lldpIndex == Indexed(ports.GetOr([]), PortEntry(interfaces, anything, duplicateMacs))
      ensures lldpLocal == Indexed(ports.GetOr([]), LocalEntry(interfaces))
    {
      hide Valid, DuplicateMacs, Indexed, PortEntry, LocalEntry;
      if ports.Some? {
        HandleLldpLocPortTable(ports.value);
      } else {
        NoPorts(interfaces, anything);
      }
    }

    method GetIfmibs(ifx: Option<Table>, ifs: Option<Table>) returns (ok: bool)
      requires Valid() && interfaces == map[]
      modifies this`interfaces
      ensures Valid()
      ensures ok <==> ifx.Some? && ifs.Some?
      ensures ok ==> interfaces == MergedRows(ifx.value + ifs.value)
    {
      if ifx.None? {
        return false;
      }
      MergeTable([], ifx.value);
      if ifs.None? {
        return false;
      }
      assert [] + ifx.value == ifx.value;
      MergeTable(ifx.value, ifs.value);
      ok := true;
    }

    method CollectNeighbours(remotes: Option<Table>, cdp: Option<Table>)
      requires Valid()
      modifies this`interfaces
      ensures Valid() && interfaces.Keys == old(interfaces.Keys)
      ensures forall i :: i in interfaces ==>
        interfaces[i] == Completed(old(interfaces), anything, lldpIndex, remotes.GetOr([]), cdp.GetOr([]), i)
    {
      hide Valid, WithLldp, WithCdp, AnnouncedOn, Indexed, Sane;
      ghost var base := interfaces;
      if remotes.Some? {
        HandleLldpRemTable(remotes.value);
      } else {
        NothingAnnounced(base, anything, lldpIndex);
      }
      ghost var announced := interfaces;
      if cdp.Some? {
        HandleCdpCacheTable(cdp.value);
      } else {
        NoCdp(announced);
      }
      ghost var before := interfaces;
      EnsureInterfaceSanity();
      hide MadeSane;
      forall i | i in interfaces ensures interfaces[i] == Sane(before[i]) {
        MadeSaneIs(before[i], interfaces[i]);
      }
    }

    // The rows of one table, after those of the tables `before`.
    method MergeTable(ghost before: Table, rows: Table)
      requires Valid() && interfaces == MergedRows(before)
      modifies this`interfaces
      ensures Valid() && interfaces == MergedRows(before + rows)
    {
      assert before + [] == before;
      for i := 0 to |rows|
        invariant Valid() && interfaces == MergedRows(before + rows[..i])
      {
        assert (before + rows[..i + 1])[..|before| + i] == before + rows[..i];
        MergeIfmibEntry(rows[i]);
      }
      assert rows[..|rows|] == rows;
    }
  }

  // A collected interface, column by column: what the two IF-MIB tables last gave,
  // the description for a missing name, a type in any case, its own announcements
  // in row order and its last CDP row.
  lemma CollectedColumns(rows: Table, anything: map<string, int>, lldpIndex: map<int, int>, remotes: Table, cdp: Table, i: int)
    requires i in MergedRows(rows)
    ensures var iface := Completed(MergedRows(rows), anything, lldpIndex, remotes, cdp, i);
      && iface.ifindex == i
      && iface.name == Or(Column(rows, "ifName", i), Column(rows, "ifDescr", i))
      && iface.alias == Column(rows, "ifAlias", i) && iface.descr == Column(rows, "ifDescr", i)
      && iface.iftype == Some(Column(rows, "ifType", i).GetOr("other"))
      && iface.physAddress == Column(rows, "ifPhysAddress", i)
      && iface.lldp == AnnouncedOn(MergedRows(rows), anything, lldpIndex, remotes, i)
      && (forall k: nat :: LastAbout(cdp, "cdpCacheIfIndex", i, k) ==>
            iface.cdp == Some(Cdp(ObjStr(cdp[k], "cdpCacheDeviceId").GetOr(""), ObjStr(cdp[k], "cdpCacheDevicePort").GetOr(""))))
      && ((forall k: nat :: !LastAbout(cdp, "cdpCacheIfIndex", i, k)) ==> iface.cdp.None?)
  {
    MergedColumns(rows, i);
    IndexedByLastWriter(cdp, CdpEntry, i);
    CdpRows(cdp, i);
    hide MergedRows, Column, AnnouncedOn, Indexed, LastWriter, LastAbout, CdpEntry, ObjStr;
    var lldp := AnnouncedOn(MergedRows(rows), anything, lldpIndex, remotes, i);
    assert [] + lldp == lldp;
  }

  lemma CdpRows(cdp: Table, i: int)
    ensures forall k: nat :: LastAbout(cdp, "cdpCacheIfIndex", i, k) <==> LastWriter(cdp, CdpEntry, i, k)
    ensures forall k: nat :: LastAbout(cdp, "cdpCacheIfIndex", i, k) ==>
              CdpEntry(cdp[k]).value.1 == Cdp(ObjStr(cdp[k], "cdpCacheDeviceId").GetOr(""), ObjStr(cdp[k], "cdpCacheDevicePort").GetOr(""))
  {
    hide ObjStr, Index;
  }

  lemma NothingAnnounced(base: Ifaces, anything: map<string, int>, lldpIndex: map<int, int>)
    ensures forall i :: i in base ==> base[i] == WithLldp(base[i], AnnouncedOn(base, anything, lldpIndex, [], i))
  {
    forall i | i in base ensures base[i].lldp + [] == base[i].lldp {
    }
  }

  lemma NoPorts(interfaces: Ifaces, anything: map<string, int>)
    ensures !DuplicateMacs([])
    ensures Indexed([], PortEntry(interfaces, anything, false)) == map[] && Indexed([], LocalEntry(interfaces)) == map[]
  {
  }

  lemma NoCdp(interfaces: Ifaces)
    ensures forall i :: i in interfaces ==> interfaces[i] == WithCdp(interfaces[i], Indexed([], CdpEntry), i)
  {
  }

  // What one row of the local port table writes.
  lemma PortRow(interfaces: Ifaces, anything: map<string, int>, duplicates: bool, row: Row)
    ensures var port := Index(row, "lldpLocPortNum");
      && (port.None? ==> PortEntry(interfaces, anything, duplicates)(row).None? && LocalEntry(interfaces)(row).None?)
      && (port.Some? ==>
            var target := PortTarget(interfaces, anything, duplicates, row, port.value);
            var number := ParseI64(ObjStr(row, "lldpLocPortDesc").GetOr(""));
            && PortEntry(interfaces, anything, duplicates)(row) ==
               (if target.None? then None else Some((port.value, target.value)))
            && LocalEntry(interfaces)(row) ==
               (if ObjStr(row, "lldpLocPortIdSubtype") == Some("local") && number.Some? && number.value in interfaces
                then Some((PortId(row), number.value)) else None))
  {
    hide PortTarget, ParseI64, ObjStr;
  }

  lemma AnnouncedStep(was: Ifaces, now: Ifaces, next: Ifaces, anything: map<string, int>, lldpIndex: map<int, int>,
                      rows: Table, row: Row)
    requires now.Keys == was.Keys
    requires forall i :: i in was ==> now[i] == WithLldp(was[i], AnnouncedOn(was, anything, lldpIndex, rows, i))
    requires var target := RemoteTarget(was, anything, lldpIndex, row);
      && (target.Some? ==> target.value in was)
      && next == WithRemote(now, target, row)
    ensures forall i :: i in was ==> next[i] == WithLldp(was[i], AnnouncedOn(was, anything, lldpIndex, rows + [row], i))
  {
    hide RemoteTarget, Trim, RemoteNeighbour;
    assert (rows + [row])[..|rows|] == rows;
    forall i | i in was ensures next[i] == WithLldp(was[i], AnnouncedOn(was, anything, lldpIndex, rows + [row], i)) {
      var before := AnnouncedOn(was, anything, lldpIndex, rows, i);
      assert before + [] == before;
      assert (was[i].lldp + before) + [RemoteNeighbour(row)] == was[i].lldp + (before + [RemoteNeighbour(row)]);
    }
  }

  // Neighbours do not change where rows belong.
  lemma SameTarget(was: Ifaces, now: Ifaces, anything: map<string, int>, lldpIndex: map<int, int>, row: Row)
    requires now.Keys == was.Keys && forall i :: i in was ==> now[i].name == was[i].name
    ensures RemoteTarget(now, anything, lldpIndex, row) == RemoteTarget(was, anything, lldpIndex, row)
  {
  }

  lemma RemoteOnMap(interfaces: Ifaces, anything: map<string, int>, lldpIndex: map<int, int>, row: Row)
    requires Into(anything, interfaces) && Into(lldpIndex, interfaces)
    ensures var target := RemoteTarget(interfaces, anything, lldpIndex, row);
      target.Some? ==> target.value in interfaces
  {
  }

  lemma DuplicatesGrow(rows: Table, i: nat)
    requires i < |rows|
    ensures DuplicateMacs(rows[..i + 1]) <==>
            DuplicateMacs(rows[..i]) ||
            (IsMacPort(rows[i]) && exists j :: 0 <= j < i && IsMacPort(rows[j]) && PortId(rows[j]) == PortId(rows[i]))
  {
    hide IsMacPort, PortId;
    var now, before := rows[..i + 1], rows[..i];
    if DuplicateMacs(now) {
      var j, k :| 0 <= j < k < |now| && IsMacPort(now[j]) && IsMacPort(now[k]) && PortId(now[j]) == PortId(now[k]);
      assert now[j] == rows[j] && (k < i ==> before[j] == now[j] && before[k] == now[k]);
    }
    if DuplicateMacs(before) {
      var j, k :| 0 <= j < k < |before| && IsMacPort(before[j]) && IsMacPort(before[k]) && PortId(before[j]) == PortId(before[k]);
      assert now[j] == before[j] && now[k] == before[k];
    }
    if j :| 0 <= j < i && IsMacPort(rows[j]) && IsMacPort(rows[i]) && PortId(rows[j]) == PortId(rows[i]) {
      assert now[j] == rows[j] && now[i] == rows[i];
    }
  }
}
