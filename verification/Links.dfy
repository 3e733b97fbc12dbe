/**
 Link resolution of the discovery engine (nexus/src/collectors/discovery.rs):
 which port of which crawled device each LLDP or CDP announcement leads to.
 */
module Links {
  import opened Options
  import opened Text
  import opened Devices
  import opened Sorting

  // The crawl result. `visit` is the order in which the device map is iterated,
  // `resolve` the names that resolve during the run.
  datatype Detected = Detected(devices: map<string, Device>, visit: seq<string>, resolve: map<string, string>)

  ghost predicate Valid(d: Detected) {
    && EachOnce(d.visit, d.devices.Keys)
    && (forall f :: f in d.devices ==> d.devices[f].fqdn == f && ValidDevice(d.devices[f]))
  }

  type Port = (string, int)

  predicate IsPort(d: Detected, p: Port) {
    p.0 in d.devices && p.1 in d.devices[p.0].interfaces
  }

  // ---- Whom a descriptor means -----------------------------------------------------

  predicate HasChassis(d: Detected, f: string, id: string) {
    f in d.devices && d.devices[f].chassis == Some(ReplaceChar(id, ' ', ':'))
  }

  // The first element that satisfies p.
  function First<T>(s: seq<T>, p: T -> bool): Option<T> {
    if s == [] then None
    else
      var before := First(s[..|s| - 1], p);
      if before.Some? then before else if p(s[|s| - 1]) then Some(s[|s| - 1]) else None
  }

  lemma {:induction false} FirstSatisfies<T>(s: seq<T>, p: T -> bool)
    ensures First(s, p).Some? ==> First(s, p).value in s && p(First(s, p).value)
    ensures First(s, p).None? ==> forall x :: x in s ==> !p(x)
  {
    if s != [] {
      FirstSatisfies(s[..|s| - 1], p);
      assert s == s[..|s| - 1] + [s[|s| - 1]];
    }
  }

  // By name when the name resolves to a crawled device, else by chassis id.
  function Neighbour(d: Detected, desc: Lldp): Option<string> {
    if desc.sysName in d.resolve && d.resolve[desc.sysName] in d.devices then Some(d.resolve[desc.sysName])
    else First(d.visit, f => HasChassis(d, f, desc.chassisId))
  }

  method LookupLldpNeighbour(d: Detected, desc: Lldp) returns (r: Option<string>)
    requires Valid(d)
    ensures r == Neighbour(d, desc)
  {
    if desc.sysName in d.resolve && d.resolve[desc.sysName] in d.devices {
      return Some(d.resolve[desc.sysName]);
    }
    var id := ReplaceChar(desc.chassisId, ' ', ':');
    ghost var p := f => HasChassis(d, f, desc.chassisId);
    assert Neighbour(d, desc) == First(d.visit, p) && First(d.visit[..0], p) == None;
    hide Neighbour, First, ValidDevice;
    for i := 0 to |d.visit|
      invariant First(d.visit[..i], p) == None
    {
      PrefixGrows(d.visit, i, p, p);
      if d.devices[d.visit[i]].chassis == Some(id) {
        FirstExtends(d.visit, i + 1, p);
        return Some(d.visit[i]);
      }
    }
    assert d.visit[..|d.visit|] == d.visit;
    r := None;
  }

  lemma {:induction false} FirstExtends<T>(s: seq<T>, n: nat, p: T -> bool)
    requires n <= |s| && First(s[..n], p).Some?
    ensures First(s, p) == First(s[..n], p)
  {
    if n == |s| {
      assert s[..n] == s;
    } else {
      assert s[..|s| - 1][..n] == s[..n];
      FirstExtends(s[..|s| - 1], n, p);
    }
  }

  // The announced id is the chassis id, with spaces for colons or not.
  predicate SameId(chassis: Option<string>, id: string) {
    && chassis.Some? && |chassis.value| == |id|
    && forall i :: 0 <= i < |id| ==> chassis.value[i] == if id[i] == ' ' then ':' else id[i]
  }

  ghost predicate FirstWithId(d: Detected, id: string, n: nat)
    requires Valid(d)
  {
    && n < |d.visit| && SameId(d.devices[d.visit[n]].chassis, id)
    && forall m :: 0 <= m < n ==> !SameId(d.devices[d.visit[m]].chassis, id)
  }

  // The name decides when it resolves to a crawled device, and otherwise the first
  // device in the order of the map with the announced chassis id.
  lemma NeighbourIs(d: Detected, desc: Lldp)
    requires Valid(d)
    ensures forall f :: desc.sysName in d.resolve && d.resolve[desc.sysName] == f && f in d.devices ==> Neighbour(d, desc) == Some(f)
    ensures desc.sysName !in d.resolve || d.resolve[desc.sysName] !in d.devices ==>
              && (forall n: nat :: FirstWithId(d, desc.chassisId, n) ==> Neighbour(d, desc) == Some(d.visit[n]))
              && ((forall f :: f in d.devices ==> !SameId(d.devices[f].chassis, desc.chassisId)) ==> Neighbour(d, desc).None?)
  {
    var p := f => HasChassis(d, f, desc.chassisId);
    forall f | f in d.devices ensures p(f) <==> SameId(d.devices[f].chassis, desc.chassisId) {
      var chassis := d.devices[f].chassis;
      assert SameId(chassis, desc.chassisId) ==> chassis.value == ReplaceChar(desc.chassisId, ' ', ':');
    }
    hide HasChassis, SameId;
    FirstSatisfies(d.visit, p);
    forall n: nat | FirstWithId(d, desc.chassisId, n) ensures First(d.visit, p) == Some(d.visit[n]) {
      FirstIs(d.visit, n, p);
    }
  }

  lemma FirstIs<T>(s: seq<T>, n: nat, p: T -> bool)
    requires n < |s| && p(s[n]) && forall m :: 0 <= m < n ==> !p(s[m])
    ensures First(s, p) == Some(s[n])
  {
    FirstSatisfies(s[..n], p);
    PrefixGrows(s, n, p, p);
    FirstExtends(s, n + 1, p);
  }

  function CdpNeighbour(d: Detected, desc: Cdp): Option<string> {
    if desc.deviceId in d.resolve && d.resolve[desc.deviceId] in d.devices then Some(d.resolve[desc.deviceId]) else None
  }

  // ---- Which port of it ---------------------------------------------------------------

  // The port that a device itself knows under a remote port id.
  function DirectPort(dev: Device, portId: string, subtype: string): Option<int> {
    if subtype == "macAddress" && dev.duplicateMacs then None
    else if subtype == "local" && portId in dev.lldpLocal then Some(dev.lldpLocal[portId])
    else if portId in dev.anything then Some(dev.anything[portId])
    else if subtype == "local" || subtype == "interfaceName" then
      var decoded :- UnhexAscii(portId);
      if decoded in dev.anything then Some(dev.anything[decoded]) else None
    else None
  }

  // Which of the three lookups answers: none for a MAC address that repeats, the
  // local mapping for a local port, the name itself, and last its hex spelling.
  lemma DirectPortIs(dev: Device, portId: string, subtype: string)
    ensures var local, named := subtype == "local" && portId in dev.lldpLocal, portId in dev.anything;
      var spelled := subtype in {"local", "interfaceName"} && UnhexAscii(portId).Some? && UnhexAscii(portId).value in dev.anything;
      var repeated := subtype == "macAddress" && dev.duplicateMacs;
      && (DirectPort(dev, portId, subtype).Some? <==> !repeated && (local || named || spelled))
      && (local ==> DirectPort(dev, portId, subtype) == Some(dev.lldpLocal[portId]))
      && (named && !local && !repeated ==> DirectPort(dev, portId, subtype) == Some(dev.anything[portId]))
      && (spelled && !named && !local ==> DirectPort(dev, portId, subtype) == Some(dev.anything[UnhexAscii(portId).value]))
  {
    hide UnhexAscii;
    assert "local" != "macAddress" && "interfaceName" != "macAddress";
  }

  // A port id that is the text of exactly one interface of a collected device, or
  // the hexadecimal spelling of such a text, finds that interface.
  lemma UniqueNameFound(dev: Device, base: Ifaces, order: seq<int>, i: int, name: string, subtype: string)
    requires (forall j :: j in order ==> j in base) && Increasing(order) && dev.anything == Registered(base, order)
    requires i in order && HasText(base[i], name) && forall j :: j in order && HasText(base[j], name) ==> j == i
    ensures !(subtype == "macAddress" && dev.duplicateMacs) && !(subtype == "local" && name in dev.lldpLocal) ==>
              DirectPort(dev, name, subtype) == Some(i)
    ensures Ascii(name) && subtype in {"local", "interfaceName"} && HexSpelling(name) !in dev.anything &&
            !(subtype == "local" && HexSpelling(name) in dev.lldpLocal) ==>
              DirectPort(dev, HexSpelling(name), subtype) == Some(i)
  {
    WhoOwnsText(base, order, name);
    DirectPortIs(dev, name, subtype);
    if Ascii(name) {
      UnhexUndoesHex(name);
      DirectPortIs(dev, HexSpelling(name), subtype);
    }
    hide DirectPort, UnhexAscii, HexSpelling, Ascii, Registered, HasText;
    assert "local" != "macAddress" && "interfaceName" != "macAddress";
  }

  function CdpPort(dev: Device, port: string): Option<int> {
    if port in dev.anything then Some(dev.anything[port]) else None
  }

  // Interface i of `g` carries a descriptor of the device `f`.
  predicate RefersTo(d: Detected, g: string, i: int, f: string)
    requires IsPort(d, (g, i))
  {
    exists desc :: desc in d.devices[g].interfaces[i].lldp && Neighbour(d, desc) == Some(f)
  }

  // One of these descriptors leads directly to port j of `f`.
  predicate RefersToPort(d: Detected, g: string, i: int, f: string, j: int)
    requires IsPort(d, (g, i)) && f in d.devices
  {
    exists desc :: desc in d.devices[g].interfaces[i].lldp && Neighbour(d, desc) == Some(f) &&
      DirectPort(d.devices[f], desc.portId, desc.portIdSubtype) == Some(j)
  }

  function Filter<T>(s: seq<T>, p: T -> bool): seq<T> {
    if s == [] then []
    else Filter(s[..|s| - 1], p) + (if p(s[|s| - 1]) then [s[|s| - 1]] else [])
  }

  // The reverse lookup: the interface of `g` that points back at this very port,
  // or else the only one that points back at this device at all.
  function ReversePort(d: Detected, f: string, j: int, g: string): Option<int>
    requires f in d.devices && g in d.devices
  {
    var visit := d.devices[g].visit;
    var exact := First(visit, i => IsPort(d, (g, i)) && RefersToPort(d, g, i, f, j));
    var some := Filter(visit, i => IsPort(d, (g, i)) && RefersTo(d, g, i, f));
    if exact.Some? then exact else if |some| == 1 then Some(some[0]) else None
  }

  function NeighbourPort(d: Detected, f: string, j: int, desc: Lldp, g: string): Option<int>
    requires f in d.devices && g in d.devices
  {
    var direct := DirectPort(d.devices[g], desc.portId, desc.portIdSubtype);
    if direct.Some? then direct else ReversePort(d, f, j, g)
  }

  method LookupLldpNeighbourPort(d: Detected, f: string, j: int, desc: Lldp, g: string) returns (r: Option<int>)
    requires Valid(d) && f in d.devices && g in d.devices
    ensures r == NeighbourPort(d, f, j, desc, g)
  {
    hide ReversePort, DirectPort;
    r := DirectPort(d.devices[g], desc.portId, desc.portIdSubtype);
    if r.None? {
      r := FindReversePort(d, f, j, g);
    }
  }

  method FindReversePort(d: Detected, f: string, j: int, g: string) returns (r: Option<int>)
    requires Valid(d) && f in d.devices && g in d.devices
    ensures r == ReversePort(d, f, j, g)
  {
    var visit := d.devices[g].visit;
    ghost var exact := i => IsPort(d, (g, i)) && RefersToPort(d, g, i, f, j);
    ghost var some := i => IsPort(d, (g, i)) && RefersTo(d, g, i, f);
    assert ReversePort(d, f, j, g) == SingleOr(First(visit, exact), Filter(visit, some));
    VisitedPorts(d, g);
    assert First(visit[..0], exact) == None && Filter(visit[..0], some) == [];
    hide ReversePort, Valid, RefersTo, RefersToPort, First, Filter;
    var refs, last := 0, None;
    ghost var found := [];
    for n := 0 to |visit|
      invariant First(visit[..n], exact) == None && Filter(visit[..n], some) == found
      invariant refs == |found| && (refs > 0 ==> last == Some(found[refs - 1]))
    {
      PrefixGrows(visit, n, exact, some);
      var i := visit[n];
      var port := d.devices[g].interfaces[i].ifindex;
      assert port == i;
      var refers, back := LookBack(d, f, j, g, i);
      if back {
        FirstExtends(visit, n + 1, exact);
        return Some(port);
      }
      if refers {
        refs := refs + 1;
        last := Some(port);
        found := found + [i];
      }
    }
    assert visit[..|visit|] == visit;
    r := if refs == 1 then last else None;
  }

  lemma PrefixGrows<T>(s: seq<T>, n: nat, p: T -> bool, q: T -> bool)
    requires n < |s|
    ensures First(s[..n], p) == None ==> First(s[..n + 1], p) == if p(s[n]) then Some(s[n]) else None
    ensures Filter(s[..n + 1], q) == Filter(s[..n], q) + if q(s[n]) then [s[n]] else []
  {
    assert s[..n + 1][..n] == s[..n];
  }

  function SingleOr(exact: Option<int>, some: seq<int>): Option<int> {
    if exact.Some? then exact else if |some| == 1 then Some(some[0]) else None
  }

  lemma VisitedPorts(d: Detected, g: string)
    requires Valid(d) && g in d.devices
    ensures forall n :: 0 <= n < |d.devices[g].visit| ==>
      var i := d.devices[g].visit[n]; IsPort(d, (g, i)) && d.devices[g].interfaces[i].ifindex == i
  {
    assert ValidDevice(d.devices[g]);
  }

  // The descriptors of one interface: does any mean `f`, and one even its port j?
  method LookBack(d: Detected, f: string, j: int, g: string, i: int) returns (refers: bool, back: bool)
    requires Valid(d) && f in d.devices && IsPort(d, (g, i))
    ensures back == RefersToPort(d, g, i, f, j)
    ensures !back ==> refers == RefersTo(d, g, i, f)
  {
    var lldp := d.devices[g].interfaces[i].lldp;
    refers, back := false, false;
    for n := 0 to |lldp|
      invariant refers == exists m :: 0 <= m < n && Neighbour(d, lldp[m]) == Some(f)
      invariant forall m :: 0 <= m < n && Neighbour(d, lldp[m]) == Some(f) ==>
        DirectPort(d.devices[f], lldp[m].portId, lldp[m].portIdSubtype) != Some(j)
    {
      var to := LookupLldpNeighbour(d, lldp[n]);
      if to == Some(f) {
        refers := true;
        if DirectPort(d.devices[f], lldp[n].portId, lldp[n].portIdSubtype) == Some(j) {
          return true, true;
        }
      }
    }
  }

  // ---- Links ----------------------------------------------------------------------------

  // Where a descriptor on port j of `f` leads.
  function LldpLink(d: Detected, f: string, j: int, desc: Lldp): Option<Port>
    requires f in d.devices
  {
    var g :- Neighbour(d, desc);
    if g !in d.devices then None
    else
      var port :- NeighbourPort(d, f, j, desc, g);
      Some((g, port))
  }

  function CdpLink(d: Detected, desc: Option<Cdp>): Option<Port> {
    var cdp :- desc;
    var g :- CdpNeighbour(d, cdp);
    var port :- CdpPort(d.devices[g], cdp.devicePort);
    Some((g, port))
  }

  // The first descriptor that leads somewhere.
  function FirstLldpLink(d: Detected, f: string, j: int, descs: seq<Lldp>): Option<Port>
    requires f in d.devices
  {
    if descs == [] then None
    else
      var before := FirstLldpLink(d, f, j, descs[..|descs| - 1]);
      if before.Some? then before else LldpLink(d, f, j, descs[|descs| - 1])
  }

  // LLDP before CDP.
  function LinkAt(d: Detected, f: string, j: int): Option<Port>
    requires IsPort(d, (f, j))
  {
    var iface := d.devices[f].interfaces[j];
    Or(FirstLldpLink(d, f, j, iface.lldp), CdpLink(d, iface.cdp))
  }

  method FindLink(d: Detected, f: string, j: int) returns (link: Option<Port>)
    requires Valid(d) && IsPort(d, (f, j))
    ensures link == LinkAt(d, f, j)
  {
    var iface := d.devices[f].interfaces[j];
    if iface.lldp == [] && iface.cdp.None? {
      return None;
    }
    var cdpLink: Option<Port> := None;
    if iface.cdp.Some? {
      var to := CdpNeighbour(d, iface.cdp.value);
      if to.Some? {
        var port := CdpPort(d.devices[to.value], iface.cdp.value.devicePort);
        if port.Some? {
          cdpLink := Some((to.value, port.value));
        }
      }
    }
    for n := 0 to |iface.lldp|
      invariant FirstLldpLink(d, f, j, iface.lldp[..n]) == None
    {
      assert iface.lldp[..n + 1][..n] == iface.lldp[..n];
      var to := LookupLldpNeighbour(d, iface.lldp[n]);
      if to.Some? {
        FirstInVisit(d, iface.lldp[n]);
        var port := LookupLldpNeighbourPort(d, f, j, iface.lldp[n], to.value);
        if port.Some? {
          FirstLinkExtends(d, f, j, iface.lldp, n + 1);
          return Some((to.value, port.value));
        }
      }
    }
    assert iface.lldp[..|iface.lldp|] == iface.lldp;
    link := cdpLink;
  }

  lemma FirstInVisit(d: Detected, desc: Lldp)
    ensures Neighbour(d, desc).Some? ==> Neighbour(d, desc).value in d.devices
  {
    FirstSatisfies(d.visit, f => HasChassis(d, f, desc.chassisId));
  }

  lemma {:induction false} FirstLinkExtends(d: Detected, f: string, j: int, descs: seq<Lldp>, n: nat)
    requires f in d.devices && n <= |descs| && FirstLldpLink(d, f, j, descs[..n]).Some?
    ensures FirstLldpLink(d, f, j, descs) == FirstLldpLink(d, f, j, descs[..n])
  {
    if n == |descs| {
      assert descs[..n] == descs;
    } else {
      assert descs[..|descs| - 1][..n] == descs[..n];
      FirstLinkExtends(d, f, j, descs[..|descs| - 1], n);
    }
  }

  type LinkMap = map<string, map<int, Port>>

  function LinkIn(links: LinkMap, f: string, j: int): Option<Port> {
    if f in links && j in links[f] then Some(links[f][j]) else None
  }

  lemma LinkAdded(was: LinkMap, links: LinkMap, f: string, j: int, link: Port)
    requires links == was[f := (if f in was then was[f] else map[])[j := link]]
    ensures forall g, i :: LinkIn(links, g, i) == if g == f && i == j then Some(link) else LinkIn(was, g, i)
  {
  }

  // Only ports have links, only the right ones, and no device an empty map.
  ghost predicate Sound(d: Detected, links: LinkMap) {
    && (forall f :: f in links ==> links[f] != map[])
    && (forall f, j :: f in links && j in links[f] ==> IsPort(d, (f, j)) && LinkAt(d, f, j) == Some(links[f][j]))
  }

  ghost predicate Complete(d: Detected, links: LinkMap, f: string) {
    f in d.devices ==> forall j :: j in d.devices[f].interfaces ==> LinkIn(links, f, j) == LinkAt(d, f, j)
  }

  method BuildConnections(d: Detected) returns (links: LinkMap)
    requires Valid(d)
    ensures Sound(d, links) && forall f :: f in d.devices ==> Complete(d, links, f)
  {
    hide LinkAt;
    links := map[];
    for n := 0 to |d.visit|
      invariant Sound(d, links)
      invariant forall m :: 0 <= m < n ==> Complete(d, links, d.visit[m])
    {
      links := ConnectDevice(d, links, d.visit[n]);
    }
  }

  method ConnectDevice(d: Detected, before: LinkMap, f: string) returns (links: LinkMap)
    requires Valid(d) && f in d.devices && Sound(d, before)
    ensures Sound(d, links) && Complete(d, links, f)
    ensures forall g :: Complete(d, before, g) ==> Complete(d, links, g)
  {
    hide LinkAt;
    links := before;
    var visit := d.devices[f].visit;
    for n := 0 to |visit|
      invariant Sound(d, links)
      invariant forall m :: 0 <= m < n ==> LinkIn(links, f, visit[m]) == LinkAt(d, f, visit[m])
      invariant forall g, j :: LinkIn(before, g, j).Some? ==> LinkIn(links, g, j) == LinkIn(before, g, j)
      invariant forall g, j :: LinkIn(links, g, j).Some? ==> IsPort(d, (g, j)) && LinkIn(links, g, j) == LinkAt(d, g, j)
    {
      var link := FindLink(d, f, visit[n]);
      if link.Some? {
        var mine: map<int, Port> := if f in links then links[f] else map[];
        ghost var was := links;
        links := links[f := mine[visit[n] := link.value]];
        assert visit[n] in links[f];
        LinkAdded(was, links, f, visit[n], link.value);
      }
    }
  }

  // ---- Every link leads to a port that exists -------------------------------------------

  lemma {:induction false} FilterSatisfies<T>(s: seq<T>, p: T -> bool)
    ensures forall x :: x in Filter(s, p) <==> x in s && p(x)
  {
    if s != [] {
      FilterSatisfies(s[..|s| - 1], p);
      assert s == s[..|s| - 1] + [s[|s| - 1]];
    }
  }

  lemma FilterNone<T(!new)>(s: seq<T>, p: T -> bool)
    ensures Filter(s, p) == [] <==> forall y :: y in s ==> !p(y)
  {
    FilterSatisfies(s, p);
    hide Filter;
    assert Filter(s, p) != [] ==> Filter(s, p)[0] in Filter(s, p);
  }

  lemma {:induction false} FilterOne<T(!new)>(s: seq<T>, p: T -> bool, x: T)
    requires forall i, j :: 0 <= i < j < |s| ==> s[i] != s[j]
    ensures Filter(s, p) == [x] <==> x in s && p(x) && forall y :: y in s && p(y) ==> y == x
  {
    if s != [] {
      var front, last := s[..|s| - 1], s[|s| - 1];
      assert s == front + [last];
      if p(last) {
        FilterNone(front, p);
        assert last !in front && last in s;
        if y :| y in front && p(y) {
          assert y in s && y != last && |Filter(s, p)| > 1;
        } else {
          assert Filter(s, p) == [last];
        }
      } else {
        FilterOne(front, p, x);
        assert Filter(s, p) == Filter(front, p);
      }
    }
  }

  // Looking back finds an interface that points at this very port whenever there is
  // one, and otherwise the only interface that points at this device.
  lemma ReversePortIs(d: Detected, f: string, j: int, g: string, i: int)
    requires Valid(d) && f in d.devices && g in d.devices
    ensures (exists k :: IsPort(d, (g, k)) && RefersToPort(d, g, k, f, j)) ==>
              var r := ReversePort(d, f, j, g);
              r.Some? && IsPort(d, (g, r.value)) && RefersToPort(d, g, r.value, f, j)
    ensures !(exists k :: IsPort(d, (g, k)) && RefersToPort(d, g, k, f, j)) ==>
              (ReversePort(d, f, j, g) == Some(i) <==>
               IsPort(d, (g, i)) && RefersTo(d, g, i, f) && forall k :: IsPort(d, (g, k)) && RefersTo(d, g, k, f) ==> k == i)
  {
    hide RefersTo, RefersToPort;
    assert ValidDevice(d.devices[g]);
    var visit, some := d.devices[g].visit, k => IsPort(d, (g, k)) && RefersTo(d, g, k, f);
    FirstSatisfies(visit, k => IsPort(d, (g, k)) && RefersToPort(d, g, k, f, j));
    FilterOne(visit, some, i);
    assert |Filter(visit, some)| == 1 ==> Filter(visit, some) == [Filter(visit, some)[0]];
  }

  lemma NeighbourPortExists(d: Detected, f: string, j: int, desc: Lldp, g: string)
    requires Valid(d) && f in d.devices && g in d.devices && NeighbourPort(d, f, j, desc, g).Some?
    ensures IsPort(d, (g, NeighbourPort(d, f, j, desc, g).value))
  {
    assert ValidDevice(d.devices[g]);
    if DirectPort(d.devices[g], desc.portId, desc.portIdSubtype).None? {
      var visit := d.devices[g].visit;
      FirstSatisfies(visit, i => IsPort(d, (g, i)) && RefersToPort(d, g, i, f, j));
      var refersTo := i => IsPort(d, (g, i)) && RefersTo(d, g, i, f);
      FilterSatisfies(visit, refersTo);
      assert |Filter(visit, refersTo)| == 1 ==> Filter(visit, refersTo)[0] in Filter(visit, refersTo);
    }
  }

  lemma {:induction false} FirstLldpLinkExists(d: Detected, f: string, j: int, descs: seq<Lldp>)
    requires Valid(d) && f in d.devices
    ensures var link := FirstLldpLink(d, f, j, descs); link.Some? ==> IsPort(d, link.value)
  {
    if descs != [] {
      FirstLldpLinkExists(d, f, j, descs[..|descs| - 1]);
      var desc := descs[|descs| - 1];
      hide NeighbourPort, Neighbour;
      if LldpLink(d, f, j, desc).Some? {
        NeighbourPortExists(d, f, j, desc, Neighbour(d, desc).value);
      }
    }
  }

  // For any tables: a link leads from an existing port of a crawled device to an
  // existing port of a crawled device.
  lemma ReferentialIntegrity(d: Detected, f: string, j: int)
    requires Valid(d) && IsPort(d, (f, j)) && LinkAt(d, f, j).Some?
    ensures IsPort(d, LinkAt(d, f, j).value)
  {
    hide FirstLldpLink;
    FirstLldpLinkExists(d, f, j, d.devices[f].interfaces[j].lldp);
    if FirstLldpLink(d, f, j, d.devices[f].interfaces[j].lldp).None? {
      assert forall g :: g in d.devices ==> ValidDevice(d.devices[g]);
    }
  }

  // ---- Which announcement decides ---------------------------------------------------------

  // The first descriptor that leads to a port decides, whatever CDP says.
  lemma LldpDecides(d: Detected, f: string, j: int, n: nat)
    requires IsPort(d, (f, j)) && n < |d.devices[f].interfaces[j].lldp|
    requires forall m :: 0 <= m < n ==> LldpLink(d, f, j, d.devices[f].interfaces[j].lldp[m]).None?
    requires LldpLink(d, f, j, d.devices[f].interfaces[j].lldp[n]).Some?
    ensures LinkAt(d, f, j) == LldpLink(d, f, j, d.devices[f].interfaces[j].lldp[n])
  {
    hide LldpLink, CdpLink;
    var lldp := d.devices[f].interfaces[j].lldp;
    assert forall x :: x in lldp[..n] ==> exists m :: 0 <= m < n && lldp[m] == x;
    FirstLinkIsOfOne(d, f, j, lldp[..n]);
    FirstAfterNone(d, f, j, lldp, n);
    hide FirstLldpLink;
    FirstLinkExtends(d, f, j, lldp, n + 1);
  }

  // A port whose descriptors lead nowhere is linked exactly where its CDP entry says:
  // to the device that the announced name resolves to, at the interface that this
  // device registered under the announced port name.
  lemma CdpDecides(d: Detected, f: string, j: int, g: string, i: int)
    requires IsPort(d, (f, j))
    requires forall x :: x in d.devices[f].interfaces[j].lldp ==> LldpLink(d, f, j, x).None?
    ensures var cdp := d.devices[f].interfaces[j].cdp;
      LinkAt(d, f, j) == Some((g, i)) <==>
      && cdp.Some? && cdp.value.deviceId in d.resolve && d.resolve[cdp.value.deviceId] == g && g in d.devices
      && cdp.value.devicePort in d.devices[g].anything && d.devices[g].anything[cdp.value.devicePort] == i
  {
    hide LldpLink;
    FirstLinkIsOfOne(d, f, j, d.devices[f].interfaces[j].lldp);
    hide FirstLldpLink;
  }

  // ---- Devices that were not crawled never shadow a link ---------------------------------

  function Crawled(d: Detected, descs: seq<Lldp>): seq<Lldp> {
    Filter(descs, desc => Neighbour(d, desc).Some?)
  }

  // The same crawl, except for descriptors of devices that were not crawled.
  ghost predicate SameButUncrawled(d: Detected, e: Detected) {
    && e.visit == d.visit && e.resolve == d.resolve && e.devices.Keys == d.devices.Keys
    && forall f :: f in d.devices ==>
         && e.devices[f] == d.devices[f].(interfaces := e.devices[f].interfaces)
         && e.devices[f].interfaces.Keys == d.devices[f].interfaces.Keys
         && forall i :: i in d.devices[f].interfaces ==> SameIface(d, d.devices[f].interfaces[i], e.devices[f].interfaces[i])
  }

  ghost predicate SameIface(d: Detected, a: Iface, b: Iface) {
    b == a.(lldp := b.lldp) && Crawled(d, a.lldp) == Crawled(d, b.lldp)
  }

  lemma {:induction false} FirstAgrees<T>(s: seq<T>, p: T -> bool, q: T -> bool)
    requires forall x :: x in s ==> p(x) == q(x)
    ensures First(s, p) == First(s, q)
  {
    if s != [] {
      assert s == s[..|s| - 1] + [s[|s| - 1]];
      FirstAgrees(s[..|s| - 1], p, q);
    }
  }

  lemma {:induction false} FilterAgrees<T>(s: seq<T>, p: T -> bool, q: T -> bool)
    requires forall x :: x in s ==> p(x) == q(x)
    ensures Filter(s, p) == Filter(s, q)
  {
    if s != [] {
      assert s == s[..|s| - 1] + [s[|s| - 1]];
      FilterAgrees(s[..|s| - 1], p, q);
    }
  }

  lemma SameNeighbour(d: Detected, e: Detected, desc: Lldp)
    requires SameButUncrawled(d, e)
    ensures Neighbour(e, desc) == Neighbour(d, desc)
  {
    FirstAgrees(d.visit, f => HasChassis(d, f, desc.chassisId), f => HasChassis(e, f, desc.chassisId));
  }

  lemma SameCrawled(d: Detected, e: Detected, f: string, i: int, desc: Lldp)
    requires SameButUncrawled(d, e) && IsPort(d, (f, i)) && Neighbour(d, desc).Some?
    ensures desc in d.devices[f].interfaces[i].lldp <==> desc in e.devices[f].interfaces[i].lldp
  {
    hide Neighbour;
    FilterSatisfies(d.devices[f].interfaces[i].lldp, x => Neighbour(d, x).Some?);
    FilterSatisfies(e.devices[f].interfaces[i].lldp, x => Neighbour(d, x).Some?);
    assert SameIface(d, d.devices[f].interfaces[i], e.devices[f].interfaces[i]);
  }

  lemma SameReferences(d: Detected, e: Detected, g: string, i: int, f: string, j: int)
    requires SameButUncrawled(d, e) && IsPort(d, (g, i)) && f in d.devices
    ensures RefersTo(e, g, i, f) == RefersTo(d, g, i, f)
    ensures RefersToPort(e, g, i, f, j) == RefersToPort(d, g, i, f, j)
  {
    hide Neighbour;
    forall desc ensures Neighbour(e, desc) == Neighbour(d, desc) {
      SameNeighbour(d, e, desc);
    }
    forall desc | Neighbour(d, desc).Some?
      ensures desc in d.devices[g].interfaces[i].lldp <==> desc in e.devices[g].interfaces[i].lldp
    {
      SameCrawled(d, e, g, i, desc);
    }
    SamePorts(d, e, f);
  }

  lemma SamePorts(d: Detected, e: Detected, f: string)
    requires SameButUncrawled(d, e) && f in d.devices
    ensures forall id, subtype :: DirectPort(e.devices[f], id, subtype) == DirectPort(d.devices[f], id, subtype)
  {
    hide UnhexAscii;
  }

  lemma SameNeighbourPort(d: Detected, e: Detected, f: string, j: int, desc: Lldp, g: string)
    requires SameButUncrawled(d, e) && f in d.devices && g in d.devices
    ensures NeighbourPort(e, f, j, desc, g) == NeighbourPort(d, f, j, desc, g)
  {
    hide RefersTo, RefersToPort, DirectPort;
    SamePorts(d, e, g);
    forall i | IsPort(d, (g, i))
      ensures RefersTo(e, g, i, f) == RefersTo(d, g, i, f) && RefersToPort(e, g, i, f, j) == RefersToPort(d, g, i, f, j)
    {
      SameReferences(d, e, g, i, f, j);
    }
    var visit := d.devices[g].visit;
    FirstAgrees(visit, i => IsPort(d, (g, i)) && RefersToPort(d, g, i, f, j), i => IsPort(e, (g, i)) && RefersToPort(e, g, i, f, j));
    FilterAgrees(visit, i => IsPort(d, (g, i)) && RefersTo(d, g, i, f), i => IsPort(e, (g, i)) && RefersTo(e, g, i, f));
  }

  lemma SameLldpLink(d: Detected, e: Detected, f: string, j: int, desc: Lldp)
    requires SameButUncrawled(d, e) && f in d.devices
    ensures LldpLink(e, f, j, desc) == LldpLink(d, f, j, desc)
  {
    SameNeighbour(d, e, desc);
    hide Neighbour, NeighbourPort;
    if Neighbour(d, desc).Some? && Neighbour(d, desc).value in d.devices {
      SameNeighbourPort(d, e, f, j, desc, Neighbour(d, desc).value);
    }
  }

  // Dropping the descriptors of uncrawled devices does not change the first link.
  lemma UncrawledLeadsNowhere(d: Detected, f: string, j: int, desc: Lldp)
    requires f in d.devices && Neighbour(d, desc).None?
    ensures LldpLink(d, f, j, desc) == None
  {
  }

  lemma {:induction false} UncrawledSkipped(d: Detected, f: string, j: int, descs: seq<Lldp>)
    requires f in d.devices
    ensures FirstLldpLink(d, f, j, Crawled(d, descs)) == FirstLldpLink(d, f, j, descs)
  {
    hide Neighbour, LldpLink;
    if descs != [] {
      var front, last := descs[..|descs| - 1], descs[|descs| - 1];
      UncrawledSkipped(d, f, j, front);
      if Neighbour(d, last).Some? {
        assert Crawled(d, descs) == Crawled(d, front) + [last];
        assert (Crawled(d, front) + [last])[..|Crawled(d, front)|] == Crawled(d, front);
      } else {
        assert Crawled(d, descs) == Crawled(d, front);
        UncrawledLeadsNowhere(d, f, j, last);
      }
    }
  }

  lemma {:induction false} SameFirstLink(d: Detected, e: Detected, f: string, j: int, descs: seq<Lldp>)
    requires SameButUncrawled(d, e) && f in d.devices
    ensures FirstLldpLink(e, f, j, descs) == FirstLldpLink(d, f, j, descs)
  {
    hide LldpLink;
    if descs != [] {
      SameFirstLink(d, e, f, j, descs[..|descs| - 1]);
      SameLldpLink(d, e, f, j, descs[|descs| - 1]);
    }
  }

  // Announcements of devices that were not crawled, any number of them, anywhere
  // on any port of any device, change no link.
  lemma UncrawledNeverShadow(d: Detected, e: Detected, f: string, j: int)
    requires SameButUncrawled(d, e) && IsPort(d, (f, j))
    ensures LinkAt(e, f, j) == LinkAt(d, f, j)
  {
    var a, b := d.devices[f].interfaces[j].lldp, e.devices[f].interfaces[j].lldp;
    assert SameIface(d, d.devices[f].interfaces[j], e.devices[f].interfaces[j]);
    UncrawledSkipped(d, f, j, a);
    UncrawledSkipped(d, f, j, b);
    SameFirstLink(d, e, f, j, b);
    hide FirstLldpLink;
  }

  lemma {:induction false} FilterAppend<T>(a: seq<T>, b: seq<T>, p: T -> bool)
    ensures Filter(a + b, p) == Filter(a, p) + Filter(b, p)
  {
    if b == [] {
      assert a + b == a;
    } else {
      assert (a + b)[..|a + b| - 1] == a + b[..|b| - 1];
      FilterAppend(a, b[..|b| - 1], p);
    }
  }

  // One more descriptor at position n of port i of `f`.
  function Inserted(d: Detected, f: string, i: int, n: nat, desc: Lldp): Detected
    requires IsPort(d, (f, i)) && n <= |d.devices[f].interfaces[i].lldp|
  {
    var dev := d.devices[f];
    var iface := dev.interfaces[i];
    var iface' := iface.(lldp := iface.lldp[..n] + ([desc] + iface.lldp[n..]));
    d.(devices := d.devices[f := dev.(interfaces := dev.interfaces[i := iface'])])
  }

  lemma FilterInsert<T>(s: seq<T>, n: nat, x: T, p: T -> bool)
    requires n <= |s| && !p(x)
    ensures Filter(s[..n] + ([x] + s[n..]), p) == Filter(s, p)
  {
    FilterAppend(s[..n], s[n..], p);
    FilterAppend(s[..n], [x] + s[n..], p);
    FilterAppend([x], s[n..], p);
    assert s == s[..n] + s[n..];
    assert Filter([x], p) == [];
    assert Filter([x], p) + Filter(s[n..], p) == Filter(s[n..], p);
  }

  lemma InsertedUncrawled(d: Detected, f: string, i: int, n: nat, desc: Lldp)
    requires IsPort(d, (f, i)) && n <= |d.devices[f].interfaces[i].lldp|
    requires Neighbour(d, desc).None?
    ensures SameButUncrawled(d, Inserted(d, f, i, n, desc))
  {
    FilterInsert(d.devices[f].interfaces[i].lldp, n, desc, x => Neighbour(d, x).Some?);
    hide Neighbour, Filter;
  }

  // ---- A link found by looking back is mutual ----------------------------------------------

  // Port j of `f` got its link to interface i of `g` from a descriptor that the
  // direct lookup could not place, because i points back at this very port.
  ghost predicate FoundLookingBack(d: Detected, f: string, j: int, g: string, i: int)
    requires IsPort(d, (f, j)) && g in d.devices
  {
    var lldp := d.devices[f].interfaces[j].lldp;
    exists n :: 0 <= n < |lldp| && FirstLldpLink(d, f, j, lldp[..n]) == None && PlacedLookingBack(d, f, j, lldp[n], g, i)
  }

  predicate PlacedLookingBack(d: Detected, f: string, j: int, desc: Lldp, g: string, i: int)
    requires f in d.devices && g in d.devices
  {
    && Neighbour(d, desc) == Some(g) && DirectPort(d.devices[g], desc.portId, desc.portIdSubtype) == None
    && First(d.devices[g].visit, k => IsPort(d, (g, k)) && RefersToPort(d, g, k, f, j)) == Some(i)
  }

  // The first link of a list comes from one of its descriptors.
  lemma {:induction false} FirstLinkIsOfOne(d: Detected, f: string, j: int, descs: seq<Lldp>)
    requires f in d.devices
    ensures FirstLldpLink(d, f, j, descs).Some? ==> exists x :: x in descs && LldpLink(d, f, j, x) == FirstLldpLink(d, f, j, descs)
    ensures FirstLldpLink(d, f, j, descs).None? ==> forall x :: x in descs ==> LldpLink(d, f, j, x).None?
  {
    hide LldpLink;
    if descs != [] {
      FirstLinkIsOfOne(d, f, j, descs[..|descs| - 1]);
      assert descs == descs[..|descs| - 1] + [descs[|descs| - 1]];
    }
  }

  // Such a link leads back: when interface i of `g` sees no crawled device but `f`,
  // its own link leads to `f`, and to this very port when its descriptors of `f` all
  // name it.
  lemma ReverseMatchIsMutual(d: Detected, f: string, j: int, g: string, i: int)
    requires Valid(d) && IsPort(d, (f, j)) && g in d.devices && FoundLookingBack(d, f, j, g, i)
    ensures LinkAt(d, f, j) == Some((g, i)) && IsPort(d, (g, i))
    ensures var lldp := d.devices[g].interfaces[i].lldp;
      (forall x :: x in lldp ==> Neighbour(d, x) in {None, Some(f)}) ==>
        && LinkAt(d, g, i).Some? && LinkAt(d, g, i).value.0 == f
        && ((forall x :: x in lldp && Neighbour(d, x) == Some(f) ==>
               DirectPort(d.devices[f], x.portId, x.portIdSubtype) == Some(j)) ==>
             LinkAt(d, g, i) == Some((f, j)))
  {
    LookingBackLinks(d, f, j, g, i);
    ReferentialIntegrity(d, f, j);
    var lldp := d.devices[g].interfaces[i].lldp;
    var back :| back in lldp && Neighbour(d, back) == Some(f) &&
      DirectPort(d.devices[f], back.portId, back.portIdSubtype) == Some(j);
    assert LldpLink(d, g, i, back) == Some((f, j));
    FirstLinkIsOfOne(d, g, i, lldp);
    hide Neighbour, DirectPort, ReversePort;
  }

  lemma LookingBackLinks(d: Detected, f: string, j: int, g: string, i: int)
    requires IsPort(d, (f, j)) && g in d.devices && FoundLookingBack(d, f, j, g, i)
    ensures LinkAt(d, f, j) == Some((g, i)) && IsPort(d, (g, i)) && RefersToPort(d, g, i, f, j)
  {
    hide Neighbour, LldpLink, RefersToPort, PlacedLookingBack;
    var lldp := d.devices[f].interfaces[j].lldp;
    var n :| 0 <= n < |lldp| && FirstLldpLink(d, f, j, lldp[..n]) == None && PlacedLookingBack(d, f, j, lldp[n], g, i);
    PlacedLinks(d, f, j, lldp[n], g, i);
    FirstAfterNone(d, f, j, lldp, n);
    hide FirstLldpLink;
    FirstLinkExtends(d, f, j, lldp, n + 1);
  }

  lemma FirstAfterNone(d: Detected, f: string, j: int, descs: seq<Lldp>, n: nat)
    requires f in d.devices && n < |descs| && FirstLldpLink(d, f, j, descs[..n]) == None
    ensures FirstLldpLink(d, f, j, descs[..n + 1]) == LldpLink(d, f, j, descs[n])
  {
    hide LldpLink;
    assert descs[..n + 1][..n] == descs[..n];
  }

  lemma PlacedLinks(d: Detected, f: string, j: int, desc: Lldp, g: string, i: int)
    requires f in d.devices && g in d.devices && PlacedLookingBack(d, f, j, desc, g, i)
    ensures LldpLink(d, f, j, desc) == Some((g, i)) && IsPort(d, (g, i)) && RefersToPort(d, g, i, f, j)
  {
    hide Neighbour, DirectPort, RefersToPort, RefersTo;
    FirstSatisfies(d.devices[g].visit, k => IsPort(d, (g, k)) && RefersToPort(d, g, k, f, j));
  }

  // ---- When the iteration order matters -----------------------------------------------------

  ghost predicate Rearranged<T>(s: seq<T>, s': seq<T>) {
    multiset(s) == multiset(s')
  }

  // The first element that satisfies p is the same in every order if and only if
  // no two different elements satisfy it.
  lemma FirstOrderIff<T(!new)>(s: seq<T>, p: T -> bool)
    ensures (forall s' :: Rearranged(s, s') ==> First(s', p) == First(s, p)) <==>
            forall x, y :: x in s && y in s && p(x) && p(y) ==> x == y
  {
    FirstSatisfies(s, p);
    if forall x, y :: x in s && y in s && p(x) && p(y) ==> x == y {
      forall s' | Rearranged(s, s') ensures First(s', p) == First(s, p) {
        FirstSatisfies(s', p);
        assert forall x :: x in s <==> x in multiset(s);
        assert forall x :: x in s' <==> x in multiset(s');
      }
    } else {
      var x, y :| x in s && y in s && p(x) && p(y) && x != y;
      var z := if First(s, p) == Some(x) then y else x;
      var s' := MovedFirst(s, z);
      FirstAtHead(s', p);
      assert First(s', p) == Some(z) != First(s, p);
    }
  }

  lemma MovedFirst<T>(s: seq<T>, z: T) returns (s': seq<T>)
    requires z in s
    ensures Rearranged(s, s') && s' != [] && s'[0] == z
  {
    var i :| 0 <= i < |s| && s[i] == z;
    s' := [z] + (s[..i] + s[i + 1..]);
    assert s == s[..i] + ([z] + s[i + 1..]);
    assert multiset(s) == multiset(s[..i]) + (multiset{z} + multiset(s[i + 1..]));
    assert multiset(s') == multiset{z} + (multiset(s[..i]) + multiset(s[i + 1..]));
  }

  lemma {:induction false} FirstAtHead<T>(s: seq<T>, p: T -> bool)
    requires s != [] && p(s[0])
    ensures First(s, p) == Some(s[0])
  {
    if |s| > 1 {
      FirstAtHead(s[..|s| - 1], p);
    } else {
      assert s[..0] == [];
    }
  }

  // The same crawl with its maps iterated in another order, each key once.
  ghost predicate Reordered(d: Detected, e: Detected) {
    && e.resolve == d.resolve && e.devices.Keys == d.devices.Keys && Rearranged(d.visit, e.visit)
    && forall f :: f in d.devices ==>
         && e.devices[f] == d.devices[f].(visit := e.devices[f].visit)
         && Rearranged(d.devices[f].visit, e.devices[f].visit)
  }

  predicate ByName(d: Detected, desc: Lldp) {
    desc.sysName in d.resolve && d.resolve[desc.sysName] in d.devices
  }

  // A descriptor need not choose between devices with one chassis id.
  ghost predicate OneDevice(d: Detected, desc: Lldp) {
    ByName(d, desc) || forall g, h :: HasChassis(d, g, desc.chassisId) && HasChassis(d, h, desc.chassisId) ==> g == h
  }

  // No two interfaces of `g` point back at port j of `f`.
  ghost predicate OneWayBack(d: Detected, f: string, j: int, g: string)
    requires f in d.devices
  {
    forall i, k :: IsPort(d, (g, i)) && IsPort(d, (g, k)) && RefersToPort(d, g, i, f, j) && RefersToPort(d, g, k, f, j) ==> i == k
  }

  // An order in which every descriptor means the device that it means in `d`.
  ghost predicate KeepsNeighbours(d: Detected, e: Detected) {
    forall f, i, x :: IsPort(d, (f, i)) && x in d.devices[f].interfaces[i].lldp ==> Neighbour(e, x) == Neighbour(d, x)
  }

  // No descriptor of the crawl has to choose between devices with one chassis id.
  ghost predicate OneDeviceEach(d: Detected) {
    forall f, i, x :: IsPort(d, (f, i)) && x in d.devices[f].interfaces[i].lldp ==> OneDevice(d, x)
  }

  // This descriptor is placed by looking back, and several interfaces of the peer
  // point back at this very port.
  ghost predicate PicksOne(d: Detected, f: string, j: int, desc: Lldp)
    requires f in d.devices
  {
    var g := Neighbour(d, desc);
    && g.Some? && g.value in d.devices && DirectPort(d.devices[g.value], desc.portId, desc.portIdSubtype) == None
    && !OneWayBack(d, f, j, g.value)
  }

  // The first descriptor of the port that leads anywhere is of this kind.
  ghost predicate Picked(d: Detected, f: string, j: int)
    requires IsPort(d, (f, j))
  {
    var lldp := d.devices[f].interfaces[j].lldp;
    exists n :: 0 <= n < |lldp| && FirstLldpLink(d, f, j, lldp[..n]) == None && PicksOne(d, f, j, lldp[n])
  }

  // One descriptor means the same device in every order if and only if its name
  // decides or at most one crawled device has its chassis id.
  lemma NeighbourOrderIff(d: Detected, desc: Lldp)
    requires Valid(d)
    ensures (forall visit :: Rearranged(d.visit, visit) ==> Neighbour(d.(visit := visit), desc) == Neighbour(d, desc)) <==>
            OneDevice(d, desc)
  {
    var p := f => HasChassis(d, f, desc.chassisId);
    if ByName(d, desc) {
      forall visit ensures Neighbour(d.(visit := visit), desc) == Neighbour(d, desc) {
      }
    } else {
      forall visit ensures Neighbour(d.(visit := visit), desc) == First(visit, p) {
        ChassisInOrder(d, d.(visit := visit), desc);
      }
      assert Neighbour(d.(visit := d.visit), desc) == First(d.visit, p) && d.(visit := d.visit) == d;
      FirstOrderIff(d.visit, p);
      hide First, Rearranged, Neighbour, ByName;
      OneDeviceInVisit(d, desc);
    }
  }

  lemma OneDeviceInVisit(d: Detected, desc: Lldp)
    requires Valid(d) && !ByName(d, desc)
    ensures var p := f => HasChassis(d, f, desc.chassisId);
      OneDevice(d, desc) <==> forall x, y :: x in d.visit && y in d.visit && p(x) && p(y) ==> x == y
  {
  }

  lemma ChassisInOrder(d: Detected, e: Detected, desc: Lldp)
    requires e.resolve == d.resolve && e.devices.Keys == d.devices.Keys && !ByName(d, desc)
    requires forall f :: f in d.devices ==> e.devices[f].chassis == d.devices[f].chassis
    ensures Neighbour(e, desc) == First(e.visit, f => HasChassis(d, f, desc.chassisId))
  {
    var q := f => HasChassis(e, f, desc.chassisId);
    FirstAgrees(e.visit, q, f => HasChassis(d, f, desc.chassisId));
    assert Neighbour(e, desc) == First(e.visit, q);
  }

  lemma ReorderedNeighbour(d: Detected, e: Detected, desc: Lldp)
    requires Valid(d) && Reordered(d, e) && OneDevice(d, desc)
    ensures Neighbour(e, desc) == Neighbour(d, desc)
  {
    if !ByName(d, desc) {
      ChassisInOrder(d, d, desc);
      ChassisInOrder(d, e, desc);
      FirstOrderIff(d.visit, f => HasChassis(d, f, desc.chassisId));
    }
  }

  lemma OneDeviceKeeps(d: Detected, e: Detected)
    requires Valid(d) && Reordered(d, e) && OneDeviceEach(d)
    ensures KeepsNeighbours(d, e)
  {
    hide Neighbour, OneDevice, Valid, Reordered;
    forall f, i, x | IsPort(d, (f, i)) && x in d.devices[f].interfaces[i].lldp ensures Neighbour(e, x) == Neighbour(d, x) {
      ReorderedNeighbour(d, e, x);
    }
  }

  lemma ReorderedReferences(d: Detected, e: Detected, g: string, i: int, f: string, j: int)
    requires Reordered(d, e) && KeepsNeighbours(d, e) && IsPort(d, (g, i)) && f in d.devices
    ensures RefersTo(e, g, i, f) == RefersTo(d, g, i, f)
    ensures RefersToPort(e, g, i, f, j) == RefersToPort(d, g, i, f, j)
  {
    hide Neighbour, Rearranged;
    ReorderedPorts(d, e, f);
    hide DirectPort;
  }

  lemma ReorderedPorts(d: Detected, e: Detected, f: string)
    requires Reordered(d, e) && f in d.devices
    ensures forall id, subtype :: DirectPort(e.devices[f], id, subtype) == DirectPort(d.devices[f], id, subtype)
  {
    hide UnhexAscii;
  }

  lemma {:induction false} FilterCounts<T(!new)>(s: seq<T>, p: T -> bool, x: T)
    ensures multiset(Filter(s, p))[x] == if p(x) then multiset(s)[x] else 0
  {
    if s != [] {
      FilterCounts(s[..|s| - 1], p, x);
      assert s == s[..|s| - 1] + [s[|s| - 1]];
    }
  }

  lemma FilterRearranged<T(!new)>(s: seq<T>, s': seq<T>, p: T -> bool)
    requires Rearranged(s, s')
    ensures |Filter(s, p)| == |Filter(s', p)|
    ensures |Filter(s, p)| == 1 ==> Filter(s, p)[0] == Filter(s', p)[0]
  {
    var a, b := Filter(s, p), Filter(s', p);
    forall x ensures multiset(a)[x] == multiset(b)[x] {
      FilterCounts(s, p, x);
      FilterCounts(s', p, x);
    }
    hide Filter;
    SameElements(a, b);
  }

  lemma SameElements<T(!new)>(a: seq<T>, b: seq<T>)
    requires forall x :: multiset(a)[x] == multiset(b)[x]
    ensures |a| == |b| && (|a| == 1 ==> a[0] == b[0])
  {
    assert multiset(a) == multiset(b);
    assert |a| == |multiset(a)| && |b| == |multiset(b)|;
    if |a| == 1 {
      assert a == [a[0]] && b == [b[0]];
      assert multiset(b)[b[0]] == 1;
    }
  }

  lemma FirstRearranged<T(!new)>(s: seq<T>, s': seq<T>, p: T -> bool)
    requires Rearranged(s, s')
    ensures First(s, p).Some? <==> First(s', p).Some?
    ensures (forall x, y :: x in s && y in s && p(x) && p(y) ==> x == y) ==> First(s, p) == First(s', p)
  {
    FirstSatisfies(s, p);
    FirstSatisfies(s', p);
    assert forall x :: x in s <==> x in multiset(s);
    assert forall x :: x in s' <==> x in multiset(s');
  }

  // Whether looking back finds a port does not depend on the order; which one it
  // finds does so only when several point back at this very port.
  lemma ReorderedReverse(d: Detected, e: Detected, f: string, j: int, g: string)
    requires Reordered(d, e) && KeepsNeighbours(d, e) && f in d.devices && g in d.devices
    ensures ReversePort(e, f, j, g).Some? <==> ReversePort(d, f, j, g).Some?
    ensures OneWayBack(d, f, j, g) ==> ReversePort(e, f, j, g) == ReversePort(d, f, j, g)
  {
    forall i | IsPort(d, (g, i))
      ensures RefersTo(e, g, i, f) == RefersTo(d, g, i, f) && RefersToPort(e, g, i, f, j) == RefersToPort(d, g, i, f, j)
    {
      ReorderedReferences(d, e, g, i, f, j);
    }
    hide RefersTo, RefersToPort, KeepsNeighbours;
    var exact, exact' := i => IsPort(d, (g, i)) && RefersToPort(d, g, i, f, j), i => IsPort(e, (g, i)) && RefersToPort(e, g, i, f, j);
    var some, some' := i => IsPort(d, (g, i)) && RefersTo(d, g, i, f), i => IsPort(e, (g, i)) && RefersTo(e, g, i, f);
    var s, s' := d.devices[g].visit, e.devices[g].visit;
    FirstRearranged(s, s', exact);
    FirstAgrees(s', exact, exact');
    FilterRearranged(s, s', some);
    FilterAgrees(s', some, some');
    assert ReversePort(d, f, j, g) == SingleOr(First(s, exact), Filter(s, some));
    assert ReversePort(e, f, j, g) == SingleOr(First(s', exact'), Filter(s', some'));
  }

  lemma ReorderedLink(d: Detected, e: Detected, f: string, j: int, desc: Lldp)
    requires Reordered(d, e) && KeepsNeighbours(d, e) && f in d.devices && Neighbour(e, desc) == Neighbour(d, desc)
    ensures LldpLink(e, f, j, desc).Some? <==> LldpLink(d, f, j, desc).Some?
    ensures !PicksOne(d, f, j, desc) ==> LldpLink(e, f, j, desc) == LldpLink(d, f, j, desc)
  {
    hide KeepsNeighbours, Neighbour, ReversePort, DirectPort, OneWayBack;
    var g := Neighbour(d, desc);
    if g.Some? && g.value in d.devices {
      ReorderedPorts(d, e, g.value);
      ReorderedReverse(d, e, f, j, g.value);
    }
  }

  lemma {:induction false} ReorderedFirst(d: Detected, e: Detected, f: string, j: int, descs: seq<Lldp>)
    requires Reordered(d, e) && KeepsNeighbours(d, e) && f in d.devices
    requires forall x :: x in descs ==> Neighbour(e, x) == Neighbour(d, x)
    ensures FirstLldpLink(e, f, j, descs).Some? <==> FirstLldpLink(d, f, j, descs).Some?
    ensures (forall n :: 0 <= n < |descs| && FirstLldpLink(d, f, j, descs[..n]) == None ==> !PicksOne(d, f, j, descs[n])) ==>
              FirstLldpLink(e, f, j, descs) == FirstLldpLink(d, f, j, descs)
  {
    hide Reordered, KeepsNeighbours, Neighbour, LldpLink, PicksOne;
    if descs != [] {
      var front, last := descs[..|descs| - 1], descs[|descs| - 1];
      assert descs == front + [last];
      ReorderedFirst(d, e, f, j, front);
      ReorderedLink(d, e, f, j, last);
      assert forall n :: 0 <= n < |front| ==> descs[..n] == front[..n] && descs[n] == front[n];
    }
  }

  // Among the orders in which each descriptor means the same device, the link of a
  // port is always the same if and only if it was not picked among several
  // interfaces that point back at the port.
  lemma LinkOrderIff(d: Detected, f: string, j: int)
    requires Valid(d) && IsPort(d, (f, j))
    ensures (forall e :: Reordered(d, e) && KeepsNeighbours(d, e) ==> LinkAt(e, f, j) == LinkAt(d, f, j)) <==> !Picked(d, f, j)
  {
    hide KeepsNeighbours, FirstLldpLink, PicksOne, Valid;
    var lldp := d.devices[f].interfaces[j].lldp;
    if Picked(d, f, j) {
      var e := PickedOtherwise(d, f, j);
    } else {
      forall e | Reordered(d, e) && KeepsNeighbours(d, e) ensures LinkAt(e, f, j) == LinkAt(d, f, j) {
        SameMeaning(d, e, f, j);
        ReorderedFirst(d, e, f, j, lldp);
      }
    }
  }

  lemma SameMeaning(d: Detected, e: Detected, f: string, j: int)
    requires Reordered(d, e) && KeepsNeighbours(d, e) && IsPort(d, (f, j))
    ensures forall x :: x in d.devices[f].interfaces[j].lldp ==> Neighbour(e, x) == Neighbour(d, x)
    ensures forall cdp :: CdpLink(e, cdp) == CdpLink(d, cdp)
  {
    hide Neighbour, Rearranged;
  }

  lemma PickedOtherwise(d: Detected, f: string, j: int) returns (e: Detected)
    requires Valid(d) && IsPort(d, (f, j)) && Picked(d, f, j)
    ensures Reordered(d, e) && KeepsNeighbours(d, e) && LinkAt(e, f, j) != LinkAt(d, f, j)
  {
    hide FirstLldpLink, PicksOne;
    var lldp := d.devices[f].interfaces[j].lldp;
    var n :| 0 <= n < |lldp| && FirstLldpLink(d, f, j, lldp[..n]) == None && PicksOne(d, f, j, lldp[n]);
    var first, other;
    e, first, other := PlacedOtherwise(d, f, j, lldp[n]);
    SameMeaning(d, e, f, j);
    ReorderedFirst(d, e, f, j, lldp[..n]);
    hide Reordered, KeepsNeighbours, Neighbour, LinkAt, PlacedLookingBack, Valid;
    var g := Neighbour(d, lldp[n]).value;
    assert FoundLookingBack(d, f, j, g, first) && FoundLookingBack(e, f, j, g, other);
    LookingBackLinks(d, f, j, g, first);
    LookingBackLinks(e, f, j, g, other);
  }

  // Another order of the peer's interfaces makes another one of them come first.
  lemma PlacedOtherwise(d: Detected, f: string, j: int, desc: Lldp) returns (e: Detected, first: int, other: int)
    requires Valid(d) && IsPort(d, (f, j)) && desc in d.devices[f].interfaces[j].lldp && PicksOne(d, f, j, desc)
    ensures Reordered(d, e) && KeepsNeighbours(d, e) && e.devices[f].interfaces == d.devices[f].interfaces
    ensures Neighbour(d, desc).Some? && Neighbour(d, desc).value in d.devices
    ensures var g := Neighbour(d, desc).value;
      first != other && PlacedLookingBack(d, f, j, desc, g, first) && PlacedLookingBack(e, f, j, desc, g, other)
  {
    hide RefersToPort, Neighbour, DirectPort, RefersTo;
    var g := Neighbour(d, desc).value;
    var i, k :| IsPort(d, (g, i)) && IsPort(d, (g, k)) && RefersToPort(d, g, i, f, j) && RefersToPort(d, g, k, f, j) && i != k;
    var visit, exact := d.devices[g].visit, x => IsPort(d, (g, x)) && RefersToPort(d, g, x, f, j);
    assert ValidDevice(d.devices[g]);
    hide Valid;
    FirstSatisfies(visit, exact);
    assert exact(i) && exact(k);
    first := First(visit, exact).value;
    other := if first == i then k else i;
    e := OtherFirst(d, g, other);
    ReorderedReferences(d, e, g, other, f, j);
    ReorderedPorts(d, e, g);
    FirstAtHead(e.devices[g].visit, x => IsPort(e, (g, x)) && RefersToPort(e, g, x, f, j));
  }

  lemma OtherFirst(d: Detected, g: string, other: int) returns (e: Detected)
    requires g in d.devices && other in d.devices[g].visit
    ensures Reordered(d, e) && KeepsNeighbours(d, e)
    ensures forall f :: f in d.devices ==> e.devices[f].interfaces == d.devices[f].interfaces
    ensures e.devices[g].visit != [] && e.devices[g].visit[0] == other
  {
    var visit := MovedFirst(d.devices[g].visit, other);
    e := d.(devices := d.devices[g := d.devices[g].(visit := visit)]);
    InterfacesReordered(d, e);
    hide KeepsNeighbours;
  }

  // Rearranging interfaces alone changes nobody's meaning.
  lemma InterfacesReordered(d: Detected, e: Detected)
    requires Reordered(d, e) && e.visit == d.visit
    ensures KeepsNeighbours(d, e)
  {
    forall x: Lldp ensures Neighbour(e, x) == Neighbour(d, x) {
      if !ByName(d, x) {
        ChassisInOrder(d, d, x);
        ChassisInOrder(d, e, x);
      }
    }
  }

  // When no descriptor has to choose between devices with one chassis id, the link
  // of a port is the same in every order in which the maps are iterated if and only
  // if it was not picked among several interfaces that point back at the port.
  lemma OrderDoesNotMatterIff(d: Detected, f: string, j: int)
    requires Valid(d) && OneDeviceEach(d) && IsPort(d, (f, j))
    ensures (forall e :: Reordered(d, e) ==> LinkAt(e, f, j) == LinkAt(d, f, j)) <==> !Picked(d, f, j)
  {
    hide Valid, OneDeviceEach, Reordered, KeepsNeighbours, LinkAt, Picked;
    LinkOrderIff(d, f, j);
    forall e | Reordered(d, e) ensures KeepsNeighbours(d, e) {
      OneDeviceKeeps(d, e);
    }
  }

  // Two devices with one chassis id, and a third that announces it under a name that
  // does not resolve.
  function Twins(visit: seq<string>): Detected {
    var port := Iface(1, None, None, None, None, None, [], None);
    var twin := Device("", map[1 := port], [1], map["p" := 1], map[], false, Some("x"));
    Detected(
      map["a" := Device("a", map[1 := port.(lldp := [Lldp("switch", "x", "p", "interfaceName")])], [1], map[], map[], false, None),
          "b" := twin.(fqdn := "b"), "c" := twin.(fqdn := "c")],
      visit, map[])
  }

  lemma TwinLink(g: string, h: string)
    requires (g, h) in {("b", "c"), ("c", "b")}
    ensures LinkAt(Twins(["a", g, h]), "a", 1) == Some((g, 1))
  {
    hide UnhexAscii, ReversePort;
    var d := Twins(["a", g, h]);
    var desc := d.devices["a"].interfaces[1].lldp[0];
    assert "interfaceName" != "macAddress" && "interfaceName" != "local";
    assert ReplaceChar("x", ' ', ':') == "x";
    var p := f => HasChassis(d, f, desc.chassisId);
    assert d.visit[..2] == ["a", g] && ["a", g][..1] == ["a"] && ["a"][..0] == [];
    assert First(["a"], p) == None && First(["a", g], p) == Some(g);
    assert Neighbour(d, desc) == Some(g);
    assert LldpLink(d, "a", 1, desc) == Some((g, 1));
    assert [desc][..0] == [];
    assert FirstLldpLink(d, "a", 1, [desc]) == Some((g, 1));
  }

  lemma TwinsValid(visit: seq<string>, visit': seq<string>)
    requires EachOnce(visit, {"a", "b", "c"}) && Rearranged(visit, visit')
    ensures Valid(Twins(visit)) && IsPort(Twins(visit), ("a", 1)) && Reordered(Twins(visit), Twins(visit'))
  {
    var d := Twins(visit);
    assert d.devices.Keys == {"a", "b", "c"};
    forall f | f in d.devices ensures ValidDevice(d.devices[f]) {
    }
    hide EachOnce, ValidDevice;
  }

  // Their links follow the order of the device map.
  lemma OrderCanMatter() returns (d: Detected, e: Detected)
    ensures Valid(d) && Reordered(d, e) && IsPort(d, ("a", 1)) && LinkAt(d, "a", 1) != LinkAt(e, "a", 1)
  {
    var visit, visit' := ["a", "b", "c"], ["a", "c", "b"];
    assert Rearranged(visit, visit') && EachOnce(visit, {"a", "b", "c"});
    TwinsValid(visit, visit');
    TwinLink("b", "c");
    TwinLink("c", "b");
    hide Twins, Valid, Reordered, LinkAt;
    d, e := Twins(visit), Twins(visit');
    assert ("b", 1) != ("c", 1);
  }

  // ---- From collected devices to links -------------------------------------------------------

  // What else is known of a collected device: the order of its interface map, and
  // where its chassis id comes from.
  datatype Seen = Seen(visit: seq<int>, bridgeAddress: Option<string>, localChassisId: Option<string>)

  ghost predicate AllCollected(devices: map<string, DetectedDevice>, seen: map<string, Seen>, visit: seq<string>)
    reads devices.Values
  {
    && EachOnce(visit, devices.Keys) && seen.Keys == devices.Keys
    && forall f :: f in devices ==>
         devices[f].Valid() && devices[f].fqdn == f && EachOnce(seen[f].visit, devices[f].interfaces.Keys)
  }

  ghost function FromCollected(devices: map<string, DetectedDevice>, seen: map<string, Seen>, visit: seq<string>,
                               resolve: map<string, string>): (d: Detected)
    requires AllCollected(devices, seen, visit)
    reads devices.Values
  {
    Detected(
      map f | f in devices :: devices[f].View(seen[f].visit, seen[f].bridgeAddress, seen[f].localChassisId),
      visit, resolve)
  }

  // The devices that a crawl collected present a valid crawl result, whatever their
  // tables said, so their links lead to interfaces that were collected.
  lemma CollectedLinksExist(devices: map<string, DetectedDevice>, seen: map<string, Seen>, visit: seq<string>,
                            resolve: map<string, string>, f: string, j: int)
    requires AllCollected(devices, seen, visit)
    ensures var d := FromCollected(devices, seen, visit, resolve);
      && Valid(d) && (IsPort(d, (f, j)) <==> f in devices && j in devices[f].interfaces)
      && (IsPort(d, (f, j)) && LinkAt(d, f, j).Some? ==>
            var (g, i) := LinkAt(d, f, j).value;
            g in devices && i in devices[g].interfaces)
  {
    var d := FromCollected(devices, seen, visit, resolve);
    if IsPort(d, (f, j)) && LinkAt(d, f, j).Some? {
      ReferentialIntegrity(d, f, j);
    }
  }
}
