/**
 The network-wide VLAN inventory (nexus/src/collectors/vlanpoller.rs): which
 VLANs exist anywhere, under which names, and how many ports use them.
 */
module VlanInventory {
  import opened Options
  import opened Sorting
  import opened Vlan

  datatype DeviceVlans = DeviceVlans(interfaces: Membership, names: map<int, string>)
  datatype VlanDevice = VlanDevice(fqdn: string, name: Option<string>, nativePorts: nat, taggedPorts: nat)
  datatype Summary = Summary(id: int, names: seq<string>, devices: seq<VlanDevice>)
  type Devices = map<string, DeviceVlans>

  // ---- What one device says about a VLAN -----------------------------------------------

  function NativePorts(dev: DeviceVlans, id: int): set<int> {
    set i | i in dev.interfaces && dev.interfaces[i].native == Some(id)
  }

  function TaggedPorts(dev: DeviceVlans, id: int): set<int> {
    set i | i in dev.interfaces && id in dev.interfaces[i].tagged
  }

  // Named on the device or referenced by one of its ports.
  predicate Known(dev: DeviceVlans, id: int) {
    id in dev.names || NativePorts(dev, id) != {} || TaggedPorts(dev, id) != {}
  }

  function Entry(devices: Devices, f: string, id: int): VlanDevice
    requires f in devices
  {
    var dev := devices[f];
    VlanDevice(f, if id in dev.names then Some(dev.names[id]) else None, |NativePorts(dev, id)|, |TaggedPorts(dev, id)|)
  }

  // ---- The inventory ----------------------------------------------------------------------

  // One entry for each of these devices that knows the VLAN.
  ghost predicate Lists(devices: Devices, visited: set<string>, id: int, entries: seq<VlanDevice>) {
    && (forall k :: 0 <= k < |entries| ==>
          var f := entries[k].fqdn;
          f in visited && f in devices && Known(devices[f], id) && entries[k] == Entry(devices, f, id))
    && (forall f :: f in visited && f in devices && Known(devices[f], id) ==> exists k :: 0 <= k < |entries| && entries[k].fqdn == f)
    && (forall j, k :: 0 <= j < k < |entries| ==> entries[j].fqdn != entries[k].fqdn)
  }

  predicate FqdnLe(a: VlanDevice, b: VlanDevice) {
    StringLe(a.fqdn, b.fqdn)
  }

  ghost predicate NamesOf(names: seq<string>, entries: seq<VlanDevice>) {
    && SortedBy(names, StringLe)
    && (forall j, k :: 0 <= j < k < |names| ==> names[j] != names[k])
    && (forall name :: name in names <==> exists k :: 0 <= k < |entries| && entries[k].name == Some(name))
  }

  ghost predicate IsSummary(devices: Devices, s: Summary) {
    Lists(devices, devices.Keys, s.id, s.devices) && SortedBy(s.devices, FqdnLe) && NamesOf(s.names, s.devices) && s.devices != []
  }

  // Each known VLAN once, in increasing order, with its devices and names in order.
  ghost predicate IsInventory(devices: Devices, out: seq<Summary>) {
    && (forall j, k :: 0 <= j < k < |out| ==> out[j].id < out[k].id)
    && (forall k :: 0 <= k < |out| ==> IsSummary(devices, out[k]))
    && (forall f, id :: f in devices && Known(devices[f], id) ==> exists k :: 0 <= k < |out| && out[k].id == id)
  }

  // ---- Counting ------------------------------------------------------------------------------

  function Image<A, B>(s: set<A>, g: A -> B): set<B> {
    set x | x in s :: g(x)
  }

  ghost predicate Injective<A(!new), B>(s: set<A>, g: A -> B) {
    forall x, y :: x in s && y in s && g(x) == g(y) ==> x == y
  }

  // An image is smaller, except that of an injection.
  lemma {:induction false} ImageSize<A(!new), B>(s: set<A>, g: A -> B)
    ensures |Image(s, g)| <= |s|
    ensures |Image(s, g)| == |s| <==> Injective(s, g)
  {
    if s != {} {
      var x :| x in s;
      var rest := s - {x};
      ImageSize(rest, g);
      assert Image(s, g) == Image(rest, g) + {g(x)};
      if g(x) in Image(rest, g) {
        assert Image(s, g) == Image(rest, g);
      } else {
        assert Injective(rest, g) ==> Injective(s, g);
      }
    }
  }

  lemma DisjointSize<T>(a: set<T>, b: set<T>)
    requires a !! b
    ensures |a + b| == |a| + |b|
  {
  }

  function Uses(entry: VlanDevice, native: bool): nat {
    if native then entry.nativePorts else entry.taggedPorts
  }

  function PortsOf(dev: DeviceVlans, id: int, native: bool): set<int> {
    if native then NativePorts(dev, id) else TaggedPorts(dev, id)
  }

  function DeviceTotal(entries: seq<VlanDevice>, native: bool): nat {
    if entries == [] then 0
    else DeviceTotal(entries[..|entries| - 1], native) + Uses(entries[|entries| - 1], native)
  }

  function Total(out: seq<Summary>, native: bool): nat {
    if out == [] then 0
    else Total(out[..|out| - 1], native) + DeviceTotal(out[|out| - 1].devices, native)
  }

  // One use of a VLAN by a port: VLAN, device, interface.
  type PortUse = (int, string, int)

  function UsesBy(devices: Devices, f: string, id: int, native: bool): set<PortUse>
    requires f in devices
  {
    Image(PortsOf(devices[f], id, native), (i: int) => (id, f, i))
  }

  ghost function EntryUses(devices: Devices, id: int, entries: seq<VlanDevice>, native: bool): set<PortUse> {
    if entries == [] then {}
    else
      var last := entries[|entries| - 1];
      EntryUses(devices, id, entries[..|entries| - 1], native) +
      (if last.fqdn in devices then UsesBy(devices, last.fqdn, id, native) else {})
  }

  ghost function AllUses(devices: Devices, out: seq<Summary>, native: bool): set<PortUse> {
    if out == [] then {}
    else AllUses(devices, out[..|out| - 1], native) +
         EntryUses(devices, out[|out| - 1].id, out[|out| - 1].devices, native)
  }

  lemma UsesBySize(devices: Devices, f: string, id: int, native: bool)
    requires f in devices
    ensures |UsesBy(devices, f, id, native)| == Uses(Entry(devices, f, id), native)
  {
    ImageSize(PortsOf(devices[f], id, native), (i: int) => (id, f, i));
  }

  lemma {:induction false} EntryUsesAre(devices: Devices, id: int, entries: seq<VlanDevice>, native: bool, u: PortUse)
    ensures u in EntryUses(devices, id, entries, native) <==>
            exists k :: 0 <= k < |entries| && entries[k].fqdn in devices && u in UsesBy(devices, entries[k].fqdn, id, native)
  {
    hide UsesBy;
    if entries != [] {
      var front, last := entries[..|entries| - 1], entries[|entries| - 1];
      assert entries == front + [last];
      EntryUsesAre(devices, id, front, native, u);
      if k :| 0 <= k < |front| && front[k].fqdn in devices && u in UsesBy(devices, front[k].fqdn, id, native) {
        assert entries[k] == front[k];
      }
    }
  }

  lemma UsesByIs(devices: Devices, f: string, id: int, native: bool, u: PortUse)
    requires f in devices
    ensures u in UsesBy(devices, f, id, native) <==> u.0 == id && u.1 == f && u.2 in PortsOf(devices[f], id, native)
  {
  }

  lemma {:induction false} DeviceTotalIs(devices: Devices, id: int, entries: seq<VlanDevice>, native: bool)
    requires forall k :: 0 <= k < |entries| ==> entries[k].fqdn in devices && entries[k] == Entry(devices, entries[k].fqdn, id)
    requires forall j, k :: 0 <= j < k < |entries| ==> entries[j].fqdn != entries[k].fqdn
    ensures DeviceTotal(entries, native) == |EntryUses(devices, id, entries, native)|
  {
    hide Entry, UsesBy, Uses;
    if entries != [] {
      var front, last := entries[..|entries| - 1], entries[|entries| - 1];
      DeviceTotalIs(devices, id, front, native);
      UsesBySize(devices, last.fqdn, id, native);
      var before, mine := EntryUses(devices, id, front, native), UsesBy(devices, last.fqdn, id, native);
      forall u | u in before && u in mine ensures false {
        EntryUsesAre(devices, id, front, native, u);
        var k :| 0 <= k < |front| && front[k].fqdn in devices && u in UsesBy(devices, front[k].fqdn, id, native);
        UsesByIs(devices, front[k].fqdn, id, native, u);
        UsesByIs(devices, last.fqdn, id, native, u);
      }
      DisjointSize(before, mine);
    }
  }

  lemma {:induction false} AllUsesAre(devices: Devices, out: seq<Summary>, native: bool, u: PortUse)
    ensures u in AllUses(devices, out, native) <==>
            exists k :: 0 <= k < |out| && u in EntryUses(devices, out[k].id, out[k].devices, native)
  {
    hide EntryUses;
    if out != [] {
      var front, last := out[..|out| - 1], out[|out| - 1];
      assert out == front + [last];
      AllUsesAre(devices, front, native, u);
      if k :| 0 <= k < |front| && u in EntryUses(devices, front[k].id, front[k].devices, native) {
        assert out[k] == front[k];
      }
    }
  }

  lemma EntryUsesOf(devices: Devices, id: int, entries: seq<VlanDevice>, native: bool, u: PortUse)
    requires u in EntryUses(devices, id, entries, native)
    ensures u.0 == id
  {
    EntryUsesAre(devices, id, entries, native, u);
    var k :| 0 <= k < |entries| && entries[k].fqdn in devices && u in UsesBy(devices, entries[k].fqdn, id, native);
    UsesByIs(devices, entries[k].fqdn, id, native, u);
  }

  lemma {:induction false} TotalIs(devices: Devices, out: seq<Summary>, native: bool)
    requires forall j, k :: 0 <= j < k < |out| ==> out[j].id < out[k].id
    requires forall k :: 0 <= k < |out| ==> Lists(devices, devices.Keys, out[k].id, out[k].devices)
    ensures Total(out, native) == |AllUses(devices, out, native)|
  {
    if out != [] {
      var front, last := out[..|out| - 1], out[|out| - 1];
      TotalIs(devices, front, native);
      DeviceTotalIs(devices, last.id, last.devices, native);
      hide Lists, EntryUses;
      var before, mine := AllUses(devices, front, native), EntryUses(devices, last.id, last.devices, native);
      forall u | u in before && u in mine ensures false {
        AllUsesAre(devices, front, native, u);
        var k :| 0 <= k < |front| && u in EntryUses(devices, front[k].id, front[k].devices, native);
        EntryUsesOf(devices, front[k].id, front[k].devices, native, u);
        EntryUsesOf(devices, last.id, last.devices, native, u);
      }
      DisjointSize(before, mine);
    }
  }

  // The inventory counts exactly the uses that there are.
  lemma InventoryUses(devices: Devices, out: seq<Summary>, native: bool, u: PortUse)
    requires IsInventory(devices, out)
    ensures u in AllUses(devices, out, native) <==> u.1 in devices && u.2 in PortsOf(devices[u.1], u.0, native)
  {
    AllUsesAre(devices, out, native, u);
    if k :| 0 <= k < |out| && u in EntryUses(devices, out[k].id, out[k].devices, native) {
      EntryUsesAre(devices, out[k].id, out[k].devices, native, u);
      var m :| 0 <= m < |out[k].devices| && out[k].devices[m].fqdn in devices &&
        u in UsesBy(devices, out[k].devices[m].fqdn, out[k].id, native);
      UsesByIs(devices, out[k].devices[m].fqdn, out[k].id, native, u);
    }
    if u.1 in devices && u.2 in PortsOf(devices[u.1], u.0, native) {
      UseIsListed(devices, out, native, u);
    }
  }

  lemma UseIsListed(devices: Devices, out: seq<Summary>, native: bool, u: PortUse)
    requires IsInventory(devices, out) && u.1 in devices && u.2 in PortsOf(devices[u.1], u.0, native)
    ensures exists k :: 0 <= k < |out| && u in EntryUses(devices, out[k].id, out[k].devices, native)
  {
    assert Known(devices[u.1], u.0);
    var k :| 0 <= k < |out| && out[k].id == u.0;
    assert IsSummary(devices, out[k]);
    var m :| 0 <= m < |out[k].devices| && out[k].devices[m].fqdn == u.1;
    UsesByIs(devices, u.1, u.0, native, u);
    EntryUsesAre(devices, out[k].id, out[k].devices, native, u);
  }

  // ---- Conservation --------------------------------------------------------------------------

  function NativeInterfaces(devices: Devices): set<(string, int)> {
    set f, i | f in devices && i in devices[f].interfaces && devices[f].interfaces[i].native.Some? :: (f, i)
  }

  // The positions of all tagged lists; their number is the sum of the lengths.
  function TaggedPositions(devices: Devices): set<(string, int, int)> {
    set f, i, k | f in devices && i in devices[f].interfaces && 0 <= k < |devices[f].interfaces[i].tagged| :: (f, i, k)
  }

  ghost predicate NoRepeats(devices: Devices) {
    forall f, i, j, k :: f in devices && i in devices[f].interfaces && 0 <= j < k < |devices[f].interfaces[i].tagged| ==>
      devices[f].interfaces[i].tagged[j] != devices[f].interfaces[i].tagged[k]
  }

  lemma NativeConserved(devices: Devices, out: seq<Summary>)
    requires IsInventory(devices, out)
    ensures Total(out, true) == |NativeInterfaces(devices)|
  {
    TotalIs(devices, out, true);
    var g := (u: PortUse) => (u.1, u.2);
    var uses := AllUses(devices, out, true);
    forall u | u in uses ensures u.1 in devices && u.2 in NativePorts(devices[u.1], u.0) {
      InventoryUses(devices, out, true, u);
    }
    forall f, i | f in devices && i in devices[f].interfaces && devices[f].interfaces[i].native.Some?
      ensures (devices[f].interfaces[i].native.value, f, i) in uses
    {
      InventoryUses(devices, out, true, (devices[f].interfaces[i].native.value, f, i));
    }
    hide IsInventory, AllUses;
    ImageIsNative(devices, uses, g);
    ImageSize(uses, g);
  }

  lemma ImageIsNative(devices: Devices, uses: set<PortUse>, g: PortUse -> (string, int))
    requires forall u :: g(u) == (u.1, u.2)
    requires forall u :: u in uses ==> u.1 in devices && u.2 in NativePorts(devices[u.1], u.0)
    requires forall f, i :: f in devices && i in devices[f].interfaces && devices[f].interfaces[i].native.Some? ==>
      (devices[f].interfaces[i].native.value, f, i) in uses
    ensures Image(uses, g) == NativeInterfaces(devices) && Injective(uses, g)
  {
    forall p | p in NativeInterfaces(devices) ensures p in Image(uses, g) {
      var u := (devices[p.0].interfaces[p.1].native.value, p.0, p.1);
      assert u in uses && g(u) == p;
    }
    forall p | p in Image(uses, g) ensures p in NativeInterfaces(devices) {
      var u :| u in uses && g(u) == p;
      assert p == (u.1, u.2);
      InterfaceIn(devices, u.1, u.2);
    }
  }

  lemma InterfaceIn(devices: Devices, f: string, i: int)
    requires f in devices && i in devices[f].interfaces && devices[f].interfaces[i].native.Some?
    ensures (f, i) in NativeInterfaces(devices)
  {
  }

  lemma PositionIn(devices: Devices, f: string, i: int, k: int)
    requires f in devices && i in devices[f].interfaces && 0 <= k < |devices[f].interfaces[i].tagged|
    ensures (f, i, k) in TaggedPositions(devices)
  {
  }

  function UseAt(devices: Devices, p: (string, int, int)): PortUse {
    if p.0 in devices && p.1 in devices[p.0].interfaces && 0 <= p.2 < |devices[p.0].interfaces[p.1].tagged|
    then (devices[p.0].interfaces[p.1].tagged[p.2], p.0, p.1) else (0, "", 0)
  }

  lemma TaggedConserved(devices: Devices, out: seq<Summary>)
    requires IsInventory(devices, out)
    ensures Total(out, false) <= |TaggedPositions(devices)|
    ensures Total(out, false) == |TaggedPositions(devices)| <==> NoRepeats(devices)
  {
    TotalIs(devices, out, false);
    var g := (p: (string, int, int)) => UseAt(devices, p);
    var positions := TaggedPositions(devices);
    forall u ensures u in AllUses(devices, out, false) <==> u.1 in devices && u.2 in TaggedPorts(devices[u.1], u.0) {
      InventoryUses(devices, out, false, u);
    }
    hide IsInventory, AllUses;
    ImageIsTagged(devices, AllUses(devices, out, false), g);
    ImageSize(positions, g);
  }

  lemma ImageIsTagged(devices: Devices, uses: set<PortUse>, g: ((string, int, int)) -> PortUse)
    requires forall p :: g(p) == UseAt(devices, p)
    requires forall u :: u in uses <==> u.1 in devices && u.2 in TaggedPorts(devices[u.1], u.0)
    ensures Image(TaggedPositions(devices), g) == uses
    ensures Injective(TaggedPositions(devices), g) <==> NoRepeats(devices)
  {
    forall u ensures u in Image(TaggedPositions(devices), g) <==> u in uses {
      if u in uses {
        var k :| 0 <= k < |devices[u.1].interfaces[u.2].tagged| && devices[u.1].interfaces[u.2].tagged[k] == u.0;
        PositionIn(devices, u.1, u.2, k);
        assert g((u.1, u.2, k)) == u;
      }
    }
    if Injective(TaggedPositions(devices), g) {
      forall f, i, j, k | f in devices && i in devices[f].interfaces && 0 <= j < k < |devices[f].interfaces[i].tagged|
        ensures devices[f].interfaces[i].tagged[j] != devices[f].interfaces[i].tagged[k]
      {
        PositionIn(devices, f, i, j);
        PositionIn(devices, f, i, k);
        assert g((f, i, j)) == g((f, i, k)) ==> j == k;
      }
    }
  }

  // ---- Building the inventory ------------------------------------------------------------------

  function KnownIds(dev: DeviceVlans): set<int> {
    dev.names.Keys +
    (set i | i in dev.interfaces && dev.interfaces[i].native.Some? :: dev.interfaces[i].native.value) +
    (set i, v | i in dev.interfaces && v in dev.interfaces[i].tagged :: v)
  }

  lemma KnownIdsAre(dev: DeviceVlans, id: int)
    ensures id in KnownIds(dev) <==> Known(dev, id)
  {
    if i :| i in dev.interfaces && dev.interfaces[i].native == Some(id) {
      assert i in NativePorts(dev, id);
    }
    if i :| i in dev.interfaces && id in dev.interfaces[i].tagged {
      assert i in TaggedPorts(dev, id);
    }
    if NativePorts(dev, id) != {} {
      var i := Member(NativePorts(dev, id));
    }
    if TaggedPorts(dev, id) != {} {
      var i := Member(TaggedPorts(dev, id));
    }
  }

  type ById = map<int, seq<VlanDevice>>

  function EntriesOf(byId: ById, id: int): seq<VlanDevice> {
    if id in byId then byId[id] else []
  }

  // The entries of the devices visited so far.
  ghost predicate Grouped(devices: Devices, visited: set<string>, byId: ById) {
    && (forall id :: id in byId ==> byId[id] != [])
    && forall id :: Lists(devices, visited, id, EntriesOf(byId, id))
  }

  lemma ListsOneMore(devices: Devices, visited: set<string>, id: int, entries: seq<VlanDevice>, f: string)
    requires Lists(devices, visited, id, entries) && f in devices && f !in visited
    ensures Known(devices[f], id) ==> Lists(devices, visited + {f}, id, entries + [Entry(devices, f, id)])
    ensures !Known(devices[f], id) ==> Lists(devices, visited + {f}, id, entries)
  {
    hide Known;
    if Known(devices[f], id) {
      var more := entries + [Entry(devices, f, id)];
      assert forall k :: 0 <= k < |entries| ==> more[k] == entries[k];
      forall g | g in visited + {f} && g in devices && Known(devices[g], id) ensures exists k :: 0 <= k < |more| && more[k].fqdn == g {
        if g == f {
          assert more[|entries|].fqdn == f;
        } else {
          var k :| 0 <= k < |entries| && entries[k].fqdn == g;
          assert more[k].fqdn == g;
        }
      }
    }
  }

  method AddDevice(devices: Devices, ghost visited: set<string>, before: ById, f: string) returns (byId: ById)
    requires f in devices && f !in visited && Grouped(devices, visited, before)
    ensures Grouped(devices, visited + {f}, byId)
  {
    hide Lists, Known, Entry;
    var dev := devices[f];
    var ids := SortedKeys(KnownIds(dev));
    byId := AddEntries(devices, before, f, ids);
    forall id ensures Lists(devices, visited + {f}, id, EntriesOf(byId, id)) {
      assert id in ids <==> id in KnownIds(dev);
      KnownIdsAre(dev, id);
      ListsOneMore(devices, visited, id, EntriesOf(before, id), f);
    }
  }

  function Pushed(entries: seq<VlanDevice>, entry: VlanDevice, wanted: bool): seq<VlanDevice> {
    if wanted then entries + [entry] else entries
  }

  method AddEntries(devices: Devices, before: ById, f: string, ids: seq<int>) returns (byId: ById)
    requires f in devices && Increasing(ids) && forall id :: id in before ==> before[id] != []
    ensures forall id :: id in byId ==> byId[id] != []
    ensures forall id :: EntriesOf(byId, id) == Pushed(EntriesOf(before, id), Entry(devices, f, id), id in ids)
  {
    hide Entry;
    byId := before;
    for k := 0 to |ids|
      invariant forall id :: id in byId ==> byId[id] != []
      invariant forall id :: EntriesOf(byId, id) == Pushed(EntriesOf(before, id), Entry(devices, f, id), id in ids[..k])
    {
      var id := ids[k];
      assert ids[..k + 1] == ids[..k] + [id];
      assert id !in ids[..k];
      var entry := MakeEntry(devices, f, id);
      byId := byId[id := EntriesOf(byId, id) + [entry]];
    }
    assert ids[..|ids|] == ids;
  }

  method MakeEntry(devices: Devices, f: string, id: int) returns (entry: VlanDevice)
    requires f in devices
    ensures entry == Entry(devices, f, id)
  {
    var dev := devices[f];
    var name := if id in dev.names then Some(dev.names[id]) else None;
    entry := VlanDevice(f, name, |NativePorts(dev, id)|, |TaggedPorts(dev, id)|);
  }

  // ---- Sorting the entries and their names ---------------------------------------------------------

  lemma ListsPermuted(devices: Devices, visited: set<string>, id: int, a: seq<VlanDevice>, b: seq<VlanDevice>)
    requires Lists(devices, visited, id, a) && multiset(a) == multiset(b)
    ensures Lists(devices, visited, id, b)
  {
    hide Known, Entry;
    assert forall i, j :: 0 <= i < j < |a| ==> a[i].fqdn != a[j].fqdn;
    DistinctMultiset(a);
    forall k | 0 <= k < |b| ensures b[k] in a {
      assert b[k] in multiset(b);
    }
    forall i, j | 0 <= i < j < |b| ensures b[i].fqdn != b[j].fqdn {
      OnceEach(b, (set x | x in a), i, j);
    }
    forall f | f in visited && f in devices && Known(devices[f], id) ensures exists k :: 0 <= k < |b| && b[k].fqdn == f {
      var k :| 0 <= k < |a| && a[k].fqdn == f;
      assert a[k] in multiset(b);
      assert a[k] in b;
    }
  }

  lemma FqdnLePreorder()
    ensures TotalPreorder(FqdnLe)
  {
    StringLePreorder();
    hide StringLe;
    forall x: VlanDevice, y: VlanDevice, z: VlanDevice | FqdnLe(x, y) && FqdnLe(y, z) ensures FqdnLe(x, z) {
      assert StringLe(x.fqdn, y.fqdn) && StringLe(y.fqdn, z.fqdn);
    }
  }

  method SortedNames(entries: seq<VlanDevice>) returns (names: seq<string>)
    ensures NamesOf(names, entries)
  {
    var all: seq<string> := [];
    for k := 0 to |entries|
      invariant forall name :: name in all <==> exists j :: 0 <= j < k && entries[j].name == Some(name)
    {
      if entries[k].name.Some? {
        all := all + [entries[k].name.value];
      }
    }
    var sorted := SortBy(all, StringLe);
    StringLePreorder();
    SortBySorted(all, StringLe);
    assert forall name :: name in sorted <==> name in multiset(sorted);
    assert forall name :: name in all <==> name in multiset(all);
    names := Dedup(sorted);
  }

  // Drops an element that equals the one before it.
  method Dedup(sorted: seq<string>) returns (names: seq<string>)
    requires SortedBy(sorted, StringLe)
    ensures SortedBy(names, StringLe) && forall j, k :: 0 <= j < k < |names| ==> names[j] != names[k]
    ensures forall name :: name in names <==> name in sorted
  {
    hide StringLe;
    names := [];
    for k := 0 to |sorted|
      invariant k > 0 ==> names != [] && names[|names| - 1] == sorted[k - 1]
      invariant k == 0 ==> names == []
      invariant SortedBy(names, StringLe) && forall i, j :: 0 <= i < j < |names| ==> names[i] != names[j]
      invariant forall name :: name in names <==> name in sorted[..k]
    {
      assert sorted[..k + 1] == sorted[..k] + [sorted[k]];
      if k == 0 || sorted[k] != sorted[k - 1] {
        NewestIsGreatest(names, sorted, k);
        names := names + [sorted[k]];
      }
    }
    assert sorted[..|sorted|] == sorted;
  }

  lemma NewestIsGreatest(names: seq<string>, sorted: seq<string>, k: nat)
    requires k < |sorted| && SortedBy(sorted, StringLe) && SortedBy(names, StringLe)
    requires k == 0 ==> names == []
    requires k > 0 ==> names != [] && names[|names| - 1] == sorted[k - 1] && sorted[k] != sorted[k - 1]
    ensures forall i :: 0 <= i < |names| ==> StringLe(names[i], sorted[k]) && names[i] != sorted[k]
  {
    StringLePreorder();
    hide StringLe;
    forall i | 0 <= i < |names| ensures StringLe(names[i], sorted[k]) && names[i] != sorted[k] {
      var last := sorted[k - 1];
      assert StringLe(last, sorted[k]);
      assert i < |names| - 1 ==> StringLe(names[i], last);
      assert StringLe(last, last);
      StringLeTotal(last, sorted[k]);
    }
  }

  // ---- The store -----------------------------------------------------------------------------------

  class VlanStore {
    var devices: Devices

    constructor ()
      ensures devices == map[]
    {
      devices := map[];
    }

    method ReplaceDevice(fqdn: string, vlans: DeviceVlans)
      modifies this
      ensures devices == old(devices)[fqdn := vlans]
    {
      devices := devices[fqdn := vlans];
    }

    method RetainOnly(keep: set<string>)
      modifies this
      ensures devices == map f | f in old(devices) && f in keep :: old(devices)[f]
    {
      devices := map f | f in devices && f in keep :: devices[f];
    }

    method NetworkVlans() returns (out: seq<Summary>)
      ensures IsInventory(devices, out)
    {
      var byId := GroupById(devices);
      hide Lists, SortedBy, NamesOf;
      var ids := SortedKeys(byId.Keys);
      FqdnLePreorder();
      out := [];
      for k := 0 to |ids|
        invariant |out| == k && forall j :: 0 <= j < k ==> out[j].id == ids[j] && IsSummary(devices, out[j])
      {
        assert ids[k] in ids;
        var entries := SortBy(byId[ids[k]], FqdnLe);
        SortBySorted(byId[ids[k]], FqdnLe);
        assert EntriesOf(byId, ids[k]) == byId[ids[k]];
        ListsPermuted(devices, devices.Keys, ids[k], byId[ids[k]], entries);
        var names := SortedNames(entries);
        out := out + [Summary(ids[k], names, entries)];
      }
      forall f, id | f in devices && Known(devices[f], id) ensures exists k :: 0 <= k < |out| && out[k].id == id {
        KnownIsGrouped(devices, byId, f, id);
        var k :| 0 <= k < |ids| && ids[k] == id;
        assert out[k].id == id;
      }
    }
  }

  lemma KnownIsGrouped(devices: Devices, byId: ById, f: string, id: int)
    requires Grouped(devices, devices.Keys, byId) && f in devices && Known(devices[f], id)
    ensures id in byId
  {
    assert Lists(devices, devices.Keys, id, EntriesOf(byId, id));
  }

  method GroupById(devices: Devices) returns (byId: ById)
    ensures Grouped(devices, devices.Keys, byId)
  {
    byId := map[];
    var rest := devices.Keys;
    while rest != {}
      invariant rest <= devices.Keys && Grouped(devices, devices.Keys - rest, byId)
    {
      ghost var some := Member(rest);
      var f :| f in rest;
      byId := AddDevice(devices, devices.Keys - rest, byId, f);
      assert devices.Keys - (rest - {f}) == (devices.Keys - rest) + {f};
      rest := rest - {f};
    }
    assert devices.Keys - {} == devices.Keys;
  }
}
