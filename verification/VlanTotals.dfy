/**
 The port counts of the VLAN inventory (nexus/src/collectors/vlanpoller.rs) as
 sums over devices and interfaces, and for what the decoders produce.
 */
module VlanTotals {
  import opened Options
  import opened Snmp
  import opened LastWrites
  import opened Sorting
  import opened Bitmaps
  import opened Vlan
  import opened VlanInventory

  // ---- Sums over a set ----------------------------------------------------------------

  ghost function Pick<K>(s: set<K>): (x: K)
    requires s != {}
    ensures x in s
  {
    var x :| x in s;
    x
  }

  ghost function SumOver<K>(s: set<K>, f: K -> nat): nat {
    if s == {} then 0
    else
      var x := Pick(s);
      f(x) + SumOver(s - {x}, f)
  }

  ghost function UnionOver<K, P>(s: set<K>, part: K -> set<P>): set<P> {
    if s == {} then {}
    else
      var x := Pick(s);
      part(x) + UnionOver(s - {x}, part)
  }

  lemma {:induction false} UnionMembers<K, P>(s: set<K>, part: K -> set<P>, p: P)
    ensures p in UnionOver(s, part) <==> exists k :: k in s && p in part(k)
  {
    if s != {} {
      var x := Pick(s);
      UnionMembers(s - {x}, part, p);
    }
  }

  // Disjoint parts add up.
  lemma {:induction false} SumIsCount<K, P>(s: set<K>, part: K -> set<P>, f: K -> nat)
    requires forall k :: k in s ==> f(k) == |part(k)|
    requires forall k, m :: k in s && m in s && k != m ==> part(k) !! part(m)
    ensures |UnionOver(s, part)| == SumOver(s, f)
  {
    if s != {} {
      var x := Pick(s);
      SumIsCount(s - {x}, part, f);
      forall p | p in part(x) ensures p !in UnionOver(s - {x}, part) {
        UnionMembers(s - {x}, part, p);
      }
      DisjointSize(part(x), UnionOver(s - {x}, part));
    }
  }

  // ---- The lengths of the tagged lists ----------------------------------------------------

  function Range(n: nat): (r: set<int>)
    ensures |r| == n && forall k :: k in r <==> 0 <= k < n
  {
    if n == 0 then {} else Range(n - 1) + {n - 1}
  }

  type Position = (string, int, int)

  function Length(dev: DeviceVlans, i: int): nat {
    if i in dev.interfaces then |dev.interfaces[i].tagged| else 0
  }

  function ListPositions(f: string, dev: DeviceVlans, i: int): set<Position> {
    Image(Range(Length(dev, i)), (k: int) => (f, i, k))
  }

  // The lengths of all tagged lists of a device, added up.
  ghost function DeviceLength(dev: DeviceVlans): nat {
    SumOver(dev.interfaces.Keys, (i: int) => Length(dev, i))
  }

  ghost function DevicePositions(f: string, dev: DeviceVlans): set<Position> {
    UnionOver(dev.interfaces.Keys, (i: int) => ListPositions(f, dev, i))
  }

  // The lengths of all tagged lists of all devices, added up.
  ghost function TotalLength(devices: Devices): nat {
    SumOver(devices.Keys, (f: string) => LengthAt(devices, f))
  }

  lemma ListPositionsAre(f: string, dev: DeviceVlans, i: int, p: Position)
    ensures p in ListPositions(f, dev, i) <==> p.0 == f && p.1 == i && 0 <= p.2 < Length(dev, i)
    ensures |ListPositions(f, dev, i)| == Length(dev, i)
  {
    var g := (k: int) => (f, i, k);
    ImageSize(Range(Length(dev, i)), g);
    if p.0 == f && p.1 == i && 0 <= p.2 < Length(dev, i) {
      assert p.2 in Range(Length(dev, i)) && g(p.2) == p;
    }
  }

  lemma DevicePositionsAre(f: string, dev: DeviceVlans, p: Position)
    ensures p in DevicePositions(f, dev) <==> p.0 == f && p.1 in dev.interfaces && 0 <= p.2 < Length(dev, p.1)
  {
    var part := (i: int) => ListPositions(f, dev, i);
    UnionMembers(dev.interfaces.Keys, part, p);
    forall i {
      ListPositionsAre(f, dev, i, p);
    }
    hide ListPositions, UnionOver;
    if p.0 == f && p.1 in dev.interfaces && 0 <= p.2 < Length(dev, p.1) {
      assert p in part(p.1);
    }
  }

  lemma DeviceLengthIs(f: string, dev: DeviceVlans)
    ensures |DevicePositions(f, dev)| == DeviceLength(dev)
  {
    var part, length := (i: int) => ListPositions(f, dev, i), (i: int) => Length(dev, i);
    forall i ensures length(i) == |part(i)| {
      ListPositionsAre(f, dev, i, ("", 0, 0));
    }
    forall i, j | i != j ensures part(i) !! part(j) {
      ListsApart(f, dev, i, j);
    }
    hide ListPositions, Length, SumOver, UnionOver;
    SumIsCount(dev.interfaces.Keys, part, length);
  }

  lemma ListsApart(f: string, dev: DeviceVlans, i: int, j: int)
    requires i != j
    ensures ListPositions(f, dev, i) !! ListPositions(f, dev, j)
  {
    forall p | p in ListPositions(f, dev, i) ensures p !in ListPositions(f, dev, j) {
      ListPositionsAre(f, dev, i, p);
      ListPositionsAre(f, dev, j, p);
    }
  }

  ghost function PositionsAt(devices: Devices, f: string): set<Position> {
    if f in devices then DevicePositions(f, devices[f]) else {}
  }

  ghost function LengthAt(devices: Devices, f: string): nat {
    if f in devices then DeviceLength(devices[f]) else 0
  }

  lemma DevicesApart(devices: Devices, f: string, g: string)
    requires f != g
    ensures PositionsAt(devices, f) !! PositionsAt(devices, g)
  {
    hide DevicePositions;
    forall p | p in PositionsAt(devices, f) ensures p !in PositionsAt(devices, g) {
      DevicePositionsAre(f, devices[f], p);
      if g in devices {
        DevicePositionsAre(g, devices[g], p);
      }
    }
  }

  lemma AllPositions(devices: Devices)
    ensures UnionOver(devices.Keys, (f: string) => PositionsAt(devices, f)) == TaggedPositions(devices)
  {
    hide DevicePositions, UnionOver;
    var part := (f: string) => PositionsAt(devices, f);
    forall p ensures p in UnionOver(devices.Keys, part) <==> p in TaggedPositions(devices) {
      UnionMembers(devices.Keys, part, p);
      forall f | f in devices {
        DevicePositionsAre(f, devices[f], p);
      }
      if p in TaggedPositions(devices) {
        assert p in part(p.0);
      }
      if f :| f in devices && p in part(f) {
        PositionIn(devices, p.0, p.1, p.2);
      }
    }
  }

  lemma TotalLengthIs(devices: Devices)
    ensures |TaggedPositions(devices)| == TotalLength(devices)
  {
    var part, length := (f: string) => PositionsAt(devices, f), (f: string) => LengthAt(devices, f);
    forall f | f in devices ensures length(f) == |part(f)| {
      DeviceLengthIs(f, devices[f]);
    }
    forall f, g | f != g ensures part(f) !! part(g) {
      DevicesApart(devices, f, g);
    }
    hide PositionsAt, LengthAt, SumOver, UnionOver;
    SumIsCount(devices.Keys, part, length);
    AllPositions(devices);
  }

  // ---- What the counts add up to ------------------------------------------------------------

  // Whatever the devices report: the native counts sum to the number of interfaces
  // with a native VLAN; the tagged counts never exceed the summed lengths of the
  // tagged lists, and meet them exactly when no list repeats a VLAN.
  lemma CountsConserved(devices: Devices, out: seq<Summary>)
    requires IsInventory(devices, out)
    ensures Total(out, true) == |NativeInterfaces(devices)|
    ensures Total(out, false) <= TotalLength(devices)
    ensures Total(out, false) == TotalLength(devices) <==> NoRepeats(devices)
  {
    hide IsInventory, TotalLength;
    NativeConserved(devices, out);
    TaggedConserved(devices, out);
    TotalLengthIs(devices);
  }

  ghost predicate SizedTrunks(trunk: Table) {
    forall row :: row in trunk ==>
      && |ColumnOctets(row, "vlanTrunkPortVlansEnabled")| <= 128
      && |ColumnOctets(row, "vlanTrunkPortVlansEnabled2k")| <= 128
      && |ColumnOctets(row, "vlanTrunkPortVlansEnabled3k")| <= 128
  }

  ghost predicate IsCisco(m: Membership, trunk: Table, vtp: Option<Table>, membership: Option<Table>) {
    SizedTrunks(trunk) && m == CiscoVlans(trunk, vtp, membership)
  }

  // A membership that one of the two decoders produced; the Cisco bitmaps are of
  // the size that the MIB defines.
  ghost predicate IsDecoded(m: Membership) {
    || (exists trunk, vtp, membership :: IsCisco(m, trunk, vtp, membership))
    || (exists native, tagged :: Combined(native, tagged, m))
  }

  lemma DecodedIncreasing(m: Membership, i: int)
    requires IsDecoded(m) && i in m
    ensures Increasing(m[i].tagged)
  {
    if trunk, vtp, membership :| IsCisco(m, trunk, vtp, membership) {
      CiscoIncreasing(trunk, vtp, membership, i);
    }
  }

  lemma CiscoIncreasing(trunk: Table, vtp: Option<Table>, membership: Option<Table>, i: int)
    requires SizedTrunks(trunk) && i in CiscoVlans(trunk, vtp, membership)
    ensures Increasing(CiscoVlans(trunk, vtp, membership)[i].tagged)
  {
    var entry := CiscoEntry(Active(vtp.GetOr([])), Indexed(membership.GetOr([]), AccessEntry));
    IndexedByLastWriter(trunk, entry, i);
    var row: nat :| LastWriter(trunk, entry, i, row);
    CiscoVlansAre(trunk, vtp, membership, i, row);
    assert trunk[row] in trunk;
    SizedBitmapsApart(trunk[row]);
  }

  // For what the decoders produce the tagged counts are exactly the summed lengths.
  lemma DecodedCountsConserved(devices: Devices, out: seq<Summary>)
    requires IsInventory(devices, out)
    requires forall f :: f in devices ==> IsDecoded(devices[f].interfaces)
    ensures Total(out, true) == |NativeInterfaces(devices)|
    ensures Total(out, false) == TotalLength(devices)
  {
    forall f, i | f in devices && i in devices[f].interfaces ensures Increasing(devices[f].interfaces[i].tagged) {
      DecodedIncreasing(devices[f].interfaces, i);
    }
    hide IsInventory, TotalLength, IsDecoded;
    assert NoRepeats(devices);
    CountsConserved(devices, out);
  }
}
