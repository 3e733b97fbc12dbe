/**
 The VLAN membership decoders (nexus/src/collectors/vlanpoller.rs): the native
 and the tagged VLANs of each interface, for Cisco and for Q-BRIDGE devices.
 */
module Vlan {
  import opened Options
  import opened Snmp
  import opened LastWrites
  import opened Sorting
  import opened Bitmaps

  datatype InterfaceVlans = InterfaceVlans(native: Option<int>, tagged: seq<int>)
  type Membership = map<int, InterfaceVlans>

  function Positive(n: Option<int>): Option<int> {
    if n.Some? && n.value > 0 then n else None
  }

  function Bitmap(row: Row, column: string, base: int): seq<int> {
    match ObjStr(row, column)
    case Some(hex) => BitmapValues(Octets(hex), base)
    case None => []
  }

  method DecodeColumn(row: Row, column: string, base: int) returns (values: seq<int>)
    ensures values == Bitmap(row, column, base)
  {
    match ObjStr(row, column) {
      case Some(hex) =>
        var octets := ParseHexOctets(hex);
        values := DecodeBitmap(octets, base);
      case None => values := [];
    }
  }

  lemma BitmapIncreasing(row: Row, column: string, base: int)
    ensures Increasing(Bitmap(row, column, base))
  {
    match ObjStr(row, column) {
      case Some(hex) => ValuesAreSetBits(Octets(hex), base);
      case None =>
    }
  }

  function Keep(values: seq<int>, wanted: set<int>, native: Option<int>): seq<int> {
    if values == [] then []
    else
      var v := values[|values| - 1];
      Keep(values[..|values| - 1], wanted, native) + (if v in wanted && Some(v) != native then [v] else [])
  }

  lemma {:induction false} KeepMembers(values: seq<int>, wanted: set<int>, native: Option<int>)
    ensures forall v :: v in Keep(values, wanted, native) <==> v in values && v in wanted && Some(v) != native
    ensures Increasing(values) ==> Increasing(Keep(values, wanted, native))
  {
    if values != [] {
      var front, last := values[..|values| - 1], values[|values| - 1];
      assert values == front + [last];
      KeepMembers(front, wanted, native);
      var kept := Keep(front, wanted, native);
      if Increasing(values) {
        forall k | 0 <= k < |kept| ensures kept[k] < last {
          assert kept[k] in kept;
        }
      }
    }
  }

  // ---- Cisco ----------------------------------------------------------------------

  predicate IsActive(row: Row, vlan: int) {
    Index(row, "vtpVlanIndex") == Some(vlan) &&
    ObjStr(row, "vtpVlanState") == Some("operational") && ObjStr(row, "vtpVlanType") == Some("ethernet")
  }

  function Active(rows: Table): set<int> {
    if rows == [] then {}
    else
      var before, row := Active(rows[..|rows| - 1]), rows[|rows| - 1];
      match Index(row, "vtpVlanIndex")
      case Some(vlan) => if IsActive(row, vlan) then before + {vlan} else before
      case None => before
  }

  method ActiveVlans(rows: Table) returns (active: set<int>)
    ensures active == Active(rows)
  {
    active := {};
    for i := 0 to |rows|
      invariant active == Active(rows[..i])
    {
      assert rows[..i + 1][..i] == rows[..i];
      var vlan := Index(rows[i], "vtpVlanIndex");
      if vlan.Some? {
        var state, kind := ObjStr(rows[i], "vtpVlanState").GetOr(""), ObjStr(rows[i], "vtpVlanType").GetOr("");
        if state == "operational" && kind == "ethernet" {
          active := active + {vlan.value};
        }
      }
    }
    assert rows[..|rows|] == rows;
  }

  lemma {:induction false} ActiveAre(rows: Table, vlan: int)
    ensures vlan in Active(rows) <==> exists row :: row in rows && IsActive(row, vlan)
  {
    if rows != [] {
      var front, row := rows[..|rows| - 1], rows[|rows| - 1];
      assert rows == front + [row];
      ActiveAre(front, vlan);
      assert row in rows;
    }
  }

  // The access VLAN of an interface.
  function AccessEntry(row: Row): Option<(int, int)> {
    var ifindex :- Index(row, "ifIndex");
    var vlan :- Positive(ObjI64(row, "vmVlan"));
    Some((ifindex, vlan))
  }

  // The VLANs that a trunk allows: four bitmaps, each for 1024 of them.
  function Allowed(row: Row): seq<int> {
    Bitmap(row, "vlanTrunkPortVlansEnabled", 0) + Bitmap(row, "vlanTrunkPortVlansEnabled2k", 1024) +
    (Bitmap(row, "vlanTrunkPortVlansEnabled3k", 2048) + Bitmap(row, "vlanTrunkPortVlansEnabled4k", 3072))
  }

  predicate IsTrunk(row: Row) {
    ObjStr(row, "vlanTrunkPortDynamicStatus") == Some("trunking")
  }

  function NativeOf(row: Row): Option<int> {
    Positive(ObjI64(row, "vlanTrunkPortNativeVlan"))
  }

  // What a port row says: a trunk carries the active ones of its allowed VLANs,
  // any other port its access VLAN.
  function CiscoEntry(active: set<int>, access: map<int, int>): Row -> Option<(int, InterfaceVlans)> {
    (row: Row) =>
      var ifindex := Index(row, "vlanTrunkPortIfIndex");
      if ifindex.None? then None
      else if IsTrunk(row) then
        Some((ifindex.value, InterfaceVlans(NativeOf(row), Keep(Allowed(row), active, NativeOf(row)))))
      else if ifindex.value in access then Some((ifindex.value, InterfaceVlans(Some(access[ifindex.value]), [])))
      else None
  }

  // What the last telling row says of each port.
  function CiscoVlans(trunk: Table, vtp: Option<Table>, membership: Option<Table>): Membership {
    Indexed(trunk, CiscoEntry(Active(vtp.GetOr([])), Indexed(membership.GetOr([]), AccessEntry)))
  }

  method DecodeCisco(trunk: Table, vtp: Option<Table>, membership: Option<Table>) returns (result: Membership)
    ensures result == CiscoVlans(trunk, vtp, membership)
  {
    var active := ActiveVlans(vtp.GetOr([]));
    var access := BuildIndex(membership.GetOr([]), AccessEntry);
    ghost var entry := CiscoEntry(active, access);
    result := map[];
    for i := 0 to |trunk|
      invariant result == Indexed(trunk[..i], entry)
    {
      assert trunk[..i + 1][..i] == trunk[..i];
      var row := trunk[i];
      var ifindex := Index(row, "vlanTrunkPortIfIndex");
      if ifindex.Some? {
        if IsTrunk(row) {
          var tagged := TrunkVlans(row, active, NativeOf(row));
          result := result[ifindex.value := InterfaceVlans(NativeOf(row), tagged)];
        } else if ifindex.value in access {
          result := result[ifindex.value := InterfaceVlans(Some(access[ifindex.value]), [])];
        }
      }
    }
    assert trunk[..|trunk|] == trunk;
  }

  method TrunkVlans(row: Row, active: set<int>, native: Option<int>) returns (tagged: seq<int>)
    ensures tagged == Keep(Allowed(row), active, native)
  {
    var enabled := DecodeColumn(row, "vlanTrunkPortVlansEnabled", 0);
    var more := DecodeColumn(row, "vlanTrunkPortVlansEnabled2k", 1024);
    enabled := enabled + more;
    var third := DecodeColumn(row, "vlanTrunkPortVlansEnabled3k", 2048);
    var fourth := DecodeColumn(row, "vlanTrunkPortVlansEnabled4k", 3072);
    enabled := enabled + (third + fourth);
    tagged := Kept(enabled, active, native);
  }

  method Kept(values: seq<int>, wanted: set<int>, native: Option<int>) returns (kept: seq<int>)
    ensures kept == Keep(values, wanted, native)
  {
    kept := [];
    for i := 0 to |values|
      invariant kept == Keep(values[..i], wanted, native)
    {
      assert values[..i + 1][..i] == values[..i];
      if values[i] in wanted && Some(values[i]) != native {
        kept := kept + [values[i]];
      }
    }
    assert values[..|values|] == values;
  }

  // ---- When the tagged list of a trunk is what it is documented to be ------------------

  // No bitmap reaches into the VLANs of a later one.
  ghost predicate BitmapsApart(row: Row) {
    var a, b := Bitmap(row, "vlanTrunkPortVlansEnabled", 0), Bitmap(row, "vlanTrunkPortVlansEnabled2k", 1024);
    var c, d := Bitmap(row, "vlanTrunkPortVlansEnabled3k", 2048), Bitmap(row, "vlanTrunkPortVlansEnabled4k", 3072);
    Apart(a, b) && Apart(c, d) && Apart(a + b, c + d)
  }

  ghost predicate Apart(low: seq<int>, high: seq<int>) {
    forall i, j :: 0 <= i < |low| && 0 <= j < |high| ==> low[i] < high[j]
  }

  lemma IncreasingIffApart(a: seq<int>, b: seq<int>)
    ensures Increasing(a + b) <==> Increasing(a) && Increasing(b) && Apart(a, b)
  {
    var s := a + b;
    if Increasing(s) {
      forall i, j | 0 <= i < j < |a| ensures a[i] < a[j] {
        assert s[i] < s[j];
      }
      forall i, j | 0 <= i < j < |b| ensures b[i] < b[j] {
        assert s[|a| + i] < s[|a| + j];
      }
      forall i, j | 0 <= i < |a| && 0 <= j < |b| ensures a[i] < b[j] {
        assert s[i] < s[|a| + j];
      }
    }
  }

  lemma AllowedIncreasing(row: Row)
    ensures Increasing(Allowed(row)) <==> BitmapsApart(row)
  {
    hide Bitmap;
    var a, b := Bitmap(row, "vlanTrunkPortVlansEnabled", 0), Bitmap(row, "vlanTrunkPortVlansEnabled2k", 1024);
    var c, d := Bitmap(row, "vlanTrunkPortVlansEnabled3k", 2048), Bitmap(row, "vlanTrunkPortVlansEnabled4k", 3072);
    BitmapIncreasing(row, "vlanTrunkPortVlansEnabled", 0);
    BitmapIncreasing(row, "vlanTrunkPortVlansEnabled2k", 1024);
    BitmapIncreasing(row, "vlanTrunkPortVlansEnabled3k", 2048);
    BitmapIncreasing(row, "vlanTrunkPortVlansEnabled4k", 3072);
    hide Increasing, Apart;
    IncreasingIffApart(a, b);
    IncreasingIffApart(c, d);
    IncreasingIffApart(a + b, c + d);
  }

  lemma {:induction false} KeepAll(values: seq<int>, wanted: set<int>)
    requires forall v :: v in values ==> v in wanted
    ensures Keep(values, wanted, None) == values
  {
    if values != [] {
      var front := values[..|values| - 1];
      assert values == front + [values[|values| - 1]];
      KeepAll(front, wanted);
    }
  }

  // The tagged lists of a trunk are strictly increasing, whatever VLANs are active
  // and whichever is native, if and only if its bitmaps stay apart.
  lemma TaggedIncreasingIff(row: Row)
    ensures (forall active, native :: Increasing(Keep(Allowed(row), active, native))) <==> BitmapsApart(row)
  {
    AllowedIncreasing(row);
    hide BitmapsApart, Allowed;
    var all := set v | v in Allowed(row);
    KeepAll(Allowed(row), all);
    if Increasing(Allowed(row)) {
      forall active, native {
        KeepMembers(Allowed(row), active, native);
      }
    }
  }

  lemma {:induction false} KeepAppend(a: seq<int>, b: seq<int>, wanted: set<int>, native: Option<int>)
    ensures Keep(a + b, wanted, native) == Keep(a, wanted, native) + Keep(b, wanted, native)
  {
    if b == [] {
      assert a + b == a;
    } else {
      assert (a + b)[..|a + b| - 1] == a + b[..|b| - 1];
      KeepAppend(a, b[..|b| - 1], wanted, native);
    }
  }

  // The VLANs that would be tagged: every one in `low` is below every one in `high`.
  ghost predicate WantedApart(low: seq<int>, high: seq<int>, active: set<int>, native: Option<int>) {
    forall v, w :: v in low && w in high && {v, w} <= active && native !in {Some(v), Some(w)} ==> v < w
  }

  ghost predicate WantedBitmapsApart(row: Row, active: set<int>, native: Option<int>) {
    var a, b := Bitmap(row, "vlanTrunkPortVlansEnabled", 0), Bitmap(row, "vlanTrunkPortVlansEnabled2k", 1024);
    var c, d := Bitmap(row, "vlanTrunkPortVlansEnabled3k", 2048), Bitmap(row, "vlanTrunkPortVlansEnabled4k", 3072);
    WantedApart(a, b, active, native) && WantedApart(c, d, active, native) && WantedApart(a + b, c + d, active, native)
  }

  lemma KeptApart(low: seq<int>, high: seq<int>, active: set<int>, native: Option<int>)
    ensures Apart(Keep(low, active, native), Keep(high, active, native)) <==> WantedApart(low, high, active, native)
  {
    KeepMembers(low, active, native);
    KeepMembers(high, active, native);
    var a, b := Keep(low, active, native), Keep(high, active, native);
    hide Keep;
    if Apart(a, b) {
      forall v, w | v in low && w in high && {v, w} <= active && native !in {Some(v), Some(w)} ensures v < w {
        assert v in active && w in active && v in a && w in b;
        var i :| 0 <= i < |a| && a[i] == v;
        var j :| 0 <= j < |b| && b[j] == w;
      }
    }
    if WantedApart(low, high, active, native) {
      forall i, j | 0 <= i < |a| && 0 <= j < |b| ensures a[i] < b[j] {
        assert a[i] in a && b[j] in b;
      }
    }
  }

  // One call: the tagged list of a trunk is strictly increasing if and only if no
  // bitmap holds an active, non-native VLAN at or above one of a later bitmap.
  lemma TaggedIncreasingHere(row: Row, active: set<int>, native: Option<int>)
    ensures Increasing(Keep(Allowed(row), active, native)) <==> WantedBitmapsApart(row, active, native)
  {
    var a, b := Bitmap(row, "vlanTrunkPortVlansEnabled", 0), Bitmap(row, "vlanTrunkPortVlansEnabled2k", 1024);
    var c, d := Bitmap(row, "vlanTrunkPortVlansEnabled3k", 2048), Bitmap(row, "vlanTrunkPortVlansEnabled4k", 3072);
    BitmapIncreasing(row, "vlanTrunkPortVlansEnabled", 0);
    BitmapIncreasing(row, "vlanTrunkPortVlansEnabled2k", 1024);
    BitmapIncreasing(row, "vlanTrunkPortVlansEnabled3k", 2048);
    BitmapIncreasing(row, "vlanTrunkPortVlansEnabled4k", 3072);
    hide Bitmap, Increasing, Apart, WantedApart, Keep;
    HalvesKept(a, b, active, native);
    HalvesKept(c, d, active, native);
    KeepAppend(a + b, c + d, active, native);
    IncreasingIffApart(Keep(a + b, active, native), Keep(c + d, active, native));
    KeptApart(a + b, c + d, active, native);
  }

  lemma HalvesKept(a: seq<int>, b: seq<int>, active: set<int>, native: Option<int>)
    requires Increasing(a) && Increasing(b)
    ensures Increasing(Keep(a + b, active, native)) <==> WantedApart(a, b, active, native)
  {
    hide Increasing, Apart, WantedApart, Keep;
    KeepMembers(a, active, native);
    KeepMembers(b, active, native);
    KeepAppend(a, b, active, native);
    IncreasingIffApart(Keep(a, active, native), Keep(b, active, native));
    KeptApart(a, b, active, native);
  }

  function ColumnOctets(row: Row, column: string): seq<octet> {
    Octets(ObjStr(row, column).GetOr(""))
  }

  lemma ColumnRange(row: Row, column: string, base: int)
    ensures forall v :: v in Bitmap(row, column, base) ==> base <= v < base + 8 * |ColumnOctets(row, column)|
  {
    hide Octets;
    ValuesAreSetBits(ColumnOctets(row, column), base);
  }

  // Bitmaps of the size the MIB defines, 128 octets for 1024 VLANs, stay apart.
  lemma SizedBitmapsApart(row: Row)
    requires |ColumnOctets(row, "vlanTrunkPortVlansEnabled")| <= 128
    requires |ColumnOctets(row, "vlanTrunkPortVlansEnabled2k")| <= 128
    requires |ColumnOctets(row, "vlanTrunkPortVlansEnabled3k")| <= 128
    ensures BitmapsApart(row)
  {
    hide ColumnOctets, Bitmap;
    ColumnRange(row, "vlanTrunkPortVlansEnabled", 0);
    ColumnRange(row, "vlanTrunkPortVlansEnabled2k", 1024);
    ColumnRange(row, "vlanTrunkPortVlansEnabled3k", 2048);
    ColumnRange(row, "vlanTrunkPortVlansEnabled4k", 3072);
    var a, b := Bitmap(row, "vlanTrunkPortVlansEnabled", 0), Bitmap(row, "vlanTrunkPortVlansEnabled2k", 1024);
    var c, d := Bitmap(row, "vlanTrunkPortVlansEnabled3k", 2048), Bitmap(row, "vlanTrunkPortVlansEnabled4k", 3072);
    hide Apart;
    BorderBetween(a, b, 1024);
    BorderBetween(c, d, 3072);
    BorderBetween(a + b, c + d, 2048);
  }

  lemma BorderBetween(low: seq<int>, high: seq<int>, border: int)
    requires (forall v :: v in low ==> v < border) && (forall v :: v in high ==> v >= border)
    ensures Apart(low, high)
  {
    forall i, j | 0 <= i < |low| && 0 <= j < |high| ensures low[i] < high[j] {
      assert low[i] in low && high[j] in high;
    }
  }

  lemma RowWith(index: string, n: int, k1: string, v1: string, k2: string, v2: string, k3: string, v3: string) returns (row: Row)
    requires k1 != k2 && k1 != k3 && k2 != k3
    ensures Index(row, index) == Some(n)
    ensures row.objects.Keys == {k1, k2, k3}
    ensures ObjStr(row, k1) == Some(v1) && ObjStr(row, k2) == Some(v2) && ObjStr(row, k3) == Some(v3)
  {
    row := Row(map[index := n], map[k1 := Str(v1), k2 := Str(v2), k3 := Str(v3)]);
  }

  // One octet more is enough for a port to list a VLAN twice: here 1024, which the
  // first bitmap reaches and the second starts with.
  lemma OversizedBitmapRepeats() returns (trunk: Table, vtp: Table)
    ensures |trunk| == 1 && |ColumnOctets(trunk[0], "vlanTrunkPortVlansEnabled")| == 129 && !BitmapsApart(trunk[0])
    ensures var r := CiscoVlans(trunk, Some(vtp), None);
      1 in r && Repeats(r[1].tagged, 1024)
  {
    hide Octets, BitSet, Print, ObjI64, Keep, Allowed;
    var long, short := OverlappingBitmaps();
    var status, first, second := "vlanTrunkPortDynamicStatus", "vlanTrunkPortVlansEnabled", "vlanTrunkPortVlansEnabled2k";
    assert |status| == 26 && |first| == 25 && |second| == 27;
    var row := RowWith("vlanTrunkPortIfIndex", 1, status, "trunking", first, Print(long), second, Print(short));
    assert |"vtpVlanState"| == 12 && |"vtpVlanType"| == 11 && |""| == 0;
    var active := RowWith("vtpVlanIndex", 1024, "vtpVlanState", "operational", "vtpVlanType", "ethernet", "", "");
    trunk, vtp := [row], [active];
    PrintedOctetsReadBack(long);
    PrintedOctetsReadBack(short);
    assert vtp[..0] == [] && Active(vtp) == {1024};
    assert trunk[..0] == [];
    NoNative(row, status, first, second);
    SharedVlan(row, long, short, {1024}, None);
    hide Repeats, BitmapsApart, Active, AccessEntry, ColumnOctets;
    var entry := CiscoEntry({1024}, Indexed([], AccessEntry));
    assert entry(row) == Some((1, InterfaceVlans(None, Keep(Allowed(row), {1024}, None))));
  }

  lemma NoNative(row: Row, k1: string, k2: string, k3: string)
    requires row.objects.Keys == {k1, k2, k3} && |k1| == 26 && |k2| == 25 && |k3| == 27
    ensures NativeOf(row) == None
  {
    assert |"vlanTrunkPortNativeVlan"| == 23;
  }

  predicate Repeats(list: seq<int>, v: int) {
    exists x, y :: 0 <= x < y < |list| && list[x] == list[y] == v
  }

  lemma OverlappingBitmaps() returns (long: seq<octet>, short: seq<octet>)
    ensures |long| == 129 && BitSet(long, 1024) && BitSet(short, 0)
  {
    long, short := seq(129, i => 128), [128];
  }

  lemma SharedVlan(row: Row, long: seq<octet>, short: seq<octet>, active: set<int>, native: Option<int>)
    requires ObjStr(row, "vlanTrunkPortVlansEnabled").Some? && ColumnOctets(row, "vlanTrunkPortVlansEnabled") == long
    requires ObjStr(row, "vlanTrunkPortVlansEnabled2k").Some? && ColumnOctets(row, "vlanTrunkPortVlansEnabled2k") == short
    requires BitSet(long, 1024) && BitSet(short, 0) && 1024 in active && native != Some(1024)
    ensures !BitmapsApart(row) && Repeats(Keep(Allowed(row), active, native), 1024)
  {
    hide Octets, BitSet;
    ValuesAreSetBits(long, 0);
    ValuesAreSetBits(short, 1024);
    var a, b := Bitmap(row, "vlanTrunkPortVlansEnabled", 0), Bitmap(row, "vlanTrunkPortVlansEnabled2k", 1024);
    var more := Bitmap(row, "vlanTrunkPortVlansEnabled3k", 2048) + Bitmap(row, "vlanTrunkPortVlansEnabled4k", 3072);
    assert 1024 in a && 1024 in b;
    hide Bitmap;
    InBothRepeats(a, b, more, active, native, 1024);
    var i :| 0 <= i < |a| && a[i] == 1024;
    var j :| 0 <= j < |b| && b[j] == 1024;
    assert !Apart(a, b);
  }

  lemma InBothRepeats(a: seq<int>, b: seq<int>, more: seq<int>, active: set<int>, native: Option<int>, v: int)
    requires v in a && v in b && v in active && native != Some(v)
    ensures Repeats(Keep(a + b + more, active, native), v)
  {
    KeepMembers(a, active, native);
    KeepMembers(b, active, native);
    KeepAppend(a, b, active, native);
    KeepAppend(a + b, more, active, native);
    var ka, kb := Keep(a, active, native), Keep(b, active, native);
    hide Keep;
    var x :| 0 <= x < |ka| && ka[x] == v;
    var y :| 0 <= y < |kb| && kb[y] == v;
    var list := Keep(a + b + more, active, native);
    assert list[x] == v && list[|ka| + y] == v;
  }

  // What a Cisco interface ends with, from the last row that says something about it.
  lemma CiscoVlansAre(trunk: Table, vtp: Option<Table>, membership: Option<Table>, i: int, row: nat)
    requires var entry := CiscoEntry(Active(vtp.GetOr([])), Indexed(membership.GetOr([]), AccessEntry));
      LastWriter(trunk, entry, i, row)
    ensures var r := CiscoVlans(trunk, vtp, membership);
      && i in r
      && (r[i].native.Some? ==> r[i].native.value !in r[i].tagged)
      && (IsTrunk(trunk[row]) ==>
            && r[i].native == NativeOf(trunk[row])
            && (forall v :: v in r[i].tagged <==> v in Allowed(trunk[row]) && v in Active(vtp.GetOr([])) && Some(v) != r[i].native)
            && (Increasing(r[i].tagged) <==> WantedBitmapsApart(trunk[row], Active(vtp.GetOr([])), r[i].native))
            && (BitmapsApart(trunk[row]) ==> Increasing(r[i].tagged)))
      && (!IsTrunk(trunk[row]) ==>
            && r[i].tagged == [] && r[i].native.Some?
            && (exists m: nat :: LastWriter(membership.GetOr([]), AccessEntry, i, m))
            && forall m: nat :: LastWriter(membership.GetOr([]), AccessEntry, i, m) ==>
                 r[i].native == ObjI64(membership.GetOr([])[m], "vmVlan"))
  {
    hide Allowed, BitmapsApart, WantedBitmapsApart, Active, ObjI64;
    IndexedByLastWriter(membership.GetOr([]), AccessEntry, i);
    var entry := CiscoEntry(Active(vtp.GetOr([])), Indexed(membership.GetOr([]), AccessEntry));
    IndexedByLastWriter(trunk, entry, i);
    AllowedIncreasing(trunk[row]);
    KeepMembers(Allowed(trunk[row]), Active(vtp.GetOr([])), NativeOf(trunk[row]));
    TaggedIncreasingHere(trunk[row], Active(vtp.GetOr([])), NativeOf(trunk[row]));
  }

  // A port that no row makes a trunk is listed exactly when some trunk row is about
  // it and the membership table gives it a positive VLAN, with the last such one.
  lemma AccessVlanIs(trunk: Table, vtp: Option<Table>, membership: Option<Table>, i: int)
    requires forall k :: 0 <= k < |trunk| && Index(trunk[k], "vlanTrunkPortIfIndex") == Some(i) ==> !IsTrunk(trunk[k])
    ensures var r, rows := CiscoVlans(trunk, vtp, membership), membership.GetOr([]);
      && (i in r <==>
            && (exists k :: 0 <= k < |trunk| && Index(trunk[k], "vlanTrunkPortIfIndex") == Some(i))
            && exists m: nat :: LastWriter(rows, AccessEntry, i, m))
      && forall m: nat :: i in r && LastWriter(rows, AccessEntry, i, m) ==>
           r[i] == InterfaceVlans(ObjI64(rows[m], "vmVlan"), []) && r[i].native.Some? && r[i].native.value > 0
  {
    hide Active, ObjI64, Allowed, Keep, IsTrunk;
    var access := Indexed(membership.GetOr([]), AccessEntry);
    var entry := CiscoEntry(Active(vtp.GetOr([])), access);
    IndexedByLastWriter(membership.GetOr([]), AccessEntry, i);
    IndexedByLastRow(trunk, entry, i);
    hide Indexed;
    if k :| 0 <= k < |trunk| && Index(trunk[k], "vlanTrunkPortIfIndex") == Some(i) && i in access {
      assert entry(trunk[k]).Some?;
      WrittenBySome(trunk, entry, i, k);
    }
  }

  lemma {:induction false} WrittenBySome<V>(rows: Table, entry: Row -> Option<(int, V)>, i: int, k: nat)
    requires k < |rows| && entry(rows[k]).Some? && entry(rows[k]).value.0 == i
    ensures i in Indexed(rows, entry)
  {
    if k < |rows| - 1 {
      WrittenBySome(rows[..|rows| - 1], entry, i, k);
    }
  }

  // ---- Q-BRIDGE ---------------------------------------------------------------------------

  // Bridge port to interface.
  function BridgeEntry(row: Row): Option<(int, int)> {
    var port :- Index(row, "dot1dBasePort");
    var ifindex :- ObjI64(row, "dot1dBasePortIfIndex");
    Some((port, ifindex))
  }

  function PvidEntry(bridge: map<int, int>): Row -> Option<(int, int)> {
    (row: Row) =>
      var port, vlan := Index(row, "dot1dBasePort"), Positive(ObjI64(row, "dot1qPvid"));
      if port.Some? && port.value in bridge && vlan.Some? then Some((bridge[port.value], vlan.value)) else None
  }

  function OneOf(first: seq<int>, second: seq<int>): seq<int> {
    if first == [] then second else first
  }

  // The current port list, or the static one when it is empty.
  function Egress(row: Row): seq<int> {
    OneOf(Bitmap(row, "dot1qVlanCurrentEgressPorts", 1), Bitmap(row, "dot1qVlanStaticEgressPorts", 1))
  }

  function Untagged(row: Row): seq<int> {
    OneOf(Bitmap(row, "dot1qVlanCurrentUntaggedPorts", 1), Bitmap(row, "dot1qVlanStaticUntaggedPorts", 1))
  }

  function WithVlan(tagged: map<int, set<int>>, ifindex: int, vlan: int): map<int, set<int>> {
    tagged[ifindex := (if ifindex in tagged then tagged[ifindex] else {}) + {vlan}]
  }

  function WithPorts(tagged: map<int, set<int>>, bridge: map<int, int>, vlan: int, ports: seq<int>, untagged: seq<int>): map<int, set<int>> {
    if ports == [] then tagged
    else
      var before, port := WithPorts(tagged, bridge, vlan, ports[..|ports| - 1], untagged), ports[|ports| - 1];
      if port !in untagged && port in bridge then WithVlan(before, bridge[port], vlan) else before
  }

  function Tagged(bridge: map<int, int>, rows: Table): map<int, set<int>> {
    if rows == [] then map[]
    else
      var before, row := Tagged(bridge, rows[..|rows| - 1]), rows[|rows| - 1];
      match Index(row, "dot1qVlanIndex")
      case None => before
      case Some(vlan) => WithPorts(before, bridge, vlan, Egress(row), Untagged(row))
  }

  predicate Carries(tagged: map<int, set<int>>, i: int, vlan: int) {
    i in tagged && vlan in tagged[i]
  }

  ghost predicate PortTagged(bridge: map<int, int>, ports: seq<int>, untagged: seq<int>, i: int) {
    exists port :: port in ports && port !in untagged && port in bridge && bridge[port] == i
  }

  lemma {:induction false} WithPortsCarries(tagged: map<int, set<int>>, bridge: map<int, int>, vlan: int, ports: seq<int>,
                                            untagged: seq<int>, i: int, v: int)
    ensures Carries(WithPorts(tagged, bridge, vlan, ports, untagged), i, v) <==>
            Carries(tagged, i, v) || (v == vlan && PortTagged(bridge, ports, untagged, i))
  {
    if ports != [] {
      var front, port := ports[..|ports| - 1], ports[|ports| - 1];
      assert ports == front + [port];
      WithPortsCarries(tagged, bridge, vlan, front, untagged, i, v);
      assert PortTagged(bridge, ports, untagged, i) <==>
        PortTagged(bridge, front, untagged, i) || (port !in untagged && port in bridge && bridge[port] == i);
    }
  }

  // Row by row: an interface carries a VLAN tagged exactly when some row of the
  // VLAN lists one of its bridge ports as egress and not as untagged.
  lemma {:induction false} TaggedAre(bridge: map<int, int>, rows: Table, i: int, v: int)
    ensures Carries(Tagged(bridge, rows), i, v) <==>
            exists row :: row in rows && Index(row, "dot1qVlanIndex") == Some(v) && PortTagged(bridge, Egress(row), Untagged(row), i)
  {
    hide PortTagged, Carries, Egress, Untagged;
    if rows != [] {
      var front, row := rows[..|rows| - 1], rows[|rows| - 1];
      assert rows == front + [row];
      TaggedAre(bridge, front, i, v);
      if Index(row, "dot1qVlanIndex").Some? {
        WithPortsCarries(Tagged(bridge, front), bridge, Index(row, "dot1qVlanIndex").value, Egress(row), Untagged(row), i, v);
      }
      assert row in rows;
    } else {
      NothingCarries(i, v);
    }
  }

  lemma NothingCarries(i: int, v: int)
    ensures !Carries(map[], i, v)
  {
  }

  method TaggedVlans(bridge: map<int, int>, rows: Table) returns (tagged: map<int, set<int>>)
    ensures tagged == Tagged(bridge, rows)
  {
    tagged := map[];
    for i := 0 to |rows|
      invariant tagged == Tagged(bridge, rows[..i])
    {
      assert rows[..i + 1][..i] == rows[..i];
      var vlan := Index(rows[i], "dot1qVlanIndex");
      if vlan.Some? {
        var egress := FirstList(rows[i], "dot1qVlanCurrentEgressPorts", "dot1qVlanStaticEgressPorts");
        var untagged := FirstList(rows[i], "dot1qVlanCurrentUntaggedPorts", "dot1qVlanStaticUntaggedPorts");
        tagged := AddPorts(tagged, bridge, vlan.value, egress, untagged);
      }
    }
    assert rows[..|rows|] == rows;
  }

  method FirstList(row: Row, current: string, static_: string) returns (ports: seq<int>)
    ensures ports == OneOf(Bitmap(row, current, 1), Bitmap(row, static_, 1))
  {
    ports := DecodeColumn(row, current, 1);
    if ports == [] {
      ports := DecodeColumn(row, static_, 1);
    }
  }

  method AddPorts(before: map<int, set<int>>, bridge: map<int, int>, vlan: int, ports: seq<int>, untagged: seq<int>)
    returns (tagged: map<int, set<int>>)
    ensures tagged == WithPorts(before, bridge, vlan, ports, untagged)
  {
    tagged := before;
    for i := 0 to |ports|
      invariant tagged == WithPorts(before, bridge, vlan, ports[..i], untagged)
    {
      assert ports[..i + 1][..i] == ports[..i];
      if ports[i] !in untagged && ports[i] in bridge {
        tagged := WithVlan(tagged, bridge[ports[i]], vlan);
      }
    }
    assert ports[..|ports|] == ports;
  }

  function NativeAt(native: map<int, int>, i: int): Option<int> {
    if i in native then Some(native[i]) else None
  }

  // One entry for each interface with a native or a tagged VLAN; the tagged ones
  // in increasing order and without the native one.
  ghost predicate Combined(native: map<int, int>, tagged: map<int, set<int>>, r: Membership) {
    && r.Keys == native.Keys + tagged.Keys
    && forall i :: i in r ==>
         && r[i].native == NativeAt(native, i)
         && Increasing(r[i].tagged)
         && forall v :: v in r[i].tagged <==> Carries(tagged, i, v) && Some(v) != r[i].native
  }

  method DecodeQbridge(pvid: Option<Table>, vlanPorts: Option<Table>, basePorts: Table) returns (r: Membership)
    ensures var bridge := Indexed(basePorts, BridgeEntry);
      Combined(Indexed(pvid.GetOr([]), PvidEntry(bridge)), Tagged(bridge, vlanPorts.GetOr([])), r)
  {
    var bridge := BuildIndex(basePorts, BridgeEntry);
    var native := BuildIndex(pvid.GetOr([]), PvidEntry(bridge));
    var tagged := TaggedVlans(bridge, vlanPorts.GetOr([]));
    r := Combine(native, tagged);
  }

  method Combine(native: map<int, int>, tagged: map<int, set<int>>) returns (r: Membership)
    ensures Combined(native, tagged, r)
  {
    r := map i | i in native :: InterfaceVlans(Some(native[i]), []);
    var rest := tagged.Keys;
    while rest != {}
      invariant rest <= tagged.Keys
      invariant forall i :: i in r <==> i in native || (i in tagged && i !in rest)
      invariant forall i :: i in r ==> Right(native, tagged, if i in rest then {} else if i in tagged then tagged[i] else {}, i, r[i])
    {
      ghost var some := Member(rest);
      var i :| i in rest;
      var vlans := SortedKeys(tagged[i]);
      KeepMembers(vlans, tagged[i], NativeAt(native, i));
      r := r[i := InterfaceVlans(NativeAt(native, i), Keep(vlans, tagged[i], NativeAt(native, i)))];
      rest := rest - {i};
    }
    forall i ensures i in r <==> i in native.Keys + tagged.Keys {
    }
  }

  ghost predicate Right(native: map<int, int>, tagged: map<int, set<int>>, vlans: set<int>, i: int, entry: InterfaceVlans) {
    && entry.native == NativeAt(native, i)
    && Increasing(entry.tagged)
    && forall v :: v in entry.tagged <==> v in vlans && Some(v) != entry.native
  }

  // ---- Both decoders in terms of the rows alone ----------------------------------------------

  // The bitmap in this column of the row has the bit of VLAN or port v.
  predicate HasBit(row: Row, column: string, base: int, v: int) {
    ObjStr(row, column).Some? && IsSet(Octets(ObjStr(row, column).value), v - base)
  }

  lemma BitmapLists(row: Row, column: string, base: int)
    ensures forall v :: v in Bitmap(row, column, base) <==> HasBit(row, column, base, v)
  {
    hide IsSet;
    if ObjStr(row, column).Some? {
      ValuesAreSet(Octets(ObjStr(row, column).value), base);
    }
  }

  // The four columns of a trunk each hold 1024 VLANs.
  predicate Allows(row: Row, v: int) {
    || HasBit(row, "vlanTrunkPortVlansEnabled", 0, v) || HasBit(row, "vlanTrunkPortVlansEnabled2k", 1024, v)
    || HasBit(row, "vlanTrunkPortVlansEnabled3k", 2048, v) || HasBit(row, "vlanTrunkPortVlansEnabled4k", 3072, v)
  }

  lemma AllowedAre(row: Row)
    ensures forall v :: v in Allowed(row) <==> Allows(row, v)
  {
    hide Bitmap, HasBit;
    BitmapLists(row, "vlanTrunkPortVlansEnabled", 0);
    BitmapLists(row, "vlanTrunkPortVlansEnabled2k", 1024);
    BitmapLists(row, "vlanTrunkPortVlansEnabled3k", 2048);
    BitmapLists(row, "vlanTrunkPortVlansEnabled4k", 3072);
  }

  // A number that the device reports as a VLAN; zero and less mean none.
  predicate GivesVlan(row: Row, column: string, vlan: int) {
    ObjI64(row, column) == Some(vlan) && vlan > 0
  }

  // The last row that gives an access VLAN for the port, and which one.
  ghost predicate AccessVlan(membership: Table, i: int, vlan: int) {
    exists k: nat :: LastAccess(membership, i, vlan, k)
  }

  ghost predicate LastAccess(membership: Table, i: int, vlan: int, k: nat) {
    && k < |membership| && Index(membership[k], "ifIndex") == Some(i) && GivesVlan(membership[k], "vmVlan", vlan)
    && forall j, w :: k < j < |membership| && Index(membership[j], "ifIndex") == Some(i) ==> !GivesVlan(membership[j], "vmVlan", w)
  }

  lemma AccessIs(membership: Table, i: int, vlan: int)
    ensures var access := Indexed(membership, AccessEntry);
      i in access && access[i] == vlan <==> AccessVlan(membership, i, vlan)
  {
    IndexedByLastWriter(membership, AccessEntry, i);
    AccessEntryGives(i);
    hide Indexed, AccessEntry, GivesVlan;
    if k: nat :| LastAccess(membership, i, vlan, k) {
      forall j | k < j < |membership| && AccessEntry(membership[j]).Some? ensures AccessEntry(membership[j]).value.0 != i {
        assert !GivesVlan(membership[j], "vmVlan", AccessEntry(membership[j]).value.1) || Index(membership[j], "ifIndex") != Some(i);
      }
      assert LastWriter(membership, AccessEntry, i, k);
    }
    if k: nat :| LastWriter(membership, AccessEntry, i, k) {
      assert AccessEntry(membership[k]).value.1 == vlan ==> LastAccess(membership, i, vlan, k);
    }
  }

  lemma AccessEntryGives(i: int)
    ensures forall row, w :: Index(row, "ifIndex") == Some(i) && GivesVlan(row, "vmVlan", w) <==> AccessEntry(row) == Some((i, w))
    ensures forall row :: AccessEntry(row).Some? && AccessEntry(row).value.0 == i ==>
              Index(row, "ifIndex") == Some(i) && GivesVlan(row, "vmVlan", AccessEntry(row).value.1)
  {
    hide ObjI64;
  }

  predicate IsTrunking(row: Row, i: int) {
    Index(row, "vlanTrunkPortIfIndex") == Some(i) && ObjStr(row, "vlanTrunkPortDynamicStatus") == Some("trunking")
  }

  predicate IsAccessRow(row: Row, i: int) {
    Index(row, "vlanTrunkPortIfIndex") == Some(i) && ObjStr(row, "vlanTrunkPortDynamicStatus") != Some("trunking")
  }

  // The native VLAN of a trunk row.
  ghost predicate NativeIs(row: Row, native: Option<int>) {
    match native
    case Some(vlan) => GivesVlan(row, "vlanTrunkPortNativeVlan", vlan)
    case None => forall vlan :: !GivesVlan(row, "vlanTrunkPortNativeVlan", vlan)
  }

  lemma NativeOfIs(row: Row)
    ensures forall native :: NativeIs(row, native) <==> NativeOf(row) == native
  {
    hide ObjI64;
    forall native ensures NativeIs(row, native) <==> NativeOf(row) == native {
      assert NativeOf(row).Some? ==> GivesVlan(row, "vlanTrunkPortNativeVlan", NativeOf(row).value);
    }
  }

  lemma TrunkEntry(row: Row, active: set<int>, access: map<int, int>, i: int)
    requires IsTrunking(row, i)
    ensures CiscoEntry(active, access)(row) ==
            Some((i, InterfaceVlans(NativeOf(row), Keep(Allowed(row), active, NativeOf(row)))))
  {
    hide NativeOf, Allowed, ObjStr;
  }

  lemma EntryIsAboutPort(active: set<int>, access: map<int, int>)
    ensures forall row :: var e := CiscoEntry(active, access)(row);
              e.Some? ==> Index(row, "vlanTrunkPortIfIndex") == Some(e.value.0)
  {
    hide NativeOf, Allowed, ObjStr;
  }

  // A port whose last row is a trunk carries, besides its native VLAN, exactly the
  // allowed ones that some operational ethernet row names.
  lemma TrunkRowDecides(trunk: Table, vtp: Option<Table>, membership: Option<Table>, i: int, k: nat)
    requires LastAbout(trunk, "vlanTrunkPortIfIndex", i, k) && IsTrunking(trunk[k], i)
    ensures var r := CiscoVlans(trunk, vtp, membership);
      && i in r && NativeIs(trunk[k], r[i].native)
      && forall v :: v in r[i].tagged <==>
           Allows(trunk[k], v) && Some(v) != r[i].native && exists row :: row in vtp.GetOr([]) && IsActive(row, v)
  {
    hide ObjI64, ObjStr, Allows, IsActive, Active, Index, NativeIs, NativeOf, Allowed, Indexed;
    var active, access := Active(vtp.GetOr([])), Indexed(membership.GetOr([]), AccessEntry);
    var entry := CiscoEntry(active, access);
    TrunkEntry(trunk[k], active, access, i);
    EntryIsAboutPort(active, access);
    hide CiscoEntry, IsTrunking;
    assert LastWriter(trunk, entry, i, k);
    IndexedByLastWriter(trunk, entry, i);
    AllowedAre(trunk[k]);
    NativeOfIs(trunk[k]);
    KeepMembers(Allowed(trunk[k]), active, NativeOf(trunk[k]));
    forall v ensures v in active <==> exists row :: row in vtp.GetOr([]) && IsActive(row, v) {
      ActiveAre(vtp.GetOr([]), v);
    }
  }

  // A port whose last row is no trunk has its access VLAN and nothing else; without
  // an access VLAN, that row says nothing.
  lemma AccessRowDecides(trunk: Table, vtp: Option<Table>, membership: Option<Table>, i: int, k: nat, vlan: int)
    requires LastAbout(trunk, "vlanTrunkPortIfIndex", i, k) && IsAccessRow(trunk[k], i)
    ensures AccessVlan(membership.GetOr([]), i, vlan) ==>
              i in CiscoVlans(trunk, vtp, membership) && CiscoVlans(trunk, vtp, membership)[i] == InterfaceVlans(Some(vlan), [])
    ensures (forall w :: !AccessVlan(membership.GetOr([]), i, w)) ==>
              var r, before := CiscoVlans(trunk, vtp, membership), CiscoVlans(trunk[..k], vtp, membership);
              (i in r <==> i in before) && (i in r ==> r[i] == before[i])
  {
    hide ObjStr, Allowed, Active, Index, AccessVlan;
    var access := Indexed(membership.GetOr([]), AccessEntry);
    var entry := CiscoEntry(Active(vtp.GetOr([])), access);
    AccessIs(membership.GetOr([]), i, vlan);
    if i in access {
      AccessIs(membership.GetOr([]), i, access[i]);
      assert LastWriter(trunk, entry, i, k);
    } else {
      LaterRowsKeep(trunk, entry, i, k);
    }
    IndexedByLastWriter(trunk, entry, i);
    hide Indexed;
  }

  // The interface of a bridge port: that of the last row that gives one.
  ghost predicate PortOf(basePorts: Table, port: int, i: int) {
    exists k: nat :: LastBase(basePorts, port, i, k)
  }

  ghost predicate LastBase(basePorts: Table, port: int, i: int, k: nat) {
    && k < |basePorts| && Index(basePorts[k], "dot1dBasePort") == Some(port)
    && ObjI64(basePorts[k], "dot1dBasePortIfIndex") == Some(i)
    && forall j :: k < j < |basePorts| ==>
         Index(basePorts[j], "dot1dBasePort") != Some(port) || ObjI64(basePorts[j], "dot1dBasePortIfIndex").None?
  }

  lemma PortIs(basePorts: Table, port: int)
    ensures var bridge := Indexed(basePorts, BridgeEntry);
      forall i :: PortOf(basePorts, port, i) <==> port in bridge && bridge[port] == i
  {
    IndexedByLastWriter(basePorts, BridgeEntry, port);
    hide Indexed, ObjI64, Index;
    var bridge := Indexed(basePorts, BridgeEntry);
    forall i ensures PortOf(basePorts, port, i) <==> port in bridge && bridge[port] == i {
      if k: nat :| LastBase(basePorts, port, i, k) {
        assert LastWriter(basePorts, BridgeEntry, port, k);
      }
      if k: nat :| LastWriter(basePorts, BridgeEntry, port, k) {
        assert bridge[port] == i ==> LastBase(basePorts, port, i, k);
      }
    }
  }

  // The row gives the interface of its bridge port a native VLAN.
  ghost predicate GivesNative(basePorts: Table, row: Row, i: int, vlan: int) {
    && GivesVlan(row, "dot1qPvid", vlan)
    && exists port :: Index(row, "dot1dBasePort") == Some(port) && PortOf(basePorts, port, i)
  }

  ghost predicate LastNative(basePorts: Table, pvid: Table, i: int, vlan: int, k: nat) {
    && k < |pvid| && GivesNative(basePorts, pvid[k], i, vlan)
    && forall j, w :: k < j < |pvid| ==> !GivesNative(basePorts, pvid[j], i, w)
  }

  // The ports of a row: those of its current list, or of its static one when no port
  // is in the current list.
  ghost predicate RowLists(row: Row, current: string, static_: string, port: int) {
    if exists p :: HasBit(row, current, 1, p) then HasBit(row, current, 1, port) else HasBit(row, static_, 1, port)
  }

  ghost predicate TagsOn(basePorts: Table, row: Row, vlan: int, i: int) {
    && Index(row, "dot1qVlanIndex") == Some(vlan)
    && exists port ::
         && PortOf(basePorts, port, i)
         && RowLists(row, "dot1qVlanCurrentEgressPorts", "dot1qVlanStaticEgressPorts", port)
         && !RowLists(row, "dot1qVlanCurrentUntaggedPorts", "dot1qVlanStaticUntaggedPorts", port)
  }

  lemma ListsOfRow(row: Row)
    ensures forall port :: RowLists(row, "dot1qVlanCurrentEgressPorts", "dot1qVlanStaticEgressPorts", port) <==> port in Egress(row)
    ensures forall port :: RowLists(row, "dot1qVlanCurrentUntaggedPorts", "dot1qVlanStaticUntaggedPorts", port) <==> port in Untagged(row)
  {
    OneOfLists(row, "dot1qVlanCurrentEgressPorts", "dot1qVlanStaticEgressPorts");
    OneOfLists(row, "dot1qVlanCurrentUntaggedPorts", "dot1qVlanStaticUntaggedPorts");
    hide OneOf, RowLists;
  }

  lemma OneOfLists(row: Row, current: string, static_: string)
    ensures forall port :: RowLists(row, current, static_, port) <==>
                           port in OneOf(Bitmap(row, current, 1), Bitmap(row, static_, 1))
  {
    BitmapLists(row, current, 1);
    BitmapLists(row, static_, 1);
    hide HasBit;
    var list := Bitmap(row, current, 1);
    assert list != [] ==> HasBit(row, current, 1, list[0]);
    assert (exists p :: HasBit(row, current, 1, p)) <==> list != [];
    hide Bitmap;
  }

  lemma NativeRows(basePorts: Table, pvid: Table, i: int, vlan: int)
    ensures var native := Indexed(pvid, PvidEntry(Indexed(basePorts, BridgeEntry)));
      i in native && native[i] == vlan <==> NativeRow(basePorts, pvid, i, vlan)
  {
    var entry := PvidEntry(Indexed(basePorts, BridgeEntry));
    IndexedByLastWriter(pvid, entry, i);
    forall row, w ensures GivesNative(basePorts, row, i, w) <==> entry(row) == Some((i, w)) {
      PvidGives(basePorts, row, i, w);
    }
    hide Indexed, PvidEntry, GivesNative;
    if k: nat :| LastNative(basePorts, pvid, i, vlan, k) {
      forall j | k < j < |pvid| && entry(pvid[j]).Some? ensures entry(pvid[j]).value.0 != i {
        assert !GivesNative(basePorts, pvid[j], i, entry(pvid[j]).value.1);
      }
      assert LastWriter(pvid, entry, i, k);
    }
    if k: nat :| LastWriter(pvid, entry, i, k) {
      assert entry(pvid[k]).value.1 == vlan ==> LastNative(basePorts, pvid, i, vlan, k);
    }
  }

  lemma PvidGives(basePorts: Table, row: Row, i: int, vlan: int)
    ensures GivesNative(basePorts, row, i, vlan) <==> PvidEntry(Indexed(basePorts, BridgeEntry))(row) == Some((i, vlan))
  {
    hide ObjI64, PortOf, Indexed;
    if Index(row, "dot1dBasePort").Some? {
      PortIs(basePorts, Index(row, "dot1dBasePort").value);
    }
  }

  ghost predicate NativeRow(basePorts: Table, pvid: Table, i: int, vlan: int) {
    exists k: nat :: LastNative(basePorts, pvid, i, vlan, k)
  }

  ghost predicate TaggedRow(basePorts: Table, rows: Table, i: int, v: int) {
    exists row :: row in rows && TagsOn(basePorts, row, v, i)
  }

  // What the tables of a Q-BRIDGE device say of an interface: it is listed when some
  // row gives it a VLAN, with the native one of the last row that gives one, and the
  // others tagged.
  lemma QbridgeRowsDecide(pvid: Option<Table>, vlanPorts: Option<Table>, basePorts: Table, r: Membership, i: int)
    requires var bridge := Indexed(basePorts, BridgeEntry);
      Combined(Indexed(pvid.GetOr([]), PvidEntry(bridge)), Tagged(bridge, vlanPorts.GetOr([])), r)
    ensures i in r ==>
              && (forall vlan :: r[i].native == Some(vlan) <==> NativeRow(basePorts, pvid.GetOr([]), i, vlan))
              && (forall v :: v in r[i].tagged <==> Some(v) != r[i].native && TaggedRow(basePorts, vlanPorts.GetOr([]), i, v))
    ensures i !in r ==>
              && (forall vlan :: !NativeRow(basePorts, pvid.GetOr([]), i, vlan))
              && (forall v :: !TaggedRow(basePorts, vlanPorts.GetOr([]), i, v))
  {
    var bridge := Indexed(basePorts, BridgeEntry);
    hide Indexed, PvidEntry, NativeRow, TaggedRow;
    var native, tagged := Indexed(pvid.GetOr([]), PvidEntry(bridge)), Tagged(bridge, vlanPorts.GetOr([]));
    forall vlan ensures NativeRow(basePorts, pvid.GetOr([]), i, vlan) <==> i in native && native[i] == vlan {
      NativeRows(basePorts, pvid.GetOr([]), i, vlan);
    }
    forall v ensures TaggedRow(basePorts, vlanPorts.GetOr([]), i, v) <==> Carries(tagged, i, v) {
      TaggedRows(basePorts, vlanPorts.GetOr([]), i, v);
    }
    hide Tagged;
  }

  lemma TaggedRows(basePorts: Table, rows: Table, i: int, v: int)
    ensures Carries(Tagged(Indexed(basePorts, BridgeEntry), rows), i, v) <==> TaggedRow(basePorts, rows, i, v)
  {
    var bridge := Indexed(basePorts, BridgeEntry);
    TaggedAre(bridge, rows, i, v);
    forall row ensures TagsOn(basePorts, row, v, i) <==>
      Index(row, "dot1qVlanIndex") == Some(v) && PortTagged(bridge, Egress(row), Untagged(row), i)
    {
      ListsOfRow(row);
      forall port ensures PortOf(basePorts, port, i) <==> port in bridge && bridge[port] == i {
        PortIs(basePorts, port);
      }
      hide RowLists, Egress, Untagged, PortOf, Indexed;
    }
    hide Tagged, Carries, PortTagged, TagsOn;
  }
}
