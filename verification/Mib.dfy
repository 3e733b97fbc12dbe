/**
 The simulator's object tree (nexus/perf/src/main.rs): a map from object
 identifiers to value generators, kept in lexicographic order as a BTreeMap is.
 */
module Mib {
  import opened Options
  import opened Ber

  // ---- Lexicographic order ----------------------------------------------------------

  predicate Less(a: Oid, b: Oid) {
    b != [] && (a == [] || a[0] < b[0] || (a[0] == b[0] && Less(a[1..], b[1..])))
  }

  lemma {:induction false} LessIrreflexive(a: Oid)
    ensures !Less(a, a)
  {
    if a != [] {
      LessIrreflexive(a[1..]);
    }
  }

  lemma {:induction false} LessTransitive(a: Oid, b: Oid, c: Oid)
    requires Less(a, b) && Less(b, c)
    ensures Less(a, c)
  {
    if a != [] && a[0] == b[0] && b[0] == c[0] {
      LessTransitive(a[1..], b[1..], c[1..]);
    }
  }

  lemma {:induction false} LessTotal(a: Oid, b: Oid)
    ensures Less(a, b) || a == b || Less(b, a)
  {
    if a != [] && b != [] && a[0] == b[0] {
      LessTotal(a[1..], b[1..]);
      assert a == [a[0]] + a[1..] && b == [b[0]] + b[1..];
    }
  }

  lemma {:induction false} LessAfterPrefix(p: Oid, a: Oid, b: Oid)
    ensures Less(p + a, p + b) <==> Less(a, b)
  {
    if p == [] {
      assert p + a == a && p + b == b;
    } else {
      LessAfterPrefix(p[1..], a, b);
      assert (p + a)[1..] == p[1..] + a && (p + b)[1..] == p[1..] + b;
    }
  }

  // ---- Generators ---------------------------------------------------------------------

  datatype Gen =
    | Counting64(base: u64, rate: u64)
    | Counting32(base32: u32, rate32: u32)
    | Fixed(value: Value)

  // Counters advance with elapsed seconds and wrap at their width.
  function Evaluate(gen: Gen, elapsed: u64): Value {
    match gen
    case Counting64(base, rate) => Counter64((base + rate * elapsed % BASE64) % BASE64)
    case Counting32(base, rate) =>
      Counter32((base + rate * (elapsed % 0x1_0000_0000) % 0x1_0000_0000) % 0x1_0000_0000)
    case Fixed(v) => v
  }

  // A 64-bit counter after t seconds: its base and t times its rate, modulo its width.
  // A 32-bit counter counts the seconds modulo its width too, which changes nothing.
  lemma CountersCount(base: u64, rate: u64, base32: u32, rate32: u32, t: u64)
    ensures Evaluate(Counting64(base, rate), t) == Counter64((base + rate * t) % 0x1_0000_0000_0000_0000)
    ensures Evaluate(Counting32(base32, rate32), t) == Counter32((base32 + rate32 * t) % 0x1_0000_0000)
  {
    Modulo64(base, rate * t);
    Modulo32(base32, rate32 * (t % 0x1_0000_0000));
    SecondsModulo32(base32, rate32, t);
  }

  lemma Modulo64(a: nat, b: nat)
    ensures (a + b % 0x1_0000_0000_0000_0000) % 0x1_0000_0000_0000_0000 == (a + b) % 0x1_0000_0000_0000_0000
  {
  }

  lemma Modulo32(a: nat, b: nat)
    ensures (a + b % 0x1_0000_0000) % 0x1_0000_0000 == (a + b) % 0x1_0000_0000
  {
  }

  lemma SecondsModulo32(a: nat, b: nat, t: nat)
    ensures (a + b * (t % 0x1_0000_0000)) % 0x1_0000_0000 == (a + b * t) % 0x1_0000_0000
  {
    var q, r := t / 0x1_0000_0000, t % 0x1_0000_0000;
    assert t == q * 0x1_0000_0000 + r;
    Distributes(b, q, r);
    MultiplesVanish(a + b * r, b * q);
  }

  lemma Distributes(b: nat, q: nat, r: nat)
    ensures b * (q * 0x1_0000_0000 + r) == (b * q) * 0x1_0000_0000 + b * r
  {
    assert b * (q * 0x1_0000_0000) == (b * q) * 0x1_0000_0000;
  }

  lemma MultiplesVanish(a: nat, q: nat)
    ensures (a + q * 0x1_0000_0000) % 0x1_0000_0000 == a % 0x1_0000_0000
  {
  }

  // ---- The ordered tree ---------------------------------------------------------------

  datatype Entry = Entry(oid: Oid, gen: Gen)
  type Tree = seq<Entry>

  ghost predicate Sorted(tree: Tree) {
    forall i, j :: 0 <= i < j < |tree| ==> Less(tree[i].oid, tree[j].oid)
  }

  // Map insertion: a new key goes to its place, an old one gets the new value.
  function Insert(tree: Tree, e: Entry): Tree {
    if tree == [] || Less(e.oid, tree[0].oid) then [e] + tree
    else if tree[0].oid == e.oid then [e] + tree[1..]
    else [tree[0]] + Insert(tree[1..], e)
  }

  function Exact(tree: Tree, oid: Oid): Option<Gen> {
    if tree == [] then None else if tree[0].oid == oid then Some(tree[0].gen) else Exact(tree[1..], oid)
  }

  // The range query of the source: keys at or above `oid`, in order.
  function From(tree: Tree, oid: Oid): Tree {
    if tree == [] || !Less(tree[0].oid, oid) then tree else From(tree[1..], oid)
  }

  function Without(tree: Tree, oid: Oid): Tree {
    if tree == [] then []
    else (if tree[0].oid == oid then [] else [tree[0]]) + Without(tree[1..], oid)
  }

  function Successors(tree: Tree, after: Oid, max: nat): (r: Tree)
    ensures |r| <= max
  {
    var above := Without(From(tree, after), after);
    if |above| <= max then above else above[..max]
  }

  // ---- GETNEXT: the simple form -----------------------------------------------------------

  // The least key strictly above `oid`.
  ghost predicate IsNext(tree: Tree, oid: Oid, e: Entry) {
    e in tree && Less(oid, e.oid) && forall d :: d in tree && Less(oid, d.oid) ==> d == e || Less(e.oid, d.oid)
  }

  // The entries strictly above `oid`, in order.
  function Above(tree: Tree, oid: Oid): Tree {
    if tree == [] || Less(oid, tree[0].oid) then tree else Above(tree[1..], oid)
  }

  function GetNext(tree: Tree, oid: Oid): Option<Entry> {
    var above := Above(tree, oid);
    if above == [] then None else Some(above[0])
  }

  lemma {:induction false} AboveIsSuffix(tree: Tree, oid: Oid) returns (k: nat)
    requires Sorted(tree)
    ensures k <= |tree| && Above(tree, oid) == tree[k..]
    ensures forall i :: 0 <= i < k ==> !Less(oid, tree[i].oid)
    ensures forall i :: k <= i < |tree| ==> Less(oid, tree[i].oid)
  {
    if tree == [] {
      k := 0;
    } else if Less(oid, tree[0].oid) {
      k := 0;
      forall i | 1 <= i < |tree| ensures Less(oid, tree[i].oid) {
        LessTransitive(oid, tree[0].oid, tree[i].oid);
      }
    } else {
      var k' := AboveIsSuffix(tree[1..], oid);
      k := k' + 1;
      forall i | k <= i < |tree| ensures Less(oid, tree[i].oid) {
        assert tree[i] == tree[1..][i - 1];
      }
      forall i | 1 <= i < k ensures !Less(oid, tree[i].oid) {
        assert tree[i] == tree[1..][i - 1];
      }
    }
  }

  lemma AboveExact(tree: Tree, oid: Oid)
    requires Sorted(tree)
    ensures Sorted(Above(tree, oid))
    ensures forall e :: e in Above(tree, oid) <==> e in tree && Less(oid, e.oid)
  {
    var k := AboveIsSuffix(tree, oid);
  }

  lemma GetNextIsLeast(tree: Tree, oid: Oid)
    requires Sorted(tree)
    ensures match GetNext(tree, oid)
            case Some(e) => IsNext(tree, oid, e)
            case None => forall d :: d in tree ==> !Less(oid, d.oid)
  {
    AboveExact(tree, oid);
    var above := Above(tree, oid);
    if above != [] {
      assert above[0] in above;
    }
  }

  // Stepping to the next entry drops exactly that entry from what lies above.
  lemma AboveNext(tree: Tree, oid: Oid)
    requires Sorted(tree) && Above(tree, oid) != []
    ensures Above(tree, Above(tree, oid)[0].oid) == Above(tree, oid)[1..]
  {
    var k := AboveIsSuffix(tree, oid);
    var k' := AboveIsSuffix(tree, tree[k].oid);
    LessIrreflexive(tree[k].oid);
    assert k' == k + 1;
  }

  // Repeated GETNEXT.
  function Iterate(tree: Tree, oid: Oid, times: nat): Tree
    decreases times
  {
    if times == 0 then []
    else match GetNext(tree, oid)
      case None => []
      case Some(e) => [e] + Iterate(tree, e.oid, times - 1)
  }

  lemma {:induction false} IterateTakesAbove(tree: Tree, oid: Oid, times: nat)
    requires Sorted(tree)
    ensures var above := Above(tree, oid);
      Iterate(tree, oid, times) == if |above| <= times then above else above[..times]
    decreases times
  {
    var above := Above(tree, oid);
    if times != 0 && above != [] {
      AboveNext(tree, oid);
      IterateTakesAbove(tree, above[0].oid, times - 1);
      var later := Iterate(tree, above[0].oid, times - 1);
      assert Iterate(tree, oid, times) == [above[0]] + later;
      assert later == if |above| <= times then above[1..] else above[1..times];
    }
  }

  lemma {:induction false} WithoutSelf(tree: Tree, oid: Oid)
    requires forall e :: e in tree ==> e.oid != oid
    ensures Without(tree, oid) == tree
  {
    if tree != [] {
      WithoutSelf(tree[1..], oid);
    }
  }

  lemma {:induction false} FromWithoutIsAbove(tree: Tree, oid: Oid)
    requires Sorted(tree)
    ensures Without(From(tree, oid), oid) == Above(tree, oid)
  {
    if tree != [] {
      LessTotal(tree[0].oid, oid);
      if Less(tree[0].oid, oid) {
        if Less(oid, tree[0].oid) {
          LessTransitive(oid, tree[0].oid, oid);
          LessIrreflexive(oid);
        }
        FromWithoutIsAbove(tree[1..], oid);
      } else {
        LessIrreflexive(oid);
        FromWithoutIsAbove(tree[1..], oid);
        AboveExact(tree[1..], oid);
        if tree[0].oid == oid {
          WithoutSelf(tree[1..], oid);
          AboveAll(tree[1..], oid);
        } else {
          forall e | e in tree ensures e.oid != oid {
            if e != tree[0] {
              LessTransitive(oid, tree[0].oid, e.oid);
            }
          }
          WithoutSelf(tree, oid);
        }
      }
    }
  }

  lemma AboveAll(tree: Tree, oid: Oid)
    requires forall e :: e in tree ==> Less(oid, e.oid)
    ensures Above(tree, oid) == tree
  {
  }

  lemma SuccessorsTakeAbove(tree: Tree, oid: Oid, max: nat)
    requires Sorted(tree)
    ensures var above := Above(tree, oid);
      Successors(tree, oid, max) == if |above| <= max then above else above[..max]
  {
    FromWithoutIsAbove(tree, oid);
  }

  // The range query with its cut is repeated GETNEXT.
  lemma SuccessorsIterateGetNext(tree: Tree, oid: Oid, max: nat)
    requires Sorted(tree)
    ensures Successors(tree, oid, max) == Iterate(tree, oid, max)
  {
    SuccessorsTakeAbove(tree, oid, max);
    IterateTakesAbove(tree, oid, max);
  }

  // ---- Building the tree -------------------------------------------------------------------

  // How a column produces its rows: an interface name, or one generator for all.
  datatype Template = Name(prefix: string) | Every(gen: Gen)
  datatype Column = Column(base: Oid, template: Template)

  const IF_TABLE: Oid := [1, 3, 6, 1, 2, 1, 2, 2, 1]
  const IFX_TABLE: Oid := [1, 3, 6, 1, 2, 1, 31, 1, 1, 1]

  // The columns of each table in the order in which the source fills them.
  const IF_COLUMNS: seq<(u64, Template)> := [
    (2, Name("GigabitEthernet0/")),
    (8, Every(Fixed(Integer(1)))),
    (14, Every(Counting32(0, 1))),
    (19, Every(Counting32(0, 1))),
    (20, Every(Counting32(0, 1)))]

  const IFX_COLUMNS: seq<(u64, Template)> := [
    (1, Name("Gi0/")),
    (6, Every(Counting64(1_000_000, 12_500_000))),
    (7, Every(Counting64(1000, 10_000))),
    (8, Every(Counting64(100, 50))),
    (9, Every(Counting64(100, 20))),
    (10, Every(Counting64(2_000_000, 12_500_000))),
    (11, Every(Counting64(1000, 10_000))),
    (12, Every(Counting64(100, 50))),
    (13, Every(Counting64(100, 20))),
    (15, Every(Fixed(Gauge32(1000))))]

  const COLUMNS: seq<Column> := InTable(IF_TABLE, IF_COLUMNS) + InTable(IFX_TABLE, IFX_COLUMNS)

  function InTable(table: Oid, columns: seq<(u64, Template)>): (r: seq<Column>)
    ensures |r| == |columns|
    ensures forall i :: 0 <= i < |columns| ==> r[i] == Column(table + [columns[i].0], columns[i].1)
  {
    if columns == [] then []
    else InTable(table, columns[..|columns| - 1]) +
         [Column(table + [columns[|columns| - 1].0], columns[|columns| - 1].1)]
  }

  function Ascii(text: string): Bytes {
    if text == "" then [] else [(text[0] as int % 256) as byte] + Ascii(text[1..])
  }

  function Decimal(n: nat): Bytes {
    (if n < 10 then [] else Decimal(n / 10)) + [(48 + n % 10) as byte]
  }

  function GenFor(column: Column, i: nat): Gen {
    match column.template
    case Name(prefix) => Fixed(OctetString(Ascii(prefix) + Decimal(i)))
    case Every(gen) => gen
  }

  // The number that decimal digits make.
  function Number(digits: Bytes): int {
    if digits == [] then 0 else 10 * Number(digits[..|digits| - 1]) + (digits[|digits| - 1] as int - 48)
  }

  lemma {:induction false} DecimalReads(n: nat)
    ensures Number(Decimal(n)) == n && Decimal(n) != []
    ensures forall k :: 0 <= k < |Decimal(n)| ==> 48 <= Decimal(n)[k] <= 57
  {
    var last := [(48 + n % 10) as byte];
    if n < 10 {
      assert Decimal(n) == last && last[..0] == [];
    } else {
      DecimalReads(n / 10);
      assert Decimal(n)[..|Decimal(n / 10)|] == Decimal(n / 10);
    }
  }

  lemma {:induction false} AsciiKeeps(text: string)
    requires forall k :: 0 <= k < |text| ==> text[k] as int < 128
    ensures |Ascii(text)| == |text| && forall k :: 0 <= k < |text| ==> Ascii(text)[k] as int == text[k] as int
  {
    if text != "" {
      AsciiKeeps(text[1..]);
    }
  }

  // Interface i is called by the column's prefix and its number in decimal.
  lemma InterfaceName(base: Oid, prefix: string, i: nat)
    requires forall k :: 0 <= k < |prefix| ==> prefix[k] as int < 128
    ensures var gen := GenFor(Column(base, Name(prefix)), i);
      gen.Fixed? && gen.value.OctetString? && SpellsName(gen.value.octets, prefix, i)
  {
    hide Decimal, Ascii, SpellsName;
    SpelledName(prefix, i);
  }

  // The characters of the prefix, and after them the digits of the number.
  predicate SpellsName(name: Bytes, prefix: string, i: nat) {
    && |name| > |prefix|
    && (forall k :: 0 <= k < |prefix| ==> name[k] as int == prefix[k] as int)
    && (forall k :: |prefix| <= k < |name| ==> 48 <= name[k] <= 57)
    && Number(name[|prefix|..]) == i
  }

  lemma SpelledName(prefix: string, i: nat)
    requires forall k :: 0 <= k < |prefix| ==> prefix[k] as int < 128
    ensures SpellsName(Ascii(prefix) + Decimal(i), prefix, i)
  {
    hide Decimal, Ascii, Number;
    AsciiKeeps(prefix);
    DecimalReads(i);
    var name, digits := Ascii(prefix) + Decimal(i), Decimal(i);
    assert name[|prefix|..] == digits;
    forall k | |prefix| <= k < |name| ensures 48 <= name[k] <= 57 {
      assert name[k] == digits[k - |prefix|];
    }
  }

  function Row(column: Column, i: u32): Entry {
    Entry(column.base + [i], GenFor(column, i))
  }

  // Rows 1 to n of one column.
  function Rows(column: Column, n: u32): (r: Tree)
    ensures |r| == n
    ensures forall k :: 0 <= k < n ==> r[k] == Row(column, k + 1)
    decreases n
  {
    if n == 0 then [] else Rows(column, n - 1) + [Row(column, n)]
  }

  function AllRows(columns: seq<Column>, n: u32): Tree {
    if columns == [] then []
    else AllRows(columns[..|columns| - 1], n) + Rows(columns[|columns| - 1], n)
  }

  // a and b first differ inside both, and there a is smaller.
  predicate DiffersBelow(a: Oid, b: Oid, k: nat) {
    k < |a| && k < |b| && a[..k] == b[..k] && a[k] < b[k]
  }

  ghost predicate Before(a: Oid, b: Oid) {
    exists k: nat :: DiffersBelow(a, b, k)
  }

  lemma BeforeLess(a: Oid, b: Oid, x: Oid, y: Oid)
    requires Before(a, b)
    ensures Less(a + x, b + y)
  {
    var k: nat :| DiffersBelow(a, b, k);
    assert a + x == a[..k] + (a[k..] + x) && b + y == a[..k] + (b[k..] + y);
    LessAfterPrefix(a[..k], a[k..] + x, b[k..] + y);
  }

  ghost predicate Ordered(columns: seq<Column>) {
    forall c, d :: 0 <= c < d < |columns| ==> Before(columns[c].base, columns[d].base)
  }

  lemma WithinTable(table: Oid, c: u64, d: u64)
    requires c < d
    ensures Before(table + [c], table + [d])
  {
    assert DiffersBelow(table + [c], table + [d], |table|);
  }

  lemma AcrossTables(c: u64, d: u64)
    ensures Before(IF_TABLE + [c], IFX_TABLE + [d])
  {
    assert DiffersBelow(IF_TABLE + [c], IFX_TABLE + [d], 6);
  }

  ghost predicate IdsIncrease(columns: seq<(u64, Template)>) {
    forall i, j :: 0 <= i < j < |columns| ==> columns[i].0 < columns[j].0
  }

  lemma TablesOrdered(ifColumns: seq<(u64, Template)>, ifxColumns: seq<(u64, Template)>)
    requires IdsIncrease(ifColumns) && IdsIncrease(ifxColumns)
    ensures Ordered(InTable(IF_TABLE, ifColumns) + InTable(IFX_TABLE, ifxColumns))
  {
    var n := |ifColumns|;
    var all := InTable(IF_TABLE, ifColumns) + InTable(IFX_TABLE, ifxColumns);
    forall c, d | 0 <= c < d < |all| ensures Before(all[c].base, all[d].base) {
      if d < n {
        WithinTable(IF_TABLE, ifColumns[c].0, ifColumns[d].0);
      } else if c < n {
        AcrossTables(ifColumns[c].0, ifxColumns[d - n].0);
      } else {
        WithinTable(IFX_TABLE, ifxColumns[c - n].0, ifxColumns[d - n].0);
      }
    }
  }

  lemma ColumnsOrdered()
    ensures Ordered(COLUMNS)
  {
    TablesOrdered(IF_COLUMNS, IFX_COLUMNS);
  }

  lemma {:induction false} AllRowsMembers(columns: seq<Column>, n: u32, e: Entry)
    ensures e in AllRows(columns, n) <==>
            exists c, i :: 0 <= c < |columns| && 1 <= i <= n && e == Row(columns[c], i)
  {
    if columns != [] {
      var front, last := columns[..|columns| - 1], columns[|columns| - 1];
      AllRowsMembers(front, n, e);
      if e in AllRows(front, n) {
        var c, i :| 0 <= c < |front| && 1 <= i <= n && e == Row(front[c], i);
        assert columns[c] == front[c];
      } else if e in Rows(last, n) {
        var k :| 0 <= k < n && Rows(last, n)[k] == e;
        assert e == Row(columns[|columns| - 1], k + 1);
      }
      if c, i :| 0 <= c < |columns| && 1 <= i <= n && e == Row(columns[c], i) {
        if c < |front| {
          assert front[c] == columns[c];
        } else {
          assert Rows(last, n)[i - 1] == e;
        }
      }
    }
  }

  lemma RowsBelow(column: Column, i: u32, j: u32)
    requires i < j
    ensures Less(Row(column, i).oid, Row(column, j).oid)
  {
    LessAfterPrefix(column.base, [i], [j]);
  }

  lemma {:induction false} AllRowsSorted(columns: seq<Column>, n: u32)
    requires Ordered(columns)
    ensures Sorted(AllRows(columns, n))
  {
    if columns != [] {
      var front, last := columns[..|columns| - 1], columns[|columns| - 1];
      AllRowsSorted(front, n);
      var a, b := AllRows(front, n), Rows(last, n);
      var all: Tree := a + b;
      forall i, j | 0 <= i < j < |all| ensures Less(all[i].oid, all[j].oid) {
        if i >= |a| {
          RowsBelow(last, i - |a| + 1, j - |a| + 1);
        } else if j >= |a| {
          AllRowsMembers(front, n, a[i]);
          var c, k :| 0 <= c < |front| && 1 <= k <= n && a[i] == Row(front[c], k);
          BeforeLess(front[c].base, last.base, [k], [j - |a| + 1]);
        }
      }
    }
  }

  lemma {:induction false} InsertLast(tree: Tree, e: Entry)
    requires forall d :: d in tree ==> Less(d.oid, e.oid)
    ensures Insert(tree, e) == tree + [e]
  {
    if tree != [] {
      var d := tree[0].oid;
      if Less(e.oid, d) {
        LessTransitive(e.oid, d, e.oid);
      }
      LessIrreflexive(e.oid);
      InsertLast(tree[1..], e);
    }
  }

  // Fills a tree column by column. Columns listed in key order leave exactly
  // their rows, one after the other.
  method Fill(columns: seq<Column>, interfaces: u32) returns (tree: Tree)
    requires Ordered(columns)
    ensures tree == AllRows(columns, interfaces)
  {
    tree := [];
    for c := 0 to |columns|
      invariant tree == AllRows(columns[..c], interfaces)
    {
      ghost var before := tree;
      for i: int := 0 to interfaces
        invariant tree == before + Rows(columns[c], i)
      {
        var e := Row(columns[c], i + 1);
        forall d | d in tree ensures Less(d.oid, e.oid) {
          RowAfterEarlier(columns, interfaces, c, i, d);
        }
        InsertLast(tree, e);
        tree := Insert(tree, e);
      }
      assert columns[..c + 1][..c] == columns[..c];
    }
    assert columns[..|columns|] == columns;
  }

  method Build(interfaces: u32) returns (tree: Tree)
    ensures tree == AllRows(COLUMNS, interfaces)
    ensures Sorted(tree)
  {
    ColumnsOrdered();
    AllRowsSorted(COLUMNS, interfaces);
    tree := Fill(COLUMNS, interfaces);
  }

  lemma RowAfterEarlier(columns: seq<Column>, n: u32, c: nat, i: nat, d: Entry)
    requires Ordered(columns) && c < |columns| && i < n
    requires d in AllRows(columns[..c], n) + Rows(columns[c], i)
    ensures Less(d.oid, Row(columns[c], i + 1).oid)
  {
    if d in AllRows(columns[..c], n) {
      AllRowsMembers(columns[..c], n, d);
      var b, k :| 0 <= b < c && 1 <= k <= n && d == Row(columns[..c][b], k);
      BeforeLess(columns[b].base, columns[c].base, [k], [i + 1]);
    } else {
      var k :| 0 <= k < i && Rows(columns[c], i)[k] == d;
      RowsBelow(columns[c], k + 1, i + 1);
    }
  }

  // ---- Walking a column ----------------------------------------------------------------------

  lemma {:induction false} AllRowsSplit(columns: seq<Column>, n: u32, c: nat)
    requires c < |columns|
    ensures AllRows(columns[..c], n) + Rows(columns[c], n) <= AllRows(columns, n)
  {
    hide Rows;
    var last := |columns| - 1;
    if c < last {
      AllRowsSplit(columns[..last], n, c);
      assert columns[..last][..c] == columns[..c];
      assert AllRows(columns[..last], n) <= AllRows(columns, n);
    }
  }

  // What lies above a column's own identifier starts with all its rows, in
  // interface order, before any row of another column.
  lemma RowsComeFirst(columns: seq<Column>, n: u32, c: nat)
    requires Ordered(columns) && c < |columns|
    ensures Rows(columns[c], n) <= Above(AllRows(columns, n), columns[c].base)
  {
    var base, rows := columns[c].base, Rows(columns[c], n);
    var before := AllRows(columns[..c], n);
    forall e | e in before ensures !Less(base, e.oid) {
      AllRowsMembers(columns[..c], n, e);
      var b, m :| 0 <= b < c && 1 <= m <= n && e == Row(columns[..c][b], m);
      RowBelowLaterColumn(columns[b], m, base);
    }
    forall e | e in rows ensures Less(base, e.oid) {
      var k :| 0 <= k < n && rows[k] == e;
      BaseBelowRow(columns[c], k + 1);
    }
    AllRowsSplit(columns, n, c);
    AboveStartsWith(AllRows(columns, n), before, rows, base);
  }

  lemma {:induction false} AboveStartsWith(tree: Tree, before: Tree, rows: Tree, oid: Oid)
    requires before + rows <= tree
    requires forall e :: e in before ==> !Less(oid, e.oid)
    requires forall e :: e in rows ==> Less(oid, e.oid)
    ensures rows <= Above(tree, oid)
  {
    if before != [] {
      assert tree[0] == before[0];
      assert (before + rows)[1..] == before[1..] + rows;
      AboveStartsWith(tree[1..], before[1..], rows, oid);
    } else if rows != [] {
      assert tree[0] == rows[0];
      assert before + rows == rows;
    }
  }

  lemma RowBelowLaterColumn(column: Column, m: u32, base: Oid)
    requires Before(column.base, base)
    ensures !Less(base, Row(column, m).oid)
  {
    BeforeLess(column.base, base, [m], []);
    assert base + [] == base;
    if Less(base, Row(column, m).oid) {
      LessTransitive(base, Row(column, m).oid, base);
      LessIrreflexive(base);
    }
  }

  lemma BaseBelowRow(column: Column, m: u32)
    ensures Less(column.base, Row(column, m).oid)
  {
    LessAfterPrefix(column.base, [], [m]);
    assert column.base + [] == column.base;
  }

  lemma ColumnRowsComeFirst(n: u32, c: nat)
    requires c < |COLUMNS|
    ensures Rows(COLUMNS[c], n) <= Above(AllRows(COLUMNS, n), COLUMNS[c].base)
  {
    ColumnsOrdered();
    RowsComeFirst(COLUMNS, n, c);
  }
}
