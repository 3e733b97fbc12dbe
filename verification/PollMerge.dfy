/**
 How the poller merges the tables of one device into statistics per interface
 (nexus/src/collectors/poller.rs): the first writer of a column wins.
 */
module PollMerge {
  import opened Options
  import opened Snmp
  import opened Sorting

  type Stats = map<int, map<string, Scalar>>

  // Interface numbers are cast to 32 bits and wrap.
  function AsI32(n: int): int {
    var m := n % 0x1_0000_0000;
    if m >= 0x8000_0000 then m - 0x1_0000_0000 else m
  }

  // A number that fits stays; any other lands 2^32 away from itself, some whole number
  // of times.
  lemma WrapsTo32(n: int)
    ensures -0x8000_0000 <= AsI32(n) <= 0x7fff_ffff && (n - AsI32(n)) % 0x1_0000_0000 == 0
    ensures -0x8000_0000 <= n <= 0x7fff_ffff ==> AsI32(n) == n
  {
  }

  predicate About(row: Row, i: int) {
    Index(row, "ifIndex").Some? && AsI32(Index(row, "ifIndex").value) == i
  }

  function Value(stats: Stats, i: int, column: string): Option<Scalar> {
    if i in stats && column in stats[i] then Some(stats[i][column]) else None
  }

  // What the rows say about a column of an interface, the first row first.
  function FirstWritten(rows: Table, i: int, column: string): Option<Scalar> {
    if rows == [] then None
    else
      var before := FirstWritten(rows[..|rows| - 1], i, column);
      var row := rows[|rows| - 1];
      if before.Some? then before
      else if About(row, i) && column in row.objects then Some(row.objects[column])
      else None
  }

  lemma {:induction false} FirstWriterWins(rows: Table, j: nat, i: int, column: string)
    requires j < |rows| && About(rows[j], i) && column in rows[j].objects
    requires forall h :: 0 <= h < j ==> !(About(rows[h], i) && column in rows[h].objects)
    ensures FirstWritten(rows, i, column) == Some(rows[j].objects[column])
  {
    var front := rows[..|rows| - 1];
    if j < |front| {
      FirstWriterWins(front, j, i, column);
    } else if FirstWritten(front, i, column).Some? {
      SomeoneWrote(front, i, column);
    }
  }

  lemma {:induction false} SomeoneWrote(rows: Table, i: int, column: string)
    requires FirstWritten(rows, i, column).Some?
    ensures exists h :: 0 <= h < |rows| && About(rows[h], i) && column in rows[h].objects
  {
    var front := rows[..|rows| - 1];
    if FirstWritten(front, i, column).Some? {
      SomeoneWrote(front, i, column);
      var h :| 0 <= h < |front| && About(front[h], i) && column in front[h].objects;
      assert rows[h] == front[h];
    } else {
      assert About(rows[|rows| - 1], i);
    }
  }

  ghost predicate RightKeys(stats: Stats, rows: Table, r: Stats) {
    forall i :: i in r <==> i in stats || exists row :: row in rows && About(row, i)
  }

  ghost predicate RightValues(stats: Stats, rows: Table, r: Stats) {
    forall i, c :: Value(r, i, c) == if Value(stats, i, c).Some? then Value(stats, i, c) else FirstWritten(rows, i, c)
  }

  ghost predicate Merged(stats: Stats, rows: Table, r: Stats) {
    RightKeys(stats, rows, r) && RightValues(stats, rows, r)
  }

  method MergeQueryResult(stats: Stats, rows: Table) returns (r: Stats)
    ensures Merged(stats, rows, r)
  {
    r := stats;
    for n := 0 to |rows|
      invariant Merged(stats, rows[..n], r)
    {
      ghost var was := r;
      if Index(rows[n], "ifIndex").Some? {
        var i := AsI32(Index(rows[n], "ifIndex").value);
        var mine := if i in r then r[i] else map[];
        mine := FillIn(mine, rows[n].objects);
        r := r[i := mine];
      }
      MergedRow(stats, rows[..n], rows[n], was);
      assert rows[..n + 1] == rows[..n] + [rows[n]];
    }
    assert rows[..|rows|] == rows;
  }

  // Adds the objects that are not there yet, in the order of the object map.
  method FillIn(mine: map<string, Scalar>, objects: map<string, Scalar>) returns (r: map<string, Scalar>)
    ensures r == objects + mine
  {
    r := mine;
    var rest := objects.Keys;
    while rest != {}
      invariant rest <= objects.Keys
      invariant r == (objects - rest) + mine
    {
      ghost var some := Member(rest);
      var c :| c in rest;
      if c !in r {
        r := r[c := objects[c]];
      }
      rest := rest - {c};
    }
  }

  function WithRow(was: Stats, row: Row): Stats {
    match Index(row, "ifIndex")
    case None => was
    case Some(n) => was[AsI32(n) := row.objects + (if AsI32(n) in was then was[AsI32(n)] else map[])]
  }

  lemma MergedRow(stats: Stats, rows: Table, row: Row, was: Stats)
    requires Merged(stats, rows, was)
    ensures Merged(stats, rows + [row], WithRow(was, row))
  {
    RightKeysStep(stats, rows, row, was);
    RightValuesStep(stats, rows, row, was);
  }

  lemma RightKeysStep(stats: Stats, rows: Table, row: Row, was: Stats)
    requires RightKeys(stats, rows, was)
    ensures RightKeys(stats, rows + [row], WithRow(was, row))
  {
    hide AsI32;
    forall i ensures i in WithRow(was, row) <==> i in stats || exists x :: x in rows + [row] && About(x, i) {
      if About(row, i) {
        assert row in rows + [row];
      }
    }
  }

  lemma RightValuesStep(stats: Stats, rows: Table, row: Row, was: Stats)
    requires RightValues(stats, rows, was)
    ensures RightValues(stats, rows + [row], WithRow(was, row))
  {
    hide AsI32;
    assert (rows + [row])[..|rows|] == rows;
    forall i, c
      ensures Value(WithRow(was, row), i, c) ==
              if Value(stats, i, c).Some? then Value(stats, i, c) else FirstWritten(rows + [row], i, c)
    {
      assert Value(was, i, c) == if Value(stats, i, c).Some? then Value(stats, i, c) else FirstWritten(rows, i, c);
    }
  }
}
