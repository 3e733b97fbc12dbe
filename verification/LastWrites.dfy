/**
 The table-indexing loop that the decoders share: rows are visited in order and
 a later row overwrites what an earlier one stored under the same key.
 */
module LastWrites {
  import opened Options
  import opened Snmp

  function Indexed<K, V>(rows: Table, entry: Row -> Option<(K, V)>): map<K, V> {
    if rows == [] then map[]
    else
      var before := Indexed(rows[..|rows| - 1], entry);
      match entry(rows[|rows| - 1])
      case Some((k, v)) => before[k := v]
      case None => before
  }

  function Written<K, V>(m: map<K, V>, e: Option<(K, V)>): map<K, V> {
    match e
    case Some((k, v)) => m[k := v]
    case None => m
  }

  // The entry of one more row, written over what was there before all rows.
  lemma IndexedSnoc<K, V>(was: map<K, V>, rows: Table, row: Row, entry: Row -> Option<(K, V)>)
    ensures was + Indexed(rows + [row], entry) == Written(was + Indexed(rows, entry), entry(row))
  {
    assert (rows + [row])[..|rows|] == rows;
  }

  method BuildIndex<K, V>(rows: Table, entry: Row -> Option<(K, V)>) returns (m: map<K, V>)
    ensures m == Indexed(rows, entry)
  {
    m := map[];
    for i := 0 to |rows|
      invariant m == Indexed(rows[..i], entry)
    {
      assert rows[..i + 1][..i] == rows[..i];
      match entry(rows[i]) {
        case Some((k, v)) => m := m[k := v];
        case None =>
      }
    }
    assert rows[..|rows|] == rows;
  }

  // Row i is the last one that stores something under k.
  ghost predicate LastWriter<K, V>(rows: Table, entry: Row -> Option<(K, V)>, k: K, i: nat) {
    && i < |rows| && entry(rows[i]).Some? && entry(rows[i]).value.0 == k
    && forall j :: i < j < |rows| && entry(rows[j]).Some? ==> entry(rows[j]).value.0 != k
  }

  lemma {:induction false} IndexedByLastWriter<K, V>(rows: Table, entry: Row -> Option<(K, V)>, k: K)
    ensures k in Indexed(rows, entry) <==> exists i: nat :: LastWriter(rows, entry, k, i)
    ensures forall i: nat :: LastWriter(rows, entry, k, i) ==> Indexed(rows, entry)[k] == entry(rows[i]).value.1
  {
    if rows != [] {
      var last := |rows| - 1;
      var front := rows[..last];
      IndexedByLastWriter(front, entry, k);
      var e := entry(rows[last]);
      if e.Some? && e.value.0 == k {
        assert LastWriter(rows, entry, k, last);
      } else {
        forall i: nat ensures LastWriter(rows, entry, k, i) <==> LastWriter(front, entry, k, i) {
          if i < last {
            assert front[i] == rows[i];
            assert forall j :: i < j < last ==> front[j] == rows[j];
          }
        }
      }
    }
  }

  // The row itself, searched from the end.
  function LastFor<K(==), V>(rows: Table, entry: Row -> Option<(K, V)>, k: K): Option<Row> {
    if rows == [] then None
    else
      var last := rows[|rows| - 1];
      if entry(last).Some? && entry(last).value.0 == k then Some(last) else LastFor(rows[..|rows| - 1], entry, k)
  }

  lemma {:induction false} IndexedByLastRow<K, V>(rows: Table, entry: Row -> Option<(K, V)>, k: K)
    ensures var row := LastFor(rows, entry, k);
      && (k in Indexed(rows, entry) <==> row.Some?)
      && (row.Some? ==> row.value in rows && entry(row.value) == Some((k, Indexed(rows, entry)[k])))
  {
    if rows != [] {
      var front := rows[..|rows| - 1];
      assert rows == front + [rows[|rows| - 1]];
      IndexedByLastRow(front, entry, k);
    }
  }

  // Row i is the last one whose index column holds k.
  ghost predicate LastAbout(rows: Table, column: string, k: int, i: nat) {
    i < |rows| && Index(rows[i], column) == Some(k) && forall j :: i < j < |rows| ==> Index(rows[j], column) != Some(k)
  }

  // Rows that do not write a key leave it as it was.
  lemma {:induction false} LaterRowsKeep<K, V>(rows: Table, entry: Row -> Option<(K, V)>, k: K, n: nat)
    requires n <= |rows|
    requires forall j :: n <= j < |rows| ==> entry(rows[j]).None? || entry(rows[j]).value.0 != k
    ensures k in Indexed(rows, entry) <==> k in Indexed(rows[..n], entry)
    ensures k in Indexed(rows, entry) ==> Indexed(rows, entry)[k] == Indexed(rows[..n], entry)[k]
  {
    if n < |rows| {
      var front := rows[..|rows| - 1];
      LaterRowsKeep(front, entry, k, n);
      assert front[..n] == rows[..n];
    } else {
      assert rows[..n] == rows;
    }
  }

  lemma IndexedGrows<K, V>(rows: Table, entry: Row -> Option<(K, V)>, n: nat)
    requires n < |rows|
    ensures var e := entry(rows[n]);
      Indexed(rows[..n + 1], entry) ==
      if e.Some? then Indexed(rows[..n], entry)[e.value.0 := e.value.1] else Indexed(rows[..n], entry)
  {
    assert rows[..n + 1][..n] == rows[..n];
  }
}
