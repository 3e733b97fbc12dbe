/** Stable sorting by a comparison, and the order of strings. */
module Sorting {

  ghost predicate TotalPreorder<T(!new)>(le: (T, T) -> bool) {
    && (forall x, y :: le(x, y) || le(y, x))
    && (forall x, y, z :: le(x, y) && le(y, z) ==> le(x, z))
  }

  ghost predicate SortedBy<T>(s: seq<T>, le: (T, T) -> bool) {
    forall i, j :: 0 <= i < j < |s| ==> le(s[i], s[j])
  }

  // Inserts behind all elements that are not greater.
  function InsertBy<T>(s: seq<T>, x: T, le: (T, T) -> bool): (r: seq<T>)
    ensures |r| == |s| + 1
    ensures multiset(r) == multiset(s) + multiset{x}
  {
    if s == [] || le(s[|s| - 1], x) then s + [x]
    else
      var front, last := s[..|s| - 1], s[|s| - 1];
      assert s == front + [last];
      InsertBy(front, x, le) + [last]
  }

  function SortBy<T>(s: seq<T>, le: (T, T) -> bool): (r: seq<T>)
    ensures |r| == |s|
    ensures multiset(r) == multiset(s)
  {
    if s == [] then []
    else
      assert s == s[..|s| - 1] + [s[|s| - 1]];
      InsertBy(SortBy(s[..|s| - 1], le), s[|s| - 1], le)
  }

  lemma InsertedElements<T>(s: seq<T>, x: T, le: (T, T) -> bool, i: nat)
    requires i <= |s|
    ensures InsertBy(s, x, le)[i] == x || InsertBy(s, x, le)[i] in s
  {
    assert InsertBy(s, x, le)[i] in multiset(InsertBy(s, x, le));
  }

  lemma {:induction false} InsertBySorted<T(!new)>(s: seq<T>, x: T, le: (T, T) -> bool)
    requires TotalPreorder(le) && SortedBy(s, le)
    ensures SortedBy(InsertBy(s, x, le), le)
  {
    if s != [] && !le(s[|s| - 1], x) {
      var front, last := s[..|s| - 1], s[|s| - 1];
      InsertBySorted(front, x, le);
      var r := InsertBy(front, x, le);
      forall i | 0 <= i < |r| ensures le(r[i], last) {
        InsertedElements(front, x, le, i);
      }
    } else if s != [] {
      forall i | 0 <= i < |s| ensures le(s[i], x) {
        assert i < |s| - 1 ==> le(s[i], s[|s| - 1]);
      }
    }
  }

  lemma {:induction false} SortBySorted<T(!new)>(s: seq<T>, le: (T, T) -> bool)
    requires TotalPreorder(le)
    ensures SortedBy(SortBy(s, le), le)
  {
    if s != [] {
      SortBySorted(s[..|s| - 1], le);
      InsertBySorted(SortBy(s[..|s| - 1], le), s[|s| - 1], le);
    }
  }

  // ---- Stability ------------------------------------------------------------------

  // The elements of s that tie with k, in order.
  function Ties<T>(s: seq<T>, k: T, le: (T, T) -> bool): seq<T> {
    if s == [] then []
    else
      var last := s[|s| - 1];
      Ties(s[..|s| - 1], k, le) + (if le(last, k) && le(k, last) then [last] else [])
  }

  lemma {:induction false} InsertByTies<T(!new)>(s: seq<T>, x: T, k: T, le: (T, T) -> bool)
    requires TotalPreorder(le)
    ensures Ties(InsertBy(s, x, le), k, le) == Ties(s + [x], k, le)
  {
    assert (s + [x])[..|s|] == s;
    if s != [] && !le(s[|s| - 1], x) {
      var front, last := s[..|s| - 1], s[|s| - 1];
      InsertByTies(front, x, k, le);
      assert (front + [x])[..|front|] == front;
      assert (InsertBy(front, x, le) + [last])[..|front| + 1] == InsertBy(front, x, le);
    }
  }

  lemma {:induction false} SortByStable<T(!new)>(s: seq<T>, k: T, le: (T, T) -> bool)
    requires TotalPreorder(le)
    ensures Ties(SortBy(s, le), k, le) == Ties(s, k, le)
  {
    if s != [] {
      var front, last := s[..|s| - 1], s[|s| - 1];
      SortByStable(front, k, le);
      InsertByTies(SortBy(front, le), last, k, le);
      assert (SortBy(front, le) + [last])[..|front|] == SortBy(front, le);
    }
  }

  lemma LastIsGreatest<T(!new)>(s: seq<T>, x: T, le: (T, T) -> bool)
    requires TotalPreorder(le) && SortedBy(s, le) && x in s
    ensures le(x, s[|s| - 1])
  {
    var i :| 0 <= i < |s| && s[i] == x;
    assert le(x, x);
  }

  lemma WithoutLast<T>(s: seq<T>)
    requires s != []
    ensures multiset(s[..|s| - 1]) == multiset(s) - multiset{s[|s| - 1]}
  {
    assert s == s[..|s| - 1] + [s[|s| - 1]];
  }

  lemma SameMultiset<T>(a: seq<T>, b: seq<T>, x: T)
    requires multiset(a) == multiset(b)
    ensures |a| == |b| && (x in a <==> x in b)
  {
    assert |a| == |multiset(a)| == |multiset(b)| == |b|;
    assert x in a <==> x in multiset(a);
  }

  ghost predicate OnlyEqualTie<T(!new)>(s: seq<T>, le: (T, T) -> bool) {
    forall x, y :: x in s && y in s && le(x, y) && le(y, x) ==> x == y
  }

  lemma LastsAgree<T(!new)>(a: seq<T>, b: seq<T>, le: (T, T) -> bool)
    requires TotalPreorder(le) && SortedBy(a, le) && SortedBy(b, le) && multiset(a) == multiset(b) && a != []
    requires OnlyEqualTie(a, le)
    ensures b != [] && a[|a| - 1] == b[|b| - 1]
  {
    SameMultiset(a, b, a[|a| - 1]);
    SameMultiset(a, b, b[|b| - 1]);
    hide TotalPreorder, SortedBy;
    LastIsGreatest(a, b[|b| - 1], le);
    LastIsGreatest(b, a[|a| - 1], le);
  }

  lemma FrontSorted<T(!new)>(s: seq<T>, le: (T, T) -> bool)
    requires SortedBy(s, le) && s != []
    ensures SortedBy(s[..|s| - 1], le)
  {
  }

  // Two sorted sequences with the same elements are equal when only equal elements tie.
  lemma {:induction false} SortedUnique<T(!new)>(a: seq<T>, b: seq<T>, le: (T, T) -> bool)
    requires TotalPreorder(le) && SortedBy(a, le) && SortedBy(b, le) && multiset(a) == multiset(b)
    requires OnlyEqualTie(a, le)
    ensures a == b
  {
    hide *;
    if a == [] {
      assert |multiset(b)| == 0;
    } else {
      LastsAgree(a, b, le);
      FrontSorted(a, le);
      FrontSorted(b, le);
      FrontTies(a, le);
      WithoutLast(a);
      WithoutLast(b);
      SortedUnique(a[..|a| - 1], b[..|b| - 1], le);
      assert a == a[..|a| - 1] + [a[|a| - 1]] && b == b[..|b| - 1] + [b[|b| - 1]];
    }
  }

  lemma FrontTies<T(!new)>(s: seq<T>, le: (T, T) -> bool)
    requires OnlyEqualTie(s, le) && s != []
    ensures OnlyEqualTie(s[..|s| - 1], le)
  {
  }

  // ---- The keys of a map in ascending order --------------------------------------

  ghost predicate Increasing(s: seq<int>) {
    forall i, j :: 0 <= i < j < |s| ==> s[i] < s[j]
  }

  ghost predicate Ascending(s: seq<int>, keys: set<int>) {
    Increasing(s) && forall k :: k in s <==> k in keys
  }

  predicate IntLe(a: int, b: int) {
    a <= b
  }

  lemma OnceEach<T>(s: seq<T>, keys: set<T>, i: nat, j: nat)
    requires multiset(s) == multiset(keys) && i < j < |s|
    ensures s[i] != s[j]
  {
    assert s == s[..j] + [s[j]] + s[j + 1..];
    assert multiset(s)[s[j]] >= multiset(s[..j])[s[j]] + 1;
    assert s[..j][i] == s[i];
    assert s[i] in multiset(s[..j]);
  }

  lemma {:induction false} DistinctMultiset<T>(s: seq<T>)
    requires forall i, j :: 0 <= i < j < |s| ==> s[i] != s[j]
    ensures multiset(s) == multiset(set x | x in s)
  {
    if s != [] {
      var front, last := s[..|s| - 1], s[|s| - 1];
      assert s == front + [last];
      DistinctMultiset(front);
      assert (set x | x in s) == (set x | x in front) + {last};
    }
  }

  // Keys collected in any order, then sorted.
  method SortedKeys(keys: set<int>) returns (order: seq<int>)
    ensures Ascending(order, keys)
  {
    var collected := Collected(keys);
    order := SortBy(collected, IntLe);
    SortBySorted(collected, IntLe);
    SortedOnceEach(order, keys);
  }

  lemma Member<T>(s: set<T>) returns (x: T)
    requires s != {}
    ensures x in s
  {
    x :| x in s;
  }

  method Collected(keys: set<int>) returns (list: seq<int>)
    ensures multiset(list) == multiset(keys)
  {
    var rest := keys;
    list := [];
    while rest != {}
      invariant rest <= keys && multiset(list) == multiset(keys - rest)
    {
      ghost var some := Member(rest);
      var k: int :| k in rest;
      assert keys - (rest - {k}) == (keys - rest) + {k};
      rest := rest - {k};
      list := list + [k];
    }
    assert keys - rest == keys;
  }

  lemma SortedOnceEach(order: seq<int>, keys: set<int>)
    requires SortedBy(order, IntLe) && multiset(order) == multiset(keys)
    ensures Ascending(order, keys)
  {
    forall i, j | 0 <= i < j < |order| ensures order[i] < order[j] {
      OnceEach(order, keys, i, j);
      assert IntLe(order[i], order[j]);
    }
    assert forall k :: k in order <==> k in multiset(order);
  }

  // ---- Stable sorting of increasing numbers --------------------------------------

  // Sorted, and ties in increasing order.
  ghost predicate ByPosition(s: seq<int>, le: (int, int) -> bool) {
    forall i, j :: 0 <= i < j < |s| ==> le(s[i], s[j]) && (le(s[j], s[i]) ==> s[i] < s[j])
  }

  ghost predicate AllBelow(s: seq<int>, x: int) {
    forall i :: 0 <= i < |s| ==> s[i] < x
  }

  // Every element of r is x or an element of s.
  ghost predicate Among(r: seq<int>, s: seq<int>, x: int) {
    forall i :: 0 <= i < |r| ==> r[i] == x || exists j :: 0 <= j < |s| && s[j] == r[i]
  }

  lemma InsertByAmong(s: seq<int>, x: int, le: (int, int) -> bool)
    ensures Among(InsertBy(s, x, le), s, x)
  {
    var r := InsertBy(s, x, le);
    forall i | 0 <= i < |r| ensures r[i] == x || exists j :: 0 <= j < |s| && s[j] == r[i] {
      assert r[i] in multiset(r);
      assert r[i] == x || r[i] in s;
    }
  }

  lemma {:induction false} InsertByPosition(s: seq<int>, x: int, le: (int, int) -> bool)
    requires TotalPreorder(le) && ByPosition(s, le) && AllBelow(s, x)
    ensures ByPosition(InsertBy(s, x, le), le)
  {
    if s != [] && !le(s[|s| - 1], x) {
      var front, last := s[..|s| - 1], s[|s| - 1];
      InsertByPosition(front, x, le);
      InsertByAmong(front, x, le);
    } else if s != [] {
      forall i | 0 <= i < |s| ensures le(s[i], x) {
        assert i < |s| - 1 ==> le(s[i], s[|s| - 1]);
      }
    }
  }

  lemma {:induction false} SortByPosition(s: seq<int>, le: (int, int) -> bool)
    requires TotalPreorder(le) && Increasing(s)
    ensures ByPosition(SortBy(s, le), le)
  {
    if s != [] {
      var front, last := s[..|s| - 1], s[|s| - 1];
      SortByPosition(front, le);
      var sorted := SortBy(front, le);
      forall i | 0 <= i < |sorted| ensures sorted[i] < last {
        assert sorted[i] in multiset(sorted);
        assert sorted[i] in front;
      }
      InsertByPosition(sorted, last, le);
    }
  }

  // ---- Strings ----------------------------------------------------------------------

  // Lexicographic by character, a prefix first.
  predicate StringLe(a: string, b: string) {
    a == "" || (b != "" && (a[0] < b[0] || (a[0] == b[0] && StringLe(a[1..], b[1..]))))
  }

  lemma {:induction false} StringLeTotal(a: string, b: string)
    ensures StringLe(a, b) || StringLe(b, a)
    ensures StringLe(a, b) && StringLe(b, a) ==> a == b
  {
    if a != "" && b != "" && a[0] == b[0] {
      StringLeTotal(a[1..], b[1..]);
      assert a == [a[0]] + a[1..] && b == [b[0]] + b[1..];
    }
  }

  lemma {:induction false} StringLeTransitive(a: string, b: string, c: string)
    requires StringLe(a, b) && StringLe(b, c)
    ensures StringLe(a, c)
  {
    if a != "" && a[0] == b[0] && b[0] == c[0] {
      StringLeTransitive(a[1..], b[1..], c[1..]);
    }
  }

  // Where two strings first differ, inside both, the first has the smaller character.
  predicate DiffersBelow(a: string, b: string, k: nat) {
    k < |a| && k < |b| && a[..k] == b[..k] && a[k] < b[k]
  }

  // A prefix comes first, else the smaller character where the strings differ.
  ghost predicate Alphabetical(a: string, b: string) {
    a <= b || exists k: nat :: DiffersBelow(a, b, k)
  }

  lemma SameHead(a: string, b: string)
    requires a != "" && b != "" && a[0] == b[0]
    ensures Alphabetical(a, b) <==> Alphabetical(a[1..], b[1..])
  {
    assert a == [a[0]] + a[1..] && b == [b[0]] + b[1..];
    if k: nat :| DiffersBelow(a[1..], b[1..], k) {
      assert DiffersBelow(a, b, k + 1);
    }
    if k: nat :| DiffersBelow(a, b, k) {
      assert DiffersBelow(a[1..], b[1..], k - 1);
    }
  }

  lemma {:induction false} StringLeIs(a: string, b: string)
    ensures StringLe(a, b) <==> Alphabetical(a, b)
  {
    if a != "" && b != "" {
      if a[0] == b[0] {
        StringLeIs(a[1..], b[1..]);
        SameHead(a, b);
        hide Alphabetical;
      } else if a[0] < b[0] {
        assert DiffersBelow(a, b, 0);
      } else {
        forall k: nat ensures !DiffersBelow(a, b, k) {
          assert 0 < k < |a| && k < |b| ==> a[..k][0] == a[0] && b[..k][0] == b[0];
        }
      }
    }
  }

  lemma StringLePreorder()
    ensures TotalPreorder(StringLe)
  {
    forall x: string, y: string ensures StringLe(x, y) || StringLe(y, x) {
      StringLeTotal(x, y);
    }
    forall x: string, y: string, z: string | StringLe(x, y) && StringLe(y, z) ensures StringLe(x, z) {
      StringLeTransitive(x, y, z);
    }
  }
}
