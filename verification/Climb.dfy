/**
 The parent climb of the class-based QoS decoder (nexus/src/collectors/qos.rs):
 from a class-map object up to the policy-map that encloses it.
 */
module Climb {
  import opened Options

  // An object of a service policy; `parent` 0 means none.
  datatype ObjInfo = ObjInfo(configIndex: int, otype: string, parent: int)
  type Objects = map<(int, int), ObjInfo>

  predicate IsPolicymap(objs: Objects, policy: int, obj: int) {
    (policy, obj) in objs && objs[(policy, obj)].otype == "policymap"
  }

  // ---- The unbounded chain --------------------------------------------------------

  // The object to climb to, if the climb goes on from `obj`.
  function Parent(objs: Objects, policy: int, obj: int): Option<int> {
    if (policy, obj) !in objs || IsPolicymap(objs, policy, obj) then None
    else
      var parent := objs[(policy, obj)].parent;
      if parent == 0 || parent == obj then None else Some(parent)
  }

  // The object k parents above `obj`.
  function Ancestor(objs: Objects, policy: int, obj: int, k: nat): Option<int> {
    if k == 0 then Some(obj)
    else
      var below :- Ancestor(objs, policy, obj, k - 1);
      Parent(objs, policy, below)
  }

  // Some ancestor-or-self, at any distance, is this policy-map.
  ghost predicate Encloses(objs: Objects, policy: int, obj: int, policymap: int) {
    IsPolicymap(objs, policy, policymap) && exists k: nat :: Ancestor(objs, policy, obj, k) == Some(policymap)
  }

  lemma {:induction false} AncestorsShorter(objs: Objects, policy: int, obj: int, k: nat, m: nat)
    requires m <= k && Ancestor(objs, policy, obj, k).Some?
    ensures Ancestor(objs, policy, obj, m).Some?
  {
    if m < k {
      AncestorsShorter(objs, policy, obj, k - 1, m);
    }
  }

  // The chain forgets how it came to an object.
  lemma {:induction false} AncestorsCompose(objs: Objects, policy: int, obj: int, i: nat, m: nat)
    requires Ancestor(objs, policy, obj, i).Some?
    ensures Ancestor(objs, policy, obj, i + m) == Ancestor(objs, policy, Ancestor(objs, policy, obj, i).value, m)
  {
    if m > 0 {
      AncestorsCompose(objs, policy, obj, i, m - 1);
    }
  }

  // A chain that reaches a policy-map stops there, so it never came back to an
  // object it had already passed.
  lemma NoRepeat(objs: Objects, policy: int, obj: int, k: nat, i: nat, j: nat)
    requires i < j <= k
    requires Ancestor(objs, policy, obj, k).Some? && IsPolicymap(objs, policy, Ancestor(objs, policy, obj, k).value)
    ensures Ancestor(objs, policy, obj, i) != Ancestor(objs, policy, obj, j)
  {
    hide Ancestor;
    AncestorsShorter(objs, policy, obj, k, i);
    AncestorsShorter(objs, policy, obj, k, j);
    if Ancestor(objs, policy, obj, i) == Ancestor(objs, policy, obj, j) {
      var again := i + (k - j);
      AncestorsCompose(objs, policy, obj, i, k - j);
      AncestorsCompose(objs, policy, obj, j, k - j);
      TopOfChain(objs, policy, obj, again);
      AncestorsShorter(objs, policy, obj, k, again + 1);
    }
  }

  lemma TopOfChain(objs: Objects, policy: int, obj: int, k: nat)
    requires Ancestor(objs, policy, obj, k).Some? && IsPolicymap(objs, policy, Ancestor(objs, policy, obj, k).value)
    ensures Ancestor(objs, policy, obj, k + 1).None?
  {
  }

  // A chain of objects, each naming the next one as its parent, that is neither none
  // nor itself, up to the first policy-map.
  predicate IsChain(objs: Objects, policy: int, chain: seq<int>) {
    && chain != []
    && (forall i, j :: 0 <= i && j == i + 1 < |chain| ==> Names(objs, policy, chain[i], chain[j]))
    && (policy, chain[|chain| - 1]) in objs && objs[(policy, chain[|chain| - 1])].otype == "policymap"
  }

  predicate Names(objs: Objects, policy: int, obj: int, parent: int) {
    && (policy, obj) in objs && objs[(policy, obj)].otype != "policymap"
    && objs[(policy, obj)].parent == parent && parent != 0 && parent != obj
  }

  // The enclosing policy-map is the one at the end of such a chain.
  lemma EnclosesIffChain(objs: Objects, policy: int, obj: int, policymap: int)
    ensures Encloses(objs, policy, obj, policymap) <==>
            exists chain :: IsChain(objs, policy, chain) && chain[0] == obj && chain[|chain| - 1] == policymap
  {
    if Encloses(objs, policy, obj, policymap) {
      var k: nat :| Ancestor(objs, policy, obj, k) == Some(policymap);
      forall i: nat | i <= k ensures Ancestor(objs, policy, obj, i).Some? {
        AncestorsShorter(objs, policy, obj, k, i);
      }
      var chain := seq(k + 1, i requires 0 <= i < k + 1 => Ancestor(objs, policy, obj, i).value);
      forall i, j | 0 <= i && j == i + 1 < |chain| ensures Names(objs, policy, chain[i], chain[j]) {
        assert Ancestor(objs, policy, obj, j) == Parent(objs, policy, chain[i]);
      }
      assert IsChain(objs, policy, chain);
    }
    if chain :| IsChain(objs, policy, chain) && chain[0] == obj && chain[|chain| - 1] == policymap {
      ChainClimbs(objs, policy, chain, |chain| - 1);
    }
  }

  lemma {:induction false} ChainClimbs(objs: Objects, policy: int, chain: seq<int>, i: nat)
    requires IsChain(objs, policy, chain) && i < |chain|
    ensures Ancestor(objs, policy, chain[0], i) == Some(chain[i])
  {
    if i > 0 {
      ChainClimbs(objs, policy, chain, i - 1);
    }
  }

  // ---- The pigeonhole --------------------------------------------------------------

  ghost function Passed(objs: Objects, policy: int, obj: int, k: nat): set<(int, int)> {
    set i: nat | i <= k && Ancestor(objs, policy, obj, i).Some? :: (policy, Ancestor(objs, policy, obj, i).value)
  }

  lemma {:induction false} PassedCount(objs: Objects, policy: int, obj: int, k: nat, n: nat)
    requires n <= k
    requires Ancestor(objs, policy, obj, k).Some? && IsPolicymap(objs, policy, Ancestor(objs, policy, obj, k).value)
    ensures |Passed(objs, policy, obj, n)| == n + 1
  {
    AncestorsShorter(objs, policy, obj, k, n);
    var top := (policy, Ancestor(objs, policy, obj, n).value);
    if n == 0 {
      assert Passed(objs, policy, obj, 0) == {top};
    } else {
      PassedCount(objs, policy, obj, k, n - 1);
      forall i: nat | i < n && Ancestor(objs, policy, obj, i).Some?
        ensures Ancestor(objs, policy, obj, i) != Ancestor(objs, policy, obj, n)
      {
        NoRepeat(objs, policy, obj, k, i, n);
      }
      assert Passed(objs, policy, obj, n) == Passed(objs, policy, obj, n - 1) + {top};
    }
  }

  lemma {:induction false} SubsetSmaller<T>(a: set<T>, b: set<T>)
    requires a <= b
    ensures |a| <= |b|
  {
    if a != {} {
      var x :| x in a;
      SubsetSmaller(a - {x}, b - {x});
    }
  }

  // A policy-map, if the chain has one, is fewer steps away than there are objects.
  lemma WithinReach(objs: Objects, policy: int, obj: int, k: nat)
    requires Ancestor(objs, policy, obj, k).Some? && IsPolicymap(objs, policy, Ancestor(objs, policy, obj, k).value)
    ensures k < |objs|
  {
    PassedCount(objs, policy, obj, k, k);
    forall p | p in Passed(objs, policy, obj, k) ensures p in objs.Keys {
      var i: nat :| i <= k && Ancestor(objs, policy, obj, i).Some? && p == (policy, Ancestor(objs, policy, obj, i).value);
      if i < k {
        AncestorsShorter(objs, policy, obj, k, i + 1);
      }
    }
    SubsetSmaller(Passed(objs, policy, obj, k), objs.Keys);
  }

  lemma EnclosingIsUnique(objs: Objects, policy: int, obj: int, p: int, q: int)
    requires Encloses(objs, policy, obj, p) && Encloses(objs, policy, obj, q)
    ensures p == q
  {
    var k: nat :| Ancestor(objs, policy, obj, k) == Some(p);
    var m: nat :| Ancestor(objs, policy, obj, m) == Some(q);
    if k < m {
      AncestorsShorter(objs, policy, obj, m, k + 1);
    } else if m < k {
      AncestorsShorter(objs, policy, obj, k, m + 1);
    }
  }

  // ---- The bounded climb ---------------------------------------------------------------

  function NameOf(objs: Objects, names: map<int, string>, policy: int, obj: int): string
    requires (policy, obj) in objs
  {
    var config := objs[(policy, obj)].configIndex;
    if config in names then names[config] else ""
  }

  // On any parent graph, cyclic ones included, the bounded loop finds the
  // enclosing policy-map whenever one exists at any distance, and otherwise
  // answers the empty name.
  method ResolvePolicymap(policy: int, obj: int, objs: Objects, names: map<int, string>) returns (name: string)
    ensures forall p :: Encloses(objs, policy, obj, p) ==> name == NameOf(objs, names, policy, p)
    ensures (forall p :: !Encloses(objs, policy, obj, p)) ==> name == ""
  {
    var current := obj;
    for i := 0 to |objs| + 1
      invariant Ancestor(objs, policy, obj, i) == Some(current)
      invariant forall j: nat :: j < i ==> !IsPolicymap(objs, policy, Ancestor(objs, policy, obj, j).GetOr(0)) ||
                                           Ancestor(objs, policy, obj, j).None?
    {
      if (policy, current) !in objs {
        NothingEncloses(objs, policy, obj, i);
        return "";
      }
      var info := objs[(policy, current)];
      if info.otype == "policymap" {
        forall p | Encloses(objs, policy, obj, p) ensures p == current {
          EnclosingIsUnique(objs, policy, obj, p, current);
        }
        return NameOf(objs, names, policy, current);
      }
      if info.parent == 0 || info.parent == current {
        NothingEncloses(objs, policy, obj, i);
        return "";
      }
      current := info.parent;
    }
    forall p ensures !Encloses(objs, policy, obj, p) {
      if Encloses(objs, policy, obj, p) {
        var k: nat :| Ancestor(objs, policy, obj, k) == Some(p);
        WithinReach(objs, policy, obj, k);
      }
    }
    name := "";
  }

  // The chain ends at step i without a policy-map.
  lemma NothingEncloses(objs: Objects, policy: int, obj: int, i: nat)
    requires Ancestor(objs, policy, obj, i).Some?
    requires var top := Ancestor(objs, policy, obj, i).value;
      Parent(objs, policy, top).None? && !IsPolicymap(objs, policy, top)
    requires forall j: nat :: j < i ==> !IsPolicymap(objs, policy, Ancestor(objs, policy, obj, j).GetOr(0)) ||
                                        Ancestor(objs, policy, obj, j).None?
    ensures forall p :: !Encloses(objs, policy, obj, p)
  {
    forall p ensures !Encloses(objs, policy, obj, p) {
      if Encloses(objs, policy, obj, p) {
        var k: nat :| Ancestor(objs, policy, obj, k) == Some(p);
        if k > i {
          AncestorsShorter(objs, policy, obj, k, i + 1);
        }
      }
    }
  }
}
