/** Dense identifier maps: distinct ids in order of first appearance, numbered 0..count-1,
    and the inverse map from number back to id. */
module Ids {

  /** No element occurs twice. */
  predicate Distinct<T(==)>(s: seq<T>)
  {
    forall i, j :: 0 <= i < j < |s| ==> s[i] != s[j]
  }

  /** Different keys have different values. */
  predicate Injective<K, V(==)>(m: map<K, V>)
  {
    forall a, b :: a in m && b in m && a != b ==> m[a] != m[b]
  }

  /** The distinct values of `s` in order of first appearance, as `Series.unique` returns them. */
  function Unique<T(==)>(s: seq<T>): seq<T>
  {
    if s == [] then []
    else
      var u := Unique(s[..|s| - 1]);
      if s[|s| - 1] in u then u else u + [s[|s| - 1]]
  }

  /** Unique lists every value of `s` exactly once and nothing else. */
  lemma {:induction false} UniqueBasics<T>(s: seq<T>)
    ensures Distinct(Unique(s))
    ensures forall i :: 0 <= i < |s| ==> s[i] in Unique(s)
    ensures forall i :: 0 <= i < |Unique(s)| ==> Unique(s)[i] in s
    ensures |Unique(s)| <= |s|
  {
    if s != [] {
      var init := s[..|s| - 1];
      UniqueBasics(init);
      assert s == init + [s[|s| - 1]];
    }
  }

  /** Unique of a prefix is a prefix of Unique: ids never change rank as more rows arrive. */
  lemma {:induction false} UniquePrefix<T>(s: seq<T>, i: nat)
    requires i <= |s|
    ensures Unique(s[..i]) <= Unique(s)
    decreases |s|
  {
    if i == |s| {
      assert s[..i] == s;
    } else {
      var init := s[..|s| - 1];
      UniquePrefix(init, i);
      assert init[..i] == s[..i];
    }
  }

  /** The id first seen at position `i` sits in Unique right after the distinct ids seen before `i`. */
  lemma UniqueRank<T>(s: seq<T>, i: nat)
    requires i < |s| && s[i] !in s[..i]
    ensures |Unique(s[..i])| < |Unique(s)|
    ensures Unique(s)[|Unique(s[..i])|] == s[i]
  {
    var t := s[..i + 1];
    assert t[..|t| - 1] == s[..i];
    UniqueBasics(s[..i]);
    assert Unique(t) == Unique(s[..i]) + [s[i]];
    UniquePrefix(s, i + 1);
  }

  /** `{x: i for i, x in enumerate(u)}`: a later duplicate would overwrite an earlier one. */
  function Enumerate<T(==)>(u: seq<T>): map<T, nat>
  {
    if u == [] then map[] else Enumerate(u[..|u| - 1])[u[|u| - 1] := |u| - 1]
  }

  /** Every element is a key, and every key maps to a position that holds it. */
  lemma {:induction false} EnumerateBasics<T>(u: seq<T>)
    ensures forall i :: 0 <= i < |u| ==> u[i] in Enumerate(u)
    ensures forall x :: x in Enumerate(u) ==> Enumerate(u)[x] < |u| && u[Enumerate(u)[x]] == x
  {
    if u != [] {
      var init := u[..|u| - 1];
      EnumerateBasics(init);
      assert u == init + [u[|u| - 1]];
    }
  }

  /** `{i: x for x, i in m.items()}`: the inverse of an injective map. */
  function Invert<K, V(==)>(m: map<K, V>): (r: map<V, K>)
    requires Injective(m)
    ensures forall k :: k in m ==> m[k] in r && r[m[k]] == k
    ensures forall v :: v in r ==> r[v] in m && m[r[v]] == v
  {
    map k | k in m :: m[k] := k
  }

  /** The index map built for a column of ids: first-appearance order, numbered from 0. */
  function IndexMap<T(==)>(s: seq<T>): map<T, nat>
  {
    Enumerate(Unique(s))
  }

  /** Every id of the column is mapped, and only those; the map is injective, and its values are
      exactly 0..count-1, index `k` going to the `k`-th distinct id. */
  lemma IndexMapDense<T>(s: seq<T>)
    ensures forall x :: x in IndexMap(s) <==> x in s
    ensures Injective(IndexMap(s))
    ensures |IndexMap(s)| == |Unique(s)|
    ensures forall x :: x in IndexMap(s) ==> IndexMap(s)[x] < |Unique(s)|
    ensures forall k :: 0 <= k < |Unique(s)| ==> Unique(s)[k] in IndexMap(s) && IndexMap(s)[Unique(s)[k]] == k
  {
    var u := Unique(s);
    var m := IndexMap(s);
    UniqueBasics(s);
    EnumerateBasics(u);
    forall k: nat | k < |u|
      ensures k in m.Values
    {
      EnumerateAt(u, k);
      assert m[u[k]] == k;
    }
    assert |m| == |m.Values| by {
      InjectiveSize(m);
    }
    assert m.Values == Range(|u|);
  }

  /** In the map of a distinct sequence, each element maps to its own position. */
  lemma EnumerateAt<T>(u: seq<T>, k: nat)
    requires Distinct(u) && k < |u|
    ensures u[k] in Enumerate(u) && Enumerate(u)[u[k]] == k
  {
    EnumerateBasics(u);
  }

  /** An injective map has as many values as keys. */
  lemma {:induction false} InjectiveSize<K, V>(m: map<K, V>)
    requires Injective(m)
    ensures |m.Values| == |m|
    decreases |m|
  {
    if |m| > 0 {
      var k :| k in m;
      var m' := m - {k};
      assert Injective(m');
      InjectiveSize(m');
      forall v | v in m.Values
        ensures v in m'.Values + {m[k]}
      {
        var a :| a in m && m[a] == v;
        if a != k {
          assert a in m' && m'[a] == v;
        }
      }
      assert m.Values == m'.Values + {m[k]};
      assert m[k] !in m'.Values;
    }
  }

  /** The indices 0..n-1. */
  function Range(n: nat): (r: set<nat>)
    ensures forall k :: k in r <==> 0 <= k < n
    ensures |r| == n
  {
    if n == 0 then {} else Range(n - 1) + {n - 1}
  }

  /** The id first seen at row `i` gets the number of distinct ids seen in the rows before it. */
  lemma IndexMapFirstOccurrence<T>(s: seq<T>, i: nat)
    requires i < |s| && s[i] !in s[..i]
    ensures s[i] in IndexMap(s) && IndexMap(s)[s[i]] == |Unique(s[..i])|
  {
    UniqueRank(s, i);
    UniqueBasics(s);
    EnumerateAt(Unique(s), |Unique(s[..i])|);
  }

  /** Indices follow first appearance: of two first occurrences, the earlier one has the smaller index. */
  lemma IndexMapOrder<T>(s: seq<T>, i: nat, j: nat)
    requires i < |s| && s[i] !in s[..i]
    requires j < |s| && s[j] !in s[..j]
    ensures s[i] in IndexMap(s) && s[j] in IndexMap(s)
    ensures IndexMap(s)[s[i]] < IndexMap(s)[s[j]] <==> i < j
  {
    IndexMapFirstOccurrence(s, i);
    IndexMapFirstOccurrence(s, j);
    if i < j {
      PrefixGrows(s, i, j);
    } else if j < i {
      PrefixGrows(s, j, i);
    }
  }

  /** Between a first occurrence at `i` and any later row `j`, Unique has strictly grown. */
  lemma PrefixGrows<T>(s: seq<T>, i: nat, j: nat)
    requires i < j <= |s| && s[i] !in s[..i]
    ensures |Unique(s[..i])| < |Unique(s[..j])|
  {
    var t := s[..j];
    assert t[..i] == s[..i] && t[i] == s[i];
    UniqueRank(t, i);
  }

  /** The reverse map is the exact inverse of the index map: its keys are exactly 0..count-1, and
      id to index to id, and index to id to index, are both the identity. */
  lemma IndexMapInverse<T>(s: seq<T>)
    ensures Injective(IndexMap(s))
    ensures forall i: nat :: i in Invert(IndexMap(s)) <==> i < |IndexMap(s)|
    ensures forall i :: i in Invert(IndexMap(s)) ==>
      Invert(IndexMap(s))[i] in IndexMap(s) && IndexMap(s)[Invert(IndexMap(s))[i]] == i
    ensures forall x :: x in IndexMap(s) ==>
      IndexMap(s)[x] < |IndexMap(s)| && Invert(IndexMap(s))[IndexMap(s)[x]] == x
  {
    IndexMapDense(s);
    var u := Unique(s);
    forall i: nat | i < |u|
      ensures i in Invert(IndexMap(s))
    {
      assert IndexMap(s)[u[i]] == i;
    }
  }
}
