/** Grouping a sequence by a key, as the tier list (eight fixed tier buckets)
    and the character page (one group per skill type) both do: each group is
    the subsequence of the elements carrying its key, in their original order. */
module Grouping {

  /** The elements of `s` whose key is `k`, in order. */
  function OfKey<T, K(==)>(s: seq<T>, key: T -> K, k: K): (r: seq<T>)
    ensures |r| <= |s|
  {
    if s == [] then []
    else OfKey(s[..|s| - 1], key, k) + (if key(s[|s| - 1]) == k then [s[|s| - 1]] else [])
  }

  /** The group of `k` holds exactly the elements of `s` whose key is `k`. */
  lemma {:induction false} OfKeyMembers<T, K>(s: seq<T>, key: T -> K, k: K, x: T)
    ensures x in OfKey(s, key, k) <==> x in s && key(x) == k
  {
    if s != [] {
      var init, last := s[..|s| - 1], s[|s| - 1];
      OfKeyMembers(init, key, k, x);
      assert s == init + [last];
    }
  }

  /** Appending one element extends exactly its own group. */
  lemma OfKeySnoc<T, K>(s: seq<T>, x: T, key: T -> K, k: K)
    ensures OfKey(s + [x], key, k) == OfKey(s, key, k) + (if key(x) == k then [x] else [])
  {
    assert (s + [x])[..|s + [x]| - 1] == s;
  }

  /** Growing a prefix by one element extends exactly that element's group. */
  lemma OfKeyTake<T, K>(s: seq<T>, i: nat, key: T -> K, k: K)
    requires i < |s|
    ensures OfKey(s[..i + 1], key, k) == OfKey(s[..i], key, k) + (if key(s[i]) == k then [s[i]] else [])
  {
    assert s[..i + 1] == s[..i] + [s[i]];
    OfKeySnoc(s[..i], s[i], key, k);
  }

  /** Prepending one element puts it at the front of its own group. */
  lemma {:induction false} OfKeyCons<T, K>(x: T, s: seq<T>, key: T -> K, k: K)
    ensures OfKey([x] + s, key, k) == (if key(x) == k then [x] else []) + OfKey(s, key, k)
    decreases |s|
  {
    if s == [] {
      assert [x] + s == [x];
      assert [x][..0] == [];
    } else {
      var init, last := s[..|s| - 1], s[|s| - 1];
      assert ([x] + s)[..|[x] + s| - 1] == [x] + init;
      OfKeyCons(x, init, key, k);
    }
  }

  predicate NoDuplicates<K(==)>(ks: seq<K>)
  {
    forall i, j :: 0 <= i < j < |ks| ==> ks[i] != ks[j]
  }

  /** The keys of `s` in the order of their first appearance, as a Python
      dictionary filled by `setdefault` remembers them. */
  function FirstSeen<T, K(==)>(s: seq<T>, key: T -> K): (ks: seq<K>)
    ensures NoDuplicates(ks)
  {
    if s == [] then []
    else
      var ks := FirstSeen(s[..|s| - 1], key);
      var x := s[|s| - 1];
      if key(x) in ks then ks else ks + [key(x)]
  }

  /** The keys listed are exactly the keys of the elements. */
  lemma {:induction false} FirstSeenMembers<T, K>(s: seq<T>, key: T -> K, k: K)
    ensures k in FirstSeen(s, key) <==> exists j :: 0 <= j < |s| && key(s[j]) == k
  {
    if s != [] {
      var init := s[..|s| - 1];
      FirstSeenMembers(init, key, k);
      if exists j :: 0 <= j < |init| && key(init[j]) == k {
        var j :| 0 <= j < |init| && key(init[j]) == k;
        assert s[j] == init[j];
      }
      if exists j :: 0 <= j < |s| && key(s[j]) == k {
        var j :| 0 <= j < |s| && key(s[j]) == k;
        if j < |init| {
          assert init[j] == s[j];
        }
      }
    }
  }

  /** Every element's key is listed. */
  lemma FirstSeenCovers<T, K>(s: seq<T>, key: T -> K)
    ensures forall j :: 0 <= j < |s| ==> key(s[j]) in FirstSeen(s, key)
  {
    forall j | 0 <= j < |s|
      ensures key(s[j]) in FirstSeen(s, key)
    {
      FirstSeenMembers(s, key, key(s[j]));
    }
  }

  /** Growing a prefix by one element adds its key at the end if it is new. */
  lemma FirstSeenTake<T, K>(s: seq<T>, i: nat, key: T -> K)
    requires i < |s|
    ensures var ks := FirstSeen(s[..i], key);
      FirstSeen(s[..i + 1], key) == if key(s[i]) in ks then ks else ks + [key(s[i])]
  {
    assert s[..i + 1][..i] == s[..i];
  }

  /** The dictionary `setdefault(key(x), []).append(x)` fills, one element at a
      time: a group for every key seen. */
  function Grouped<T, K(==)>(s: seq<T>, key: T -> K): (g: map<K, seq<T>>)
    ensures g.Keys == set k | k in FirstSeen(s, key)
  {
    if s == [] then map[]
    else
      var g := Grouped(s[..|s| - 1], key);
      var x := s[|s| - 1];
      g[key(x) := (if key(x) in g then g[key(x)] else []) + [x]]
  }

  /** Each group of `Grouped` holds exactly the elements of its key, in order. */
  lemma {:induction false} GroupedAreGroups<T, K>(s: seq<T>, key: T -> K, k: K)
    requires k in Grouped(s, key)
    ensures Grouped(s, key)[k] == OfKey(s, key, k)
  {
    var n := |s| - 1;
    var g := Grouped(s[..n], key);
    OfKeyTake(s, n, key, k);
    assert s[..n + 1] == s;
    if k in g {
      GroupedAreGroups(s[..n], key, k);
    } else {
      assert k == key(s[n]);
      EmptyWhenUnseen(s[..n], key, k);
    }
  }

  /** A key no element carries has an empty group. */
  lemma EmptyWhenUnseen<T, K>(s: seq<T>, key: T -> K, k: K)
    requires k !in FirstSeen(s, key)
    ensures OfKey(s, key, k) == []
  {
    var g := OfKey(s, key, k);
    if g != [] {
      OfKeyMembers(s, key, k, g[0]);
      var j :| 0 <= j < |s| && s[j] == g[0];
      FirstSeenMembers(s, key, k);
      assert false;
    }
  }

  /** One more element: its group is created if new, then extended. */
  lemma GroupedTake<T, K>(s: seq<T>, i: nat, key: T -> K, g: map<K, seq<T>>)
    requires i < |s| && g == Grouped(s[..i], key)
    ensures var g' := if key(s[i]) in g then g else g[key(s[i]) := []];
      g'[key(s[i]) := g'[key(s[i])] + [s[i]]] == Grouped(s[..i + 1], key)
  {
    assert s[..i + 1][..i] == s[..i];
  }

  /** Every group of `Grouped(s, key)` is the group of its key. */
  lemma GroupedHoldsGroups<T, K>(s: seq<T>, key: T -> K)
    ensures forall k :: k in Grouped(s, key) ==> Grouped(s, key)[k] == OfKey(s, key, k)
  {
    forall k | k in Grouped(s, key)
      ensures Grouped(s, key)[k] == OfKey(s, key, k)
    {
      GroupedAreGroups(s, key, k);
    }
  }

  /** The total size of the groups named by `ks`. */
  function GroupSizes<T, K(==)>(ks: seq<K>, s: seq<T>, key: T -> K): nat
  {
    if ks == [] then 0 else |OfKey(s, key, ks[0])| + GroupSizes(ks[1..], s, key)
  }

  /** How often `k` occurs in `ks`. */
  function Occurrences<K(==)>(ks: seq<K>, k: K): nat
  {
    if ks == [] then 0 else (if ks[0] == k then 1 else 0) + Occurrences(ks[1..], k)
  }

  lemma {:induction false} OccursOnce<K>(ks: seq<K>, k: K)
    requires NoDuplicates(ks) && k in ks
    ensures Occurrences(ks, k) == 1
  {
    if ks[0] == k {
      OccursNot(ks[1..], k);
    } else {
      OccursOnce(ks[1..], k);
    }
  }

  lemma {:induction false} OccursNot<K>(ks: seq<K>, k: K)
    requires k !in ks
    ensures Occurrences(ks, k) == 0
  {
    if ks != [] {
      OccursNot(ks[1..], k);
    }
  }

  lemma {:induction false} GroupSizesSnoc<T, K>(ks: seq<K>, s: seq<T>, x: T, key: T -> K)
    ensures GroupSizes(ks, s + [x], key) == GroupSizes(ks, s, key) + Occurrences(ks, key(x))
  {
    if ks != [] {
      OfKeySnoc(s, x, key, ks[0]);
      GroupSizesSnoc(ks[1..], s, x, key);
    }
  }

  /** When the keys `ks` are distinct and cover every element's key, the groups
      they name share out `s` exactly: their sizes add up to `|s|`, and (by the
      contract of `OfKey`) each element lies in the group of its own key only. */
  lemma {:induction false} Partition<T, K>(ks: seq<K>, s: seq<T>, key: T -> K)
    requires NoDuplicates(ks)
    requires forall j :: 0 <= j < |s| ==> key(s[j]) in ks
    ensures GroupSizes(ks, s, key) == |s|
  {
    if s == [] {
      EmptyGroups(ks, key);
    } else {
      var init, x := s[..|s| - 1], s[|s| - 1];
      assert s == init + [x];
      Partition(ks, init, key);
      GroupSizesSnoc(ks, init, x, key);
      OccursOnce(ks, key(x));
    }
  }

  lemma {:induction false} EmptyGroups<T, K>(ks: seq<K>, key: T -> K)
    ensures GroupSizes(ks, [], key) == 0
  {
    if ks != [] {
      EmptyGroups(ks[1..], key);
    }
  }
}
