/**
  Grouping a list by a key into an insertion-ordered dictionary of lists,
  as `grupos.setdefault(key, []).append(item)` does, and the list of all
  items after the first of each group, group by group.
 */
module Grouping {

  predicate Distinct<K(==,!new)>(ks: seq<K>) {
    forall i, j :: 0 <= i < j < |ks| ==> ks[i] != ks[j]
  }

  /** The dictionary's keys: each key once, in order of first appearance. */
  function KeysOf<R, K(==,!new)>(rs: seq<R>, key: R -> K): (ks: seq<K>)
    ensures Distinct(ks)
    ensures forall k :: k in ks <==> exists i :: 0 <= i < |rs| && key(rs[i]) == k
    decreases |rs|
  {
    if rs == [] then []
    else
      var n := |rs| - 1;
      var ks := KeysOf(rs[..n], key);
      assert forall i :: 0 <= i < n ==> rs[..n][i] == rs[i];
      if key(rs[n]) in ks then ks else ks + [key(rs[n])]
  }

  /** The list stored under `k`: the items with that key, in order. */
  function Group<R, K(==,!new)>(rs: seq<R>, key: R -> K, k: K): (g: seq<R>)
    ensures forall x :: x in g ==> x in rs && key(x) == k
    decreases |rs|
  {
    if rs == [] then []
    else
      var n := |rs| - 1;
      var g := Group(rs[..n], key, k);
      assert forall x :: x in rs[..n] ==> x in rs;
      g + (if key(rs[n]) == k then [rs[n]] else [])
  }

  /** `lista[1:]`. */
  function Tail<R>(g: seq<R>): seq<R> {
    if g == [] then [] else g[1..]
  }

  /** The items after the first of each group of `ks`, group by group. */
  function LaterOf<R, K(==,!new)>(rs: seq<R>, key: R -> K, ks: seq<K>): (r: seq<R>)
  {
    if ks == [] then []
    else Tail(Group(rs, key, ks[0])) + LaterOf(rs, key, ks[1..])
  }

  /** The later items are items of the list. */
  lemma {:induction false} LaterOfWithin<R, K(!new)>(rs: seq<R>, key: R -> K, ks: seq<K>)
    ensures forall x :: x in LaterOf(rs, key, ks) ==> x in rs
    decreases |ks|
  {
    if ks != [] {
      LaterOfWithin(rs, key, ks[1..]);
      var g := Group(rs, key, ks[0]);
      assert forall x :: x in Tail(g) ==> x in g;
    }
  }

  /** The items after the first of every group, in dictionary order. */
  function AllButFirst<R, K(==,!new)>(rs: seq<R>, key: R -> K): seq<R> {
    LaterOf(rs, key, KeysOf(rs, key))
  }

  /** A second definition: the items, in list order, whose key already
      appeared on an earlier item. */
  function LaterCopies<R, K(==,!new)>(rs: seq<R>, key: R -> K): (r: seq<R>)
    ensures forall x :: x in r ==> x in rs
    decreases |rs|
  {
    if rs == [] then []
    else
      var n := |rs| - 1;
      var prefix := LaterCopies(rs[..n], key);
      assert forall x :: x in rs[..n] ==> x in rs;
      prefix + (if key(rs[n]) in KeysOf(rs[..n], key) then [rs[n]] else [])
  }

  /** Appending an item only touches its own group and key. */
  lemma AppendItem<R, K(!new)>(rs: seq<R>, key: R -> K, r: R)
    ensures KeysOf(rs + [r], key) == KeysOf(rs, key) + (if key(r) in KeysOf(rs, key) then [] else [key(r)])
    ensures forall k :: Group(rs + [r], key, k) == Group(rs, key, k) + (if key(r) == k then [r] else [])
    ensures LaterCopies(rs + [r], key) == LaterCopies(rs, key) + (if key(r) in KeysOf(rs, key) then [r] else [])
  {
    assert (rs + [r])[..|rs|] == rs;
    assert (rs + [r])[|rs|] == r;
  }

  lemma GroupAppend<R, K(!new)>(rs: seq<R>, key: R -> K, r: R, k: K)
    ensures Group(rs + [r], key, k) == Group(rs, key, k) + (if key(r) == k then [r] else [])
  {
    assert (rs + [r])[..|rs|] == rs;
    assert (rs + [r])[|rs|] == r;
  }

  /** `keys` and `groups` are the dictionary built from `rs`: its keys in
      insertion order and each key's list. */
  ghost predicate IsGrouping<R, K(!new)>(rs: seq<R>, key: R -> K, keys: seq<K>, groups: map<K, seq<R>>) {
    && keys == KeysOf(rs, key)
    && (forall k :: k in groups <==> k in keys)
    && (forall k :: k in groups ==> groups[k] == Group(rs, key, k))
  }

  /** `grupos[k].append(r)`, the list created first when `k` is new. */
  function AddToGroup<R, K>(groups: map<K, seq<R>>, k: K, r: R): map<K, seq<R>> {
    groups[k := (if k in groups then groups[k] else []) + [r]]
  }

  /** One pass of the grouping loop keeps the dictionary equal to the
      grouping of the items seen so far. */
  lemma GroupingStep<R, K(!new)>(rs: seq<R>, key: R -> K, r: R, keys: seq<K>, groups: map<K, seq<R>>)
    requires IsGrouping(rs, key, keys, groups)
    ensures IsGrouping(rs + [r], key, if key(r) in groups then keys else keys + [key(r)], AddToGroup(groups, key(r), r))
  {
    var keys' := if key(r) in groups then keys else keys + [key(r)];
    var groups' := AddToGroup(groups, key(r), r);
    GroupNonEmpty(rs, key, key(r));
    KeysAppend(rs, key, r);
    assert keys' == KeysOf(rs + [r], key);
    forall k | k in groups' ensures groups'[k] == Group(rs + [r], key, k) {
      GroupAppend(rs, key, r, k);
    }
  }

  lemma KeysAppend<R, K(!new)>(rs: seq<R>, key: R -> K, r: R)
    ensures KeysOf(rs + [r], key) == KeysOf(rs, key) + (if key(r) in KeysOf(rs, key) then [] else [key(r)])
  {
    assert (rs + [r])[..|rs|] == rs;
    assert (rs + [r])[|rs|] == r;
  }

  /** An item after the first of the group of a listed key is among the later items. */
  lemma {:induction false} InLaterOf<R, K(!new)>(rs: seq<R>, key: R -> K, ks: seq<K>, j: nat, d: R)
    requires j < |ks| && d in Tail(Group(rs, key, ks[j]))
    ensures d in LaterOf(rs, key, ks)
    decreases j
  {
    if j > 0 {
      InLaterOf(rs, key, ks[1..], j - 1, d);
    }
  }

  /** A key has a non-empty group exactly when it is a key of the dictionary. */
  lemma {:induction false} GroupNonEmpty<R, K(!new)>(rs: seq<R>, key: R -> K, k: K)
    ensures Group(rs, key, k) != [] <==> k in KeysOf(rs, key)
    decreases |rs|
  {
    if rs != [] {
      var n := |rs| - 1;
      assert rs == rs[..n] + [rs[n]];
      AppendItem(rs[..n], key, rs[n]);
      GroupNonEmpty(rs[..n], key, k);
    }
  }

  lemma {:induction false} LaterOfSplit<R, K(!new)>(rs: seq<R>, key: R -> K, a: seq<K>, b: seq<K>)
    ensures LaterOf(rs, key, a + b) == LaterOf(rs, key, a) + LaterOf(rs, key, b)
    decreases |a|
  {
    if a == [] {
      assert [] + b == b;
    } else {
      assert (a + b)[0] == a[0];
      assert (a + b)[1..] == a[1..] + b;
      LaterOfSplit(rs, key, a[1..], b);
    }
  }

  /** Appending an item adds it to the later items of the keys `ks` exactly
      when its key is among them and its group already had an item. */
  lemma {:induction false} LaterOfAppend<R, K(!new)>(rs: seq<R>, key: R -> K, r: R, ks: seq<K>)
    requires Distinct(ks)
    ensures multiset(LaterOf(rs + [r], key, ks))
         == multiset(LaterOf(rs, key, ks)) + (if key(r) in ks && Group(rs, key, key(r)) != [] then multiset{r} else multiset{})
    decreases |ks|
  {
    if ks != [] {
      assert Distinct(ks[1..]);
      LaterOfAppend(rs, key, r, ks[1..]);
      if key(r) == ks[0] {
        LaterOfAppendOwnKey(rs, key, r, ks);
      } else {
        assert key(r) in ks <==> key(r) in ks[1..];
        LaterOfAppendOtherKey(rs, key, r, ks,
          if key(r) in ks && Group(rs, key, key(r)) != [] then multiset{r} else multiset{});
      }
    }
  }

  lemma LaterOfAppendOwnKey<R, K(!new)>(rs: seq<R>, key: R -> K, r: R, ks: seq<K>)
    requires ks != [] && key(r) == ks[0]
    requires multiset(LaterOf(rs + [r], key, ks[1..])) == multiset(LaterOf(rs, key, ks[1..]))
    ensures multiset(LaterOf(rs + [r], key, ks))
         == multiset(LaterOf(rs, key, ks)) + (if Group(rs, key, key(r)) != [] then multiset{r} else multiset{})
  {
    GroupAppend(rs, key, r, ks[0]);
    var g := Group(rs, key, ks[0]);
    TailAppend(g, r);
    ConcatStep(Tail(g), LaterOf(rs, key, ks[1..]), Tail(g + [r]), LaterOf(rs + [r], key, ks[1..]),
      if g != [] then multiset{r} else multiset{});
  }

  /** `lista[1:]` after `lista.append(r)` has gained `r` unless the list was empty. */
  lemma TailAppend<R>(g: seq<R>, r: R)
    ensures multiset(Tail(g + [r])) == multiset(Tail(g)) + (if g != [] then multiset{r} else multiset{})
  {
    if g != [] {
      assert Tail(g + [r]) == Tail(g) + [r];
    } else {
      assert Tail(g + [r]) == [];
    }
  }

  lemma ConcatStep<R>(a: seq<R>, b: seq<R>, a': seq<R>, b': seq<R>, m: multiset<R>)
    requires multiset(a') == multiset(a) + m && multiset(b') == multiset(b)
    ensures multiset(a' + b') == multiset(a + b) + m
  {
  }

  lemma LaterOfAppendOtherKey<R, K(!new)>(rs: seq<R>, key: R -> K, r: R, ks: seq<K>, extra: multiset<R>)
    requires ks != [] && key(r) != ks[0]
    requires multiset(LaterOf(rs + [r], key, ks[1..])) == multiset(LaterOf(rs, key, ks[1..])) + extra
    ensures multiset(LaterOf(rs + [r], key, ks)) == multiset(LaterOf(rs, key, ks)) + extra
  {
    GroupAppend(rs, key, r, ks[0]);
    var g := Group(rs, key, ks[0]);
    assert Group(rs + [r], key, ks[0]) == g;
    assert LaterOf(rs + [r], key, ks) == Tail(g) + LaterOf(rs + [r], key, ks[1..]);
    assert LaterOf(rs, key, ks) == Tail(g) + LaterOf(rs, key, ks[1..]);
  }

  /** Appending an item adds it to the later items exactly when its key was seen. */
  lemma AllButFirstStep<R, K(!new)>(rs: seq<R>, key: R -> K, r: R)
    ensures multiset(AllButFirst(rs + [r], key))
         == multiset(AllButFirst(rs, key)) + (if key(r) in KeysOf(rs, key) then multiset{r} else multiset{})
  {
    AppendItem(rs, key, r);
    var ks := KeysOf(rs, key);
    LaterOfAppend(rs, key, r, ks);
    GroupNonEmpty(rs, key, key(r));
    if key(r) !in ks {
      LaterOfSplit(rs + [r], key, ks, [key(r)]);
      assert Group(rs + [r], key, key(r)) == [r];
    }
  }

  /** The group-by-group list holds exactly the later copies, each as often. */
  lemma {:induction false} AllButFirstAreLaterCopies<R, K(!new)>(rs: seq<R>, key: R -> K)
    ensures multiset(AllButFirst(rs, key)) == multiset(LaterCopies(rs, key))
    decreases |rs|
  {
    if rs != [] {
      var n := |rs| - 1;
      assert rs == rs[..n] + [rs[n]];
      AppendItem(rs[..n], key, rs[n]);
      AllButFirstStep(rs[..n], key, rs[n]);
      AllButFirstAreLaterCopies(rs[..n], key);
    }
  }

  lemma {:induction false} LaterCopiesCount<R, K(!new)>(rs: seq<R>, key: R -> K)
    ensures |LaterCopies(rs, key)| + |KeysOf(rs, key)| == |rs|
    decreases |rs|
  {
    if rs != [] {
      var n := |rs| - 1;
      assert rs == rs[..n] + [rs[n]];
      AppendItem(rs[..n], key, rs[n]);
      LaterCopiesCount(rs[..n], key);
    }
  }

  /** One item per group is left out: the later items number the items
      minus the groups. */
  lemma AllButFirstCount<R, K(!new)>(rs: seq<R>, key: R -> K)
    ensures |AllButFirst(rs, key)| + |KeysOf(rs, key)| == |rs|
  {
    AllButFirstAreLaterCopies(rs, key);
    LaterCopiesCount(rs, key);
    assert |AllButFirst(rs, key)| == |multiset(AllButFirst(rs, key))|;
    assert |LaterCopies(rs, key)| == |multiset(LaterCopies(rs, key))|;
  }

  ghost predicate NoRepeats<R(!new)>(rs: seq<R>) {
    forall i, j :: 0 <= i < j < |rs| ==> rs[i] != rs[j]
  }

  lemma {:induction false} LaterCopiesMembers<R(!new), K(!new)>(rs: seq<R>, key: R -> K, i: nat)
    requires NoRepeats(rs) && i < |rs|
    ensures rs[i] in LaterCopies(rs, key) <==> key(rs[i]) in KeysOf(rs[..i], key)
    decreases |rs|
  {
    var n := |rs| - 1;
    var p := rs[..n];
    assert rs == p + [rs[n]];
    AppendItem(p, key, rs[n]);
    if i < n {
      assert NoRepeats(p) by {
        assert forall a, b :: 0 <= a < b < n ==> p[a] == rs[a] && p[b] == rs[b];
      }
      LaterCopiesMembers(p, key, i);
      assert p[i] == rs[i] && p[..i] == rs[..i];
      assert rs[i] != rs[n];
    } else {
      assert p == rs[..i];
    }
  }

  /** An item (all items distinct) is among the later items exactly when an
      earlier item has its key: the first of each group stays out. */
  lemma FirstOfEachGroupStays<R(!new), K(!new)>(rs: seq<R>, key: R -> K, i: nat)
    requires NoRepeats(rs) && i < |rs|
    ensures rs[i] in AllButFirst(rs, key) <==> key(rs[i]) in KeysOf(rs[..i], key)
  {
    LaterCopiesMembers(rs, key, i);
    AllButFirstAreLaterCopies(rs, key);
    assert rs[i] in AllButFirst(rs, key) <==> rs[i] in multiset(AllButFirst(rs, key));
    assert rs[i] in LaterCopies(rs, key) <==> rs[i] in multiset(LaterCopies(rs, key));
  }

  lemma {:induction false} LaterCopiesEmpty<R, K(!new)>(rs: seq<R>, key: R -> K)
    ensures LaterCopies(rs, key) == [] <==> forall i, j :: 0 <= i < j < |rs| ==> key(rs[i]) != key(rs[j])
    decreases |rs|
  {
    if rs != [] {
      var n := |rs| - 1;
      var p := rs[..n];
      assert rs == p + [rs[n]];
      AppendItem(p, key, rs[n]);
      LaterCopiesEmpty(p, key);
      assert forall i :: 0 <= i < n ==> p[i] == rs[i];
    }
  }

  /** Nothing is left over exactly when no two items share a key. */
  lemma NothingLeftOver<R, K(!new)>(rs: seq<R>, key: R -> K)
    ensures AllButFirst(rs, key) == [] <==> forall i, j :: 0 <= i < j < |rs| ==> key(rs[i]) != key(rs[j])
  {
    AllButFirstAreLaterCopies(rs, key);
    LaterCopiesEmpty(rs, key);
    assert |AllButFirst(rs, key)| == |multiset(AllButFirst(rs, key))|;
    assert |LaterCopies(rs, key)| == |multiset(LaterCopies(rs, key))|;
  }
}
