/**
  Helpers shared by the table-rewriting code: the rowid order in which
  SQLite returns rows of a table scan, and the fixed-size batches in which
  the maintenance scripts send long id lists.
 */
module Tables {

  /** The smallest element of a non-empty set of row ids. */
  function MinOf(s: set<int>): (m: int)
    requires s != {}
    ensures m in s && forall y :: y in s ==> m <= y
  {
    HasMinimum(s);
    var r :| r in s && forall y :: y in s ==> r <= y;
    r
  }

  lemma HasMinimum(s: set<int>)
    requires s != {}
    ensures exists m :: m in s && forall y :: y in s ==> m <= y
  {
    var m := Minimum(s);
  }

  lemma {:induction false} Minimum(s: set<int>) returns (m: int)
    requires s != {}
    ensures m in s && forall y :: y in s ==> m <= y
    decreases |s|
  {
    assert exists x :: x in s by {
      if forall x :: x !in s {
        assert false;
      }
    }
    var x :| x in s;
    if s == {x} {
      m := x;
    } else {
      var m' := Minimum(s - {x});
      m := if x < m' then x else m';
      assert forall y :: y in s ==> y == x || y in s - {x};
    }
  }

  /** A loop over `s` that has run to the end has seen all of it. */
  lemma WholePrefix<T>(s: seq<T>)
    ensures s[..|s|] == s
  {
  }

  predicate StrictlyIncreasing(xs: seq<int>) {
    forall i, j :: 0 <= i < j < |xs| ==> xs[i] < xs[j]
  }

  /** `idx` lists, in increasing order, exactly the positions of `s` whose
      element passes `keep`, and `r` holds those elements in that order. */
  ghost predicate KeptAt<T>(idx: seq<int>, r: seq<T>, s: seq<T>, keep: T -> bool) {
    && |idx| == |r|
    && StrictlyIncreasing(idx)
    && (forall k :: 0 <= k < |idx| ==> 0 <= idx[k] < |s| && r[k] == s[idx[k]] && keep(r[k]))
    && (forall j :: 0 <= j < |s| && keep(s[j]) ==> j in idx)
  }

  /** What a `DELETE ... WHERE` leaves of a list: the elements that pass
      `keep`, every one of them, in their original order. */
  ghost predicate KeptInOrder<T>(r: seq<T>, s: seq<T>, keep: T -> bool) {
    exists idx :: KeptAt(idx, r, s, keep)
  }

  lemma KeptNothing<T>(keep: T -> bool)
    ensures KeptAt([], [], [], keep)
  {
  }

  /** One more element at the end of the list. */
  lemma KeptSnoc<T>(idx: seq<int>, r: seq<T>, s: seq<T>, keep: T -> bool, x: T)
    requires KeptAt(idx, r, s, keep)
    ensures keep(x) ==> KeptAt(idx + [|s|], r + [x], s + [x], keep)
    ensures !keep(x) ==> KeptAt(idx, r, s + [x], keep)
  {
  }

  /** The ids of `s` in ascending order: the order in which a table scan
      without ORDER BY returns rows. */
  function SortedIds(s: set<int>): (r: seq<int>)
    ensures StrictlyIncreasing(r)
    ensures forall x :: x in s <==> x in r
    ensures |r| == |s|
    decreases |s|
  {
    if s == {} then []
    else
      var m := MinOf(s);
      var rest := SortedIds(s - {m});
      assert forall k :: 0 <= k < |rest| ==> m < rest[k];
      [m] + rest
  }

  function Min(a: int, b: int): int {
    if a <= b then a else b
  }

  /** The slices `s[i:i+n]` for `i` in `range(0, len(s), n)`. */
  function Chunks<T>(s: seq<T>, n: nat): (cs: seq<seq<T>>)
    requires n > 0
    ensures forall k :: 0 <= k < |cs| ==> 0 < |cs[k]| <= n
    decreases |s|
  {
    if s == [] then []
    else if |s| <= n then [s]
    else [s[..n]] + Chunks(s[n..], n)
  }

  function Flatten<T>(cs: seq<seq<T>>): seq<T> {
    if cs == [] then [] else cs[0] + Flatten(cs[1..])
  }

  /** The batches cover the list exactly, in order. */
  lemma {:induction false} ChunksFlatten<T>(s: seq<T>, n: nat)
    requires n > 0
    ensures Flatten(Chunks(s, n)) == s
    decreases |s|
  {
    if |s| > n {
      ChunksFlatten(s[n..], n);
      assert ([s[..n]] + Chunks(s[n..], n))[1..] == Chunks(s[n..], n);
      assert s[..n] + s[n..] == s;
    } else if s != [] {
      assert Flatten([s]) == s + Flatten<T>([]);
    }
  }

  /** There is a batch `k` exactly when offset `k * n` is inside the list. */
  lemma {:induction false} ChunkCount<T>(s: seq<T>, n: nat, k: nat)
    requires n > 0
    ensures k < |Chunks(s, n)| <==> k * n < |s|
    decreases |s|
  {
    if k > 0 {
      MulStep(k, n);
      if |s| > n {
        ChunkCount(s[n..], n, k - 1);
        assert |Chunks(s, n)| == 1 + |Chunks(s[n..], n)|;
      } else {
        assert |Chunks(s, n)| <= 1;
      }
    }
  }

  /** Batch `k` starts at offset `k * n`, as the loop `range(0, len(s), n)` has it. */
  lemma {:induction false} ChunkAt<T>(s: seq<T>, n: nat, k: nat)
    requires n > 0
    ensures k * n < |s| ==> k < |Chunks(s, n)| && Chunks(s, n)[k] == s[k * n..Min(k * n + n, |s|)]
    decreases |s|
  {
    if k * n < |s| {
      ChunkCount(s, n, k);
      if k > 0 {
        MulStep(k, n);
        var o := (k - 1) * n;
        ChunkAt(s[n..], n, k - 1);
        SliceOfSlice(s, n, o, Min(o + n, |s| - n));
      }
    }
  }

  lemma MulStep(k: nat, n: nat)
    requires k > 0
    ensures k * n == (k - 1) * n + n && (k - 1) * n >= 0
  {
  }

  lemma SliceOfSlice<T>(s: seq<T>, d: nat, a: nat, b: nat)
    requires d <= |s| && a <= b <= |s| - d
    ensures s[d..][a..b] == s[d + a..d + b]
  {
  }

  /** The concatenation of the batches `k` for which `ok(k)` holds. */
  function Selected<T>(cs: seq<seq<T>>, ok: nat -> bool): (r: seq<T>)
    ensures |r| <= |Flatten(cs)|
    decreases |cs|
  {
    if cs == [] then []
    else
      var last := |cs| - 1;
      var prefix := Selected(cs[..last], ok);
      FlattenAppend(cs[..last], cs[last]);
      assert cs[..last] + [cs[last]] == cs;
      if ok(last) then prefix + cs[last] else prefix
  }

  lemma {:induction false} FlattenAppend<T>(cs: seq<seq<T>>, c: seq<T>)
    ensures Flatten(cs + [c]) == Flatten(cs) + c
    decreases |cs|
  {
    if cs == [] {
      assert [] + [c] == [c];
      assert Flatten([c]) == c + Flatten<T>([]);
    } else {
      assert (cs + [c])[1..] == cs[1..] + [c];
      FlattenAppend(cs[1..], c);
    }
  }

  /** When every batch succeeds, everything is selected. */
  lemma {:induction false} SelectedAll<T>(cs: seq<seq<T>>, ok: nat -> bool)
    requires forall k: nat :: k < |cs| ==> ok(k)
    ensures Selected(cs, ok) == Flatten(cs)
    decreases |cs|
  {
    if cs != [] {
      var last := |cs| - 1;
      SelectedAll(cs[..last], ok);
      FlattenAppend(cs[..last], cs[last]);
      assert cs[..last] + [cs[last]] == cs;
    }
  }

  /** Only items of successful batches are selected, and each batch's items are
      all selected or all left. */
  lemma {:induction false} SelectedMembers<T>(cs: seq<seq<T>>, ok: nat -> bool, x: T)
    ensures x in Selected(cs, ok) <==> exists k: nat :: k < |cs| && ok(k) && x in cs[k]
    decreases |cs|
  {
    if cs != [] {
      var last := |cs| - 1;
      SelectedMembers(cs[..last], ok, x);
      if x in Selected(cs, ok) && !(x in Selected(cs[..last], ok)) {
        assert ok(last) && x in cs[last];
      }
      if exists k: nat :: k < |cs| && ok(k) && x in cs[k] {
        var k: nat :| k < |cs| && ok(k) && x in cs[k];
        if k < last {
          assert cs[..last][k] == cs[k];
        }
      }
    }
  }
}
