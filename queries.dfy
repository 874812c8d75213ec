/**
  The two SELECTs DatabaseManager answers from `recordatorios`: the rows a
  scan with a WHERE clause returns (in rowid order), and the same rows
  re-ordered by `ORDER BY fecha_hora ASC` under SQLite's rules (NULL first,
  then text compared character by character).
 */
module Queries {
  import opened Wrappers
  import opened Reminders
  import opened Tables
  import opened SyncRules

  // ---------------------------------------------------------------------
  // ORDER BY on a TEXT column

  /** The BINARY collation: UTF-8 bytes compared with memcmp, which orders
      strings like their sequences of code points, a prefix first. */
  predicate TextLeq(a: string, b: string)
    decreases |a|
  {
    a == [] || (b != [] && (a[0] < b[0] || (a[0] == b[0] && TextLeq(a[1..], b[1..]))))
  }

  lemma {:induction false} TextLeqTotal(a: string, b: string)
    ensures TextLeq(a, b) || TextLeq(b, a)
    decreases |a|
  {
    if a != [] && b != [] && a[0] == b[0] {
      TextLeqTotal(a[1..], b[1..]);
    }
  }

  lemma {:induction false} TextLeqTransitive(a: string, b: string, c: string)
    requires TextLeq(a, b) && TextLeq(b, c)
    ensures TextLeq(a, c)
    decreases |a|
  {
    if a != [] && b != [] && c != [] && a[0] == b[0] && b[0] == c[0] {
      TextLeqTransitive(a[1..], b[1..], c[1..]);
    }
  }

  lemma {:induction false} TextLeqAntisymmetric(a: string, b: string)
    requires TextLeq(a, b) && TextLeq(b, a)
    ensures a == b
    decreases |a|
  {
    if a != [] && b != [] {
      TextLeqAntisymmetric(a[1..], b[1..]);
      assert a == [a[0]] + a[1..] && b == [b[0]] + b[1..];
    }
  }

  /** `ASC` on a nullable TEXT column: NULL sorts before every text. */
  predicate KeyLeq(a: Option<string>, b: Option<string>) {
    a.None? || (b.Some? && TextLeq(a.value, b.value))
  }

  lemma KeyLeqTotal(a: Option<string>, b: Option<string>)
    ensures KeyLeq(a, b) || KeyLeq(b, a)
  {
    if a.Some? && b.Some? {
      TextLeqTotal(a.value, b.value);
    }
  }

  lemma KeyLeqTransitive(a: Option<string>, b: Option<string>, c: Option<string>)
    requires KeyLeq(a, b) && KeyLeq(b, c)
    ensures KeyLeq(a, c)
  {
    if a.Some? {
      TextLeqTransitive(a.value, b.value, c.value);
    }
  }

  // ---------------------------------------------------------------------
  // WHERE

  /** The WHERE clauses reminders are read with: the due list, one chat's
      rows, and the zombie sweep's linked rows missing from a remote id set. */
  datatype Selector = DueNow | OfChat(chatId: string) | LinkedOutside(remote: set<int>)

  predicate Selects(sel: Selector, r: Reminder) {
    match sel
    case DueNow => Due(r)
    case OfChat(c) => r.chatId == c
    case LinkedOutside(remote) => r.remoteId.Some? && r.remoteId.value !in remote
  }

  predicate InTable(t: Table, xs: seq<int>) {
    forall k :: 0 <= k < |xs| ==> xs[k] in t
  }

  /** The ids of `ids` whose rows the clause selects, in the same order. */
  function Where(t: Table, ids: seq<int>, sel: Selector): (r: seq<int>)
    requires InTable(t, ids)
    decreases |ids|
  {
    if ids == [] then []
    else
      var rest := Where(t, ids[1..], sel);
      if Selects(sel, t[ids[0]]) then [ids[0]] + rest else rest
  }

  /** A WHERE scan keeps exactly the scanned rows the clause selects. */
  lemma {:induction false} WhereMembers(t: Table, ids: seq<int>, sel: Selector)
    requires InTable(t, ids)
    ensures InTable(t, Where(t, ids, sel))
    ensures forall x :: x in Where(t, ids, sel) <==> x in ids && Selects(sel, t[x])
    decreases |ids|
  {
    if ids != [] {
      WhereMembers(t, ids[1..], sel);
      assert forall x :: x in ids <==> x == ids[0] || x in ids[1..];
    }
  }

  /** A scan in ascending id order answers in ascending id order. */
  lemma {:induction false} WhereSorted(t: Table, ids: seq<int>, sel: Selector)
    requires InTable(t, ids) && StrictlyIncreasing(ids)
    ensures StrictlyIncreasing(Where(t, ids, sel))
    decreases |ids|
  {
    if ids != [] {
      var rest := Where(t, ids[1..], sel);
      HeadBelowTail(ids);
      WhereSorted(t, ids[1..], sel);
      WhereMembers(t, ids[1..], sel);
      forall k | 0 <= k < |rest| ensures rest[k] in ids[1..] {
        assert rest[k] in rest;
      }
    }
  }

  /** Scanning one more id extends the result by that id or by nothing. */
  lemma {:induction false} WhereAppend(t: Table, ids: seq<int>, x: int, sel: Selector)
    requires InTable(t, ids) && x in t
    ensures InTable(t, ids + [x])
    ensures Where(t, ids + [x], sel) == Where(t, ids, sel) + (if Selects(sel, t[x]) then [x] else [])
    decreases |ids|
  {
    if ids == [] {
      assert [] + [x] == [x];
      assert [x][1..] == [];
    } else {
      assert (ids + [x])[1..] == ids[1..] + [x];
      WhereAppend(t, ids[1..], x, sel);
    }
  }

  /** The scan of a prefix of `ids`, one more id at a time. */
  lemma WherePrefix(t: Table, ids: seq<int>, i: nat, sel: Selector)
    requires InTable(t, ids) && i <= |ids|
    ensures InTable(t, ids[..i])
    ensures i < |ids| ==> InTable(t, ids[..i + 1])
    ensures i < |ids| ==>
      Where(t, ids[..i + 1], sel) == Where(t, ids[..i], sel) + (if Selects(sel, t[ids[i]]) then [ids[i]] else [])
  {
    if i < |ids| {
      assert ids[..i + 1] == ids[..i] + [ids[i]];
      WhereAppend(t, ids[..i], ids[i], sel);
    }
  }

  /** A clause that selects none of the scanned rows returns nothing. */
  lemma {:induction false} WhereNone(t: Table, ids: seq<int>, sel: Selector)
    requires InTable(t, ids)
    requires forall k :: 0 <= k < |ids| ==> !Selects(sel, t[ids[k]])
    ensures Where(t, ids, sel) == []
    decreases |ids|
  {
    if ids != [] {
      WhereNone(t, ids[1..], sel);
    }
  }

  lemma HeadBelowTail(ids: seq<int>)
    requires ids != []
    ensures StrictlyIncreasing(ids) ==> StrictlyIncreasing(ids[1..])
    ensures StrictlyIncreasing(ids) ==> forall y :: y in ids[1..] ==> ids[0] < y
  {
    if StrictlyIncreasing(ids) {
      forall y | y in ids[1..] ensures ids[0] < y {
        var k :| 0 <= k < |ids[1..]| && ids[1..][k] == y;
        assert ids[k + 1] == y;
      }
    }
  }

  /** The rows of a table scan with that clause: every selected row once, in
      ascending id order. */
  function Scan(t: Table, sel: Selector): (r: seq<int>)
    ensures InTable(t, r) && StrictlyIncreasing(r)
    ensures forall x :: x in r <==> x in t && Selects(sel, t[x])
  {
    WhereMembers(t, SortedIds(t.Keys), sel);
    WhereSorted(t, SortedIds(t.Keys), sel);
    Where(t, SortedIds(t.Keys), sel)
  }

  // ---------------------------------------------------------------------
  // ORDER BY fecha_hora ASC

  ghost predicate SortedByTime(t: Table, xs: seq<int>)
    requires InTable(t, xs)
  {
    forall i, j :: 0 <= i < j < |xs| ==> KeyLeq(t[xs[i]].scheduledAt, t[xs[j]].scheduledAt)
  }

  function InsertByTime(t: Table, x: int, xs: seq<int>): (r: seq<int>)
    requires x in t && InTable(t, xs)
    ensures InTable(t, r)
    ensures multiset(r) == multiset(xs) + multiset{x}
    decreases |xs|
  {
    if xs == [] then [x]
    else if KeyLeq(t[x].scheduledAt, t[xs[0]].scheduledAt) then [x] + xs
    else
      assert xs == [xs[0]] + xs[1..];
      [xs[0]] + InsertByTime(t, x, xs[1..])
  }

  lemma {:induction false} InsertByTimeSorted(t: Table, x: int, xs: seq<int>)
    requires x in t && InTable(t, xs) && SortedByTime(t, xs)
    ensures SortedByTime(t, InsertByTime(t, x, xs))
    decreases |xs|
  {
    var r := InsertByTime(t, x, xs);
    if xs == [] {
    } else if KeyLeq(t[x].scheduledAt, t[xs[0]].scheduledAt) {
      forall j | 0 < j < |r| ensures KeyLeq(t[x].scheduledAt, t[r[j]].scheduledAt) {
        if j > 1 {
          KeyLeqTransitive(t[x].scheduledAt, t[xs[0]].scheduledAt, t[xs[j - 1]].scheduledAt);
        }
      }
    } else {
      var rest := InsertByTime(t, x, xs[1..]);
      InsertByTimeSorted(t, x, xs[1..]);
      HeadBelowInserted(t, x, xs);
      assert r == [xs[0]] + rest;
    }
  }

  /** When `x` goes after the head of `xs`, that head stays below every id
      of the insertion into the tail. */
  lemma HeadBelowInserted(t: Table, x: int, xs: seq<int>)
    requires x in t && InTable(t, xs) && SortedByTime(t, xs) && xs != []
    requires !KeyLeq(t[x].scheduledAt, t[xs[0]].scheduledAt)
    ensures forall j :: 0 <= j < |InsertByTime(t, x, xs[1..])| ==>
      KeyLeq(t[xs[0]].scheduledAt, t[InsertByTime(t, x, xs[1..])[j]].scheduledAt)
  {
    KeyLeqTotal(t[x].scheduledAt, t[xs[0]].scheduledAt);
    var rest := InsertByTime(t, x, xs[1..]);
    assert multiset(rest) == multiset(xs[1..]) + multiset{x};
    forall j | 0 <= j < |rest| ensures KeyLeq(t[xs[0]].scheduledAt, t[rest[j]].scheduledAt) {
      assert rest[j] in multiset(rest);
      if rest[j] != x {
        assert rest[j] in multiset(xs[1..]);
        var k :| 0 <= k < |xs[1..]| && xs[1..][k] == rest[j];
        assert xs[k + 1] == rest[j];
      }
    }
  }

  /** `ORDER BY fecha_hora ASC` applied to the ids `xs`: the same ids, each as
      often as before, ordered by their rows' fecha_hora with NULL first. */
  function SortByTime(t: Table, xs: seq<int>): (r: seq<int>)
    requires InTable(t, xs)
    ensures InTable(t, r)
    ensures multiset(r) == multiset(xs)
    ensures SortedByTime(t, r)
    decreases |xs|
  {
    if xs == [] then []
    else
      var rest := SortByTime(t, xs[1..]);
      InsertByTimeSorted(t, xs[0], rest);
      assert xs == [xs[0]] + xs[1..];
      InsertByTime(t, xs[0], rest)
  }
}
