/**
  The Python string methods the announcement parser relies on:
  `str.strip()`, `str.split(sep)`, `sep.join(parts)` and `str.replace(old, "")`.
  Each is defined directly on `seq<char>` and tied to its partner by a lemma
  (split and join are inverse; removing a pattern is joining the pieces of a
  split with "").
 */
module PyStrings {
  import opened Wrappers

  /** The characters `str.isspace()` accepts, so the ones `str.strip()` removes. */
  predicate IsSpace(c: char) {
    var n := c as int;
    n == 32 || 9 <= n <= 13 || 28 <= n <= 31 || n == 0x85 || n == 0xA0 ||
    n == 0x1680 || 0x2000 <= n <= 0x200A || n == 0x2028 || n == 0x2029 ||
    n == 0x202F || n == 0x205F || n == 0x3000
  }

  predicate AllSpace(s: string) {
    forall k :: 0 <= k < |s| ==> IsSpace(s[k])
  }

  lemma AllSpaceSnoc(a: string, c: char)
    requires AllSpace(a) && IsSpace(c)
    ensures AllSpace(a + [c])
  {
  }

  /** The number of whitespace characters `s` starts with. */
  function LeadingSpaces(s: string): (n: nat)
    ensures n <= |s| && AllSpace(s[..n])
    ensures n < |s| ==> !IsSpace(s[n])
  {
    if s != [] && IsSpace(s[0]) then 1 + LeadingSpaces(s[1..]) else 0
  }

  /** `str.lstrip()`: drops the leading whitespace and nothing else. */
  function StripLeft(s: string): (r: string)
    ensures r == s[LeadingSpaces(s)..]
  {
    if s != [] && IsSpace(s[0]) then StripLeft(s[1..]) else s
  }

  /** `str.rstrip()`: drops the trailing whitespace and nothing else. */
  function StripRight(s: string): (r: string)
    ensures |r| <= |s| && r == s[..|r|]
    ensures AllSpace(s[|r|..])
    ensures r != [] ==> !IsSpace(r[|r| - 1])
  {
    if s != [] && IsSpace(s[|s| - 1]) then
      var r := StripRight(s[..|s| - 1]);
      AllSpaceSnoc(s[..|s| - 1][|r|..], s[|s| - 1]);
      assert s[|r|..] == s[..|s| - 1][|r|..] + [s[|s| - 1]];
      r
    else s
  }

  /** `str.strip()`: the result is the slice of `s` between an all-whitespace
      head and an all-whitespace tail, and it neither starts nor ends with
      whitespace. */
  function Strip(s: string): (r: string)
    ensures var i := LeadingSpaces(s);
      && i + |r| <= |s|
      && r == s[i..i + |r|]
      && AllSpace(s[..i])
      && AllSpace(s[i + |r|..])
    ensures r != [] ==> !IsSpace(r[0]) && !IsSpace(r[|r| - 1])
  {
    var i := LeadingSpaces(s);
    var t := StripLeft(s);
    var r := StripRight(t);
    SliceOfSuffix(s, i, |r|);
    r
  }

  /** A prefix of the suffix `s[i..]` is a middle slice of `s`, and what follows it is a suffix of `s`. */
  lemma SliceOfSuffix<T>(s: seq<T>, i: nat, n: nat)
    requires i + n <= |s|
    ensures s[i..][..n] == s[i..i + n] && s[i..][n..] == s[i + n..]
  {
  }

  lemma StripLeftFixed(s: string)
    requires s == [] || !IsSpace(s[0])
    ensures StripLeft(s) == s
  {
  }

  lemma StripRightFixed(s: string)
    requires s == [] || !IsSpace(s[|s| - 1])
    ensures StripRight(s) == s
  {
  }

  /** Stripping a stripped string changes nothing. */
  lemma StripIdempotent(s: string)
    ensures Strip(Strip(s)) == Strip(s)
  {
    var r := Strip(s);
    StripLeftFixed(r);
    StripRightFixed(r);
  }

  /** `p` occurs in `s` starting at index `k`. */
  predicate OccursAt(s: string, p: string, k: nat) {
    k + |p| <= |s| && s[k..k + |p|] == p
  }

  predicate Contains(s: string, p: string) {
    exists k: nat | k <= |s| :: OccursAt(s, p, k)
  }

  /** The first index at or after `from` where `p` occurs in `s`. */
  function FindFrom(s: string, p: string, from: nat): (r: Option<nat>)
    requires |p| > 0
    ensures r.Some? ==> from <= r.value && OccursAt(s, p, r.value)
    ensures r.Some? ==> forall j: nat :: from <= j < r.value ==> !OccursAt(s, p, j)
    ensures r.None? ==> forall j: nat :: from <= j ==> !OccursAt(s, p, j)
    decreases |s| - from
  {
    if from + |p| > |s| then None
    else if s[from..from + |p|] == p then Some(from)
    else FindFrom(s, p, from + 1)
  }

  /** `str.find(p)`, with None for -1. */
  function Find(s: string, p: string): (r: Option<nat>)
    requires |p| > 0
    ensures r.Some? ==> OccursAt(s, p, r.value)
    ensures r.Some? ==> forall j: nat :: j < r.value ==> !OccursAt(s, p, j)
    ensures r.None? <==> !Contains(s, p)
  {
    FindFrom(s, p, 0)
  }

  /** `sep.join(parts)`. */
  function Join(parts: seq<string>, sep: string): string {
    if |parts| == 0 then ""
    else if |parts| == 1 then parts[0]
    else parts[0] + sep + Join(parts[1..], sep)
  }

  /** `s.split(sep)` for a non-empty separator: the pieces between the
      occurrences of `sep`, found left to right without overlap. Joining them
      with `sep` gives `s` back, and no piece contains `sep`. */
  function Split(s: string, sep: string): (parts: seq<string>)
    requires |sep| > 0
    ensures |parts| >= 1
    ensures Join(parts, sep) == s
    ensures forall k :: 0 <= k < |parts| ==> !Contains(parts[k], sep)
    decreases |s|
  {
    match Find(s, sep)
    case None => [s]
    case Some(k) =>
      var rest := Split(s[k + |sep|..], sep);
      assert s == s[..k] + sep + s[k + |sep|..];
      assert !Contains(s[..k], sep) by {
        forall j: nat | j <= k ensures !OccursAt(s[..k], sep, j) {
          if j + |sep| <= k {
            assert !OccursAt(s, sep, j);
            assert s[..k][j..j + |sep|] == s[j..j + |sep|];
          }
        }
      }
      [s[..k]] + rest
  }

  /** `s.replace(p, "")`: every occurrence of `p`, found left to right
      without overlap, removed. */
  function RemoveAll(s: string, p: string): (r: string)
    requires |p| > 0
    ensures |r| <= |s|
    decreases |s|
  {
    if |s| < |p| then s
    else if s[..|p|] == p then RemoveAll(s[|p|..], p)
    else [s[0]] + RemoveAll(s[1..], p)
  }

  /** Dropping the first character shifts every occurrence one place left. */
  lemma OccursInTail(s: string, p: string, j: nat)
    requires |s| > 0
    ensures OccursAt(s[1..], p, j) <==> OccursAt(s, p, j + 1)
  {
    if j + |p| <= |s| - 1 {
      assert s[1..][j..j + |p|] == s[j + 1..j + 1 + |p|];
    }
  }

  /** Before the first occurrence, RemoveAll copies the text unchanged. */
  lemma {:induction false} RemoveAllCopiesUpTo(s: string, p: string, k: nat)
    requires |p| > 0 && k <= |s|
    requires forall j: nat :: j < k ==> !OccursAt(s, p, j)
    ensures RemoveAll(s, p) == s[..k] + RemoveAll(s[k..], p)
    decreases k
  {
    if k > 0 && |s| >= |p| {
      assert !OccursAt(s, p, 0);
      var t := s[1..];
      forall j: nat | j < k - 1 ensures !OccursAt(t, p, j) {
        OccursInTail(s, p, j);
      }
      RemoveAllCopiesUpTo(t, p, k - 1);
      assert t[k - 1..] == s[k..];
      assert [s[0]] + t[..k - 1] == s[..k];
    } else if k > 0 {
      assert RemoveAll(s[k..], p) == s[k..];
    }
  }

  /** Python's identity `s.replace(p, "") == "".join(s.split(p))`. */
  lemma {:induction false} RemoveAllIsJoinOfSplit(s: string, p: string)
    requires |p| > 0
    ensures RemoveAll(s, p) == Join(Split(s, p), "")
    decreases |s|
  {
    match Find(s, p)
    case None =>
      RemoveAllCopiesUpTo(s, p, |s|);
      assert s[..|s|] == s;
    case Some(k) =>
      RemoveAllCopiesUpTo(s, p, k);
      var tail := s[k..];
      assert tail[..|p|] == p;
      assert tail[|p|..] == s[k + |p|..];
      RemoveAllIsJoinOfSplit(s[k + |p|..], p);
      var rest := Split(s[k + |p|..], p);
      assert Split(s, p) == [s[..k]] + rest;
      assert ([s[..k]] + rest)[1..] == rest;
  }

  /** One pass of removal can form a new occurrence: "aabb" without "ab" is
      "ab". So a title may still contain "TITULO:" after the prefix is removed. */
  lemma RemoveAllMayLeaveOccurrence()
    ensures RemoveAll("aabb", "ab") == "ab"
  {
    assert "aabb"[..2] == "aa";
    assert "aabb"[1..] == "abb";
    assert "abb"[..2] == "ab";
    assert "abb"[2..] == "b";
  }
}
