/** The Python `str` operations the deken code relies on, over `seq<char>`: substring
    search, `split`/`join` on a separator, `strip`, `lower` and one-character `replace`. */
module Strings {

  import opened Wrappers

  /** `sub` occurs in `s` starting at offset `i`. */
  predicate ContainsAt(s: string, sub: string, i: int) {
    0 <= i && i + |sub| <= |s| && s[i..i + |sub|] == sub
  }

  /** Python's `sub in s`; the empty string occurs in every string. */
  predicate Contains(s: string, sub: string) {
    exists i | 0 <= i <= |s| - |sub| :: ContainsAt(s, sub, i)
  }

  /** Python's `s.endswith(p)`. (`s.startswith(p)` is Dafny's prefix test `p <= s`.) */
  predicate EndsWith(s: string, p: string) {
    |p| <= |s| && s[|s| - |p|..] == p
  }

  lemma ContainsSingle(s: string, c: char)
    ensures Contains(s, [c]) <==> c in s
  {
    if c in s {
      var i :| 0 <= i < |s| && s[i] == c;
      assert ContainsAt(s, [c], i);
    }
    if Contains(s, [c]) {
      var i :| 0 <= i <= |s| - 1 && ContainsAt(s, [c], i);
      assert s[i] == s[i..i + 1][0];
    }
  }

  /** Both halves of a concatenation occur in it. */
  lemma ContainsParts(a: string, b: string)
    ensures Contains(a + b, a) && Contains(a + b, b)
  {
    assert ContainsAt(a + b, a, 0);
    assert ContainsAt(a + b, b, |a|);
  }

  /** The middle of three pieces occurs in their concatenation. */
  lemma ContainsMiddle(a: string, m: string, b: string)
    ensures Contains(a + m + b, m)
  {
    assert (a + m + b)[|a|..|a| + |m|] == m;
    assert ContainsAt(a + m + b, m, |a|);
  }

  /** An occurrence inside a substring is an occurrence in the whole string. */
  lemma ContainsTransitive(s: string, t: string, sub: string)
    requires Contains(s, t) && Contains(t, sub)
    ensures Contains(s, sub)
  {
    var i :| 0 <= i <= |s| - |t| && ContainsAt(s, t, i);
    var j :| 0 <= j <= |t| - |sub| && ContainsAt(t, sub, j);
    forall k | 0 <= k < |sub|
      ensures s[i + j + k] == sub[k]
    {
      assert sub[k] == t[j + k] == s[i..i + |t|][j + k];
    }
    assert s[i + j..i + j + |sub|] == sub;
    assert ContainsAt(s, sub, i + j);
  }

  /** Whatever occurs in one part of a concatenation occurs in the concatenation. */
  lemma ContainsInConcat(a: string, b: string, sub: string)
    requires Contains(a, sub) || Contains(b, sub)
    ensures Contains(a + b, sub)
  {
    ContainsParts(a, b);
    if Contains(a, sub) {
      ContainsTransitive(a + b, a, sub);
    } else {
      ContainsTransitive(a + b, b, sub);
    }
  }

  /** What occurs in a substring occurs in the whole string. */
  lemma ContainsMonotone(s: string, t: string, sub: string)
    requires Contains(s, t)
    ensures Contains(t, sub) ==> Contains(s, sub)
  {
    if Contains(t, sub) {
      ContainsTransitive(s, t, sub);
    }
  }

  lemma PrefixContained(t: string, s: string)
    requires t <= s
    ensures Contains(s, t)
  {
    assert ContainsAt(s, t, 0);
  }

  lemma SuffixContained(t: string, s: string)
    requires EndsWith(s, t)
    ensures Contains(s, t)
  {
    assert ContainsAt(s, t, |s| - |t|);
  }

  /** Replaces the first element of a non-empty list of strings by `x` followed by it. */
  function PrependToFirst(x: string, parts: seq<string>): seq<string>
    requires |parts| > 0
  {
    [x + parts[0]] + parts[1..]
  }

  lemma PrependToFirstTwice(x: string, y: string, parts: seq<string>)
    requires |parts| > 0
    ensures PrependToFirst(x, PrependToFirst(y, parts)) == PrependToFirst(x + y, parts)
  {
    var inner := PrependToFirst(y, parts);
    assert inner[0] == y + parts[0] && inner[1..] == parts[1..];
    assert x + (y + parts[0]) == (x + y) + parts[0];
  }

  lemma PrependNothing(parts: seq<string>)
    requires |parts| > 0
    ensures PrependToFirst("", parts) == parts
    ensures PrependToFirst(parts[0], [""] + parts[1..]) == parts
  {
    assert "" + parts[0] == parts[0] == parts[0] + "";
    assert ([""] + parts[1..])[1..] == parts[1..];
    assert [parts[0]] + parts[1..] == parts;
  }

  lemma PrependToEmptyFirst(x: string, parts: seq<string>)
    ensures PrependToFirst(x, [""] + parts) == [x] + parts
  {
    assert x + "" == x;
    assert ([""] + parts)[1..] == parts;
  }

  /** `parts` with `x` appended to its last element. */
  function AppendToLast(parts: seq<string>, x: string): (r: seq<string>)
    requires |parts| > 0
    ensures |r| == |parts| && r[..|r| - 1] == parts[..|parts| - 1] && r[|r| - 1] == parts[|parts| - 1] + x
  {
    parts[..|parts| - 1] + [parts[|parts| - 1] + x]
  }

  lemma PrependAppendCommute(y: string, parts: seq<string>, x: string)
    requires |parts| > 0
    ensures PrependToFirst(y, AppendToLast(parts, x)) == AppendToLast(PrependToFirst(y, parts), x)
  {
    var a := PrependToFirst(y, AppendToLast(parts, x));
    var b := AppendToLast(PrependToFirst(y, parts), x);
    if |parts| == 1 {
      assert y + (parts[0] + x) == (y + parts[0]) + x;
    } else {
      forall i | 0 <= i < |a| ensures a[i] == b[i] {
        if i == 0 {
        } else if i < |a| - 1 {
          assert a[i] == parts[i] == b[i];
        }
      }
    }
  }

  lemma ConsAppendCommute(y: string, parts: seq<string>, x: string)
    requires |parts| > 0
    ensures [y] + AppendToLast(parts, x) == AppendToLast([y] + parts, x)
  {
    var a := [y] + AppendToLast(parts, x);
    var b := AppendToLast([y] + parts, x);
    forall i | 0 <= i < |a| ensures a[i] == b[i] {
      if 0 < i < |a| - 1 {
        assert a[i] == parts[i - 1] == b[i];
      }
    }
  }

  /** Python's `s.split(sep)` for a non-empty `sep` (Python raises on an empty one):
      occurrences are found left to right and do not overlap. */
  function Split(s: string, sep: string): (parts: seq<string>)
    requires |sep| > 0
    ensures |parts| > 0
    decreases |s|
  {
    if |s| < |sep| then [s]
    else if sep <= s then [""] + Split(s[|sep|..], sep)
    else PrependToFirst([s[0]], Split(s[1..], sep))
  }

  /** Python's `sep.join(parts)`. */
  function Join(parts: seq<string>, sep: string): string {
    if |parts| == 0 then ""
    else if |parts| == 1 then parts[0]
    else parts[0] + sep + Join(parts[1..], sep)
  }

  lemma JoinPrepend(x: string, parts: seq<string>, sep: string)
    requires |parts| > 0
    ensures Join(PrependToFirst(x, parts), sep) == x + Join(parts, sep)
  {
    var r := PrependToFirst(x, parts);
    if |parts| > 1 {
      assert r[1..] == parts[1..];
    }
  }

  /** Joining splits off the last part exactly as it splits off the first. */
  lemma {:induction false} JoinLast(parts: seq<string>, sep: string)
    requires |parts| > 1
    ensures Join(parts, sep) == Join(parts[..|parts| - 1], sep) + sep + parts[|parts| - 1]
    decreases |parts|
  {
    if |parts| > 2 {
      JoinLast(parts[1..], sep);
      assert parts[1..][..|parts| - 2] == parts[..|parts| - 1][1..];
    }
  }

  /** A string that does not start with `sep` and continues with a separator-free prefix
      of its tail has no occurrence of `sep` in that stretch. */
  lemma NotContainsPrepend(s: string, t: string, sep: string)
    requires |s| > 0 && |sep| > 0 && !(sep <= s)
    requires t <= s[1..] && !Contains(t, sep)
    ensures [s[0]] + t <= s && !Contains([s[0]] + t, sep)
  {
    var x := [s[0]] + t;
    assert x <= s;
    forall i | 0 <= i <= |x| - |sep|
      ensures !ContainsAt(x, sep, i)
    {
      if i == 0 {
        assert x[..|sep|] == s[..|sep|];
      } else {
        assert x[i..i + |sep|] == t[i - 1..i - 1 + |sep|];
        assert !ContainsAt(t, sep, i - 1);
      }
    }
  }

  /** `Split` and `Join` are inverse: joining the parts gives back the string, and no part
      contains the separator. */
  lemma {:induction false} SplitFacts(s: string, sep: string)
    requires |sep| > 0
    ensures Join(Split(s, sep), sep) == s
    ensures Split(s, sep)[0] <= s
    ensures forall i :: 0 <= i < |Split(s, sep)| ==> !Contains(Split(s, sep)[i], sep)
    decreases |s|, 1
  {
    if |s| < |sep| {
    } else if sep <= s {
      SplitFactsAtSep(s, sep);
    } else {
      SplitFactsMismatch(s, sep);
    }
  }

  lemma {:induction false} SplitFactsAtSep(s: string, sep: string)
    requires 0 < |sep| <= |s| && sep <= s
    ensures Join(Split(s, sep), sep) == s
    ensures Split(s, sep)[0] <= s
    ensures forall i :: 0 <= i < |Split(s, sep)| ==> !Contains(Split(s, sep)[i], sep)
    decreases |s|, 0
  {
    var rest := s[|sep|..];
    var t := Split(rest, sep);
    var parts := Split(s, sep);
    assert parts == [""] + t;
    SplitFacts(rest, sep);
    assert Join(parts, sep) == s by {
      assert parts[1..] == t;
      assert s == sep + rest;
    }
    forall i | 0 <= i < |parts|
      ensures !Contains(parts[i], sep)
    {
      if i > 0 {
        assert parts[i] == t[i - 1];
      }
    }
  }

  lemma {:induction false} SplitFactsMismatch(s: string, sep: string)
    requires 0 < |sep| <= |s| && !(sep <= s)
    ensures Join(Split(s, sep), sep) == s
    ensures Split(s, sep)[0] <= s
    ensures forall i :: 0 <= i < |Split(s, sep)| ==> !Contains(Split(s, sep)[i], sep)
    decreases |s|, 0
  {
    var t := Split(s[1..], sep);
    var parts := Split(s, sep);
    assert parts == PrependToFirst([s[0]], t);
    SplitFacts(s[1..], sep);
    assert Join(parts, sep) == s by {
      JoinPrepend([s[0]], t, sep);
      assert s == [s[0]] + s[1..];
    }
    assert parts[0] <= s && !Contains(parts[0], sep) by {
      NotContainsPrepend(s, t[0], sep);
    }
    forall i | 1 <= i < |parts|
      ensures !Contains(parts[i], sep)
    {
      assert parts[i] == t[i];
    }
  }

  /** `split` yields a single part exactly when the separator does not occur. */
  lemma SplitSingle(s: string, sep: string)
    requires |sep| > 0
    ensures |Split(s, sep)| == 1 <==> !Contains(s, sep)
  {
    SplitFacts(s, sep);
    var parts := Split(s, sep);
    if |parts| > 1 {
      assert s == parts[0] + sep + Join(parts[1..], sep);
      assert ContainsAt(s, sep, |parts[0]|);
    }
  }

  /** A one-character separator that does not occur in `a` ends the first field there. */
  lemma {:induction false} SplitAfterField(a: string, c: char, b: string)
    requires c !in a
    ensures Split(a + [c] + b, [c]) == [a] + Split(b, [c])
    decreases |a|
  {
    var s := a + [c] + b;
    if |a| == 0 {
      assert [c] <= s;
      assert s[1..] == b;
    } else {
      SplitAfterField(a[1..], c, b);
      assert s[1..] == a[1..] + [c] + b;
      assert s[0] == a[0];
      assert a == [a[0]] + a[1..];
    }
  }

  /** A separator with a character `sep[p]` that occurs neither in `r` nor earlier in the
      separator cannot start inside `r`, so `r` is the first part. */
  lemma {:induction false} SplitAt(r: string, sep: string, t: string, p: nat)
    requires p < |sep| && sep[p] !in r && sep[p] !in sep[..p]
    ensures Split(r + sep + t, sep) == [r] + Split(t, sep)
    decreases |r|
  {
    var s := r + sep + t;
    if |r| == 0 {
      assert s == sep + t;
      assert s[|sep|..] == t;
    } else {
      if p < |r| {
        assert s[p] == r[p];
      } else {
        assert s[p] == sep[p - |r|] && sep[p - |r|] in sep[..p];
      }
      assert s[..|sep|][p] != sep[p];
      SplitAt(r[1..], sep, t, p);
      assert s[1..] == r[1..] + sep + t;
      assert r == [r[0]] + r[1..];
    }
  }

  /** A stretch free of the separator's first character cannot hold the start of a match. */
  lemma {:induction false} SplitPrefixFree(a: string, rest: string, sep: string)
    requires |sep| > 0 && sep[0] !in a
    ensures Split(a + rest, sep) == PrependToFirst(a, Split(rest, sep))
    decreases |a|
  {
    var s := a + rest;
    if |a| == 0 {
      assert s == rest;
      PrependNothing(Split(rest, sep));
    } else {
      SplitPrefixFree(a[1..], rest, sep);
      assert s[1..] == a[1..] + rest;
      assert s[0] == a[0];
      if |s| >= |sep| {
        assert s[..|sep|][0] != sep[0];
      }
      assert a == [a[0]] + a[1..];
      PrependToFirstTwice([a[0]], a[1..], Split(rest, sep));
    }
  }

  /** The two-part form of `SplitPrefixFree`, for worked examples. */
  lemma SplitPrefixFreeTwo(a: string, rest: string, sep: string, x: string, y: string)
    requires |sep| > 0 && sep[0] !in a && Split(rest, sep) == [x, y]
    ensures Split(a + rest, sep) == [a + x, y]
  {
    SplitPrefixFree(a, rest, sep);
  }

  /** A string missing some character of the separator splits into itself alone. */
  lemma SplitNone(t: string, sep: string, c: char)
    requires |sep| > 0 && c in sep && c !in t
    ensures Split(t, sep) == [t]
  {
    var k :| 0 <= k < |sep| && sep[k] == c;
    forall i | 0 <= i <= |t| - |sep|
      ensures !ContainsAt(t, sep, i)
    {
      assert t[i..i + |sep|][k] == t[i + k];
    }
    SplitSingle(t, sep);
    SplitFacts(t, sep);
  }

  /** A string free of a one-character separator splits into itself alone. */
  lemma SplitWithout(a: string, c: char)
    requires c !in a
    ensures Split(a, [c]) == [a]
  {
    ContainsSingle(a, c);
    SplitSingle(a, [c]);
    SplitFacts(a, [c]);
  }

  /** The first part of a split ends no later than the first occurrence of the separator. */
  lemma {:induction false} SplitFirstEarliest(s: string, sep: string)
    requires |sep| > 0
    ensures forall k | 0 <= k < |Split(s, sep)[0]| :: !ContainsAt(s, sep, k)
    decreases |s|
  {
    if |s| >= |sep| && !(sep <= s) {
      var tail := Split(s[1..], sep);
      SplitFirstEarliest(s[1..], sep);
      assert Split(s, sep)[0] == [s[0]] + tail[0];
      forall k | 0 <= k < |Split(s, sep)[0]|
        ensures !ContainsAt(s, sep, k)
      {
        if k == 0 {
          assert s[..|sep|] != sep;
        } else {
          assert !ContainsAt(s[1..], sep, k - 1);
          if k + |sep| <= |s| {
            assert s[1..][k - 1..k - 1 + |sep|] == s[k..k + |sep|];
          }
        }
      }
    }
  }

  /** Python's `s.split(sep, 1)[0]`: everything before the first occurrence of `sep`. */
  function BeforeFirst(s: string, sep: string): (r: string)
    requires |sep| > 0
    ensures r <= s && !Contains(r, sep)
    ensures r == s <==> !Contains(s, sep)
    ensures r != s ==> r + sep <= s
    ensures forall k | 0 <= k < |r| :: !ContainsAt(s, sep, k)
  {
    SplitFacts(s, sep);
    SplitSingle(s, sep);
    SplitFirstEarliest(s, sep);
    var parts := Split(s, sep);
    assert |parts| > 1 ==> s == parts[0] + sep + Join(parts[1..], sep);
    parts[0]
  }

  /** `BeforeFirst` on a string whose first occurrence of `sep` is known (see `SplitAt`). */
  lemma BeforeFirstAt(r: string, sep: string, t: string, p: nat)
    requires p < |sep| && sep[p] !in r && sep[p] !in sep[..p]
    ensures BeforeFirst(r + sep + t, sep) == r
  {
    SplitAt(r, sep, t, p);
  }

  lemma BeforeFirstNone(t: string, sep: string, c: char)
    requires |sep| > 0 && c in sep && c !in t
    ensures BeforeFirst(t, sep) == t
  {
    SplitNone(t, sep, c);
  }

  /** Python's `s.split(sep)[-1]`: everything after the last occurrence of `sep`. */
  function AfterLast(s: string, sep: string): (r: string)
    requires |sep| > 0
    ensures EndsWith(s, r) && !Contains(r, sep)
    ensures r == s <==> !Contains(s, sep)
    ensures r != s ==> EndsWith(s, sep + r)
  {
    SplitFacts(s, sep);
    SplitSingle(s, sep);
    var parts := Split(s, sep);
    if |parts| > 1 then
      JoinLast(parts, sep);
      parts[|parts| - 1]
    else
      parts[0]
  }

  /** Python's two-part `s.split(sep, 1)`, or `None` when `sep` does not occur (where
      Python returns one part). */
  function SplitOnce(s: string, sep: string): (r: Option<(string, string)>)
    requires |sep| > 0
    ensures r.None? <==> !Contains(s, sep)
    ensures r.Some? ==> r.value.0 + sep + r.value.1 == s && !Contains(r.value.0, sep)
  {
    var head := BeforeFirst(s, sep);
    if head == s then None
    else
      assert s == head + sep + s[|head| + |sep|..];
      Some((head, s[|head| + |sep|..]))
  }

  /** Drops the characters in `cs` from the front. */
  function TrimLeft(s: string, cs: set<char>): (r: string)
    ensures EndsWith(s, r)
    ensures |r| > 0 ==> r[0] !in cs
    ensures forall k :: 0 <= k < |s| - |r| ==> s[k] in cs
    decreases |s|
  {
    if |s| > 0 && s[0] in cs then TrimLeft(s[1..], cs) else s
  }

  /** Drops the characters in `cs` from the back. */
  function TrimRight(s: string, cs: set<char>): (r: string)
    ensures r <= s
    ensures |r| > 0 ==> r[|r| - 1] !in cs
    ensures forall k :: |r| <= k < |s| ==> s[k] in cs
    decreases |s|
  {
    if |s| > 0 && s[|s| - 1] in cs then TrimRight(s[..|s| - 1], cs) else s
  }

  /** Every character of `t` is in `cs`. */
  predicate AllIn(t: string, cs: set<char>) {
    |t| == 0 || (t[0] in cs && AllIn(t[1..], cs))
  }

  lemma {:induction false} AllInAt(t: string, cs: set<char>)
    ensures AllIn(t, cs) <==> forall k | 0 <= k < |t| :: t[k] in cs
  {
    if |t| > 0 {
      AllInAt(t[1..], cs);
      assert forall k | 0 < k < |t| :: t[k] == t[1..][k - 1];
    }
  }

  /** `r` is a stretch `s[i..i + |r|]` of `s`, and the characters dropped before and after it
      are all in `cs`. */
  predicate TrimmedOf(s: string, r: string, cs: set<char>) {
    exists i | 0 <= i <= |s| - |r| :: ContainsAt(s, r, i) && AllIn(s[..i], cs) && AllIn(s[i + |r|..], cs)
  }

  lemma {:induction false} AllInWider(t: string, cs: set<char>, ds: set<char>)
    requires AllIn(t, cs) && cs <= ds
    ensures AllIn(t, ds)
    decreases |t|
  {
    if |t| > 0 {
      AllInWider(t[1..], cs, ds);
    }
  }

  lemma {:induction false} AllInConcat(a: string, b: string, cs: set<char>, ds: set<char>)
    requires AllIn(a, cs) && AllIn(b, ds)
    ensures AllIn(a + b, cs + ds)
    decreases |a|
  {
    if |a| == 0 {
      assert a + b == b;
      AllInWider(b, ds, cs + ds);
    } else {
      assert (a + b)[0] == a[0] && (a + b)[1..] == a[1..] + b;
      AllInConcat(a[1..], b, cs, ds);
    }
  }

  /** The two trims around `s[i + j..i + j + |r|]`, the inner ones from `d == s[i..i + |d|]`. */
  lemma SlicesAround(s: string, d: string, i: nat, j: nat, n: nat)
    requires i + |d| <= |s| && d == s[i..i + |d|] && j + n <= |d|
    ensures s[i + j..i + j + n] == d[j..j + n]
    ensures s[..i + j] == s[..i] + d[..j]
    ensures s[i + j + n..] == d[j + n..] + s[i + |d|..]
  {
    assert forall k | 0 <= k < |d| :: d[k] == s[i + k];
  }

  /** The index form of `TrimmedOfTwice`: the stretch `r` at `j` in `d`, which is itself at
      `i` in `s`, lies at `i + j` in `s`, and what surrounds it is dropped by one of the trims. */
  lemma TrimmedAtTwice(s: string, d: string, r: string, i: nat, j: nat, cs: set<char>, ds: set<char>)
    requires i + |d| <= |s| && d == s[i..i + |d|] && AllIn(s[..i], cs) && AllIn(s[i + |d|..], cs)
    requires j + |r| <= |d| && r == d[j..j + |r|] && AllIn(d[..j], ds) && AllIn(d[j + |r|..], ds)
    ensures ContainsAt(s, r, i + j) && AllIn(s[..i + j], cs + ds) && AllIn(s[i + j + |r|..], cs + ds)
  {
    SlicesAround(s, d, i, j, |r|);
    AllInConcat(s[..i], d[..j], cs, ds);
    AllInConcat(d[j + |r|..], s[i + |d|..], ds, cs);
    assert ds + cs == cs + ds;
  }

  /** Trimming a trimmed stretch again trims by both character sets. */
  lemma TrimmedOfTwice(s: string, d: string, r: string, cs: set<char>, ds: set<char>)
    requires TrimmedOf(s, d, cs) && TrimmedOf(d, r, ds)
    ensures TrimmedOf(s, r, cs + ds)
  {
    var i :| 0 <= i <= |s| - |d| && ContainsAt(s, d, i) && AllIn(s[..i], cs) && AllIn(s[i + |d|..], cs);
    var j :| 0 <= j <= |d| - |r| && ContainsAt(d, r, j) && AllIn(d[..j], ds) && AllIn(d[j + |r|..], ds);
    TrimmedAtTwice(s, d, r, i, j, cs, ds);
  }

  lemma TrimLeftDropped(s: string, cs: set<char>)
    ensures AllIn(s[..|s| - |TrimLeft(s, cs)|], cs)
  {
    var t := s[..|s| - |TrimLeft(s, cs)|];
    AllInAt(t, cs);
    assert forall k | 0 <= k < |t| :: t[k] == s[k];
  }

  lemma TrimRightDropped(s: string, cs: set<char>)
    ensures AllIn(s[|TrimRight(s, cs)|..], cs)
  {
    var n := |TrimRight(s, cs)|;
    var t := s[n..];
    AllInAt(t, cs);
    assert forall k | 0 <= k < |t| :: t[k] == s[n + k];
  }

  /** A prefix `r` of a tail `left` of `s`, with only `cs` before `left` and after `r`. */
  lemma TrimmedFrontBack(s: string, left: string, r: string, cs: set<char>)
    requires EndsWith(s, left) && AllIn(s[..|s| - |left|], cs)
    requires r <= left && AllIn(left[|r|..], cs)
    ensures TrimmedOf(s, r, cs)
  {
    var i := |s| - |left|;
    assert left == s[i..];
    assert s[i + |r|..] == left[|r|..];
    assert s[i..i + |r|] == r;
    assert ContainsAt(s, r, i) && AllIn(s[..i], cs) && AllIn(s[i + |r|..], cs);
  }

  /** Trimming the front and then the back leaves a stretch of `s` with only `cs` around it. */
  lemma TrimBothEnds(s: string, cs: set<char>)
    ensures TrimmedOf(s, TrimRight(TrimLeft(s, cs), cs), cs)
  {
    var left := TrimLeft(s, cs);
    TrimLeftDropped(s, cs);
    TrimRightDropped(left, cs);
    TrimmedFrontBack(s, left, TrimRight(left, cs), cs);
  }

  /** Python's `s.strip(chars)`: the stretch of `s` left once the characters in `cs` are
      dropped from both ends. */
  function Strip(s: string, cs: set<char>): (r: string)
    ensures Contains(s, r)
    ensures |r| > 0 ==> r[0] !in cs && r[|r| - 1] !in cs
    ensures TrimmedOf(s, r, cs)
  {
    TrimBothEnds(s, cs);
    TrimRight(TrimLeft(s, cs), cs)
  }

  lemma StripUnchanged(s: string, cs: set<char>)
    requires |s| > 0 ==> s[0] !in cs && s[|s| - 1] !in cs
    ensures Strip(s, cs) == s
  {
  }

  lemma StripTrailing(x: string, c: char, cs: set<char>)
    requires c in cs && |x| > 0 && x[0] !in cs && x[|x| - 1] !in cs
    ensures Strip(x + [c], cs) == x
  {
    var s := x + [c];
    assert s[0] == x[0] && s[|s| - 1] == c;
    assert TrimLeft(s, cs) == s;
    assert s[..|s| - 1] == x;
    assert TrimRight(s, cs) == TrimRight(x, cs);
  }

  /** The characters for which Python's `str.isspace()` holds, which `str.strip()` removes. */
  const Whitespace: set<char> := {
    '\t', '\n', '\U{B}', '\U{C}', '\r', '\U{1C}', '\U{1D}', '\U{1E}', '\U{1F}', ' ',
    '\U{85}', '\U{A0}', '\U{1680}', '\U{2000}', '\U{2001}', '\U{2002}', '\U{2003}',
    '\U{2004}', '\U{2005}', '\U{2006}', '\U{2007}', '\U{2008}', '\U{2009}', '\U{200A}',
    '\U{2028}', '\U{2029}', '\U{202F}', '\U{205F}', '\U{3000}'
  }

  /** ASCII upper-case letter. */
  predicate IsUpper(c: char) {
    'A' <= c <= 'Z'
  }

  function LowerChar(c: char): char {
    if IsUpper(c) then (c as int + 32) as char else c
  }

  /** Python's `s.lower()`, on ASCII letters. */
  function Lower(s: string): (r: string)
    ensures |r| == |s|
    ensures forall i :: 0 <= i < |s| ==> r[i] == LowerChar(s[i])
    ensures forall i :: 0 <= i < |r| ==> !IsUpper(r[i])
  {
    seq(|s|, i requires 0 <= i < |s| => LowerChar(s[i]))
  }

  /** Python's `s.replace(from, to)` for one-character `from` and `to`. */
  function ReplaceChar(s: string, from: char, to: char): (r: string)
    ensures |r| == |s|
    ensures forall i :: 0 <= i < |s| ==> r[i] == (if s[i] == from then to else s[i])
    ensures from != to ==> from !in r
  {
    seq(|s|, i requires 0 <= i < |s| => if s[i] == from then to else s[i])
  }
}
